/** Clipping an image placement to its pane: which cells it covers, and which source pixels they show. */
module KittyClip {
  import opened Options
  import opened Geometry

  /** One axis of a placement: its position and extent in cells, the pane extent, the cell size in
      pixels, its extent in pixels, the chosen part of the image and the image extent. */
  datatype Axis = Axis(
    viewport: i32, grid: u32, area: u16, cell: u32, pixels: u32,
    sourceOffset: u32, sourceLength: u32, imageLength: u32)

  /** The visible part on one axis: cells from `start`, source pixels from `source`. */
  datatype Shown = Shown(start: u16, cells: u32, source: u32, length: u32)

  /** `scale_pixels`: value * source / dest in 64 bits, cut to 32 bits. */
  function ScalePixels(value: u32, source: u32, dest: u32): u32 {
    Min(Min(value * source, 0xffff_ffff_ffff_ffff) / Max(dest, 1), U32_MAX)
  }

  /** Cells cut off before the pane edge; the negation saturates at the smallest position. */
  function CutCells(a: Axis): u32 {
    if a.viewport >= 0 then 0 else if a.viewport == I32_MIN then I32_MAX else -a.viewport
  }

  function Start(a: Axis): u32 { Max(a.viewport, 0) }

  function VisibleCells(a: Axis): u32
    requires Start(a) < a.area
  {
    Min(Minus(a.grid, CutCells(a)), a.area - Start(a))
  }

  /** The part of the image the placement asks for; zero stands for all of it. */
  function SourceLength(a: Axis): u32 { if a.sourceLength == 0 then a.imageLength else a.sourceLength }

  /** The extent that the source part is stretched over. */
  function PixelLength(a: Axis): u32 { Max(Max(a.pixels, Times32(a.grid, a.cell)), 1) }

  function CropPixels(a: Axis): u32 { Times32(CutCells(a), a.cell) }

  function VisiblePixels(a: Axis): u32
    requires Start(a) < a.area
  {
    Times32(VisibleCells(a), a.cell)
  }

  function SourceStart(a: Axis): u32 {
    Plus32(a.sourceOffset, ScalePixels(CropPixels(a), SourceLength(a), PixelLength(a)))
  }

  function ShownLength(a: Axis): u32
    requires Start(a) < a.area
  {
    Min(Max(ScalePixels(VisiblePixels(a), SourceLength(a), PixelLength(a)), 1),
        Minus(a.imageLength, SourceStart(a)))
  }

  /** One axis of `clipped_placement`. */
  function ClipAxis(a: Axis): Option<Shown> {
    if Start(a) >= a.area || VisibleCells(a) == 0 || ShownLength(a) == 0 then None
    else Some(Shown(Start(a), VisibleCells(a), SourceStart(a), ShownLength(a)))
  }

  /* ---- cells ---- */

  /** The cells of the placement that lie in the pane, as the viewport coordinates define them. */
  predicate Covers(a: Axis, cell: int) { 0 <= cell < a.area && a.viewport <= cell < a.viewport + a.grid }

  /** Where the saturated negation shows: the smallest position, with a grid that ends in or before the pane. */
  predicate NegationSaturates(a: Axis) {
    a.viewport == I32_MIN && 0x8000_0000 <= a.grid < 0x8000_0000 + a.area
  }

  /** A clip shows exactly the cells that placement and pane have in common,
      if and only if the negated position does not saturate with effect. */
  lemma ClipIsIntersection(a: Axis)
    ensures (forall cell: int :: Covers(a, cell)
              <==> Start(a) < a.area && Start(a) <= cell < Start(a) + VisibleCells(a))
            <==> !NegationSaturates(a)
  {
    if NegationSaturates(a) {
      var last := Start(a) + VisibleCells(a) - 1;
      assert !Covers(a, last);
    }
  }

  /** What a saturated negation shows: the cells in common, and the one behind the placement's last. */
  lemma SaturationShowsOneMore(a: Axis, cell: int)
    requires NegationSaturates(a)
    ensures Covers(a, cell) || cell == a.viewport + a.grid <==> Start(a) <= cell < Start(a) + VisibleCells(a)
  {
  }

  /** The screen cells shown on this axis, saturation included. */
  predicate ShowsCell(a: Axis, cell: int) { Covers(a, cell) || (NegationSaturates(a) && cell == a.viewport + a.grid) }

  /** An axis is clipped away exactly when it shows no cell or the crop starts behind the image. */
  lemma ClipVanishes(a: Axis)
    ensures ClipAxis(a).None? <==> ((forall cell: int :: !ShowsCell(a, cell)) || SourceStart(a) >= a.imageLength)
  {
    hide SourceStart;
    if NegationSaturates(a) {
      assert ShowsCell(a, a.viewport + a.grid);
      SaturationShowsOneMore(a, a.viewport + a.grid);
    } else {
      ClipIsIntersection(a);
      if Start(a) < a.area && VisibleCells(a) > 0 {
        assert ShowsCell(a, Start(a));
      }
    }
  }

  /** A clip is never empty, lies in the pane, and takes its pixels from inside the image. */
  lemma ClipLiesInside(a: Axis)
    requires ClipAxis(a).Some?
    ensures var s := ClipAxis(a).value;
            && 1 <= s.cells && s.start + s.cells <= a.area
            && 1 <= s.length && s.source + s.length <= a.imageLength
  {
  }

  /* ---- source pixels ---- */

  lemma MulMono(a: nat, b: nat, c: nat)
    requires a <= b
    ensures a * c <= b * c
  {
  }

  lemma FloorTimes(a: nat, d: nat)
    requires d >= 1
    ensures (a / d) * d <= a < (a / d + 1) * d
  {
    assert a == (a / d) * d + a % d;
  }

  lemma MulDistributes(a: nat, b: nat, c: nat)
    ensures (a + b) * c == a * c + b * c
  {
  }

  lemma FloorAtLeast(a: nat, q: nat, d: nat)
    requires d >= 1 && q * d <= a
    ensures q <= a / d
  {
    FloorTimes(a, d);
    if a / d < q {
      MulMono(a / d + 1, q, d);
    }
  }

  lemma FloorBelow(a: nat, q: nat, d: nat)
    requires d >= 1 && a < q * d
    ensures a / d < q
  {
    FloorTimes(a, d);
    if q <= a / d {
      MulMono(q, a / d, d);
    }
  }

  lemma ScaleIsFloor(value: u32, source: u32, dest: u32)
    requires value <= dest && dest >= 1
    ensures value * source >= 0 && ScalePixels(value, source, dest) == (value * source) / dest <= source
  {
    MulMono(value, U32_MAX, source);
    MulMono(source, U32_MAX, U32_MAX);
    MulMono(value, dest, source);
    assert value * source < (source + 1) * dest;
    FloorBelow(value * source, source + 1, dest);
  }

  /** Crop and visible part of one stretched extent, together at most as long as it up to what rounding
      takes off; a visible part of less than one source pixel needs a crop that leaves something. */
  predicate PartsFit(crop: nat, visible: nat, source: nat, dest: nat)
    requires dest >= 1
  {
    if visible * source < dest then crop < dest
    else (crop + visible) * source <= dest * source + (crop * source) % dest + (visible * source) % dest
  }

  /** The two parts map to disjoint parts of the source, also when the visible part is rounded up to one
      pixel, if and only if they fit. */
  lemma ScaledPartsFit(crop: u32, visible: u32, source: u32, dest: u32)
    requires source >= 1 && dest >= 1 && crop <= dest && visible <= dest
    ensures ScalePixels(crop, source, dest) + Max(ScalePixels(visible, source, dest), 1) <= source
            <==> PartsFit(crop, visible, source, dest)
  {
    ScaleIsFloor(crop, source, dest);
    ScaleIsFloor(visible, source, dest);
    hide ScalePixels;
    var c, v := crop * source, visible * source;
    assert (crop + visible) * source == c + v by { MulDistributes(crop, visible, source); }
    FloorsFit(c, v, source, dest);
    FloorIsPositive(v, dest);
    if v < dest {
      FloorBelowIff(crop, source, dest);
    }
  }

  lemma FloorBelowIff(crop: nat, source: nat, dest: nat)
    requires source >= 1 && dest >= 1 && crop <= dest
    ensures (crop * source) / dest < source <==> crop < dest
  {
    if crop < dest {
      MulMono(crop + 1, dest, source);
      MulDistributes(crop, 1, source);
      FloorBelow(crop * source, source, dest);
    } else {
      FloorAtLeast(crop * source, source, dest);
    }
  }

  lemma FloorsFit(c: nat, v: nat, source: nat, dest: nat)
    requires dest >= 1
    ensures c / dest + v / dest <= source <==> c + v <= dest * source + c % dest + v % dest
  {
    var qc, rc := Divide(c, dest);
    var qv, rv := Divide(v, dest);
    QuotientsFit(c, v, qc, qv, rc, rv, source, dest);
  }

  lemma Divide(a: nat, d: nat) returns (q: nat, r: nat)
    requires d >= 1
    ensures q == a / d && r == a % d && a == q * d + r
  {
    q, r := a / d, a % d;
  }

  lemma QuotientsFit(c: nat, v: nat, qc: nat, qv: nat, rc: nat, rv: nat, source: nat, dest: nat)
    requires dest >= 1 && c == qc * dest + rc && v == qv * dest + rv
    ensures qc + qv <= source <==> c + v <= dest * source + rc + rv
  {
    MulCompare(qc, qv, source, dest);
  }

  lemma FloorIsPositive(v: nat, dest: nat)
    requires dest >= 1
    ensures v / dest >= 1 <==> v >= dest
  {
    if v >= dest {
      FloorAtLeast(v, 1, dest);
    } else {
      FloorBelow(v, 1, dest);
    }
  }

  lemma MulCompare(a: nat, b: nat, source: nat, dest: nat)
    requires dest >= 1
    ensures a + b <= source <==> a * dest + b * dest <= dest * source
  {
    MulDistributes(a, b, dest);
    if a + b <= source {
      MulMono(a + b, source, dest);
    } else {
      MulMono(source + 1, a + b, dest);
      MulDistributes(source, 1, dest);
    }
  }

  /** Parts that are together no longer than the extent fit. */
  lemma ShortPartsFit(crop: nat, visible: nat, source: nat, dest: nat)
    requires dest >= 1 && crop + visible <= dest && (visible >= 1 || crop == 0)
    ensures PartsFit(crop, visible, source, dest)
  {
    MulMono(crop + visible, dest, source);
  }

  /** The addition of the source offset wraps around. */
  predicate OffsetWraps(a: Axis) {
    a.sourceOffset + ScalePixels(CropPixels(a), SourceLength(a), PixelLength(a)) > U32_MAX
  }

  /** The pixels shown lie in the part of the image that the placement asks for. */
  predicate WithinPart(a: Axis, s: Shown) {
    a.sourceOffset <= s.source && s.source + s.length <= a.sourceOffset + SourceLength(a)
  }

  /** What keeps the pixels shown in the part asked for: the offset does not wrap around, and the part reaches
      the end of the image, which cuts the rest off, or crop and visible part fit. */
  predicate KeepsWithinPart(a: Axis)
    requires Start(a) < a.area
  {
    && !OffsetWraps(a)
    && (a.imageLength <= a.sourceOffset + SourceLength(a)
        || PartsFit(CropPixels(a), VisiblePixels(a), SourceLength(a), PixelLength(a)))
  }

  lemma PartsWithinExtent(a: Axis)
    requires Start(a) < a.area && VisibleCells(a) > 0
    ensures CropPixels(a) <= PixelLength(a) && VisiblePixels(a) <= PixelLength(a)
  {
    MulMono(CutCells(a), a.grid, a.cell);
    MulMono(VisibleCells(a), a.grid, a.cell);
    hide CutCells, VisibleCells;
  }

  /** The pixels shown lie in the part of the image that the placement asks for if and only if the offset
      does not wrap and either the image ends with the part or crop and visible part fit. */
  lemma SourceLiesInside(a: Axis)
    requires ClipAxis(a).Some?
    ensures WithinPart(a, ClipAxis(a).value) <==> KeepsWithinPart(a)
  {
    PartsWithinExtent(a);
    var crop, visible, length, dest := CropPixels(a), VisiblePixels(a), SourceLength(a), PixelLength(a);
    assert length >= 1;
    ScaledPartsFit(crop, visible, length, dest);
    ScaleIsFloor(crop, length, dest);
    hide ScalePixels, PartsFit, CropPixels, VisiblePixels, PixelLength;
  }

  /** The products of `clipped_placement` stay below their saturation bounds on this axis. */
  predicate NoSaturation(a: Axis) {
    a.grid * a.cell <= U32_MAX && a.sourceOffset + SourceLength(a) <= U32_MAX
  }

  lemma CropAndVisibleFit(a: Axis)
    requires Start(a) < a.area && VisibleCells(a) > 0 && a.grid * a.cell <= U32_MAX
    ensures CropPixels(a) + VisiblePixels(a) <= PixelLength(a)
    ensures VisiblePixels(a) >= 1 || CropPixels(a) == 0
  {
    var cut, visible, cell := CutCells(a), VisibleCells(a), a.cell;
    assert cut + visible <= a.grid;
    CellsFit(cut, visible, a.grid, cell);
    hide CutCells, VisibleCells;
  }

  lemma CellsFit(cut: nat, visible: nat, grid: nat, cell: nat)
    requires cut + visible <= grid && visible >= 1
    ensures cut * cell + visible * cell <= grid * cell
    ensures visible * cell >= 1 || cut * cell == 0
  {
    MulMono(cut + visible, grid, cell);
    MulDistributes(cut, visible, cell);
    if cell >= 1 {
      MulMono(1, visible, cell);
    }
  }

  /** Without saturation the pixels shown always lie in the part asked for. */
  lemma UnsaturatedLiesInside(a: Axis)
    requires ClipAxis(a).Some? && NoSaturation(a)
    ensures KeepsWithinPart(a) && WithinPart(a, ClipAxis(a).value)
  {
    CropAndVisibleFit(a);
    PartsWithinExtent(a);
    assert SourceLength(a) >= 1;
    ScaleIsFloor(CropPixels(a), SourceLength(a), PixelLength(a));
    SourceLiesInside(a);
    hide ScalePixels, PartsFit, CropPixels, VisiblePixels, PixelLength, ClipAxis;
    ShortPartsFit(CropPixels(a), VisiblePixels(a), SourceLength(a), PixelLength(a));
  }

  /** Crop and visible part that are together no longer than the extent stay in the part asked for. */
  lemma ShortCropStaysInside(a: Axis)
    requires ClipAxis(a).Some? && !OffsetWraps(a) && CropPixels(a) + VisiblePixels(a) <= PixelLength(a)
    ensures WithinPart(a, ClipAxis(a).value)
  {
    SourceLiesInside(a);
    NoWidthNoCrop(a);
    hide ScalePixels, PartsFit, CropPixels, VisiblePixels, PixelLength, ClipAxis;
    ShortPartsFit(CropPixels(a), VisiblePixels(a), SourceLength(a), PixelLength(a));
  }

  /** Cells without width have neither visible pixels nor a crop. */
  lemma NoWidthNoCrop(a: Axis)
    requires Start(a) < a.area && VisibleCells(a) > 0
    ensures VisiblePixels(a) >= 1 || CropPixels(a) == 0
  {
    if a.cell >= 1 {
      MulMono(1, VisibleCells(a), a.cell);
    }
    hide CutCells, VisibleCells;
  }

  /** An excess of two source pixels or more over the extent leaves the part asked for, unless the image ends
      with the part; in between, rounding decides. */
  lemma LongCropLeavesPart(a: Axis)
    requires ClipAxis(a).Some? && a.imageLength > a.sourceOffset + SourceLength(a)
    requires (CropPixels(a) + VisiblePixels(a) - PixelLength(a)) * SourceLength(a) >= 2 * PixelLength(a)
    ensures !WithinPart(a, ClipAxis(a).value)
  {
    SourceLiesInside(a);
    PartsWithinExtent(a);
    hide ScalePixels, PartsFit, CropPixels, VisiblePixels, PixelLength, ClipAxis;
    LongPartsDoNotFit(CropPixels(a), VisiblePixels(a), SourceLength(a), PixelLength(a));
  }

  lemma SignOfProduct(a: int, b: nat)
    ensures a * b >= 1 ==> a >= 1
  {
    if a <= 0 {
      MulMono(0, -a, b);
    }
  }

  lemma LongPartsDoNotFit(crop: nat, visible: nat, source: nat, dest: nat)
    requires dest >= 1 && crop <= dest && (crop + visible - dest) * source >= 2 * dest
    ensures !PartsFit(crop, visible, source, dest)
  {
    var excess := crop + visible - dest;
    SignOfProduct(excess, source);
    MulMono(excess, visible, source);
    MulDistributes(excess, dest, source);
    assert (crop + visible) * source == excess * source + dest * source;
  }

  /** Two cells of a grid whose pixel extent saturates: the crop alone reaches the bound, so the pixel
      shown lies behind the part of the image asked for. */
  lemma SaturationExample()
    ensures var a := Axis(-2, 3, 1, 0x8000_0000, 1, 0, 1, 2);
            ClipAxis(a) == Some(Shown(0, 1, 1, 1)) && !WithinPart(a, Shown(0, 1, 1, 1)) && !KeepsWithinPart(a)
  {
    var a := Axis(-2, 3, 1, 0x8000_0000, 1, 0, 1, 2);
    assert Times32(2, 0x8000_0000) == U32_MAX;
    assert PixelLength(a) == U32_MAX && CropPixels(a) == U32_MAX && VisiblePixels(a) == 0x8000_0000;
    assert ScalePixels(U32_MAX, 1, U32_MAX) == 1;
    assert ScalePixels(0x8000_0000, 1, U32_MAX) == 0;
  }

  /** Which pixels are shown: without saturation, the part asked for is stretched evenly over the extent. The first
      pixel is the one under the edge of the pane, rounded down, and as many are shown as the visible cells
      cover, rounded down, but at least one and none behind the image. */
  lemma ClipIsProportional(a: Axis)
    requires ClipAxis(a).Some? && NoSaturation(a) && a.viewport > I32_MIN
    ensures var s := ClipAxis(a).value;
            var length := if a.sourceLength == 0 then a.imageLength else a.sourceLength;
            var dest := Max(Max(a.pixels, a.grid * a.cell), 1);
            var cut := if a.viewport < 0 then -a.viewport else 0;
            var crop, visible := cut * a.cell, s.cells * a.cell;
            && a.sourceOffset <= s.source
            && (s.source - a.sourceOffset) * dest <= crop * length < (s.source - a.sourceOffset + 1) * dest
            && (s.length * dest <= visible * length || s.length == 1)
            && (visible * length < (s.length + 1) * dest || s.source + s.length == a.imageLength)
  {
    CropAndVisibleFit(a);
    PartsWithinExtent(a);
    var cut, cells := CutCells(a), VisibleCells(a);
    CellsFit(cut, cells, a.grid, a.cell);
    assert CropPixels(a) == cut * a.cell && VisiblePixels(a) == cells * a.cell;
    assert PixelLength(a) == Max(Max(a.pixels, a.grid * a.cell), 1);
    UnsaturatedLiesInside(a);
    assert SourceLength(a) >= 1;
    ProportionalPixels(a);
    hide ScalePixels, Times32, PixelLength, ClipAxis, NoSaturation, PartsFit, CropPixels, VisiblePixels, VisibleCells;
  }

  lemma ProportionalPixels(a: Axis)
    requires ClipAxis(a).Some? && !OffsetWraps(a)
    ensures var s := ClipAxis(a).value; var length, dest := SourceLength(a), PixelLength(a);
            && s.cells == VisibleCells(a) && a.sourceOffset <= s.source
            && (s.source - a.sourceOffset) * dest <= CropPixels(a) * length < (s.source - a.sourceOffset + 1) * dest
            && (s.length * dest <= VisiblePixels(a) * length || s.length == 1)
            && (VisiblePixels(a) * length < (s.length + 1) * dest || s.source + s.length == a.imageLength)
  {
    PartsWithinExtent(a);
    var crop, visible, length, dest := CropPixels(a), VisiblePixels(a), SourceLength(a), PixelLength(a);
    ScaledBetween(crop, length, dest);
    ScaledBetween(visible, length, dest);
    var s := ClipAxis(a).value;
    var scaled := ScalePixels(visible, length, dest);
    assert s.source - a.sourceOffset == ScalePixels(crop, length, dest);
    assert s.length <= Max(scaled, 1);
    hide ScalePixels, PixelLength, CropPixels, VisiblePixels, VisibleCells;
    if s.length <= scaled {
      MulMono(s.length, scaled, dest);
    }
    if scaled <= s.length {
      MulMono(scaled + 1, s.length + 1, dest);
    }
  }

  lemma ScaledBetween(value: u32, source: u32, dest: u32)
    requires value <= dest && dest >= 1
    ensures var q := ScalePixels(value, source, dest); q * dest <= value * source < (q + 1) * dest
  {
    ScaleIsFloor(value, source, dest);
    FloorTimes(value * source, dest);
    hide ScalePixels;
  }

  /** A placement that is wholly visible and not drawn larger than its grid shows its whole source part. */
  lemma UnclippedShowsAll(a: Axis)
    requires 0 <= a.viewport && 1 <= a.grid && a.viewport + a.grid <= a.area && 1 <= a.cell
    requires NoSaturation(a) && a.pixels <= a.grid * a.cell
    requires 1 <= SourceLength(a) && a.sourceOffset + SourceLength(a) <= a.imageLength
    ensures ClipAxis(a) == Some(Shown(a.viewport, a.grid, a.sourceOffset, SourceLength(a)))
  {
    var pixels := a.grid * a.cell;
    MulMono(1, a.grid, a.cell);
    assert CropPixels(a) == 0 && VisiblePixels(a) == PixelLength(a) == pixels;
    ScaleEnds(SourceLength(a), pixels);
    hide ScalePixels, Times32, PixelLength, CropPixels, VisiblePixels, NoSaturation;
  }

  lemma ScaleEnds(source: u32, dest: u32)
    requires dest >= 1
    ensures ScalePixels(0, source, dest) == 0 && ScalePixels(dest, source, dest) == source
  {
    ScaleIsFloor(0, source, dest);
    ScaleIsFloor(dest, source, dest);
    hide ScalePixels;
    FloorBelow(0, 1, dest);
    FloorAtLeast(dest * source, source, dest);
  }
}
