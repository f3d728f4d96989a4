/** The host graphics cache: which images and placements the outer terminal is believed to hold, and
    the commands that bring it from one frame to the next. */
module KittyGraphics {
  import opened Options
  import opened Geometry
  import opened KittyClip
  import B = Bytes

  type bytes = B.bytes
  type PaneId = nat
  type ImageId = nat
  type PlacementKey = (ImageId, nat)

  datatype SourceKey = Terminal(pane: PaneId, image: nat) | PaneLayer(pane: PaneId)

  datatype ImageSignature = ImageSignature(width: u32, height: u32, format: nat, dataLength: nat, fingerprint: nat)

  datatype Render = Render(
    pixelWidth: u32, pixelHeight: u32, gridCols: u32, gridRows: u32, viewportCol: i32, viewportRow: i32,
    sourceX: u32, sourceY: u32, sourceWidth: u32, sourceHeight: u32)

  /** One placement a pane wants to show. `data` may be left out when the image is known to be uploaded. */
  datatype Placement = Placement(
    pane: PaneId, area: Rect, cellWidth: u32, cellHeight: u32, source: SourceKey,
    image: nat, placement: nat, z: int, xOffset: u32, yOffset: u32,
    signature: ImageSignature, data: bytes, render: Render, scrollback: nat)

  datatype Clipped = Clipped(
    x: u16, y: u16, cols: u32, rows: u32,
    sourceX: u32, sourceY: u32, sourceWidth: u32, sourceHeight: u32, xOffset: u32, yOffset: u32)

  datatype PlacementSignature = PlacementSignature(clip: Clipped, z: int, scrollback: nat)

  /** The hash functions that choose ids, and the fingerprint of image data. */
  datatype Hashes = Hashes(
    image: (PaneId, ImageSignature) -> ImageId,
    placement: (bool, PaneId, nat, nat) -> nat,
    fingerprint: bytes -> nat)

  /* ---- clipping both axes ---- */

  function Columns(p: Placement): Axis {
    Axis(p.render.viewportCol, p.render.gridCols, p.area.width, p.cellWidth, p.render.pixelWidth,
         p.render.sourceX, p.render.sourceWidth, p.signature.width)
  }

  function Rows(p: Placement): Axis {
    Axis(p.render.viewportRow, p.render.gridRows, p.area.height, p.cellHeight, p.render.pixelHeight,
         p.render.sourceY, p.render.sourceHeight, p.signature.height)
  }

  /** `clipped_placement` */
  function ClippedPlacement(p: Placement): Option<Clipped> {
    var across, down := ClipAxis(Columns(p)), ClipAxis(Rows(p));
    if across.None? || down.None? then None
    else
      Some(Clipped(
        Plus16(p.area.x, across.value.start), Plus16(p.area.y, down.value.start),
        across.value.cells, down.value.cells,
        across.value.source, down.value.source, across.value.length, down.value.length,
        if CutCells(Columns(p)) == 0 then p.xOffset else 0,
        if CutCells(Rows(p)) == 0 then p.yOffset else 0))
  }

  /** A clipped placement lies in the pane area and its source rectangle in the image; on each axis it lies
      in the placement's own source rectangle if and only if that axis keeps within its part, as it
      does whenever the products do not saturate. */
  lemma ClippedPlacementLiesInside(p: Placement)
    requires p.area.Fits() && ClippedPlacement(p).Some?
    ensures var c := ClippedPlacement(p).value;
            && c.cols >= 1 && p.area.x <= c.x && c.x + c.cols <= p.area.x + p.area.width
            && c.rows >= 1 && p.area.y <= c.y && c.y + c.rows <= p.area.y + p.area.height
            && c.sourceWidth >= 1 && c.sourceX + c.sourceWidth <= p.signature.width
            && c.sourceHeight >= 1 && c.sourceY + c.sourceHeight <= p.signature.height
    ensures var c := ClippedPlacement(p).value;
            && (p.render.sourceX <= c.sourceX
                && c.sourceX + c.sourceWidth <= p.render.sourceX + SourceLength(Columns(p))
                <==> KeepsWithinPart(Columns(p)))
            && (p.render.sourceY <= c.sourceY && c.sourceY + c.sourceHeight <= p.render.sourceY + SourceLength(Rows(p))
                <==> KeepsWithinPart(Rows(p)))
            && (NoSaturation(Columns(p)) ==> KeepsWithinPart(Columns(p)))
            && (NoSaturation(Rows(p)) ==> KeepsWithinPart(Rows(p)))
  {
    hide ClipAxis, NoSaturation, SourceLength, CutCells, KeepsWithinPart;
    AxisLiesInside(Columns(p));
    AxisLiesInside(Rows(p));
  }

  /** The pixel offset in the first cell only counts while that cell is not cut off. */
  lemma OffsetsWithinFirstCell(p: Placement)
    requires ClippedPlacement(p).Some?
    ensures var c := ClippedPlacement(p).value;
            && c.xOffset == (if p.render.viewportCol < 0 then 0 else p.xOffset)
            && c.yOffset == (if p.render.viewportRow < 0 then 0 else p.yOffset)
  {
    hide ClipAxis;
  }

  /** From left to right, the part asked for is stretched over the pixel width or the grid, whichever is more. */
  lemma ColumnsAreStretched(p: Placement)
    requires ClippedPlacement(p).Some? && p.render.viewportCol > I32_MIN && p.render.gridCols * p.cellWidth <= U32_MAX
    requires p.render.sourceX + Max(p.render.sourceWidth, p.signature.width) <= U32_MAX
    ensures var c := ClippedPlacement(p).value;
            var part := if p.render.sourceWidth == 0 then p.signature.width else p.render.sourceWidth;
            var extent := Max(Max(p.render.pixelWidth, p.render.gridCols * p.cellWidth), 1);
            var cut := if p.render.viewportCol < 0 then -p.render.viewportCol * p.cellWidth else 0;
            && p.render.sourceX <= c.sourceX
            && (c.sourceX - p.render.sourceX) * extent <= cut * part < (c.sourceX - p.render.sourceX + 1) * extent
            && (c.sourceWidth * extent <= c.cols * p.cellWidth * part || c.sourceWidth == 1)
            && (c.cols * p.cellWidth * part < (c.sourceWidth + 1) * extent
                || c.sourceX + c.sourceWidth == p.signature.width)
  {
    ClipIsProportional(Columns(p));
    hide ClipAxis;
  }

  /** And from top to bottom over the pixel height or the grid. */
  lemma RowsAreStretched(p: Placement)
    requires ClippedPlacement(p).Some? && p.render.viewportRow > I32_MIN && p.render.gridRows * p.cellHeight <= U32_MAX
    requires p.render.sourceY + Max(p.render.sourceHeight, p.signature.height) <= U32_MAX
    ensures var c := ClippedPlacement(p).value;
            var part := if p.render.sourceHeight == 0 then p.signature.height else p.render.sourceHeight;
            var extent := Max(Max(p.render.pixelHeight, p.render.gridRows * p.cellHeight), 1);
            var cut := if p.render.viewportRow < 0 then -p.render.viewportRow * p.cellHeight else 0;
            && p.render.sourceY <= c.sourceY
            && (c.sourceY - p.render.sourceY) * extent <= cut * part < (c.sourceY - p.render.sourceY + 1) * extent
            && (c.sourceHeight * extent <= c.rows * p.cellHeight * part || c.sourceHeight == 1)
            && (c.rows * p.cellHeight * part < (c.sourceHeight + 1) * extent
                || c.sourceY + c.sourceHeight == p.signature.height)
  {
    ClipIsProportional(Rows(p));
    hide ClipAxis;
  }

  lemma AxisLiesInside(a: Axis)
    requires ClipAxis(a).Some?
    ensures var s := ClipAxis(a).value;
            && 1 <= s.cells && s.start + s.cells <= a.area && Start(a) < a.area
            && 1 <= s.length && s.source + s.length <= a.imageLength
            && (WithinPart(a, s) <==> KeepsWithinPart(a))
            && (NoSaturation(a) ==> KeepsWithinPart(a))
  {
    hide NoSaturation, SourceLength, KeepsWithinPart;
    ClipLiesInside(a);
    SourceLiesInside(a);
    if NoSaturation(a) {
      UnsaturatedLiesInside(a);
    }
  }

  /** The screen cell in column `cx` and row `cy` shows the placement exactly when it lies in the pane
      and in the placement's grid, or in the one column or row more that a saturated negation shows. */
  lemma ClippedPlacementCoversCells(p: Placement, cx: int, cy: int)
    requires p.area.Fits() && ClippedPlacement(p).Some?
    ensures var c := ClippedPlacement(p).value;
            (c.x <= cx < c.x + c.cols && c.y <= cy < c.y + c.rows)
            <==> ShowsCell(Columns(p), cx - p.area.x) && ShowsCell(Rows(p), cy - p.area.y)
  {
    hide ClippedPlacement, Start, VisibleCells, ShowsCell, Columns, Rows;
    ClippedFrom(p);
    ShownCells(Columns(p), cx - p.area.x);
    ShownCells(Rows(p), cy - p.area.y);
  }

  lemma ClippedFrom(p: Placement)
    requires p.area.Fits() && ClippedPlacement(p).Some?
    ensures Start(Columns(p)) < Columns(p).area && Start(Rows(p)) < Rows(p).area
    ensures var c := ClippedPlacement(p).value;
            && c.x == p.area.x + Start(Columns(p)) && c.cols == VisibleCells(Columns(p))
            && c.y == p.area.y + Start(Rows(p)) && c.rows == VisibleCells(Rows(p))
  {
    hide VisibleCells, ShownLength, SourceStart, CutCells;
  }

  lemma ShownCells(a: Axis, cell: int)
    requires Start(a) < a.area
    ensures ShowsCell(a, cell) <==> Start(a) <= cell < Start(a) + VisibleCells(a)
  {
    if NegationSaturates(a) {
      SaturationShowsOneMore(a, cell);
    } else {
      ClipIsIntersection(a);
      assert Covers(a, cell) <==> Start(a) < a.area && Start(a) <= cell < Start(a) + VisibleCells(a);
    }
  }

  /* ---- ids and visibility ---- */

  function HostImage(h: Hashes, p: Placement): ImageId { h.image(p.pane, p.signature) }

  function HostPlacement(h: Hashes, p: Placement): nat {
    h.placement(p.source.PaneLayer?, p.source.pane, p.image, p.placement)
  }

  function Key(h: Hashes, p: Placement): PlacementKey { (HostImage(h, p), HostPlacement(h, p)) }

  predicate Visible(p: Placement) { ClippedPlacement(p).Some? }

  function SignatureOf(p: Placement): PlacementSignature
    requires Visible(p)
  {
    PlacementSignature(ClippedPlacement(p).value, p.z, p.scrollback)
  }

  /** The sources a frame still uses: every terminal source, and the pane layers that are visible. */
  function CurrentSources(ps: seq<Placement>): set<SourceKey> {
    set i | 0 <= i < |ps| && (ps[i].source.Terminal? || Visible(ps[i])) :: ps[i].source
  }

  /* ---- commands and the host that executes them ---- */

  datatype Content = Content(width: u32, height: u32, format: nat, data: bytes)

  datatype Command =
    | DeleteImage(image: ImageId)
    | DeletePlacement(key: PlacementKey)
    | Upload(image: ImageId, content: Content)
    | Display(key: PlacementKey, clip: Clipped, z: int)

  /** The outer terminal, as the Kitty graphics protocol describes it. */
  datatype Host = Host(images: map<ImageId, Content>, placements: map<PlacementKey, (Clipped, int)>)

  const EMPTY_HOST := Host(map[], map[])

  function WithoutImage<V>(placements: map<PlacementKey, V>, id: ImageId): map<PlacementKey, V> {
    map k | k in placements && k.0 != id :: placements[k]
  }

  /** Deleting an image also removes its placements; uploading under a used id replaces the image and
      removes them as well; displaying an unknown image has no effect. */
  function Execute(host: Host, c: Command): Host {
    match c
    case DeleteImage(id) => Host(host.images - {id}, WithoutImage(host.placements, id))
    case DeletePlacement(key) => host.(placements := host.placements - {key})
    case Upload(id, content) => Host(host.images[id := content], WithoutImage(host.placements, id))
    case Display(key, clip, z) =>
      if key.0 in host.images then host.(placements := host.placements[key := (clip, z)]) else host
  }

  function Replay(host: Host, cs: seq<Command>): Host
    decreases |cs|
  {
    if cs == [] then host else Replay(Execute(host, cs[0]), cs[1..])
  }

  lemma {:induction false} ReplayAppend(host: Host, a: seq<Command>, b: seq<Command>)
    ensures Replay(host, a + b) == Replay(Replay(host, a), b)
    decreases |a|
  {
    if a == [] {
      assert a + b == b;
    } else {
      assert (a + b)[1..] == a[1..] + b;
      ReplayAppend(Execute(host, a[0]), a[1..], b);
    }
  }

  /* ---- the cache and its updates ---- */

  datatype Cache = Cache(
    images: map<ImageId, ImageSignature>,
    placements: map<PlacementKey, PlacementSignature>,
    sources: map<SourceKey, ImageId>)
  {
    function DropImage(id: ImageId): Cache {
      this.(images := images - {id}, placements := WithoutImage(placements, id))
    }

    predicate References(id: ImageId) { exists s :: s in sources && sources[s] == id }
  }

  const EMPTY_CACHE := Cache(map[], map[], map[])

  /** The host images that the pane layers no longer current were backed by. */
  function RetiredImages(c: Cache, current: set<SourceKey>): set<ImageId> {
    set s | s in c.sources && s !in current && s.PaneLayer? :: c.sources[s]
  }

  function Retain(c: Cache, current: set<SourceKey>): Cache {
    c.(sources := map s | s in c.sources && s in current :: c.sources[s])
  }

  /** Delete retired images that no remaining source uses, in the order of iteration `ids`. */
  function DeleteRetired(c: Cache, ids: seq<ImageId>): (Cache, seq<Command>)
    decreases |ids|
  {
    if ids == [] then (c, [])
    else if c.References(ids[0]) then DeleteRetired(c, ids[1..])
    else
      var (d, cs) := DeleteRetired(c.DropImage(ids[0]), ids[1..]);
      (d, [DeleteImage(ids[0])] + cs)
  }

  /** Forget the keys of an image's placements: only those that the cache lists. */
  function DropKeys(keys: set<PlacementKey>, c: Cache, id: ImageId): set<PlacementKey> {
    set k | k in keys && !(k.0 == id && k in c.placements)
  }

  /** What the placement loop carries along: the cache, the keys seen in this frame, the commands. */
  datatype Progress = Progress(cache: Cache, seen: set<PlacementKey>, commands: seq<Command>)

  /** `release_superseded_source_image` */
  function Release(g: Progress, source: SourceKey, id: ImageId): Progress {
    var c := g.cache.(sources := g.cache.sources[source := id]);
    if source !in g.cache.sources || g.cache.sources[source] == id || c.References(g.cache.sources[source]) then
      g.(cache := c)
    else
      var previous := g.cache.sources[source];
      Progress(c.DropImage(previous), DropKeys(g.seen, c, previous), g.commands + [DeleteImage(previous)])
  }

  function ContentOf(p: Placement): Content {
    Content(p.signature.width, p.signature.height, p.signature.format, p.data)
  }

  /** Upload unless there is nothing to upload; then the placement is skipped. */
  function UploadImage(h: Hashes, g: Progress, p: Placement): (Progress, bool) {
    if p.data == [] then (g, false)
    else
      var id := HostImage(h, p);
      (g.(cache := g.cache.(images := g.cache.images[id := p.signature]),
          commands := g.commands + [Upload(id, ContentOf(p))]), true)
  }

  /** The state of a colliding round: the other image has been deleted from the host. */
  function Cleared(g: Progress, id: ImageId): Progress {
    Progress(
      g.cache.(placements := WithoutImage(g.cache.placements, id)),
      DropKeys(g.seen, g.cache, id),
      g.commands + [DeleteImage(id)])
  }

  /** Make sure that the host has the image under its id. Another image under the same id is deleted first. */
  function ProvideImage(h: Hashes, g: Progress, p: Placement): (Progress, bool) {
    var id := HostImage(h, p);
    if id !in g.cache.images then UploadImage(h, g, p)
    else if g.cache.images[id] == p.signature then (g, true)
    else
      UploadImage(h, Cleared(g, id), p)
  }

  function Show(h: Hashes, g: Progress, p: Placement, viewChanged: bool): Progress
    requires Visible(p)
  {
    var key, signature := Key(h, p), SignatureOf(p);
    if key in g.cache.placements && !viewChanged && g.cache.placements[key] == signature then g
    else
      g.(cache := g.cache.(placements := g.cache.placements[key := signature]),
         commands := g.commands + [Display(key, signature.clip, p.z)])
  }

  /** One round of the placement loop. */
  function Place(h: Hashes, g: Progress, p: Placement, viewChanged: bool): Progress {
    if !Visible(p) then g
    else
      var (provided, ok) := ProvideImage(h, g.(seen := g.seen + {Key(h, p)}), p);
      if !ok then provided
      else Show(h, Release(provided, p.source, HostImage(h, p)), p, viewChanged)
  }

  function PlaceAll(h: Hashes, g: Progress, ps: seq<Placement>, viewChanged: bool): Progress
    decreases |ps|
  {
    if ps == [] then g else PlaceAll(h, Place(h, g, ps[0], viewChanged), ps[1..], viewChanged)
  }

  lemma {:induction false} PlaceAllAppend(h: Hashes, g: Progress, ps: seq<Placement>, p: Placement, viewChanged: bool)
    ensures PlaceAll(h, g, ps + [p], viewChanged) == Place(h, PlaceAll(h, g, ps, viewChanged), p, viewChanged)
    decreases |ps|
  {
    hide Place;
    if ps == [] {
      assert ps + [p] == [p] && [p][1..] == [];
      assert PlaceAll(h, Place(h, g, p, viewChanged), [], viewChanged) == Place(h, g, p, viewChanged);
    } else {
      assert (ps + [p])[1..] == ps[1..] + [p] && (ps + [p])[0] == ps[0];
      PlaceAllAppend(h, Place(h, g, ps[0], viewChanged), ps[1..], p, viewChanged);
    }
  }

  /** Delete placements not seen in this frame, in the order of iteration `keys`. */
  function DeleteStale(c: Cache, keys: seq<PlacementKey>): (Cache, seq<Command>)
    decreases |keys|
  {
    if keys == [] then (c, [])
    else
      var (d, cs) := DeleteStale(c.(placements := c.placements - {keys[0]}), keys[1..]);
      (d, [DeletePlacement(keys[0])] + cs)
  }

  /** `order` lists exactly the elements of `s`. */
  predicate Lists<T(==)>(order: seq<T>, s: set<T>) {
    && (forall i :: 0 <= i < |order| ==> order[i] in s)
    && (forall x :: x in s ==> x in order)
  }

  predicate NoRepeats<T(==)>(order: seq<T>) { forall i, j :: 0 <= i < j < |order| ==> order[i] != order[j] }

  /** The state in front of the placement loop: sources pruned, retired images deleted. */
  function Pruned(c: Cache, ps: seq<Placement>, retired: seq<ImageId>): Progress {
    var (d, cs) := DeleteRetired(Retain(c, CurrentSources(ps)), retired);
    Progress(d, {}, cs)
  }

  function Placed(h: Hashes, c: Cache, ps: seq<Placement>, viewChanged: bool, retired: seq<ImageId>): Progress {
    PlaceAll(h, Pruned(c, ps, retired), ps, viewChanged)
  }

  function StaleKeys(g: Progress): set<PlacementKey> { g.cache.placements.Keys - g.seen }

  /** `encode_graphics_update`, for one order of iterating over the hash sets. */
  function Update(
      h: Hashes, c: Cache, ps: seq<Placement>, viewChanged: bool, retired: seq<ImageId>, stale: seq<PlacementKey>)
    : (Cache, seq<Command>)
  {
    var g := Placed(h, c, ps, viewChanged, retired);
    var (d, cs) := DeleteStale(g.cache, stale);
    (d, g.commands + cs)
  }

  /** The orders are orders of the sets that the update iterates over. */
  predicate OrdersFit(h: Hashes, c: Cache, ps: seq<Placement>, viewChanged: bool,
      retired: seq<ImageId>, stale: seq<PlacementKey>) {
    && Lists(retired, RetiredImages(c, CurrentSources(ps)))
    && Lists(stale, StaleKeys(Placed(h, c, ps, viewChanged, retired)))
  }

  /** `clear_bytes`, for one order of iterating over the images. */
  function ClearCommands(ids: seq<ImageId>): seq<Command> {
    if ids == [] then [] else [DeleteImage(ids[0])] + ClearCommands(ids[1..])
  }
}
