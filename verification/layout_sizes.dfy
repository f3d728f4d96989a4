/** How large the parts of a split are, and what resizing does to the rectangles on the screen. */
module LayoutSizes {
  import opened Options
  import opened Geometry
  import opened LayoutTree
  import opened LayoutNavigation
  import opened LayoutRuns

  /* ---- sizes ---- */

  /** The first part of a split has the share that its ratio asks for, to the nearest cell. */
  lemma FirstExtentIsRounded(extent: u16, ratio: real)
    requires 0.0 <= ratio <= 1.0
    ensures var w := FirstExtent(extent, ratio) as real;
            w - 0.5 <= Scaled(extent as real, ratio) < w + 0.5
  {
    FirstExtentWithin(extent, ratio);
    ScaledDown(extent as real, ratio);
    hide Scaled;
    RoundIsNearest(Scaled(extent as real, ratio), extent);
  }

  lemma RoundIsNearest(x: real, n: nat)
    requires 0.0 <= x <= n as real
    ensures 0 <= Round(x) <= n
    ensures Round(x) as real - 0.5 <= x < Round(x) as real + 0.5
  {
    assert (x + 0.5).Floor as real <= x + 0.5 < (x + 0.5).Floor as real + 1.0;
  }

  /** Both parts of a split, along its direction and across it. */
  lemma SplitRectShares(area: Rect, d: Direction, ratio: real)
    requires area.Fits() && 0.0 <= ratio <= 1.0
    ensures var (a, b) := SplitRect(area, d, ratio);
            && a.x == area.x && a.y == area.y
            && (d == Horizontal ==>
                  && a.width as real - 0.5 <= Scaled(area.width as real, ratio) < a.width as real + 0.5
                  && b.x == area.x + a.width && b.width == area.width - a.width
                  && b.y == area.y && a.height == b.height == area.height)
            && (d == Vertical ==>
                  && a.height as real - 0.5 <= Scaled(area.height as real, ratio) < a.height as real + 0.5
                  && b.y == area.y + a.height && b.height == area.height - a.height
                  && b.x == area.x && a.width == b.width == area.width)
  {
    hide FirstExtent, Scaled;
    match d {
      case Horizontal =>
        FirstExtentWithin(area.width, ratio);
        FirstExtentIsRounded(area.width, ratio);
      case Vertical =>
        FirstExtentWithin(area.height, ratio);
        FirstExtentIsRounded(area.height, ratio);
    }
  }

  /** A larger ratio never gives the first part less. */
  lemma FirstExtentGrows(extent: u16, low: real, high: real)
    requires 0.0 <= low <= high <= 1.0
    ensures FirstExtent(extent, low) <= FirstExtent(extent, high)
  {
    FirstExtentIsRounded(extent, low);
    FirstExtentIsRounded(extent, high);
    ScaledGrows(extent as real, low, high);
    hide FirstExtent, Scaled;
  }

  lemma ScaledGrows(extent: real, low: real, high: real)
    requires 0.0 <= extent && low <= high
    ensures Scaled(extent, low) <= Scaled(extent, high)
  {
  }

  /* ---- one split in its tree ---- */

  function NodeAt(n: Node, path: Path): Option<Node>
    decreases |path|
  {
    if path == [] then Some(n)
    else if n.Pane? then None
    else NodeAt(if path[0] then n.second else n.first, path[1..])
  }

  /** The area that the node at the path is laid out in. */
  function AreaAt(n: Node, area: Rect, path: Path): Rect
    requires NodeAt(n, path).Some?
    decreases |path|
  {
    if path == [] then area
    else
      var (a, b) := SplitRect(area, n.direction, n.ratio);
      if path[0] then AreaAt(n.second, b, path[1..]) else AreaAt(n.first, a, path[1..])
  }

  /** The panes in front of the node at the path. */
  function Before(n: Node, area: Rect, focus: PaneId, path: Path): seq<PaneInfo>
    requires NodeAt(n, path).Some?
    decreases |path|
  {
    if path == [] then []
    else
      var (a, b) := SplitRect(area, n.direction, n.ratio);
      if path[0] then Panes(n.first, a, focus) + Before(n.second, b, focus, path[1..])
      else Before(n.first, a, focus, path[1..])
  }

  /** The panes behind the node at the path. */
  function After(n: Node, area: Rect, focus: PaneId, path: Path): seq<PaneInfo>
    requires NodeAt(n, path).Some?
    decreases |path|
  {
    if path == [] then []
    else
      var (a, b) := SplitRect(area, n.direction, n.ratio);
      if path[0] then After(n.second, b, focus, path[1..])
      else After(n.first, a, focus, path[1..]) + Panes(n.second, b, focus)
  }

  lemma {:induction false} PanesAround(n: Node, area: Rect, focus: PaneId, path: Path)
    requires NodeAt(n, path).Some?
    ensures Panes(n, area, focus)
            == Before(n, area, focus, path)
               + Panes(NodeAt(n, path).value, AreaAt(n, area, path), focus)
               + After(n, area, focus, path)
    decreases |path|
  {
    if path != [] {
      var (a, b) := SplitRect(area, n.direction, n.ratio);
      if path[0] {
        PanesAround(n.second, b, focus, path[1..]);
      } else {
        PanesAround(n.first, a, focus, path[1..]);
      }
    }
  }

  /** Setting the ratio of one split leaves its area and everything around it in place. */
  lemma {:induction false} SurroundingsStay(n: Node, area: Rect, focus: PaneId, path: Path, r: real)
    requires WithRatioAt(n, path, r).Some?
    ensures var m := WithRatioAt(n, path, r).value;
            && NodeAt(n, path).Some? && NodeAt(n, path).value.Split?
            && NodeAt(m, path) == Some(NodeAt(n, path).value.(ratio := r))
            && AreaAt(m, area, path) == AreaAt(n, area, path)
            && Before(m, area, focus, path) == Before(n, area, focus, path)
            && After(m, area, focus, path) == After(n, area, focus, path)
    decreases |path|
  {
    if path != [] {
      var (a, b) := SplitRect(area, n.direction, n.ratio);
      if path[0] {
        SurroundingsStay(n.second, b, focus, path[1..], r);
      } else {
        SurroundingsStay(n.first, a, focus, path[1..], r);
      }
    }
  }

  /** A listed border stands for the split at its path: direction, ratio and area are those of that split. */
  lemma {:induction false} BorderDescribesSplit(n: Node, area: Rect, prefix: Path, i: nat)
    requires i < |Splits(n, area, prefix)|
    ensures var s := Splits(n, area, prefix)[i];
            && prefix <= s.path
            && var at := s.path[|prefix|..];
               && NodeAt(n, at).Some? && NodeAt(n, at).value.Split?
               && NodeAt(n, at).value.direction == s.direction && NodeAt(n, at).value.ratio == s.ratio
               && AreaAt(n, area, at) == s.area
    decreases n
  {
    var (a, b) := SplitRect(area, n.direction, n.ratio);
    var left, right := Splits(n.first, a, prefix + [false]), Splits(n.second, b, prefix + [true]);
    var s := Splits(n, area, prefix)[i];
    if i == 0 {
      assert s.path == prefix;
    } else if i <= |left| {
      assert s == left[i - 1];
      BorderDescribesSplit(n.first, a, prefix + [false], i - 1);
      PathBehind(prefix, false, s.path);
    } else {
      assert s == right[i - 1 - |left|];
      BorderDescribesSplit(n.second, b, prefix + [true], i - 1 - |left|);
      PathBehind(prefix, true, s.path);
    }
  }

  /* ---- what a resize does on the screen ---- */

  predicate Grows(nav: NavDirection) { nav == Right || nav == Down }

  predicate NoLarger(r: Rect, s: Rect) { r.width <= s.width && r.height <= s.height }

  lemma PartsMove(area: Rect, d: Direction, low: real, high: real)
    requires 0.0 <= low <= high <= 1.0
    ensures NoLarger(SplitRect(area, d, low).0, SplitRect(area, d, high).0)
    ensures NoLarger(SplitRect(area, d, high).1, SplitRect(area, d, low).1)
  {
    FirstExtentGrows(area.width, low, high);
    FirstExtentGrows(area.height, low, high);
    hide FirstExtent;
  }

  /** By how much: the ratio of the chosen split moves by `delta`, up to the right and down, and down to the left
      and up, and stops at its bounds. */
  lemma ResizeAmount(l: Layout, nav: NavDirection, delta: real, area: Rect)
    requires WellFormed(l) && delta >= 0.0 && ChosenSplit(l, nav, area).Some?
    ensures var s := ChosenSplit(l, nav, area).value;
            RatioAt(ResizeFocused(l, nav, delta, area).root, s.path)
            == Some(if Grows(nav) then (if s.ratio + delta > 0.9 then 0.9 else s.ratio + delta)
                    else (if s.ratio - delta < 0.1 then 0.1 else s.ratio - delta))
    ensures 0.1 <= ChosenSplit(l, nav, area).value.ratio <= 0.9
  {
    var s := ChosenSplit(l, nav, area).value;
    ResizeChangesOneRatio(l, nav, delta, area, s.path);
    ChosenSplitResolves(l, nav, area);
    RatioIsWithin(l.root, s.path, MIN_RATIO, MAX_RATIO);
    hide ChosenSplit, ResizeFocused, RatioAt;
  }

  lemma {:induction false} RatioIsWithin(n: Node, path: Path, lo: real, hi: real)
    requires RatiosWithin(n, lo, hi) && RatioAt(n, path).Some?
    ensures lo <= RatioAt(n, path).value <= hi
    decreases n
  {
    if path != [] {
      RatioIsWithin(if path[0] then n.second else n.first, path[1..], lo, hi);
    }
  }

  /** The chosen split as it is laid out: what stands around it, its area and its two children. */
  datatype Laid = Laid(before: seq<PaneInfo>, area: Rect, split: Node, after: seq<PaneInfo>)

  function LaidOut(n: Node, area: Rect, focus: PaneId, path: Path): Laid
    requires NodeAt(n, path).Some?
  {
    Laid(Before(n, area, focus, path), AreaAt(n, area, path), NodeAt(n, path).value, After(n, area, focus, path))
  }

  /** The panes with a given ratio at the chosen split. */
  function WithRatio(w: Laid, ratio: real, focus: PaneId): seq<PaneInfo>
    requires w.split.Split?
  {
    var (a, b) := SplitRect(w.area, w.split.direction, ratio);
    w.before + (Panes(w.split.first, a, focus) + Panes(w.split.second, b, focus)) + w.after
  }

  /** The law of resizing: the panes before and after differ only in the two parts of the chosen split. To the
      right and down the first part never gets smaller and the second never larger; to the left and up
      the first never gets larger and the second never smaller. */
  lemma {:induction false} ResizeMovesBorder(l: Layout, nav: NavDirection, delta: real, area: Rect)
    requires WellFormed(l) && delta >= 0.0 && ChosenSplit(l, nav, area).Some?
    ensures var s := ChosenSplit(l, nav, area).value; var m := ResizeFocused(l, nav, delta, area);
            && NodeAt(l.root, s.path).Some? && NodeAt(l.root, s.path).value.Split?
            && RatioAt(m.root, s.path).Some?
            && var w := LaidOut(l.root, area, l.focus, s.path); var ratio := RatioAt(m.root, s.path).value;
               && w.area == s.area && w.split.direction == s.direction && w.split.ratio == s.ratio
               && Panes(l.root, area, l.focus) == WithRatio(w, s.ratio, l.focus)
               && Panes(m.root, area, l.focus) == WithRatio(w, ratio, l.focus)
               && var (a, b) := SplitRect(s.area, s.direction, s.ratio);
                  var (a', b') := SplitRect(s.area, s.direction, ratio);
                  if Grows(nav) then NoLarger(a, a') && NoLarger(b', b) else NoLarger(a', a) && NoLarger(b, b')
  {
    var s := ChosenSplit(l, nav, area).value;
    var m := ResizeFocused(l, nav, delta, area);
    ResizeAmount(l, nav, delta, area);
    ChosenSplitResolves(l, nav, area);
    ResizeChangesOneRatio(l, nav, delta, area, s.path);
    var ratio := RatioAt(m.root, s.path).value;
    SameTree(l.root, s.path, ratio, m.root, Clamp(Shifted(s.ratio, nav, delta)));
    ChosenIsLaidOut(l, nav, area);
    hide ChosenSplit, ResizeFocused, Splits, RatioAt, WithRatioAt, Clamp, Shifted, Panes, NodeAt, AreaAt, Before, After;
    SurroundingsStay(l.root, area, l.focus, s.path, ratio);
    PanesAround(l.root, area, l.focus, s.path);
    PanesAround(m.root, area, l.focus, s.path);
    SplitPanes(NodeAt(l.root, s.path).value, s.area, l.focus);
    SplitPanes(NodeAt(m.root, s.path).value, s.area, l.focus);
    if Grows(nav) {
      PartsMove(s.area, s.direction, s.ratio, ratio);
    } else {
      PartsMove(s.area, s.direction, ratio, s.ratio);
    }
  }

  lemma {:induction false} SplitPanes(n: Node, area: Rect, focus: PaneId)
    requires n.Split?
    ensures var (a, b) := SplitRect(area, n.direction, n.ratio);
            Panes(n, area, focus) == Panes(n.first, a, focus) + Panes(n.second, b, focus)
  {
  }

  /** The resized tree is the old one with the new ratio. */
  lemma {:induction false} SameTree(n: Node, path: Path, ratio: real, m: Node, asked: real)
    requires WithRatioAt(n, path, asked) == Some(m) && RatioAt(m, path) == Some(ratio)
    ensures WithRatioAt(n, path, ratio) == Some(m)
  {
    WithRatioAtChangesOne(n, path, asked, path);
    hide WithRatioAt, RatioAt;
  }

  lemma {:induction false} ChosenIsLaidOut(l: Layout, nav: NavDirection, area: Rect)
    requires ChosenSplit(l, nav, area).Some?
    ensures var s := ChosenSplit(l, nav, area).value;
            && NodeAt(l.root, s.path).Some? && NodeAt(l.root, s.path).value.Split?
            && NodeAt(l.root, s.path).value.direction == s.direction
            && NodeAt(l.root, s.path).value.ratio == s.ratio
            && AreaAt(l.root, area, s.path) == s.area
  {
    ChosenSplitResolves(l, nav, area);
    hide ChosenSplit, Splits;
    var s := ChosenSplit(l, nav, area).value;
    var splits := Splits(l.root, area, []);
    var i :| 0 <= i < |splits| && splits[i] == s;
    BorderDescribesSplit(l.root, area, [], i);
    assert s.path[0..] == s.path;
  }

  /* ---- the border that a resize takes hold of ---- */

  function Edge(f: Rect, nav: NavDirection): int {
    match nav
    case Left => f.x
    case Right => f.x + f.width
    case Up => f.y
    case Down => f.y + f.height
  }

  /** Where a pane does not reach the border of the area, a split runs along its edge. */
  lemma {:induction false} BorderingSplit(n: Node, area: Rect, focus: PaneId, k: nat, nav: NavDirection, prefix: Path)
      returns (i: nat)
    requires area.Fits() && RatiosWithin(n, 0.0, 1.0) && k < |Panes(n, area, focus)|
    requires !TouchesBorder(Panes(n, area, focus)[k].rect, area, nav)
    ensures var f := Panes(n, area, focus)[k].rect;
            && i < |Splits(n, area, prefix)|
            && var s := Splits(n, area, prefix)[i];
               s.direction == Across(nav) && s.pos == Edge(f, nav) && Inside(f, s.area)
    decreases n
  {
    hide Panes, Splits, SplitRect, TouchesBorder, Edge, Across, Inside;
    OnlySplitsLeaveGaps(n, area, focus, k, nav);
    var f := Panes(n, area, focus)[k].rect;
    var (a, b) := SplitRect(area, n.direction, n.ratio);
    var left, right := Splits(n.first, a, prefix + [false]), Splits(n.second, b, prefix + [true]);
    var first, second := Panes(n.first, a, focus), Panes(n.second, b, focus);
    BordersOfSplit(n, area, prefix);
    PanesAreInside(n, area, focus, k);
    SplitRectDivides(area, n.direction, n.ratio, 0, 0);
    if k < |first| {
      if TouchesBorder(f, a, nav) {
        OwnEdge(area, n.direction, n.ratio, f, nav, a);
        i := 0;
      } else {
        var j := BorderingSplit(n.first, a, focus, k, nav, prefix + [false]);
        i := j + 1;
        assert Splits(n, area, prefix)[i] == left[j];
      }
    } else {
      if TouchesBorder(f, b, nav) {
        OwnEdge(area, n.direction, n.ratio, f, nav, b);
        i := 0;
      } else {
        var j := BorderingSplit(n.second, b, focus, k - |first|, nav, prefix + [true]);
        i := 1 + |left| + j;
        assert Splits(n, area, prefix)[i] == right[j];
      }
    }
  }

  lemma {:induction false} OnlySplitsLeaveGaps(n: Node, area: Rect, focus: PaneId, k: nat, nav: NavDirection)
    requires k < |Panes(n, area, focus)| && !TouchesBorder(Panes(n, area, focus)[k].rect, area, nav)
    ensures n.Split?
  {
  }

  lemma {:induction false} BordersOfSplit(n: Node, area: Rect, prefix: Path)
    requires n.Split?
    ensures var (a, b) := SplitRect(area, n.direction, n.ratio);
            var pos := if n.direction == Horizontal then Plus16(a.x, a.width) else Plus16(a.y, a.height);
            Splits(n, area, prefix)
            == [SplitBorder(pos, n.direction, n.ratio, area, prefix)]
               + Splits(n.first, a, prefix + [false]) + Splits(n.second, b, prefix + [true])
  {
  }

  lemma {:induction false} PanesAreInside(n: Node, area: Rect, focus: PaneId, k: nat)
    requires n.Split? && area.Fits() && RatiosWithin(n, 0.0, 1.0) && k < |Panes(n, area, focus)|
    ensures Inside(Panes(n, area, focus)[k].rect, area)
    ensures var (a, b) := SplitRect(area, n.direction, n.ratio); var m := |Panes(n.first, a, focus)|;
            && |Panes(n, area, focus)| == m + |Panes(n.second, b, focus)|
            && Panes(n, area, focus)[k].rect
               == if k < m then Panes(n.first, a, focus)[k].rect else Panes(n.second, b, focus)[k - m].rect
  {
    PanesLieInside(n, area, focus);
  }

  lemma OwnEdge(area: Rect, d: Direction, ratio: real, f: Rect, nav: NavDirection, part: Rect)
    requires area.Fits() && 0.0 <= ratio <= 1.0
    requires part == SplitRect(area, d, ratio).0 || part == SplitRect(area, d, ratio).1
    requires TouchesBorder(f, part, nav) && !TouchesBorder(f, area, nav)
    ensures var a := SplitRect(area, d, ratio).0;
            d == Across(nav)
            && Edge(f, nav) == (if d == Horizontal then Plus16(a.x, a.width) else Plus16(a.y, a.height))
  {
    hide FirstExtent, SplitRect;
    SplitRectCuts(area, d, ratio);
    var a, b := SplitRect(area, d, ratio).0, SplitRect(area, d, ratio).1;
    if part == a {
      FirstEdge(area, d, a, b, f, nav);
    } else {
      SecondEdge(area, d, a, b, f, nav);
    }
  }

  /** Two parts that lie side by side along the direction and fill the area. */
  predicate SideBySide(area: Rect, d: Direction, a: Rect, b: Rect) {
    && a.x == area.x && a.y == area.y
    && (d == Horizontal ==>
          && a.x + a.width == b.x && b.x + b.width == area.x + area.width
          && b.y == area.y && a.height == b.height == area.height)
    && (d == Vertical ==>
          && a.y + a.height == b.y && b.y + b.height == area.y + area.height
          && b.x == area.x && a.width == b.width == area.width)
  }

  lemma SplitRectCuts(area: Rect, d: Direction, ratio: real)
    requires area.Fits() && 0.0 <= ratio <= 1.0
    ensures SideBySide(area, d, SplitRect(area, d, ratio).0, SplitRect(area, d, ratio).1)
  {
    hide Scaled;
    SplitRectShares(area, d, ratio);
    hide SplitRect;
  }

  lemma FirstEdge(area: Rect, d: Direction, a: Rect, b: Rect, f: Rect, nav: NavDirection)
    requires area.Fits() && SideBySide(area, d, a, b)
    requires TouchesBorder(f, a, nav) && !TouchesBorder(f, area, nav)
    ensures d == Across(nav)
    ensures Edge(f, nav) == (if d == Horizontal then Plus16(a.x, a.width) else Plus16(a.y, a.height))
  {
  }

  lemma SecondEdge(area: Rect, d: Direction, a: Rect, b: Rect, f: Rect, nav: NavDirection)
    requires area.Fits() && SideBySide(area, d, a, b)
    requires TouchesBorder(f, b, nav) && !TouchesBorder(f, area, nav)
    ensures d == Across(nav)
    ensures Edge(f, nav) == (if d == Horizontal then Plus16(a.x, a.width) else Plus16(a.y, a.height))
  {
  }

  /** A resize takes hold of the focused pane's own border: from a pane that is not empty and does not reach
      the border of the area on that side, the chosen split runs exactly along the edge on that side. */
  lemma {:induction false} ResizePicksOwnBorder(l: Layout, nav: NavDirection, area: Rect, k: nat)
    requires WellFormed(l) && area.Fits() && k < |Ids(l.root)| && Ids(l.root)[k] == l.focus
    requires k < |Panes(l.root, area, l.focus)|
    requires var f := Panes(l.root, area, l.focus)[k].rect; !f.Empty() && !TouchesBorder(f, area, nav)
    ensures var f := Panes(l.root, area, l.focus)[k].rect;
            && ChosenSplit(l, nav, area).Some?
            && var s := ChosenSplit(l, nav, area).value; s.direction == Across(nav) && s.pos == Edge(f, nav)
  {
    WiderRatios(l.root, MIN_RATIO, MAX_RATIO, 0.0, 1.0);
    var ps := Panes(l.root, area, l.focus);
    var f := ps[k].rect;
    PanesInOrder(l.root, area, l.focus);
    FocusedIsAt(ps, k);
    PanesLieInside(l.root, area, l.focus);
    assert Inside(f, area);
    var i := BorderingSplit(l.root, area, l.focus, k, nav, []);
    var splits := Splits(l.root, area, []);
    hide Panes, Splits, RatiosWithin;
    OwnBorderIsMovable(splits[i], f, nav);
    var near := NearestBefore(splits, f, nav, |splits|);
    assert BorderDistance(splits[near.value], f, nav) <= BorderDistance(splits[i], f, nav);
    ZeroDistance(splits[near.value], f, nav);
  }

  /** In any case it takes hold of a split across the direction that overlaps the pane and runs at most one cell
      away from its edge on that side or, if there is none, on the opposite side. */
  lemma {:induction false} ResizeStaysClose(l: Layout, nav: NavDirection, area: Rect, k: nat)
    requires WellFormed(l) && area.Fits() && k < |Ids(l.root)| && Ids(l.root)[k] == l.focus
    requires k < |Panes(l.root, area, l.focus)|
    ensures var f := Panes(l.root, area, l.focus)[k].rect; var splits := Splits(l.root, area, []);
            && (ChosenSplit(l, nav, area).Some? <==>
                  exists s :: s in splits && (RunsAlong(s, f, nav) || RunsAlong(s, f, Opposite(nav))))
            && (ChosenSplit(l, nav, area).Some? ==>
                  var c := ChosenSplit(l, nav, area).value;
                  RunsAlong(c, f, nav)
                  || (RunsAlong(c, f, Opposite(nav)) && forall s :: s in splits ==> !RunsAlong(s, f, nav)))
  {
    WiderRatios(l.root, MIN_RATIO, MAX_RATIO, 0.0, 1.0);
    var ps := Panes(l.root, area, l.focus);
    var f := ps[k].rect;
    PanesInOrder(l.root, area, l.focus);
    FocusedIsAt(ps, k);
    PanesLieInside(l.root, area, l.focus);
    assert Inside(f, area);
    var splits := Splits(l.root, area, []);
    hide Panes, Splits, RatiosWithin, Inside, RunsAlong;
    forall s | s in splits
      ensures RunsAlong(s, f, nav) <==> Movable(s, f, nav)
      ensures RunsAlong(s, f, Opposite(nav)) <==> Movable(s, f, Opposite(nav))
    {
      MovableRunsAlong(s, f, nav);
      MovableRunsAlong(s, f, Opposite(nav));
    }
    NearestIsFirstChoice(splits, f, nav);
    hide ResizeSplit, Movable;
  }

  /** The split runs along the edge of the pane on this side, at most one cell away. */
  predicate RunsAlong(s: SplitBorder, f: Rect, nav: NavDirection) {
    match nav
    case Left | Right =>
      && s.direction == Horizontal && -1 <= s.pos - Edge(f, nav) <= 1
      && s.area.y < f.y + f.height && f.y < s.area.y + s.area.height
    case Up | Down =>
      && s.direction == Vertical && -1 <= s.pos - Edge(f, nav) <= 1
      && s.area.x < f.x + f.width && f.x < s.area.x + s.area.width
  }

  lemma MovableRunsAlong(s: SplitBorder, f: Rect, nav: NavDirection)
    requires f.Fits()
    ensures RunsAlong(s, f, nav) <==> Movable(s, f, nav)
  {
  }

  lemma NearestIsFirstChoice(splits: seq<SplitBorder>, f: Rect, nav: NavDirection)
    ensures var c := ResizeSplit(splits, f, nav);
            && (c.Some? ==> c.value in splits)
            && (c.Some? ==> Movable(c.value, f, nav)
                            || (Movable(c.value, f, Opposite(nav)) && forall s :: s in splits ==> !Movable(s, f, nav)))
            && (c.None? ==> forall s :: s in splits ==> !Movable(s, f, nav) && !Movable(s, f, Opposite(nav)))
  {
    hide Movable, BorderDistance;
    var near := NearestBefore(splits, f, nav, |splits|);
    if near.None? {
      forall s | s in splits
        ensures !Movable(s, f, nav)
      {
        var j :| 0 <= j < |splits| && splits[j] == s;
      }
    }
  }

  lemma ZeroDistance(s: SplitBorder, f: Rect, nav: NavDirection)
    requires f.Fits() && BorderDistance(s, f, nav) == 0
    ensures s.pos == Edge(f, nav)
  {
  }

  lemma OwnBorderIsMovable(s: SplitBorder, f: Rect, nav: NavDirection)
    requires f.Fits() && !f.Empty() && s.direction == Across(nav) && s.pos == Edge(f, nav) && Inside(f, s.area)
    ensures Movable(s, f, nav) && BorderDistance(s, f, nav) == 0
  {
  }

  lemma {:induction false} FocusedIsAt(ps: seq<PaneInfo>, k: nat)
    requires k < |ps| && ps[k].focused && forall i :: 0 <= i < |ps| && i != k ==> !ps[i].focused
    ensures FocusedRect(ps) == Some(ps[k].rect)
    decreases |ps|
  {
    if k > 0 {
      FocusedIsAt(ps[1..], k - 1);
    }
  }

  /* ---- splitting, clamping, closing ---- */

  /** A ratio is set to the nearest one that is allowed. */
  lemma ClampIsNearest(r: real, allowed: real)
    requires 0.1 <= allowed <= 0.9
    ensures 0.1 <= Clamp(r) <= 0.9
    ensures (if r <= Clamp(r) then Clamp(r) - r else r - Clamp(r))
            <= (if r <= allowed then allowed - r else r - allowed)
  {
  }

  /** Setting a ratio tells whether the path leads to a split. It then changes the ratio there to the nearest allowed
      one, and nothing else. */
  lemma {:induction false} SetRatioTells(l: Layout, path: Path, ratio: real, q: Path)
    ensures var (m, told) := SetRatio(l, path, ratio);
            && (told <==> RatioAt(l.root, path).Some?)
            && (!told ==> m == l)
            && m.focus == l.focus && Ids(m.root) == Ids(l.root)
            && RatioAt(m.root, q) == if told && q == path then Some(Clamp(ratio)) else RatioAt(l.root, q)
  {
    WithRatioAtChangesOne(l.root, path, Clamp(ratio), q);
  }

  /** Splitting the focused pane gives it the share asked for, the new pane the rest, and the focus to the new
      pane; a request that is not a number stands for one half. */
  lemma {:induction false} SplitGivesShare(l: Layout, d: Direction, ratio: Requested, added: PaneId, area: Rect)
    requires ratio.Finite? ==> 0.1 <= ratio.value <= 0.9
    ensures var m := SplitFocused(l, d, ratio, added);
            var share := if ratio.Finite? then ratio.value else 0.5;
            && m.focus == added
            && Panes(m.root, area, m.focus) == Halved(Panes(l.root, area, added), l.focus, d, added, share, added)
  {
    SplitDividesTarget(l.root, l.focus, d, added, ValidSplitRatio(ratio), area, added);
  }

  /** Closing moves the focus to the pane behind the closed one, or from the last pane to the one before it. */
  lemma FocusMovesOn(l: Layout, i: nat)
    requires WellFormed(l) && i < |Ids(l.root)| && Ids(l.root)[i] == l.focus && |Ids(l.root)| > 1
    ensures var ids := Ids(l.root); var (m, closed) := CloseFocused(l);
            closed && m.focus == ids[if i + 1 < |ids| then i + 1 else i - 1]
  {
    CloseKeepsWellFormed(l);
    var j := IndexOf(Ids(l.root), l.focus);
    assert j == i;
  }

  /** The focus moves to any pane of the tree, and to nothing else. */
  lemma FocusIsSet(l: Layout, id: PaneId)
    ensures FocusPane(l, id) == Layout(l.root, if id in Ids(l.root) then id else l.focus)
  {
  }

  /** A swap reports exactly whether the tree has changed. */
  lemma SwapTellsChange(l: Layout, a: PaneId, b: PaneId)
    requires WellFormed(l)
    ensures SwapPanes(l, a, b).1 <==> SwapPanes(l, a, b).0.root != l.root
    ensures SwapPanes(l, a, b).1 <==> a != b && a in Ids(l.root) && b in Ids(l.root)
  {
    if SwapPanes(l, a, b).1 && a != b {
      var i := IndexOf(Ids(l.root), a);
      SwapIdsElementwise(l.root, a, b);
      assert Ids(SwapIds(l.root, a, b))[i] == b;
    }
  }

  /** A pane that is moved in gets its place behind the target, its share, and the focus. */
  lemma {:induction false} InsertGivesShare(
      l: Layout, target: PaneId, moved: PaneId, d: Direction, ratio: Requested, area: Rect)
    requires target in Ids(l.root) && moved !in Ids(l.root) && (ratio.Finite? ==> 0.1 <= ratio.value <= 0.9)
    ensures var (m, inserted) := InsertNear(l, target, moved, d, ratio);
            var share := if ratio.Finite? then ratio.value else 0.5;
            && inserted && m.focus == moved
            && Panes(m.root, area, m.focus) == Halved(Panes(l.root, area, moved), target, d, moved, share, moved)
  {
    SplitDividesTarget(l.root, target, d, moved, ValidSplitRatio(ratio), area, moved);
  }
}
