/** The tree of splits behind a tiled workspace, and the rectangles that it lays out. */
module LayoutTree {
  import opened Options
  import opened Geometry

  type PaneId = nat
  type Path = seq<bool>

  datatype Direction = Horizontal | Vertical

  datatype Node =
    | Pane(id: PaneId)
    | Split(direction: Direction, ratio: real, first: Node, second: Node)

  datatype PaneInfo = PaneInfo(id: PaneId, rect: Rect, focused: bool)

  datatype SplitBorder = SplitBorder(pos: int, direction: Direction, ratio: real, area: Rect, path: Path)

  /* ---- ids and ratios ---- */

  /** `pane_ids` */
  function Ids(n: Node): (ids: seq<PaneId>)
    ensures |ids| >= 1
  {
    match n
    case Pane(id) => [id]
    case Split(_, _, first, second) => Ids(first) + Ids(second)
  }

  predicate Distinct(ids: seq<PaneId>) {
    forall i, j :: 0 <= i < j < |ids| ==> ids[i] != ids[j]
  }

  predicate RatiosWithin(n: Node, lo: real, hi: real) {
    match n
    case Pane(_) => true
    case Split(_, ratio, first, second) =>
      lo <= ratio <= hi && RatiosWithin(first, lo, hi) && RatiosWithin(second, lo, hi)
  }

  /** `get_ratio_at` */
  function RatioAt(n: Node, path: Path): Option<real>
    decreases n
  {
    match n
    case Pane(_) => None
    case Split(_, ratio, first, second) =>
      if path == [] then Some(ratio)
      else if path[0] then RatioAt(second, path[1..])
      else RatioAt(first, path[1..])
  }

  /** `set_ratio_at`; None when the path does not lead to a split. */
  function WithRatioAt(n: Node, path: Path, r: real): Option<Node>
    decreases n
  {
    match n
    case Pane(_) => None
    case Split(d, ratio, first, second) =>
      if path == [] then Some(Split(d, r, first, second))
      else if path[0] then
        var changed := WithRatioAt(second, path[1..], r);
        if changed.Some? then Some(Split(d, ratio, first, changed.value)) else None
      else
        var changed := WithRatioAt(first, path[1..], r);
        if changed.Some? then Some(Split(d, ratio, changed.value, second)) else None
  }

  /** Setting a ratio changes the ratio at its path and no other, and no id. */
  lemma {:induction false} WithRatioAtChangesOne(n: Node, path: Path, r: real, q: Path)
    ensures WithRatioAt(n, path, r).Some? <==> RatioAt(n, path).Some?
    ensures WithRatioAt(n, path, r).Some? ==>
              var m := WithRatioAt(n, path, r).value;
              && RatioAt(m, q) == (if q == path then Some(r) else RatioAt(n, q))
              && Ids(m) == Ids(n)
    decreases n
  {
    match n
    case Pane(_) =>
    case Split(_, _, first, second) =>
      if path != [] {
        var child := if path[0] then second else first;
        WithRatioAtChangesOne(child, path[1..], r, if q == [] then [] else q[1..]);
        if q != [] && q != path && q[0] == path[0] {
          assert q == [q[0]] + q[1..] && path == [path[0]] + path[1..];
        }
      }
  }

  lemma {:induction false} WithRatioAtKeepsRatios(n: Node, path: Path, r: real, lo: real, hi: real)
    requires RatiosWithin(n, lo, hi) && lo <= r <= hi && WithRatioAt(n, path, r).Some?
    ensures RatiosWithin(WithRatioAt(n, path, r).value, lo, hi)
    decreases n
  {
    if path != [] {
      WithRatioAtKeepsRatios(if path[0] then n.second else n.first, path[1..], r, lo, hi);
    }
  }

  /** `split_ratios`: every split's path and ratio, in preorder. */
  function Ratios(n: Node, prefix: Path): seq<(Path, real)> {
    match n
    case Pane(_) => []
    case Split(_, ratio, first, second) =>
      [(prefix, ratio)] + Ratios(first, prefix + [false]) + Ratios(second, prefix + [true])
  }

  lemma {:induction false} RatiosLength(n: Node, path: Path, r: real, prefix: Path)
    requires WithRatioAt(n, path, r).Some?
    ensures |Ratios(WithRatioAt(n, path, r).value, prefix)| == |Ratios(n, prefix)|
    decreases n
  {
    if path != [] {
      RatiosLength(if path[0] then n.second else n.first, path[1..], r, prefix + [path[0]]);
    }
  }

  /** The listed ratios change exactly when the ratio at the path does. */
  lemma {:induction false} RatiosTellChange(n: Node, path: Path, r: real, prefix: Path)
    requires WithRatioAt(n, path, r).Some?
    ensures Ratios(WithRatioAt(n, path, r).value, prefix) == Ratios(n, prefix) <==> RatioAt(n, path) == Some(r)
    ensures RatioAt(n, path) == Some(r) <==> WithRatioAt(n, path, r).value == n
    decreases n
  {
    var m := WithRatioAt(n, path, r).value;
    if path == [] {
      assert Ratios(m, prefix)[0] == (prefix, r) && Ratios(n, prefix)[0] == (prefix, n.ratio);
    } else {
      var child := if path[0] then n.second else n.first;
      var changed := WithRatioAt(child, path[1..], r).value;
      RatiosTellChange(child, path[1..], r, prefix + [path[0]]);
      RatiosLength(child, path[1..], r, prefix + [path[0]]);
      var head := [(prefix, n.ratio)];
      var left := Ratios(n.first, prefix + [false]);
      var right := Ratios(n.second, prefix + [true]);
      if path[0] {
        var right' := Ratios(changed, prefix + [true]);
        assert Ratios(m, prefix)[|head + left|..] == right' && Ratios(n, prefix)[|head + left|..] == right;
      } else {
        var left' := Ratios(changed, prefix + [false]);
        assert Ratios(m, prefix)[1..1 + |left|] == left' && Ratios(n, prefix)[1..1 + |left|] == left;
      }
    }
  }

  /* ---- rectangles ---- */

  /** Round to the nearest integer, halves away from zero. */
  function Round(x: real): int { if x >= 0.0 then (x + 0.5).Floor else -((-x + 0.5).Floor) }

  /** The saturating conversion to 16 bits. */
  function ToU16(n: int): u16 { Max(0, Min(n, U16_MAX)) }

  /** The extent of the first child. */
  function FirstExtent(extent: u16, ratio: real): u16 { ToU16(Round(Scaled(extent as real, ratio))) }

  function Scaled(extent: real, ratio: real): real { extent * ratio }

  /** `split_rect` */
  function SplitRect(area: Rect, direction: Direction, ratio: real): (Rect, Rect) {
    match direction
    case Horizontal =>
      var w := FirstExtent(area.width, ratio);
      (Rect(area.x, area.y, w, area.height),
       Rect(Plus16(area.x, w), area.y, Minus(area.width, w), area.height))
    case Vertical =>
      var h := FirstExtent(area.height, ratio);
      (Rect(area.x, area.y, area.width, h),
       Rect(area.x, Plus16(area.y, h), area.width, Minus(area.height, h)))
  }

  /** The layout of a tree: one rectangle for each pane, in the order of its ids. */
  function Panes(n: Node, area: Rect, focus: PaneId): seq<PaneInfo> {
    match n
    case Pane(id) => [PaneInfo(id, area, id == focus)]
    case Split(d, ratio, first, second) =>
      var (a, b) := SplitRect(area, d, ratio);
      Panes(first, a, focus) + Panes(second, b, focus)
  }

  /** `collect_splits` */
  function Splits(n: Node, area: Rect, prefix: Path): seq<SplitBorder> {
    match n
    case Pane(_) => []
    case Split(d, ratio, first, second) =>
      var (a, b) := SplitRect(area, d, ratio);
      var pos := if d == Horizontal then Plus16(a.x, a.width) else Plus16(a.y, a.height);
      [SplitBorder(pos, d, ratio, area, prefix)]
      + Splits(first, a, prefix + [false]) + Splits(second, b, prefix + [true])
  }

  lemma {:induction false} PanesInOrder(n: Node, area: Rect, focus: PaneId)
    ensures |Panes(n, area, focus)| == |Ids(n)|
    ensures forall i :: 0 <= i < |Ids(n)| ==> Panes(n, area, focus)[i].id == Ids(n)[i]
    ensures forall i :: 0 <= i < |Ids(n)| ==> (Panes(n, area, focus)[i].focused <==> Ids(n)[i] == focus)
    decreases n
  {
    if n.Split? {
      var (a, b) := SplitRect(area, n.direction, n.ratio);
      PanesInOrder(n.first, a, focus);
      PanesInOrder(n.second, b, focus);
    }
  }

  lemma FirstExtentWithin(extent: u16, ratio: real)
    requires 0.0 <= ratio <= 1.0
    ensures FirstExtent(extent, ratio) <= extent
  {
    hide Round, Scaled;
    ScaledDown(extent as real, ratio);
    RoundWithin(Scaled(extent as real, ratio), extent);
  }

  lemma RoundWithin(x: real, n: nat)
    requires 0.0 <= x <= n as real
    ensures 0 <= Round(x) <= n
  {
    assert (x + 0.5).Floor as real <= x + 0.5;
  }

  lemma ScaledDown(extent: real, ratio: real)
    requires 0.0 <= extent && 0.0 <= ratio <= 1.0
    ensures 0.0 <= Scaled(extent, ratio) <= extent
  {
  }

  /** A split divides its area: both parts lie in it, and each cell of it is in exactly one of them. */
  lemma SplitRectDivides(area: Rect, d: Direction, ratio: real, cx: int, cy: int)
    requires area.Fits() && 0.0 <= ratio <= 1.0
    ensures var (a, b) := SplitRect(area, d, ratio);
            && a.Fits() && b.Fits() && Inside(a, area) && Inside(b, area)
            && (a.Contains(cx, cy) || b.Contains(cx, cy) <==> area.Contains(cx, cy))
            && !(a.Contains(cx, cy) && b.Contains(cx, cy))
  {
    hide FirstExtent, Inside;
    match d {
      case Horizontal =>
        FirstExtentWithin(area.width, ratio);
        CutAcross(area, FirstExtent(area.width, ratio), cx, cy);
      case Vertical =>
        FirstExtentWithin(area.height, ratio);
        CutDown(area, FirstExtent(area.height, ratio), cx, cy);
    }
  }

  lemma CutAcross(area: Rect, w: u16, cx: int, cy: int)
    requires area.Fits() && w <= area.width
    ensures var a := Rect(area.x, area.y, w, area.height);
            var b := Rect(Plus16(area.x, w), area.y, Minus(area.width, w), area.height);
            && a.Fits() && b.Fits() && Inside(a, area) && Inside(b, area)
            && (a.Contains(cx, cy) || b.Contains(cx, cy) <==> area.Contains(cx, cy))
            && !(a.Contains(cx, cy) && b.Contains(cx, cy))
  {
  }

  lemma CutDown(area: Rect, h: u16, cx: int, cy: int)
    requires area.Fits() && h <= area.height
    ensures var a := Rect(area.x, area.y, area.width, h);
            var b := Rect(area.x, Plus16(area.y, h), area.width, Minus(area.height, h));
            && a.Fits() && b.Fits() && Inside(a, area) && Inside(b, area)
            && (a.Contains(cx, cy) || b.Contains(cx, cy) <==> area.Contains(cx, cy))
            && !(a.Contains(cx, cy) && b.Contains(cx, cy))
  {
  }

  predicate Inside(r: Rect, area: Rect) {
    area.x <= r.x && r.x + r.width <= area.x + area.width && area.y <= r.y && r.y + r.height <= area.y + area.height
  }

  /** In how many of the rectangles the cell lies. */
  function Holding(ps: seq<PaneInfo>, cx: int, cy: int): nat {
    if ps == [] then 0 else (if ps[0].rect.Contains(cx, cy) then 1 else 0) + Holding(ps[1..], cx, cy)
  }

  lemma {:induction false} HoldingAppend(a: seq<PaneInfo>, b: seq<PaneInfo>, cx: int, cy: int)
    ensures Holding(a + b, cx, cy) == Holding(a, cx, cy) + Holding(b, cx, cy)
    decreases |a|
  {
    if a == [] {
      assert a + b == b;
    } else {
      assert (a + b)[1..] == a[1..] + b;
      HoldingAppend(a[1..], b, cx, cy);
    }
  }

  /** Tiling: every cell of the area lies in exactly one pane, and no cell outside it in any. */
  lemma {:induction false} PanesTile(n: Node, area: Rect, focus: PaneId, cx: int, cy: int)
    requires area.Fits() && RatiosWithin(n, 0.0, 1.0)
    ensures Holding(Panes(n, area, focus), cx, cy) == if area.Contains(cx, cy) then 1 else 0
    decreases n
  {
    match n
    case Pane(id) =>
      var p := PaneInfo(id, area, id == focus);
      assert [p][1..] == [];
      assert Holding([p], cx, cy) == (if p.rect.Contains(cx, cy) then 1 else 0) + Holding([], cx, cy);
    case Split(d, ratio, first, second) =>
      var (a, b) := SplitRect(area, d, ratio);
      SplitRectDivides(area, d, ratio, cx, cy);
      PanesTile(first, a, focus, cx, cy);
      PanesTile(second, b, focus, cx, cy);
      HoldingAppend(Panes(first, a, focus), Panes(second, b, focus), cx, cy);
  }

  lemma {:induction false} PanesLieInside(n: Node, area: Rect, focus: PaneId)
    requires area.Fits() && RatiosWithin(n, 0.0, 1.0)
    ensures forall i :: 0 <= i < |Panes(n, area, focus)| ==> Inside(Panes(n, area, focus)[i].rect, area)
    decreases n
  {
    if n.Split? {
      var (a, b) := SplitRect(area, n.direction, n.ratio);
      SplitRectDivides(area, n.direction, n.ratio, 0, 0);
      PanesLieInside(n.first, a, focus);
      PanesLieInside(n.second, b, focus);
    }
  }

  lemma {:induction false} HoldingFinds(ps: seq<PaneInfo>, cx: int, cy: int) returns (i: nat)
    requires Holding(ps, cx, cy) >= 1
    ensures i < |ps| && ps[i].rect.Contains(cx, cy)
    decreases |ps|
  {
    if ps[0].rect.Contains(cx, cy) {
      i := 0;
    } else {
      var j := HoldingFinds(ps[1..], cx, cy);
      i := j + 1;
    }
  }

  lemma {:induction false} HoldingCounts(ps: seq<PaneInfo>, cx: int, cy: int, i: nat)
    requires i < |ps| && ps[i].rect.Contains(cx, cy)
    ensures Holding(ps, cx, cy) >= 1
    decreases |ps|
  {
    if i > 0 {
      HoldingCounts(ps[1..], cx, cy, i - 1);
    }
  }

  /** In a tiling no two panes hold the same cell. */
  lemma {:induction false} HoldingIsUnique(ps: seq<PaneInfo>, cx: int, cy: int, i: nat, j: nat)
    requires i < j < |ps| && ps[i].rect.Contains(cx, cy) && ps[j].rect.Contains(cx, cy)
    ensures Holding(ps, cx, cy) >= 2
    decreases |ps|
  {
    if i == 0 {
      HoldingCounts(ps[1..], cx, cy, j - 1);
    } else {
      HoldingIsUnique(ps[1..], cx, cy, i - 1, j - 1);
    }
  }

  /** Every split border carries the path to its split, and the ratio found there. */
  lemma {:induction false} SplitPathsResolve(n: Node, area: Rect, prefix: Path, i: nat)
    requires i < |Splits(n, area, prefix)|
    ensures var s := Splits(n, area, prefix)[i];
            && prefix <= s.path && RatioAt(n, s.path[|prefix|..]) == Some(s.ratio)
    decreases n
  {
    var (a, b) := SplitRect(area, n.direction, n.ratio);
    var left, right := Splits(n.first, a, prefix + [false]), Splits(n.second, b, prefix + [true]);
    var s := Splits(n, area, prefix)[i];
    if i == 0 {
      assert s.path == prefix;
    } else if i <= |left| {
      assert s == left[i - 1];
      SplitPathsResolve(n.first, a, prefix + [false], i - 1);
      PathBehind(prefix, false, s.path);
    } else {
      assert s == right[i - 1 - |left|];
      SplitPathsResolve(n.second, b, prefix + [true], i - 1 - |left|);
      PathBehind(prefix, true, s.path);
    }
  }

  lemma PathBehind(prefix: Path, b: bool, path: Path)
    requires prefix + [b] <= path
    ensures prefix <= path && path[|prefix|..] != [] && path[|prefix|..][0] == b
    ensures path[|prefix|..][1..] == path[|prefix + [b]|..]
  {
    assert path[..|prefix|] == (prefix + [b])[..|prefix|] == prefix;
    assert path[|prefix|] == (prefix + [b])[|prefix|];
  }

  /* ---- tree surgery ---- */

  /** `split_at`: put a new pane behind the target. */
  function SplitAt(n: Node, target: PaneId, d: Direction, added: PaneId, ratio: real): Node {
    match n
    case Pane(id) => if id == target then Split(d, ratio, Pane(id), Pane(added)) else n
    case Split(d', ratio', first, second) =>
      Split(d', ratio', SplitAt(first, target, d, added, ratio), SplitAt(second, target, d, added, ratio))
  }

  /** `remove_pane`: None when nothing is left. */
  function RemovePane(n: Node, target: PaneId): Option<Node> {
    match n
    case Pane(id) => if id == target then None else Some(n)
    case Split(d, ratio, first, second) =>
      match (RemovePane(first, target), RemovePane(second, target))
      case (None, Some(s)) => Some(s)
      case (Some(f), None) => Some(f)
      case (Some(f), Some(s)) => Some(Split(d, ratio, f, s))
      case (None, None) => None
  }

  /** `swap_pane_ids` */
  function SwapIds(n: Node, a: PaneId, b: PaneId): Node {
    match n
    case Pane(id) => Pane(SwapId(id, a, b))
    case Split(d, ratio, first, second) => Split(d, ratio, SwapIds(first, a, b), SwapIds(second, a, b))
  }

  function SwapId(id: PaneId, a: PaneId, b: PaneId): PaneId { if id == a then b else if id == b then a else id }

  /** The sequence with `added` behind each `target`. */
  function InsertedBehind(ids: seq<PaneId>, target: PaneId, added: PaneId): seq<PaneId> {
    if ids == [] then []
    else (if ids[0] == target then [target, added] else [ids[0]]) + InsertedBehind(ids[1..], target, added)
  }

  function Without(ids: seq<PaneId>, target: PaneId): seq<PaneId> {
    if ids == [] then []
    else (if ids[0] == target then [] else [ids[0]]) + Without(ids[1..], target)
  }

  lemma {:induction false} InsertedBehindAppend(a: seq<PaneId>, b: seq<PaneId>, target: PaneId, added: PaneId)
    ensures InsertedBehind(a + b, target, added) == InsertedBehind(a, target, added) + InsertedBehind(b, target, added)
    decreases |a|
  {
    if a == [] {
      assert a + b == b;
    } else {
      assert (a + b)[1..] == a[1..] + b;
      InsertedBehindAppend(a[1..], b, target, added);
    }
  }

  lemma {:induction false} WithoutAppend(a: seq<PaneId>, b: seq<PaneId>, target: PaneId)
    ensures Without(a + b, target) == Without(a, target) + Without(b, target)
    decreases |a|
  {
    if a == [] {
      assert a + b == b;
    } else {
      assert (a + b)[1..] == a[1..] + b;
      WithoutAppend(a[1..], b, target);
    }
  }

  /** Splitting puts the new id directly behind the target and changes nothing else in the order. */
  lemma {:induction false} SplitAtIds(n: Node, target: PaneId, d: Direction, added: PaneId, ratio: real)
    ensures Ids(SplitAt(n, target, d, added, ratio)) == InsertedBehind(Ids(n), target, added)
    decreases n
  {
    match n
    case Pane(id) =>
      assert [id][1..] == [];
      assert InsertedBehind([id], target, added)
          == (if id == target then [target, added] else [id]) + InsertedBehind([], target, added);
    case Split(_, _, first, second) =>
      SplitAtIds(first, target, d, added, ratio);
      SplitAtIds(second, target, d, added, ratio);
      InsertedBehindAppend(Ids(first), Ids(second), target, added);
  }

  /** Removing takes exactly the target out of the order; nothing remains only when there was nothing else. */
  lemma {:induction false} RemovePaneIds(n: Node, target: PaneId)
    ensures RemovePane(n, target).None? <==> Without(Ids(n), target) == []
    ensures RemovePane(n, target).Some? ==> Ids(RemovePane(n, target).value) == Without(Ids(n), target)
    decreases n
  {
    match n
    case Pane(id) =>
      assert [id][1..] == [];
      assert Without([id], target) == (if id == target then [] else [id]) + Without([], target);
    case Split(_, _, first, second) =>
      RemovePaneIds(first, target);
      RemovePaneIds(second, target);
      WithoutAppend(Ids(first), Ids(second), target);
  }

  /** Removing a freshly split pane restores the tree. */
  lemma {:induction false} RemoveUndoesSplit(n: Node, target: PaneId, d: Direction, added: PaneId, ratio: real)
    requires added !in Ids(n)
    ensures RemovePane(SplitAt(n, target, d, added, ratio), added) == Some(n)
    decreases n
  {
    match n
    case Pane(id) =>
      if id == target {
        assert added != id;
      }
    case Split(_, _, first, second) =>
      assert forall x :: x in Ids(n) <==> x in Ids(first) || x in Ids(second);
      RemoveUndoesSplit(first, target, d, added, ratio);
      RemoveUndoesSplit(second, target, d, added, ratio);
  }

  /** Swapping twice restores the tree. */
  lemma {:induction false} SwapIsInvolution(n: Node, a: PaneId, b: PaneId)
    ensures SwapIds(SwapIds(n, a, b), a, b) == n
    decreases n
  {
    if n.Split? {
      SwapIsInvolution(n.first, a, b);
      SwapIsInvolution(n.second, a, b);
    }
  }

  /** Swapping renames panes in place: rectangle for rectangle, only the ids change. */
  lemma {:induction false} SwapKeepsRectangles(n: Node, a: PaneId, b: PaneId, area: Rect, focus: PaneId)
    ensures |Panes(SwapIds(n, a, b), area, focus)| == |Panes(n, area, focus)|
    ensures forall i :: 0 <= i < |Panes(n, area, focus)| ==>
              var p, q := Panes(n, area, focus)[i], Panes(SwapIds(n, a, b), area, focus)[i];
              q.rect == p.rect && q.id == SwapId(p.id, a, b)
    decreases n
  {
    if n.Split? {
      var (x, y) := SplitRect(area, n.direction, n.ratio);
      SwapKeepsRectangles(n.first, a, b, x, focus);
      SwapKeepsRectangles(n.second, a, b, y, focus);
    }
  }

  /** The layout with each entry of the target replaced by the two halves of its rectangle. */
  function Halved(ps: seq<PaneInfo>, target: PaneId, d: Direction, added: PaneId,
      ratio: real, focus: PaneId): seq<PaneInfo> {
    if ps == [] then []
    else
      (if ps[0].id == target then
         var (a, b) := SplitRect(ps[0].rect, d, ratio);
         [PaneInfo(target, a, target == focus), PaneInfo(added, b, added == focus)]
       else [ps[0]])
      + Halved(ps[1..], target, d, added, ratio, focus)
  }

  lemma {:induction false} HalvedAppend(
      p: seq<PaneInfo>, q: seq<PaneInfo>, target: PaneId, d: Direction, added: PaneId, ratio: real, focus: PaneId)
    ensures Halved(p + q, target, d, added, ratio, focus)
            == Halved(p, target, d, added, ratio, focus) + Halved(q, target, d, added, ratio, focus)
    decreases |p|
  {
    if p == [] {
      assert p + q == q;
    } else {
      assert (p + q)[1..] == p[1..] + q;
      HalvedAppend(p[1..], q, target, d, added, ratio, focus);
    }
  }

  /** Splitting divides the rectangle of the target and leaves every other rectangle as it was. */
  lemma {:induction false} SplitDividesTarget(
      n: Node, target: PaneId, d: Direction, added: PaneId, ratio: real, area: Rect, focus: PaneId)
    ensures Panes(SplitAt(n, target, d, added, ratio), area, focus)
            == Halved(Panes(n, area, focus), target, d, added, ratio, focus)
    decreases n
  {
    match n
    case Pane(id) =>
      var p := PaneInfo(id, area, id == focus);
      assert [p][1..] == [];
      var none: seq<PaneInfo> := [];
      assert Halved([p], target, d, added, ratio, focus)
          == (if id == target then
                var (a, b) := SplitRect(area, d, ratio);
                [PaneInfo(target, a, target == focus), PaneInfo(added, b, added == focus)]
              else [p]) + Halved(none, target, d, added, ratio, focus);
    case Split(d', ratio', first, second) =>
      var (a, b) := SplitRect(area, d', ratio');
      SplitDividesTarget(first, target, d, added, ratio, a, focus);
      SplitDividesTarget(second, target, d, added, ratio, b, focus);
      HalvedAppend(Panes(first, a, focus), Panes(second, b, focus), target, d, added, ratio, focus);
  }
}
