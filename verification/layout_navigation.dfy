/** Moving the focus by direction, and choosing the split that a resize moves. */
module LayoutNavigation {
  import opened Options
  import opened Geometry
  import opened LayoutTree

  datatype NavDirection = Left | Right | Up | Down

  /* ---- distances ---- */

  function Saturate16(n: nat): u16 { Min(n, U16_MAX) }

  predicate RangesOverlap(a: u16, aLength: u16, b: u16, bLength: u16) { a < b + bLength && a + aLength > b }

  /** `range_overlap_amount` */
  function OverlapAmount(a: u16, aLength: u16, b: u16, bLength: u16): nat {
    Minus(Min(Saturate16(a + aLength), Saturate16(b + bLength)), Max(a, b))
  }

  /** `range_center_distance` */
  function CenterDistance(a: u16, aLength: u16, b: u16, bLength: u16): nat {
    var p, q := Saturate16(Saturate16(2 * a) + aLength), Saturate16(Saturate16(2 * b) + bLength);
    if p <= q then q - p else p - q
  }

  /** The rectangle lies on the wanted side of the focused one, over or under part of its edge. */
  predicate Candidate(r: Rect, f: Rect, dir: NavDirection) {
    match dir
    case Left => r.x + r.width <= f.x && RangesOverlap(r.y, r.height, f.y, f.height)
    case Right => r.x >= f.x + f.width && RangesOverlap(r.y, r.height, f.y, f.height)
    case Up => r.y + r.height <= f.y && RangesOverlap(r.x, r.width, f.x, f.width)
    case Down => r.y >= f.y + f.height && RangesOverlap(r.x, r.width, f.x, f.width)
  }

  function EdgeDistance(r: Rect, f: Rect, dir: NavDirection): nat {
    match dir
    case Left => Minus(f.x, r.x + r.width)
    case Right => Minus(r.x, f.x + f.width)
    case Up => Minus(f.y, r.y + r.height)
    case Down => Minus(r.y, f.y + f.height)
  }

  function Overlap(r: Rect, f: Rect, dir: NavDirection): nat {
    match dir
    case Left | Right => OverlapAmount(r.y, r.height, f.y, f.height)
    case Up | Down => OverlapAmount(r.x, r.width, f.x, f.width)
  }

  function Center(r: Rect, f: Rect, dir: NavDirection): nat {
    match dir
    case Left | Right => CenterDistance(r.y, r.height, f.y, f.height)
    case Up | Down => CenterDistance(r.x, r.width, f.x, f.width)
  }

  /** The first rectangle comes before the second: nearer, else overlapping more, else better centred. */
  predicate Closer(r: Rect, s: Rect, f: Rect, dir: NavDirection) {
    || EdgeDistance(r, f, dir) < EdgeDistance(s, f, dir)
    || (EdgeDistance(r, f, dir) == EdgeDistance(s, f, dir)
        && (Overlap(r, f, dir) > Overlap(s, f, dir)
            || (Overlap(r, f, dir) == Overlap(s, f, dir) && Center(r, f, dir) < Center(s, f, dir))))
  }

  predicate Eligible(p: PaneInfo, focused: PaneInfo, dir: NavDirection) {
    p.id != focused.id && Candidate(p.rect, focused.rect, dir)
  }

  /** The eligible pane among the first `n` that comes first; ties go to the lower index. */
  function BestBefore(panes: seq<PaneInfo>, focused: PaneInfo, dir: NavDirection, n: nat): (best: Option<nat>)
    requires n <= |panes|
    ensures best.Some? ==> best.value < n && Eligible(panes[best.value], focused, dir)
    ensures forall j :: 0 <= j < n && Eligible(panes[j], focused, dir) ==>
              best.Some? && !Closer(panes[j].rect, panes[best.value].rect, focused.rect, dir)
              && (j < best.value ==> Closer(panes[best.value].rect, panes[j].rect, focused.rect, dir))
  {
    if n == 0 then None
    else
      var before := BestBefore(panes, focused, dir, n - 1);
      if !Eligible(panes[n - 1], focused, dir) then before
      else if before.None? || Closer(panes[n - 1].rect, panes[before.value].rect, focused.rect, dir) then Some(n - 1)
      else before
  }

  /** `find_in_direction` */
  function FindInDirection(focused: PaneInfo, dir: NavDirection, panes: seq<PaneInfo>): Option<PaneId> {
    var best := BestBefore(panes, focused, dir, |panes|);
    if best.None? then None else Some(panes[best.value].id)
  }

  /* ---- navigation on a tiling ---- */

  predicate TouchesBorder(f: Rect, area: Rect, dir: NavDirection) {
    match dir
    case Left => f.x == area.x
    case Right => f.x + f.width == area.x + area.width
    case Up => f.y == area.y
    case Down => f.y + f.height == area.y + area.height
  }

  /** The rectangle ends where the focused one begins. */
  predicate SharesEdge(r: Rect, f: Rect, dir: NavDirection) {
    match dir
    case Left => r.x + r.width == f.x
    case Right => r.x == f.x + f.width
    case Up => r.y + r.height == f.y
    case Down => r.y == f.y + f.height
  }

  /** A cell of the focused rectangle at the edge, and the one across it. */
  function EdgeCell(f: Rect, dir: NavDirection): (int, int) {
    match dir
    case Left | Up => (f.x, f.y)
    case Right => (f.x + f.width - 1, f.y)
    case Down => (f.x, f.y + f.height - 1)
  }

  function CellAcross(f: Rect, dir: NavDirection): (int, int) {
    match dir
    case Left => (f.x - 1, f.y)
    case Right => (f.x + f.width, f.y)
    case Up => (f.x, f.y - 1)
    case Down => (f.x, f.y + f.height)
  }

  /** A rectangle that holds the cell across the edge but not the one at it borders on the edge. */
  lemma AcrossSharesEdge(r: Rect, f: Rect, dir: NavDirection)
    requires !f.Empty() && f.Fits() && r.Fits()
    requires r.Contains(CellAcross(f, dir).0, CellAcross(f, dir).1)
    requires !r.Contains(EdgeCell(f, dir).0, EdgeCell(f, dir).1)
    ensures SharesEdge(r, f, dir) && Candidate(r, f, dir) && Overlap(r, f, dir) >= 1 && EdgeDistance(r, f, dir) == 0
  {
  }

  lemma SharedEdgeIsCandidate(r: Rect, f: Rect, dir: NavDirection)
    requires f.Fits() && r.Fits() && SharesEdge(r, f, dir) && Overlap(r, f, dir) >= 1
    ensures Candidate(r, f, dir) && EdgeDistance(r, f, dir) == 0
  {
  }

  /** The neighbour exists: some other pane of the tiling holds the cell across the edge. */
  lemma NeighbourExists(n: Node, area: Rect, focus: PaneId, k: nat, dir: NavDirection) returns (i: nat)
    requires area.Fits() && RatiosWithin(n, 0.0, 1.0)
    requires k < |Panes(n, area, focus)|
    requires var f := Panes(n, area, focus)[k].rect; !f.Empty() && !TouchesBorder(f, area, dir)
    ensures var ps := Panes(n, area, focus);
            && i < |ps| && i != k
            && ps[i].rect.Contains(CellAcross(ps[k].rect, dir).0, CellAcross(ps[k].rect, dir).1)
            && !ps[i].rect.Contains(EdgeCell(ps[k].rect, dir).0, EdgeCell(ps[k].rect, dir).1)
  {
    var ps := Panes(n, area, focus);
    var f := ps[k].rect;
    var (cx, cy) := CellAcross(f, dir);
    var (ex, ey) := EdgeCell(f, dir);
    PanesLieInside(n, area, focus);
    assert Inside(f, area);
    PanesTile(n, area, focus, cx, cy);
    PanesTile(n, area, focus, ex, ey);
    i := HoldingFinds(ps, cx, cy);
    assert !f.Contains(cx, cy) && f.Contains(ex, ey);
    if ps[i].rect.Contains(ex, ey) {
      HoldingIsUnique(ps, ex, ey, if i < k then i else k, if i < k then k else i);
    }
  }

  /** Navigation on a tiling: from a non-empty pane that does not touch the border on that side, the pane
      found shares the edge over a positive length, and no pane that shares it does so over more. */
  lemma NavigationFindsNeighbour(n: Node, area: Rect, focus: PaneId, k: nat, dir: NavDirection) returns (best: nat)
    requires area.Fits() && RatiosWithin(n, 0.0, 1.0) && Distinct(Ids(n))
    requires k < |Panes(n, area, focus)|
    requires var f := Panes(n, area, focus)[k].rect; !f.Empty() && !TouchesBorder(f, area, dir)
    ensures var ps := Panes(n, area, focus); var f := ps[k].rect;
            && best < |ps| && best != k
            && FindInDirection(ps[k], dir, ps) == Some(ps[best].id)
            && SharesEdge(ps[best].rect, f, dir) && Overlap(ps[best].rect, f, dir) >= 1
            && (forall j :: 0 <= j < |ps| && j != k && SharesEdge(ps[j].rect, f, dir) ==>
                  Overlap(ps[j].rect, f, dir) <= Overlap(ps[best].rect, f, dir))
  {
    var ps := Panes(n, area, focus);
    var f := ps[k].rect;
    PanesInOrder(n, area, focus);
    PanesLieInside(n, area, focus);
    var i := NeighbourExists(n, area, focus, k, dir);
    assert Inside(ps[i].rect, area) && Inside(f, area);
    AcrossSharesEdge(ps[i].rect, f, dir);
    assert ps[i].id != ps[k].id;
    assert Eligible(ps[i], ps[k], dir);
    best := BestBefore(ps, ps[k], dir, |ps|).value;
    assert !Closer(ps[i].rect, ps[best].rect, f, dir);
    ZeroDistanceShares(ps[best].rect, f, dir);
    forall j | 0 <= j < |ps| && j != k && SharesEdge(ps[j].rect, f, dir)
      ensures Overlap(ps[j].rect, f, dir) <= Overlap(ps[best].rect, f, dir)
    {
      if Overlap(ps[j].rect, f, dir) >= 1 {
        assert Inside(ps[j].rect, area);
        SharedEdgeIsCandidate(ps[j].rect, f, dir);
        assert ps[j].id != ps[k].id;
        assert Eligible(ps[j], ps[k], dir);
        assert !Closer(ps[j].rect, ps[best].rect, f, dir);
      }
    }
  }

  /** Twice the distance between the centres of two rectangles, across the direction of travel. */
  function CentresApart(r: Rect, f: Rect, dir: NavDirection): nat {
    match dir
    case Left | Right => Distance(2 * r.y + r.height, 2 * f.y + f.height)
    case Up | Down => Distance(2 * r.x + r.width, 2 * f.x + f.width)
  }

  /** The centre of the area, doubled, fits 16 bits, so no centre of a pane in it saturates. */
  predicate CentresFit(area: Rect) {
    2 * (area.x + area.width) <= U16_MAX && 2 * (area.y + area.height) <= U16_MAX
  }

  lemma CentresAreExact(r: Rect, f: Rect, area: Rect, dir: NavDirection)
    requires CentresFit(area) && Inside(r, area) && Inside(f, area)
    ensures Center(r, f, dir) == CentresApart(r, f, dir)
  {
  }

  /** Among neighbours that overlap equally, the one whose centre is nearest is found, and of equally
      near ones the first. In a pane stacked three high beside a full one, that is the middle pane. */
  lemma NavigationPrefersCentre(n: Node, area: Rect, focus: PaneId, k: nat, dir: NavDirection, j: nat)
      returns (best: nat)
    requires area.Fits() && CentresFit(area) && RatiosWithin(n, 0.0, 1.0) && Distinct(Ids(n))
    requires k < |Panes(n, area, focus)| && j < |Panes(n, area, focus)| && j != k
    requires var ps := Panes(n, area, focus);
             SharesEdge(ps[j].rect, ps[k].rect, dir) && Overlap(ps[j].rect, ps[k].rect, dir) >= 1
    ensures var ps := Panes(n, area, focus); var f := ps[k].rect;
            && best < |ps| && FindInDirection(ps[k], dir, ps) == Some(ps[best].id)
            && (Overlap(ps[best].rect, f, dir) == Overlap(ps[j].rect, f, dir) ==>
                  && CentresApart(ps[best].rect, f, dir) <= CentresApart(ps[j].rect, f, dir)
                  && (CentresApart(ps[best].rect, f, dir) == CentresApart(ps[j].rect, f, dir) ==> best <= j))
  {
    var ps := Panes(n, area, focus);
    var f := ps[k].rect;
    PanesInOrder(n, area, focus);
    PanesLieInside(n, area, focus);
    assert Inside(ps[j].rect, area) && Inside(f, area);
    SharedEdgeIsCandidate(ps[j].rect, f, dir);
    assert ps[j].id != ps[k].id;
    assert Eligible(ps[j], ps[k], dir);
    best := BestBefore(ps, ps[k], dir, |ps|).value;
    assert !Closer(ps[j].rect, ps[best].rect, f, dir);
    assert Inside(ps[best].rect, area);
    CentresAreExact(ps[j].rect, f, area, dir);
    CentresAreExact(ps[best].rect, f, area, dir);
    hide Panes, Candidate, Center, CentresApart, Overlap;
  }

  lemma ZeroDistanceShares(r: Rect, f: Rect, dir: NavDirection)
    requires Candidate(r, f, dir) && EdgeDistance(r, f, dir) == 0
    ensures SharesEdge(r, f, dir)
  {
  }

  /** When no pane is empty, nothing is found exactly at the border. */
  lemma {:induction false} NavigationStopsAtBorder(n: Node, area: Rect, focus: PaneId, k: nat, dir: NavDirection)
    requires area.Fits() && RatiosWithin(n, 0.0, 1.0) && Distinct(Ids(n))
    requires k < |Panes(n, area, focus)|
    requires forall i :: 0 <= i < |Panes(n, area, focus)| ==> !Panes(n, area, focus)[i].rect.Empty()
    ensures var ps := Panes(n, area, focus);
            FindInDirection(ps[k], dir, ps) == None <==> TouchesBorder(ps[k].rect, area, dir)
  {
    var ps := Panes(n, area, focus);
    if TouchesBorder(ps[k].rect, area, dir) {
      PanesLieInside(n, area, focus);
      forall j | 0 <= j < |ps|
        ensures !Eligible(ps[j], ps[k], dir)
      {
        assert Inside(ps[j].rect, area) && !ps[j].rect.Empty();
      }
    } else {
      var _ := NavigationFindsNeighbour(n, area, focus, k, dir);
    }
  }

  /* ---- the split that a resize moves ---- */

  function Distance(a: int, b: int): nat { if a <= b then b - a else a - b }

  /** `split_edge_distance` */
  function BorderDistance(s: SplitBorder, f: Rect, nav: NavDirection): nat {
    match nav
    case Left => Distance(s.pos, f.x)
    case Right => Distance(s.pos, Plus16(f.x, f.width))
    case Up => Distance(s.pos, f.y)
    case Down => Distance(s.pos, Plus16(f.y, f.height))
  }

  predicate OverlapsFocused(s: SplitBorder, f: Rect, nav: NavDirection) {
    match nav
    case Left | Right => RangesOverlap(s.area.y, s.area.height, f.y, f.height)
    case Up | Down => RangesOverlap(s.area.x, s.area.width, f.x, f.width)
  }

  function Across(nav: NavDirection): Direction {
    match nav
    case Left | Right => Horizontal
    case Up | Down => Vertical
  }

  function Opposite(nav: NavDirection): NavDirection {
    match nav
    case Left => Right
    case Right => Left
    case Up => Down
    case Down => Up
  }

  /** A split that could be moved for the focused rectangle on this side. */
  predicate Movable(s: SplitBorder, f: Rect, nav: NavDirection) {
    s.direction == Across(nav) && OverlapsFocused(s, f, nav) && BorderDistance(s, f, nav) <= 1
  }

  /** `nearest_resize_split`, among the first `n`: the first of the nearest. */
  function NearestBefore(splits: seq<SplitBorder>, f: Rect, nav: NavDirection, n: nat): (best: Option<nat>)
    requires n <= |splits|
    ensures best.Some? ==> best.value < n && Movable(splits[best.value], f, nav)
    ensures forall j :: 0 <= j < n && Movable(splits[j], f, nav) ==>
              best.Some? && BorderDistance(splits[best.value], f, nav) <= BorderDistance(splits[j], f, nav)
    ensures best.Some? ==> forall j :: 0 <= j < best.value && Movable(splits[j], f, nav) ==>
              BorderDistance(splits[best.value], f, nav) < BorderDistance(splits[j], f, nav)
  {
    if n == 0 then None
    else
      var before := NearestBefore(splits, f, nav, n - 1);
      if !Movable(splits[n - 1], f, nav) then before
      else if before.None? || BorderDistance(splits[n - 1], f, nav) < BorderDistance(splits[before.value], f, nav)
        then Some(n - 1)
      else before
  }

  /** The split on the requested side, or else on the opposite one. */
  function ResizeSplit(splits: seq<SplitBorder>, f: Rect, nav: NavDirection): (best: Option<SplitBorder>)
    ensures best.Some? ==>
              best.value in splits && (Movable(best.value, f, nav) || Movable(best.value, f, Opposite(nav)))
    ensures best.None? ==> forall s :: s in splits ==> !Movable(s, f, nav) && !Movable(s, f, Opposite(nav))
  {
    var near := NearestBefore(splits, f, nav, |splits|);
    if near.Some? then Some(splits[near.value])
    else
      var far := NearestBefore(splits, f, Opposite(nav), |splits|);
      if far.Some? then Some(splits[far.value]) else None
  }
}
