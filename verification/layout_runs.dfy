/** The tiling layout as a state machine, and what every run of its operations keeps. */
module LayoutRuns {
  import opened Options
  import opened Geometry
  import opened LayoutTree
  import opened LayoutNavigation

  const MIN_RATIO := 0.1
  const MAX_RATIO := 0.9

  datatype Layout = Layout(root: Node, focus: PaneId)

  /** A requested ratio, which may be infinite or not a number. */
  datatype Requested = Finite(value: real) | NotFinite

  function Clamp(r: real): real { if r < MIN_RATIO then MIN_RATIO else if r > MAX_RATIO then MAX_RATIO else r }

  /** `valid_split_ratio` */
  function ValidSplitRatio(r: Requested): real {
    match r
    case Finite(v) => Clamp(v)
    case NotFinite => 0.5
  }

  predicate WellFormed(l: Layout) {
    Distinct(Ids(l.root)) && l.focus in Ids(l.root) && RatiosWithin(l.root, MIN_RATIO, MAX_RATIO)
  }

  /* ---- operations ---- */

  function SplitFocused(l: Layout, d: Direction, ratio: Requested, added: PaneId): Layout {
    Layout(SplitAt(l.root, l.focus, d, added, ValidSplitRatio(ratio)), added)
  }

  /** `insert_pane_near`: the new layout and whether the pane was inserted. */
  function InsertNear(l: Layout, target: PaneId, moved: PaneId, d: Direction, ratio: Requested): (Layout, bool) {
    if target == moved || target !in Ids(l.root) || moved in Ids(l.root) then (l, false)
    else (Layout(SplitAt(l.root, target, d, moved, ValidSplitRatio(ratio)), moved), true)
  }

  function IndexOf(ids: seq<PaneId>, id: PaneId): (i: nat)
    requires id in ids
    ensures i < |ids| && ids[i] == id && id !in ids[..i]
  {
    if ids[0] == id then 0 else IndexOf(ids[1..], id) + 1
  }

  /** The pane that takes the focus when `id` closes: the next one, or the one before the last. */
  function FocusAfterClose(ids: seq<PaneId>, id: PaneId): PaneId
    requires id in ids && |ids| > 1
  {
    var i := IndexOf(ids, id);
    if i + 1 < |ids| then ids[i + 1] else ids[i - 1]
  }

  /** The root while the tree is taken out to be changed. */
  const PLACEHOLDER: Node := Pane(0)

  /** `close_focused`. With more than one pane it needs the focus to be one of them. */
  function CloseFocused(l: Layout): (Layout, bool) {
    if |Ids(l.root)| <= 1 || l.focus !in Ids(l.root) then (l, false)
    else
      match RemovePane(l.root, l.focus)
      case None => (l.(root := PLACEHOLDER), false)
      case Some(root) => (Layout(root, FocusAfterClose(Ids(l.root), l.focus)), true)
  }

  function FocusPane(l: Layout, id: PaneId): Layout { if id in Ids(l.root) then l.(focus := id) else l }

  /** `swap_panes` */
  function SwapPanes(l: Layout, a: PaneId, b: PaneId): (Layout, bool) {
    if a == b || a !in Ids(l.root) || b !in Ids(l.root) then (l, false)
    else (l.(root := SwapIds(l.root, a, b)), true)
  }

  function SetRatio(l: Layout, path: Path, ratio: real): (Layout, bool) {
    match WithRatioAt(l.root, path, Clamp(ratio))
    case None => (l, false)
    case Some(root) => (l.(root := root), true)
  }

  function FocusedRect(ps: seq<PaneInfo>): Option<Rect> {
    if ps == [] then None else if ps[0].focused then Some(ps[0].rect) else FocusedRect(ps[1..])
  }

  /** The split that a resize of the focused pane moves. */
  function ChosenSplit(l: Layout, nav: NavDirection, area: Rect): Option<SplitBorder> {
    var f := FocusedRect(Panes(l.root, area, l.focus));
    if f.None? then None else ResizeSplit(Splits(l.root, area, []), f.value, nav)
  }

  /** Growing to the right or down raises the ratio, to the left or up lowers it. */
  function Shifted(ratio: real, nav: NavDirection, delta: real): real {
    ratio + if nav == Right || nav == Down then delta else -delta
  }

  /** `resize_focused` */
  function ResizeFocused(l: Layout, nav: NavDirection, delta: real, area: Rect): Layout {
    match ChosenSplit(l, nav, area)
    case None => l
    case Some(s) =>
      var current := match RatioAt(l.root, s.path) case Some(r) => r case None => 0.5;
      SetRatio(l, s.path, Shifted(current, nav, delta)).0
  }

  /** `resize_pane`: the new layout and whether a ratio changed. */
  function ResizePane(l: Layout, id: PaneId, nav: NavDirection, delta: real, area: Rect): (Layout, bool) {
    if id !in Ids(l.root) then (l, false)
    else
      var resized := ResizeFocused(l.(focus := id), nav, delta, area);
      (resized.(focus := l.focus), Ratios(resized.root, []) != Ratios(l.root, []))
  }

  /* ---- what one operation keeps ---- */

  lemma {:induction false} RemoveKeepsRatios(n: Node, target: PaneId, lo: real, hi: real)
    requires RatiosWithin(n, lo, hi) && RemovePane(n, target).Some?
    ensures RatiosWithin(RemovePane(n, target).value, lo, hi)
    decreases n
  {
    if n.Split? {
      if RemovePane(n.first, target).Some? {
        RemoveKeepsRatios(n.first, target, lo, hi);
      }
      if RemovePane(n.second, target).Some? {
        RemoveKeepsRatios(n.second, target, lo, hi);
      }
    }
  }

  lemma {:induction false} SplitKeepsRatios(n: Node, target: PaneId, d: Direction, added: PaneId,
      r: real, lo: real, hi: real)
    requires RatiosWithin(n, lo, hi) && lo <= r <= hi
    ensures RatiosWithin(SplitAt(n, target, d, added, r), lo, hi)
    decreases n
  {
    if n.Split? {
      SplitKeepsRatios(n.first, target, d, added, r, lo, hi);
      SplitKeepsRatios(n.second, target, d, added, r, lo, hi);
    }
  }

  lemma {:induction false} SwapKeepsRatios(n: Node, a: PaneId, b: PaneId, lo: real, hi: real)
    requires RatiosWithin(n, lo, hi)
    ensures RatiosWithin(SwapIds(n, a, b), lo, hi)
    decreases n
  {
    if n.Split? {
      SwapKeepsRatios(n.first, a, b, lo, hi);
      SwapKeepsRatios(n.second, a, b, lo, hi);
    }
  }

  lemma {:induction false} InsertedMembers(ids: seq<PaneId>, target: PaneId, added: PaneId)
    requires Distinct(ids) && added !in ids
    ensures var out := InsertedBehind(ids, target, added);
            && Distinct(out)
            && (forall x :: x in out <==> x in ids || (x == added && target in ids))
    decreases |ids|
  {
    if ids != [] {
      var rest := InsertedBehind(ids[1..], target, added);
      InsertedMembers(ids[1..], target, added);
      assert ids[0] !in ids[1..];
      assert forall x :: x in ids <==> x == ids[0] || x in ids[1..];
      assert ids[0] !in rest;
    }
  }

  lemma {:induction false} WithoutMembers(ids: seq<PaneId>, target: PaneId)
    requires Distinct(ids)
    ensures var out := Without(ids, target);
            && Distinct(out)
            && (forall x :: x in out <==> x in ids && x != target)
            && |out| == |ids| - (if target in ids then 1 else 0)
    decreases |ids|
  {
    if ids != [] {
      WithoutMembers(ids[1..], target);
      assert ids[0] !in ids[1..];
      assert forall x :: x in ids <==> x == ids[0] || x in ids[1..];
    }
  }

  lemma {:induction false} SwapIdsElementwise(n: Node, a: PaneId, b: PaneId)
    ensures |Ids(SwapIds(n, a, b))| == |Ids(n)|
    ensures forall i :: 0 <= i < |Ids(n)| ==> Ids(SwapIds(n, a, b))[i] == SwapId(Ids(n)[i], a, b)
    decreases n
  {
    if n.Split? {
      SwapIdsElementwise(n.first, a, b);
      SwapIdsElementwise(n.second, a, b);
    }
  }

  lemma {:induction false} SplitKeepsWellFormed(l: Layout, target: PaneId, d: Direction, added: PaneId, r: real)
    requires WellFormed(l) && target in Ids(l.root) && added !in Ids(l.root) && MIN_RATIO <= r <= MAX_RATIO
    ensures WellFormed(Layout(SplitAt(l.root, target, d, added, r), added))
  {
    SplitAtIds(l.root, target, d, added, r);
    InsertedMembers(Ids(l.root), target, added);
    SplitKeepsRatios(l.root, target, d, added, r, MIN_RATIO, MAX_RATIO);
  }

  /** Closing works exactly when more than one pane is left: the removed tree exists, loses only the
      focused pane and keeps the order, and the focus moves to the next pane or the one before the last. */
  lemma CloseKeepsWellFormed(l: Layout)
    requires WellFormed(l)
    ensures var (m, closed) := CloseFocused(l);
            && WellFormed(m)
            && (closed <==> |Ids(l.root)| > 1)
            && (closed ==> Ids(m.root) == Without(Ids(l.root), l.focus) && m.focus != l.focus)
  {
    var ids := Ids(l.root);
    RemovePaneIds(l.root, l.focus);
    WithoutMembers(ids, l.focus);
    if |ids| > 1 {
      var i := IndexOf(ids, l.focus);
      var next := FocusAfterClose(ids, l.focus);
      RemoveKeepsRatios(l.root, l.focus, MIN_RATIO, MAX_RATIO);
      assert next != l.focus && next in ids;
    }
  }

  /** In any layout, saved ones with repeated ids included: the placeholder is left behind exactly when
      there are several panes and all of them have the id of the focus. */
  lemma PlaceholderRemains(l: Layout)
    requires l.focus in Ids(l.root) && |Ids(l.root)| > 1
    ensures var (m, closed) := CloseFocused(l);
            && (!closed <==> forall x :: x in Ids(l.root) ==> x == l.focus)
            && (!closed ==> m == Layout(PLACEHOLDER, l.focus))
            && (closed ==> Ids(m.root) == Without(Ids(l.root), l.focus))
  {
    RemovePaneIds(l.root, l.focus);
    NothingElse(Ids(l.root), l.focus);
  }

  lemma {:induction false} NothingElse(ids: seq<PaneId>, target: PaneId)
    ensures Without(ids, target) == [] <==> forall x :: x in ids ==> x == target
    decreases |ids|
  {
    if ids != [] {
      NothingElse(ids[1..], target);
      assert ids[0] in ids;
      assert forall x :: x in ids <==> x == ids[0] || x in ids[1..];
    }
  }

  lemma SwapKeepsWellFormed(l: Layout, a: PaneId, b: PaneId)
    requires WellFormed(l)
    ensures WellFormed(SwapPanes(l, a, b).0)
    ensures forall x :: x in Ids(SwapPanes(l, a, b).0.root) <==> x in Ids(l.root)
  {
    var ids := Ids(l.root);
    if SwapPanes(l, a, b).1 {
      var out := Ids(SwapIds(l.root, a, b));
      SwapIdsElementwise(l.root, a, b);
      SwapKeepsRatios(l.root, a, b, MIN_RATIO, MAX_RATIO);
      forall x
        ensures x in out <==> x in ids
      {
        if x in ids {
          var j := IndexOf(ids, SwapId(x, a, b));
          assert out[j] == x;
        }
        if x in out {
          var j := IndexOf(out, x);
          assert ids[j] == SwapId(x, a, b);
        }
      }
    }
  }

  lemma SetRatioKeepsWellFormed(l: Layout, path: Path, ratio: real)
    requires WellFormed(l)
    ensures WellFormed(SetRatio(l, path, ratio).0) && Ids(SetRatio(l, path, ratio).0.root) == Ids(l.root)
  {
    WithRatioAtChangesOne(l.root, path, Clamp(ratio), []);
    if WithRatioAt(l.root, path, Clamp(ratio)).Some? {
      WithRatioAtKeepsRatios(l.root, path, Clamp(ratio), MIN_RATIO, MAX_RATIO);
    }
  }

  /** The chosen split lies on the axis of the direction and within a cell of the focused pane's edge on
      that side, or else on the opposite side; and its path leads to it. */
  lemma {:induction false} ChosenSplitResolves(l: Layout, nav: NavDirection, area: Rect)
    requires ChosenSplit(l, nav, area).Some?
    ensures var s := ChosenSplit(l, nav, area).value; var f := FocusedRect(Panes(l.root, area, l.focus));
            && s in Splits(l.root, area, [])
            && f.Some? && (Movable(s, f.value, nav) || Movable(s, f.value, Opposite(nav)))
            && RatioAt(l.root, s.path) == Some(s.ratio)
  {
    hide ResizeSplit, Movable, Panes, Splits;
    var s := ChosenSplit(l, nav, area).value;
    var splits := Splits(l.root, area, []);
    var i :| 0 <= i < |splits| && splits[i] == s;
    SplitPathsResolve(l.root, area, [], i);
    assert s.path[0..] == s.path;
  }

  /** A resize changes at most one ratio: the chosen split's moves by the amount asked for, within bounds,
      while every other ratio, the ids and the focus stay. */
  lemma {:induction false} ResizeChangesOneRatio(l: Layout, nav: NavDirection, delta: real, area: Rect, q: Path)
    ensures var s := ChosenSplit(l, nav, area); var m := ResizeFocused(l, nav, delta, area);
            && m.focus == l.focus && Ids(m.root) == Ids(l.root)
            && RatioAt(m.root, q)
               == (if s.Some? && q == s.value.path then Some(Clamp(Shifted(s.value.ratio, nav, delta)))
                   else RatioAt(l.root, q))
    ensures var s := ChosenSplit(l, nav, area);
            s.Some? ==> WithRatioAt(l.root, s.value.path, Clamp(Shifted(s.value.ratio, nav, delta)))
                        == Some(ResizeFocused(l, nav, delta, area).root)
  {
    hide ChosenSplit, RatioAt, WithRatioAt, Clamp;
    var s := ChosenSplit(l, nav, area);
    if s.Some? {
      ChosenSplitResolves(l, nav, area);
      WithRatioAtChangesOne(l.root, s.value.path, Clamp(Shifted(s.value.ratio, nav, delta)), q);
    }
  }

  /** `resize_pane` keeps the focus and reports exactly whether the tree changed. */
  lemma ResizePaneReports(l: Layout, id: PaneId, nav: NavDirection, delta: real, area: Rect)
    ensures var (m, changed) := ResizePane(l, id, nav, delta, area);
            m.focus == l.focus && (changed <==> m.root != l.root)
  {
    hide ChosenSplit, RatioAt, WithRatioAt, Ratios, Clamp;
    if id in Ids(l.root) {
      var there := l.(focus := id);
      var s := ChosenSplit(there, nav, area);
      ResizeChangesOneRatio(there, nav, delta, area, []);
      if s.Some? {
        RatiosTellChange(l.root, s.value.path, Clamp(Shifted(s.value.ratio, nav, delta)), []);
      }
    }
  }

  lemma ResizeKeepsWellFormed(l: Layout, nav: NavDirection, delta: real, area: Rect)
    requires WellFormed(l)
    ensures WellFormed(ResizeFocused(l, nav, delta, area))
            && Ids(ResizeFocused(l, nav, delta, area).root) == Ids(l.root)
  {
    hide ChosenSplit, SetRatio, WellFormed;
    var s := ChosenSplit(l, nav, area);
    if s.Some? {
      var current := match RatioAt(l.root, s.value.path) case Some(r) => r case None => 0.5;
      SetRatioKeepsWellFormed(l, s.value.path, Shifted(current, nav, delta));
    }
  }

  /* ---- runs ---- */

  datatype Op =
    | SplitPane(direction: Direction, ratio: Requested)
    | InsertPane(target: PaneId, moved: PaneId, direction: Direction, ratio: Requested)
    | Close
    | Focus(id: PaneId)
    | Swap(a: PaneId, b: PaneId)
    | SetRatioAt(path: Path, newRatio: real)
    | Resize(nav: NavDirection, delta: real, area: Rect)
    | ResizeOther(id: PaneId, nav: NavDirection, delta: real, area: Rect)
    | AllocateElsewhere

  /** A layout and the global id counter, which other layouts advance too. */
  datatype World = World(layout: Layout, next: PaneId)

  function Apply(w: World, op: Op): World {
    var l := w.layout;
    match op
    case SplitPane(d, ratio) => World(SplitFocused(l, d, ratio, w.next), w.next + 1)
    case InsertPane(target, moved, d, ratio) => w.(layout := InsertNear(l, target, moved, d, ratio).0)
    case Close => w.(layout := CloseFocused(l).0)
    case Focus(id) => w.(layout := FocusPane(l, id))
    case Swap(a, b) => w.(layout := SwapPanes(l, a, b).0)
    case SetRatioAt(path, ratio) => w.(layout := SetRatio(l, path, ratio).0)
    case Resize(nav, delta, area) => w.(layout := ResizeFocused(l, nav, delta, area))
    case ResizeOther(id, nav, delta, area) => w.(layout := ResizePane(l, id, nav, delta, area).0)
    case AllocateElsewhere => w.(next := w.next + 1)
  }

  /** Ids come from the counter, so every id in use is below it. */
  predicate Allocated(w: World) { forall x :: x in Ids(w.layout.root) ==> x < w.next }

  /** A pane that is moved in was allocated before. */
  predicate Allowed(w: World, op: Op) { op.InsertPane? ==> op.moved < w.next }

  lemma ApplyKeeps(w: World, op: Op)
    requires WellFormed(w.layout) && Allocated(w) && Allowed(w, op)
    ensures WellFormed(Apply(w, op).layout) && Allocated(Apply(w, op))
  {
    var l := w.layout;
    hide RatiosWithin, Distinct;
    match op
    case SplitPane(d, ratio) =>
      SplitKeepsWellFormed(l, l.focus, d, w.next, ValidSplitRatio(ratio));
      SplitAddsOne(l, l.focus, d, w.next, ratio);
    case InsertPane(target, moved, d, ratio) =>
      if InsertNear(l, target, moved, d, ratio).1 {
        SplitKeepsWellFormed(l, target, d, moved, ValidSplitRatio(ratio));
        SplitAddsOne(l, target, d, moved, ratio);
      }
    case Close =>
      CloseKeepsWellFormed(l);
      CloseAddsNone(l);
    case Focus(id) =>
    case Swap(a, b) => SwapKeepsWellFormed(l, a, b);
    case SetRatioAt(path, ratio) => SetRatioKeepsWellFormed(l, path, ratio);
    case Resize(nav, delta, area) => ResizeKeepsWellFormed(l, nav, delta, area);
    case ResizeOther(id, nav, delta, area) =>
      if id in Ids(l.root) {
        ResizeKeepsWellFormed(l.(focus := id), nav, delta, area);
      }
    case AllocateElsewhere =>
  }

  lemma {:induction false} SplitAddsOne(l: Layout, target: PaneId, d: Direction, added: PaneId, ratio: Requested)
    requires Distinct(Ids(l.root)) && added !in Ids(l.root)
    ensures forall x :: x in Ids(SplitAt(l.root, target, d, added, ValidSplitRatio(ratio)))
              ==> x in Ids(l.root) || x == added
  {
    SplitAtIds(l.root, target, d, added, ValidSplitRatio(ratio));
    InsertedMembers(Ids(l.root), target, added);
  }

  lemma CloseAddsNone(l: Layout)
    requires WellFormed(l)
    ensures forall x :: x in Ids(CloseFocused(l).0.root) ==> x in Ids(l.root)
  {
    CloseKeepsWellFormed(l);
    WithoutMembers(Ids(l.root), l.focus);
  }

  function ApplyAll(w: World, ops: seq<Op>): World
    decreases |ops|
  {
    if ops == [] then w else ApplyAll(Apply(w, ops[0]), ops[1..])
  }

  predicate AllAllowed(w: World, ops: seq<Op>)
    decreases |ops|
  {
    ops == [] || (Allowed(w, ops[0]) && AllAllowed(Apply(w, ops[0]), ops[1..]))
  }

  /** Layout runs: every run of operations keeps the ids distinct, the focus among them and every ratio
      between 0.1 and 0.9; the ids it allocates are fresh because all ids stay below the counter. */
  lemma {:induction false} RunKeepsWellFormed(w: World, ops: seq<Op>)
    requires WellFormed(w.layout) && Allocated(w) && AllAllowed(w, ops)
    ensures WellFormed(ApplyAll(w, ops).layout) && Allocated(ApplyAll(w, ops))
    decreases |ops|
  {
    hide WellFormed, Apply, Allowed;
    if ops != [] {
      ApplyKeeps(w, ops[0]);
      RunKeepsWellFormed(Apply(w, ops[0]), ops[1..]);
    }
  }

  /** A new layout: one pane with a fresh id. */
  function NewLayout(next: PaneId): World { World(Layout(Pane(next), next), next + 1) }

  /** After any run from a new layout, the panes tile the area. */
  lemma {:induction false} RunsTile(start: PaneId, ops: seq<Op>, area: Rect, cx: int, cy: int)
    requires AllAllowed(NewLayout(start), ops) && area.Fits()
    ensures var l := ApplyAll(NewLayout(start), ops).layout;
            Holding(Panes(l.root, area, l.focus), cx, cy) == if area.Contains(cx, cy) then 1 else 0
  {
    var w := NewLayout(start);
    assert WellFormed(w.layout) && Allocated(w);
    RunKeepsWellFormed(w, ops);
    var l := ApplyAll(w, ops).layout;
    WiderRatios(l.root, MIN_RATIO, MAX_RATIO, 0.0, 1.0);
    PanesTile(l.root, area, l.focus, cx, cy);
  }

  lemma {:induction false} WiderRatios(n: Node, lo: real, hi: real, lo': real, hi': real)
    requires RatiosWithin(n, lo, hi) && lo' <= lo && hi <= hi'
    ensures RatiosWithin(n, lo', hi')
    decreases n
  {
    if n.Split? {
      WiderRatios(n.first, lo, hi, lo', hi');
      WiderRatios(n.second, lo, hi, lo', hi');
    }
  }

  /** Closing a freshly split pane restores the tree. */
  lemma CloseUndoesSplit(l: Layout, d: Direction, ratio: Requested, added: PaneId)
    requires WellFormed(l) && added !in Ids(l.root)
    ensures CloseFocused(SplitFocused(l, d, ratio, added)).1
    ensures CloseFocused(SplitFocused(l, d, ratio, added)).0.root == l.root
  {
    var m := SplitFocused(l, d, ratio, added);
    SplitKeepsWellFormed(l, l.focus, d, added, ValidSplitRatio(ratio));
    RemoveUndoesSplit(l.root, l.focus, d, added, ValidSplitRatio(ratio));
    SplitAtIds(l.root, l.focus, d, added, ValidSplitRatio(ratio));
    InsertedLength(Ids(l.root), l.focus, added);
  }

  lemma {:induction false} InsertedLength(ids: seq<PaneId>, target: PaneId, added: PaneId)
    requires target in ids
    ensures |InsertedBehind(ids, target, added)| > |ids|
    decreases |ids|
  {
    InsertedNotShorter(ids[1..], target, added);
    if ids[0] != target {
      InsertedLength(ids[1..], target, added);
    }
  }

  lemma {:induction false} InsertedNotShorter(ids: seq<PaneId>, target: PaneId, added: PaneId)
    ensures |InsertedBehind(ids, target, added)| >= |ids|
    decreases |ids|
  {
    if ids != [] {
      InsertedNotShorter(ids[1..], target, added);
    }
  }
}
