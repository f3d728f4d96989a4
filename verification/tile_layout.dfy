/** The tiling layout as the object its callers change in place. */
module Tiling {
  import opened Geometry
  import opened LayoutTree
  import opened LayoutNavigation
  import opened LayoutRuns

  /** `collect_ids`, which appends to a list. */
  method CollectIds(n: Node, ids: seq<PaneId>) returns (out: seq<PaneId>)
    ensures out == ids + Ids(n)
    decreases n
  {
    match n {
      case Pane(id) => out := ids + [id];
      case Split(_, _, first, second) =>
        out := CollectIds(first, ids);
        out := CollectIds(second, out);
    }
  }

  /** `collect_panes` */
  method CollectPanes(n: Node, area: Rect, focus: PaneId, panes: seq<PaneInfo>) returns (out: seq<PaneInfo>)
    ensures out == panes + Panes(n, area, focus)
    decreases n
  {
    match n {
      case Pane(id) => out := panes + [PaneInfo(id, area, id == focus)];
      case Split(d, ratio, first, second) =>
        var (a, b) := SplitRect(area, d, ratio);
        out := CollectPanes(first, a, focus, panes);
        out := CollectPanes(second, b, focus, out);
    }
  }

  /** `collect_splits` */
  method CollectSplits(n: Node, area: Rect, path: Path, splits: seq<SplitBorder>) returns (out: seq<SplitBorder>)
    ensures out == splits + Splits(n, area, path)
    decreases n
  {
    out := splits;
    if n.Split? {
      var (a, b) := SplitRect(area, n.direction, n.ratio);
      var pos := if n.direction == Horizontal then Plus16(a.x, a.width) else Plus16(a.y, a.height);
      out := out + [SplitBorder(pos, n.direction, n.ratio, area, path)];
      out := CollectSplits(n.first, a, path + [false], out);
      out := CollectSplits(n.second, b, path + [true], out);
    }
  }

  class TileLayout {
    var root: Node
    var focus: PaneId

    ghost function View(): Layout
      reads this
    {
      Layout(root, focus)
    }

    constructor New(id: PaneId)
      ensures View() == NewLayout(id).layout && WellFormed(View())
    {
      root, focus := Pane(id), id;
    }

    constructor FromSaved(root: Node, focus: PaneId)
      ensures View() == Layout(root, focus)
    {
      this.root, this.focus := root, focus;
    }

    method PaneIds() returns (ids: seq<PaneId>)
      ensures ids == Ids(root)
    {
      ids := CollectIds(root, []);
    }

    method PanesIn(area: Rect) returns (panes: seq<PaneInfo>)
      ensures panes == Panes(root, area, focus)
    {
      panes := CollectPanes(root, area, focus, []);
    }

    method SplitsIn(area: Rect) returns (splits: seq<SplitBorder>)
      ensures splits == Splits(root, area, [])
    {
      splits := CollectSplits(root, area, [], []);
    }

    /** Split the focused pane; the new pane takes the focus. */
    method SplitFocusedWithRatio(d: Direction, ratio: Requested, added: PaneId)
      modifies this
      ensures View() == SplitFocused(old(View()), d, ratio, added)
      ensures WellFormed(old(View())) && added !in Ids(old(root)) ==> WellFormed(View())
    {
      if WellFormed(View()) && added !in Ids(root) {
        SplitKeepsWellFormed(View(), focus, d, added, ValidSplitRatio(ratio));
      }
      var before := root;
      root := PLACEHOLDER;
      root := SplitAt(before, focus, d, added, ValidSplitRatio(ratio));
      focus := added;
    }

    method InsertPaneNear(target: PaneId, moved: PaneId, d: Direction, ratio: Requested) returns (inserted: bool)
      modifies this
      ensures (View(), inserted) == InsertNear(old(View()), target, moved, d, ratio)
      ensures WellFormed(old(View())) ==> WellFormed(View())
      ensures inserted <==> target in Ids(old(root)) && moved !in Ids(old(root))
    {
      if target == moved {
        return false;
      }
      var ids := PaneIds();
      if target !in ids || moved in ids {
        return false;
      }
      if WellFormed(View()) {
        SplitKeepsWellFormed(View(), target, d, moved, ValidSplitRatio(ratio));
      }
      var before := root;
      root := PLACEHOLDER;
      root := SplitAt(before, target, d, moved, ValidSplitRatio(ratio));
      focus := moved;
      inserted := true;
    }

    /** Close the focused pane. The tree is taken out while the pane is removed; the placeholder put in its
        place remains only where every pane has the id of the focus. */
    method CloseFocusedPane() returns (closed: bool)
      requires |Ids(root)| > 1 ==> focus in Ids(root)
      modifies this
      ensures (View(), closed) == CloseFocused(old(View()))
      ensures WellFormed(old(View())) ==> WellFormed(View())
      ensures closed <==> |Ids(old(root))| > 1 && exists x :: x in Ids(old(root)) && x != old(focus)
      ensures closed ==> Ids(root) == Without(Ids(old(root)), old(focus))
    {
      if WellFormed(View()) {
        CloseKeepsWellFormed(View());
      }
      if |Ids(root)| > 1 {
        PlaceholderRemains(View());
      }
      var ids := PaneIds();
      if |ids| <= 1 {
        return false;
      }
      var next := FocusAfterClose(ids, focus);
      var before := root;
      root := PLACEHOLDER;
      var removed := RemovePane(before, focus);
      if removed.Some? {
        root := removed.value;
        focus := next;
        closed := true;
      } else {
        closed := false;
      }
    }

    method FocusOn(id: PaneId)
      modifies this`focus
      ensures View() == FocusPane(old(View()), id)
    {
      var ids := PaneIds();
      if id in ids {
        focus := id;
      }
    }

    method Swap(a: PaneId, b: PaneId) returns (swapped: bool)
      modifies this`root
      ensures (View(), swapped) == SwapPanes(old(View()), a, b)
      ensures WellFormed(old(View())) ==> WellFormed(View())
    {
      if WellFormed(View()) {
        SwapKeepsWellFormed(View(), a, b);
      }
      if a == b {
        return false;
      }
      var ids := PaneIds();
      if a !in ids || b !in ids {
        return false;
      }
      root := SwapIds(root, a, b);
      swapped := true;
    }

    method SetRatioAt(path: Path, ratio: real) returns (found: bool)
      modifies this`root
      ensures (View(), found) == SetRatio(old(View()), path, ratio)
    {
      var changed := WithRatioAt(root, path, Clamp(ratio));
      found := changed.Some?;
      if found {
        root := changed.value;
      }
    }

    method Resize(nav: NavDirection, delta: real, area: Rect)
      modifies this`root
      ensures View() == ResizeFocused(old(View()), nav, delta, area)
    {
      hide ResizeSplit, RatioAt, SetRatio, Splits, Panes, FocusedRect;
      var panes := PanesIn(area);
      var focused := FocusedRect(panes);
      if focused.None? {
        return;
      }
      var splits := SplitsIn(area);
      var best := ResizeSplit(splits, focused.value, nav);
      if best.Some? {
        var found := RatioAt(root, best.value.path);
        var current := if found.Some? then found.value else 0.5;
        var _ := SetRatioAt(best.value.path, Shifted(current, nav, delta));
      }
    }

    /** Resize around another pane by borrowing the focus. */
    method ResizeOther(id: PaneId, nav: NavDirection, delta: real, area: Rect) returns (changed: bool)
      modifies this
      ensures (View(), changed) == ResizePane(old(View()), id, nav, delta, area)
      ensures focus == old(focus) && (changed <==> root != old(root))
    {
      ResizePaneReports(View(), id, nav, delta, area);
      var ids := PaneIds();
      if id !in ids {
        return false;
      }
      var before := Ratios(root, []);
      var previous := focus;
      focus := id;
      Resize(nav, delta, area);
      focus := previous;
      changed := Ratios(root, []) != before;
    }
  }
}
