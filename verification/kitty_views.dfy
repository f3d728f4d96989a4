/** What a change of view does: another view may have painted over the cells, so every visible placement is
    displayed again, whatever the host still shows of the last frame. */
module KittyViews {
  import opened Options
  import opened KittyGraphics
  import opened KittyMirror
  import opened KittyKeys
  import opened KittySources
  import opened KittyExactness

  /* ---- two hosts and one list of commands ---- */

  predicate Displays(cs: seq<Command>, k: PlacementKey) {
    exists i :: 0 <= i < |cs| && cs[i].Display? && cs[i].key == k
  }

  /** The hosts hold the same images, the first shows no placement that the second does not, and both show the
      same of the placements in `s`. Placements stand on images. */
  predicate Behind(a: Host, b: Host, s: set<PlacementKey>) {
    && a.images == b.images
    && a.placements.Keys <= b.placements.Keys
    && (forall k :: k in b.placements ==> k.0 in b.images)
    && (forall k :: k in s && k in b.placements ==> k in a.placements && a.placements[k] == b.placements[k])
  }

  lemma ExecuteBehind(a: Host, b: Host, s: set<PlacementKey>, c: Command)
    requires Behind(a, b, s)
    ensures Behind(Execute(a, c), Execute(b, c), if c.Display? then s + {c.key} else s)
  {
  }

  /** Replaying commands on both, the first catches up on every placement that is displayed. */
  lemma {:induction false} ReplayCatchesUp(a: Host, b: Host, s: set<PlacementKey>, cs: seq<Command>)
    requires Behind(a, b, s)
    ensures var x, y := Replay(a, cs), Replay(b, cs);
            && Behind(x, y, s)
            && (forall k :: Displays(cs, k) && k in y.placements ==>
                  k in x.placements && x.placements[k] == y.placements[k])
    decreases |cs|
  {
    hide Behind, Execute;
    if cs == [] {
      assert forall k :: !Displays(cs, k);
      BehindMeans(a, b, s);
    } else {
      var c, rest := cs[0], cs[1..];
      var t := if c.Display? then s + {c.key} else s;
      ExecuteBehind(a, b, s, c);
      ReplayCatchesUp(Execute(a, c), Execute(b, c), t, rest);
      var x, y := Replay(a, cs), Replay(b, cs);
      assert x == Replay(Execute(a, c), rest) && y == Replay(Execute(b, c), rest);
      BehindMeans(x, y, t);
      BehindLess(x, y, s, t);
      forall k | Displays(cs, k) && k in y.placements
        ensures k in x.placements && x.placements[k] == y.placements[k]
      {
        var i :| 0 <= i < |cs| && cs[i].Display? && cs[i].key == k;
        if i > 0 {
          assert rest[i - 1] == cs[i];
          assert Displays(rest, k);
        } else {
          assert k in t;
        }
      }
    }
  }

  lemma BehindMeans(a: Host, b: Host, s: set<PlacementKey>)
    requires Behind(a, b, s)
    ensures forall k :: k in s && k in b.placements ==> k in a.placements && a.placements[k] == b.placements[k]
  {
  }

  lemma BehindLess(a: Host, b: Host, s: set<PlacementKey>, t: set<PlacementKey>)
    requires Behind(a, b, t) && s <= t
    ensures Behind(a, b, s)
  {
  }

  /* ---- what an update displays ---- */

  lemma DisplaysMore(a: seq<Command>, b: seq<Command>, k: PlacementKey)
    requires a <= b && Displays(a, k)
    ensures Displays(b, k)
  {
    var i :| 0 <= i < |a| && a[i].Display? && a[i].key == k;
    assert b[i] == a[i];
  }

  lemma DisplaysLast(cs: seq<Command>, c: Command)
    requires c.Display?
    ensures Displays(cs + [c], c.key)
  {
    assert (cs + [c])[|cs|] == c;
  }

  lemma ProvideExtends(h: Hashes, g: Progress, p: Placement)
    ensures g.commands <= ProvideImage(h, g, p).0.commands
  {
  }

  lemma ReleaseExtends(g: Progress, source: SourceKey, id: ImageId)
    ensures g.commands <= Release(g, source, id).commands
  {
  }

  /** A round only adds commands. */
  lemma PlaceExtends(h: Hashes, g: Progress, p: Placement, viewChanged: bool)
    ensures g.commands <= Place(h, g, p, viewChanged).commands
  {
    hide ClippedPlacement, ProvideImage, Release;
    if Visible(p) {
      var begun := g.(seen := g.seen + {Key(h, p)});
      ProvideExtends(h, begun, p);
      ReleaseExtends(ProvideImage(h, begun, p).0, p.source, HostImage(h, p));
    }
  }

  /** What calls for displaying a placement: a changed view, or anything about it that differs from
      what is cached under its key, its scrollback offset included. */
  predicate MustShow(h: Hashes, c: Cache, p: Placement, viewChanged: bool)
    requires Visible(p)
  {
    viewChanged || Key(h, p) !in c.placements || c.placements[Key(h, p)] != SignatureOf(p)
  }

  lemma PlaceShows(h: Hashes, U: Universe, g: Progress, p: Placement, viewChanged: bool)
    requires Linked(g.cache) && Visible(p) && (p.data != [] || HostImage(h, p) in g.cache.images)
    requires DistinctIds(h, U) && Keyed(h, U, g.cache) && (p.pane, p.signature) in U
    requires MustShow(h, g.cache, p, viewChanged)
    ensures Displays(Place(h, g, p, viewChanged).commands, Key(h, p))
  {
    ReleasedState(h, U, g, p);
    hide DistinctIds, Keyed, ClippedPlacement, Place, Released, Displays;
    var r := Released(h, g, p);
    ReleasedKeeps(h, U, g, p);
    DisplaysLast(r.commands, Display(Key(h, p), SignatureOf(p).clip, p.z));
  }

  /** Nothing is cached in front of the display that was not cached before the round. */
  lemma ReleasedKeeps(h: Hashes, U: Universe, g: Progress, p: Placement)
    requires Linked(g.cache) && Visible(p)
    requires DistinctIds(h, U) && Keyed(h, U, g.cache) && (p.pane, p.signature) in U
    ensures forall k :: k in Released(h, g, p).cache.placements ==>
              k in g.cache.placements && Released(h, g, p).cache.placements[k] == g.cache.placements[k]
  {
    ProvideKeyed(h, U, g.(seen := g.seen + {Key(h, p)}), p);
    hide DistinctIds, Keyed, ClippedPlacement, ProvideImage;
  }

  /** In front of round `n`, every visible placement already passed has been displayed if the view changed. */
  lemma {:induction false} LoopDisplays(
      h: Hashes, U: Universe, c: Cache, ps: seq<Placement>, n: nat, retired: seq<ImageId>)
    requires n <= |ps| && Linked(c) && Proper(h, U, c, ps) && Lists(retired, RetiredImages(c, CurrentSources(ps)))
    requires NothingLost(h, c, ps)
    ensures forall i :: 0 <= i < n && Visible(ps[i]) ==>
              Displays(InFront(h, c, ps, n, true, retired).commands, Key(h, ps[i]))
    decreases n
  {
    hide Caught, DistinctIds, Keyed, Place, OneImagePerSource, Lists, InFront, Displays, ClippedPlacement, Missing, Key;
    if n > 0 {
      var g, next := InFront(h, c, ps, n - 1, true, retired), InFront(h, c, ps, n, true, retired);
      var p := ps[n - 1];
      LoopDisplays(h, U, c, ps, n - 1, retired);
      LoopCatchesUp(h, U, c, ps, n - 1, true, retired);
      InFrontStep(h, c, ps, n - 1, true, retired);
      PlaceExtends(h, g, p, true);
      if Visible(p) {
        CaughtImages(h, c, ps, n - 1, g);
        PlaceShows(h, U, g, p, true);
      }
      forall i | 0 <= i < n && Visible(ps[i])
        ensures Displays(next.commands, Key(h, ps[i]))
      {
        if i < n - 1 {
          DisplaysMore(g.commands, next.commands, Key(h, ps[i]));
        }
      }
    }
  }

  lemma CaughtImages(h: Hashes, c: Cache, ps: seq<Placement>, n: nat, g: Progress)
    requires n < |ps| && Caught(h, c, ps, n, g) && Visible(ps[n]) && !Loses(h, c, ps, n)
    ensures Linked(g.cache) && (ps[n].data != [] || HostImage(h, ps[n]) in g.cache.images)
  {
    hide Missing, SourcesAre, Shows, ClippedPlacement;
  }

  /* ---- redisplay ---- */

  /** The host has the images that the cache lists, and no placement that it does not list. What it shows
      of the listed ones is left open: some may be gone, others may be drawn differently. */
  predicate Disturbed(h: Hashes, host: Host, c: Cache) {
    && host.images.Keys == c.images.Keys
    && (forall id :: id in c.images ==> Signature(h, host.images[id]) == c.images[id])
    && host.placements.Keys <= c.placements.Keys
  }

  /** The host as it would be had nothing disturbed it. */
  function Restored(host: Host, c: Cache): Host { Host(host.images, Pictured(c.placements)) }

  /** Redisplay: when the view has changed and nothing is lost, an update brings any disturbed host to show
      exactly the clipped visible placements of the frame. */
  lemma {:induction false} ViewChangeRedisplays(
      h: Hashes, U: Universe, host: Host, c: Cache, ps: seq<Placement>, retired: seq<ImageId>, stale: seq<PlacementKey>)
    requires Disturbed(h, host, c) && Linked(c) && AllHonest(h, ps)
    requires Proper(h, U, c, ps) && OrdersFit(h, c, ps, true, retired, stale) && NothingLost(h, c, ps)
    ensures ShowsExactly(h, Replay(host, Update(h, c, ps, true, retired, stale).1), ps)
  {
    hide Update, Replay, Proper, AllHonest, NothingLost, Wanted, Signature, ShowsExactly;
    var ideal := Restored(host, c);
    var cs := Update(h, c, ps, true, retired, stale).1;
    assert Mirrors(h, ideal, c) && Behind(host, ideal, {});
    UpdateShowsExactly(h, U, ideal, c, ps, true, retired, stale);
    ReplayCatchesUp(host, ideal, {}, cs);
    WantedIsDisplayed(h, U, c, ps, retired, stale);
    hide Disturbed, Mirrors, Restored;
    SameShown(h, Replay(host, cs), Replay(ideal, cs), ps, cs);
  }

  lemma {:induction false} WantedIsDisplayed(
      h: Hashes, U: Universe, c: Cache, ps: seq<Placement>, retired: seq<ImageId>, stale: seq<PlacementKey>)
    requires Linked(c) && Proper(h, U, c, ps) && OrdersFit(h, c, ps, true, retired, stale) && NothingLost(h, c, ps)
    ensures forall k :: k in Wanted(h, ps) ==> Displays(Update(h, c, ps, true, retired, stale).1, k)
  {
    hide Proper, NothingLost, Lists, InFront, Displays, Wanted, ClippedPlacement, Placed;
    LoopDisplays(h, U, c, ps, |ps|, retired);
    LoopIsInFront(h, c, ps, true, retired);
    var g := Placed(h, c, ps, true, retired);
    var cs := Update(h, c, ps, true, retired, stale).1;
    assert g.commands <= cs;
    forall k | k in Wanted(h, ps)
      ensures Displays(cs, k)
    {
      var i := WantedComesFrom(h, ps, k);
      DisplaysMore(g.commands, cs, k);
    }
  }

  lemma {:induction false} SameShown(h: Hashes, x: Host, y: Host, ps: seq<Placement>, cs: seq<Command>)
    requires Behind(x, y, {}) && ShowsExactly(h, y, ps)
    requires forall k :: Displays(cs, k) && k in y.placements ==>
               k in x.placements && x.placements[k] == y.placements[k]
    requires forall k :: k in Wanted(h, ps) ==> Displays(cs, k)
    ensures ShowsExactly(h, x, ps)
  {
    hide Displays, Wanted, ClippedPlacement, Signature;
    assert y.placements.Keys == Wanted(h, ps).Keys;
    assert x.placements == y.placements;
  }

  /** Redisplay over runs: after any run of honest frames and clears from a fresh cache, whatever has since become
      of the placements on the host, a frame of another view leaves it showing exactly that frame. */
  lemma {:induction false} OtherViewRedisplays(
      h: Hashes, U: Universe, ops: seq<Op>, host: Host, view: Option<nat>, frame: seq<Placement>,
      retired: seq<ImageId>, stale: seq<PlacementKey>)
    requires DistinctIds(h, U) && FramesWithin(h, U, ops) && OrdersFitAll(h, FRESH, ops)
    requires Within(U, frame) && AllHonest(h, frame) && OneImagePerSource(frame)
    requires var (s, cs) := PerformAll(h, FRESH, ops); var left := Replay(EMPTY_HOST, cs);
             && view != s.view && OrdersFit(h, s.cache, frame, true, retired, stale) && NothingLost(h, s.cache, frame)
             && host.images == left.images && host.placements.Keys <= left.placements.Keys
    ensures var s := PerformAll(h, FRESH, ops).0;
            ShowsExactly(h, Replay(host, Perform(h, s, Op.Paint(view, frame, retired, stale)).1), frame)
  {
    assert Keyed(h, U, EMPTY_CACHE);
    hide Update, PerformAll, OrdersFitAll, FramesWithin, OrdersFit, NothingLost, ShowsExactly, Keyed, DistinctIds,
         AllHonest, Within, OneImagePerSource, Signature, Replay;
    var (s, cs) := PerformAll(h, FRESH, ops);
    RunKeyed(h, U, FRESH, ops);
    DistinctRunMirrors(h, U, ops);
    assert Disturbed(h, host, s.cache);
    ViewChangeRedisplays(h, U, host, s.cache, frame, retired, stale);
  }

  /** Without a change of view a placement is displayed again when anything about it has changed, though it be only
      the scrollback offset. */
  lemma ChangedPlacementIsDisplayed(
      h: Hashes, U: Universe, c: Cache, p: Placement, retired: seq<ImageId>, stale: seq<PlacementKey>)
    requires Linked(c) && Proper(h, U, c, [p]) && OrdersFit(h, c, [p], false, retired, stale)
    requires NothingLost(h, c, [p]) && Visible(p)
    requires Key(h, p) in c.placements && c.placements[Key(h, p)] != SignatureOf(p)
    ensures Displays(Update(h, c, [p], false, retired, stale).1, Key(h, p))
  {
    hide DistinctIds, Keyed, ClippedPlacement, Missing, Place, Lists, Displays, Pruned, OneImagePerSource;
    var ps := [p];
    var g := Pruned(c, ps, retired);
    CaughtStart(h, c, ps, retired);
    PrunedKeyed(h, U, c, ps, retired);
    assert ps[0] == p && !Loses(h, c, ps, 0);
    CaughtImages(h, c, ps, 0, g);
    PrunedKeeps(c, ps, retired);
    PlaceShows(h, U, g, p, false);
    var next := Place(h, g, p, false);
    assert ps[1..] == [];
    assert PlaceAll(h, g, ps, false) == PlaceAll(h, next, [], false) == next;
    var cs := Update(h, c, ps, false, retired, stale).1;
    assert next.commands <= cs;
    DisplaysMore(next.commands, cs, Key(h, p));
  }

  /** Scrolling back and forth displays a placement again, even when it covers the same cells. */
  lemma ScrollingDisplays(
      h: Hashes, U: Universe, c: Cache, p: Placement, retired: seq<ImageId>, stale: seq<PlacementKey>)
    requires Linked(c) && Proper(h, U, c, [p]) && OrdersFit(h, c, [p], false, retired, stale)
    requires NothingLost(h, c, [p]) && Visible(p)
    requires Key(h, p) in c.placements && c.placements[Key(h, p)].scrollback != p.scrollback
    ensures Displays(Update(h, c, [p], false, retired, stale).1, Key(h, p))
  {
    hide Proper, OrdersFit, NothingLost, Update, Displays, Linked, ClippedPlacement;
    ChangedPlacementIsDisplayed(h, U, c, p, retired, stale);
  }

  /** Retiring images only takes placements away. */
  lemma PrunedKeeps(c: Cache, ps: seq<Placement>, retired: seq<ImageId>)
    ensures forall k :: k in Pruned(c, ps, retired).cache.placements ==>
              k in c.placements && Pruned(c, ps, retired).cache.placements[k] == c.placements[k]
  {
    hide CurrentSources;
    DeleteRetiredKeeps(Retain(c, CurrentSources(ps)), retired);
  }

  lemma {:induction false} DeleteRetiredKeeps(c: Cache, ids: seq<ImageId>)
    ensures forall k :: k in DeleteRetired(c, ids).0.placements ==>
              k in c.placements && DeleteRetired(c, ids).0.placements[k] == c.placements[k]
    decreases |ids|
  {
    if ids != [] {
      DeleteRetiredKeeps(if c.References(ids[0]) then c else c.DropImage(ids[0]), ids[1..]);
    }
  }

  /* ---- images behind what is out of sight ---- */

  /** A terminal image that is scrolled out of sight stays cached: its source is part of the frame, so showing
      it again needs no upload. */
  lemma ScrolledOutImageStays(
      h: Hashes, U: Universe, c: Cache, ps: seq<Placement>, viewChanged: bool, retired: seq<ImageId>,
      stale: seq<PlacementKey>, i: nat)
    requires Linked(c) && Proper(h, U, c, ps) && OrdersFit(h, c, ps, viewChanged, retired, stale)
    requires NothingLost(h, c, ps)
    requires i < |ps| && ps[i].source.Terminal? && Backs(c, ps[i].source, HostImage(h, ps[i]))
    ensures HostImage(h, ps[i]) in Update(h, c, ps, viewChanged, retired, stale).0.images
  {
    hide Update, DistinctIds, Keyed, Within, OrdersFit, NothingLost, Wanted, SourcesAre, Visible, HostImage,
         DrawnBefore, OneImagePerSource;
    UpdateCatchesUp(h, U, c, ps, viewChanged, retired, stale);
    var s, id := ps[i].source, HostImage(h, ps[i]);
    TerminalIsCurrent(ps, i);
    hide CurrentSources;
    if UsedBefore(ps, |ps|, s) {
      var j :| 0 <= j < |ps| && Uses(ps, j, s);
      SameSourceSameImage(h, ps, i, j);
      DrawnThere(h, ps, j, id);
    } else {
      assert Stays(ps, |ps|, s);
    }
  }

  lemma TerminalIsCurrent(ps: seq<Placement>, i: nat)
    requires i < |ps| && ps[i].source.Terminal?
    ensures ps[i].source in CurrentSources(ps)
  {
    hide Visible;
  }

  lemma DrawnThere(h: Hashes, ps: seq<Placement>, j: nat, id: ImageId)
    requires j < |ps| && Visible(ps[j]) && HostImage(h, ps[j]) == id
    ensures DrawnBefore(h, ps, |ps|, id)
  {
    hide Visible, HostImage;
    assert Draws(h, ps, j, id);
  }

  /** A pane layer that is gone from the frame, or out of sight, takes its image with it, unless something else of
      the frame is backed by it or draws it. */
  lemma RetiredLayerIsDeleted(
      h: Hashes, U: Universe, c: Cache, ps: seq<Placement>, viewChanged: bool, retired: seq<ImageId>,
      stale: seq<PlacementKey>, pane: PaneId, id: ImageId)
    requires Linked(c) && Proper(h, U, c, ps) && OrdersFit(h, c, ps, viewChanged, retired, stale)
    requires NothingLost(h, c, ps) && Backs(c, PaneLayer(pane), id)
    requires forall i :: 0 <= i < |ps| && Visible(ps[i]) ==>
               ps[i].source != PaneLayer(pane) && HostImage(h, ps[i]) != id
    requires forall s :: Backs(c, s, id) ==> !Stays(ps, |ps|, s)
    ensures id !in Update(h, c, ps, viewChanged, retired, stale).0.images
  {
    hide Update, Proper, OrdersFit, NothingLost, Wanted, SourcesAre, ClippedPlacement, HostImage;
    UpdateCatchesUp(h, U, c, ps, viewChanged, retired, stale);
    LayerLeaves(ps, pane);
    assert !DrawnBefore(h, ps, |ps|, id);
  }

  lemma LayerLeaves(ps: seq<Placement>, pane: PaneId)
    requires forall i :: 0 <= i < |ps| && Visible(ps[i]) ==> ps[i].source != PaneLayer(pane)
    ensures Leaves(ps, |ps|, PaneLayer(pane))
  {
    hide Visible;
  }

  /* ---- keys ---- */

  /** What the hash of a placement id is made from. */
  function Identity(p: Placement): (bool, PaneId, nat, nat) {
    (p.source.PaneLayer?, p.source.pane, p.image, p.placement)
  }

  ghost predicate PlacementHashIsInjective(h: Hashes, ids: set<(bool, PaneId, nat, nat)>) {
    forall a, b {:trigger h.placement(a.0, a.1, a.2, a.3), h.placement(b.0, b.1, b.2, b.3)} ::
      a in ids && b in ids && h.placement(a.0, a.1, a.2, a.3) == h.placement(b.0, b.1, b.2, b.3) ==> a == b
  }

  /** When the hash of the placements of a frame has no collision, no two of them share a key: an image and a
      placement number within a pane tell placements apart, and pane layers are apart from both. */
  lemma IdentitiesGiveKeys(h: Hashes, ps: seq<Placement>)
    requires PlacementHashIsInjective(h, set i | 0 <= i < |ps| :: Identity(ps[i]))
    requires forall i, j :: 0 <= i < j < |ps| ==> Identity(ps[i]) != Identity(ps[j])
    ensures DistinctKeys(h, ps)
  {
    hide ClippedPlacement, HostImage;
    forall i, j | 0 <= i < j < |ps| && Visible(ps[i]) && Visible(ps[j])
      ensures Key(h, ps[i]) != Key(h, ps[j])
    {
      var a, b := Identity(ps[i]), Identity(ps[j]);
      assert h.placement(a.0, a.1, a.2, a.3) == HostPlacement(h, ps[i]);
      assert h.placement(b.0, b.1, b.2, b.3) == HostPlacement(h, ps[j]);
    }
  }
}
