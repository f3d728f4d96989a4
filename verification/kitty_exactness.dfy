/** What the host shows after an update: exactly the visible placements of the frame, unless a placement came
    without data for an image that was given up in front of it. A frame already shown is left alone. */
module KittyExactness {
  import opened Options
  import opened KittyClip
  import opened KittyGraphics
  import opened KittyMirror
  import opened KittyKeys
  import opened KittySources

  /* ---- what a frame asks for ---- */

  /** The visible placements of a frame by key; a later one replaces an earlier one under the same key. */
  function Wanted(h: Hashes, ps: seq<Placement>): map<PlacementKey, PlacementSignature> {
    if ps == [] then map[]
    else
      var p := ps[|ps| - 1];
      var before := Wanted(h, ps[..|ps| - 1]);
      if Visible(p) then before[Key(h, p) := SignatureOf(p)] else before
  }

  lemma {:induction false} WantedComesFrom(h: Hashes, ps: seq<Placement>, k: PlacementKey) returns (i: nat)
    requires k in Wanted(h, ps)
    ensures i < |ps| && Visible(ps[i]) && Key(h, ps[i]) == k && Wanted(h, ps)[k] == SignatureOf(ps[i])
    decreases |ps|
  {
    hide ClippedPlacement;
    var last := |ps| - 1;
    if Visible(ps[last]) && Key(h, ps[last]) == k {
      i := last;
    } else {
      i := WantedComesFrom(h, ps[..last], k);
    }
  }

  lemma {:induction false} WantedHas(h: Hashes, ps: seq<Placement>, i: nat)
    requires i < |ps| && Visible(ps[i])
    ensures Key(h, ps[i]) in Wanted(h, ps)
    decreases |ps|
  {
    hide ClippedPlacement;
    if i < |ps| - 1 {
      WantedHas(h, ps[..|ps| - 1], i);
    }
  }

  /* ---- how far the placement loop has come ---- */

  /** Every key seen is cached as the first `n` placements of the frame want it. */
  predicate Shows(h: Hashes, ps: seq<Placement>, n: nat, g: Progress)
    requires n <= |ps|
  {
    && g.seen == Wanted(h, ps[..n]).Keys
    && (forall k :: k in g.seen ==> k in g.cache.placements && g.cache.placements[k] == Wanted(h, ps[..n])[k])
  }

  /** The state in front of round `n`, in terms of the cache in front of the frame. */
  ghost predicate Caught(h: Hashes, c: Cache, ps: seq<Placement>, n: nat, g: Progress)
    requires n <= |ps|
  {
    && Linked(g.cache)
    && Shows(h, ps, n, g)
    && SourcesAre(h, c, ps, n, g.cache.sources)
    && ImagesAre(h, c, ps, n, g.cache.images.Keys)
  }

  lemma {:induction false} DeleteRetiredImages(c: Cache, ids: seq<ImageId>)
    requires Linked(c)
    ensures var d := DeleteRetired(c, ids).0;
            && Linked(d) && d.sources == c.sources
            && (forall id :: id in d.images <==> id in c.images && !(id in ids && !c.References(id)))
    decreases |ids|
  {
    if ids != [] {
      var rest := if c.References(ids[0]) then c else c.DropImage(ids[0]);
      assert forall id :: rest.References(id) == c.References(id);
      DeleteRetiredImages(rest, ids[1..]);
    }
  }

  lemma CaughtStart(h: Hashes, c: Cache, ps: seq<Placement>, retired: seq<ImageId>)
    requires Linked(c) && Lists(retired, RetiredImages(c, CurrentSources(ps)))
    ensures Caught(h, c, ps, 0, Pruned(c, ps, retired))
  {
    hide Visible, HostImage, CurrentSources, SourcesAre, Missing, RetiredImages, Lists, Retain, DeleteRetired;
    var current := CurrentSources(ps);
    var kept := Retain(c, current);
    RetainKeepsLinked(c, current);
    DeleteRetiredImages(kept, retired);
    ListsAll(retired, RetiredImages(c, current));
    var g := Pruned(c, ps, retired);
    assert ps[..0] == [];
    SourcesAtFirst(h, c, ps);
    forall id
      ensures id in g.cache.images <==> !Missing(h, c, ps, 0, id)
    {
      MissingAtFirst(h, c, ps, id);
    }
  }

  lemma RetainKeepsLinked(c: Cache, current: set<SourceKey>)
    requires Linked(c)
    ensures Linked(Retain(c, current)) && Retain(c, current).images == c.images
  {
  }

  lemma SourcesAtFirst(h: Hashes, c: Cache, ps: seq<Placement>)
    ensures SourcesAre(h, c, ps, 0, Retain(c, CurrentSources(ps)).sources)
  {
    hide Visible, HostImage, CurrentSources;
    assert forall s :: !UsedBefore(ps, 0, s);
  }

  lemma MissingAtFirst(h: Hashes, c: Cache, ps: seq<Placement>, id: ImageId)
    requires Linked(c)
    ensures var current := CurrentSources(ps);
            Missing(h, c, ps, 0, id)
            <==> id !in c.images || (id in RetiredImages(c, current) && !Retain(c, current).References(id))
  {
    hide Visible, HostImage, CurrentSources;
    var current := CurrentSources(ps);
    assert forall s :: s in Retain(c, current).sources <==> s in c.sources && s in current;
    assert forall s :: Stays(ps, 0, s) <==> s in current;
    if id in RetiredImages(c, current) {
      var s :| s in c.sources && s !in current && s.PaneLayer? && c.sources[s] == id;
      assert Backs(c, s, id) && Leaves(ps, 0, s);
    }
    if Retain(c, current).References(id) {
      var s :| s in Retain(c, current).sources && Retain(c, current).sources[s] == id;
      assert Backs(c, s, id) && Stays(ps, 0, s);
    }
  }

  /** What recording the image of a source does to the other sources' images and placements: only the
      image that the source leaves may go, and only if nothing else is backed by it. */
  lemma ReleaseKeepsReferenced(g: Progress, source: SourceKey, id: ImageId)
    requires Linked(g.cache) && id in g.cache.images
    ensures var r := Release(g, source, id);
            && Linked(r.cache) && r.cache.sources == g.cache.sources[source := id]
            && (forall k :: k in g.seen && r.cache.References(k.0) ==> k in r.seen)
            && r.seen <= g.seen
            && (forall k :: k in g.cache.placements && r.cache.References(k.0) ==>
                  k in r.cache.placements && r.cache.placements[k] == g.cache.placements[k])
    ensures var r := Release(g, source, id);
            forall i :: i in r.cache.images
                        <==> i in g.cache.images && !(i != id && Backs(g.cache, source, i) && !r.cache.References(i))
  {
    var c := g.cache.(sources := g.cache.sources[source := id]);
    var r := Release(g, source, id);
    assert forall i :: r.cache.References(i) <==> c.References(i);
  }

  /** The state between releasing the superseded image and showing the placement. */
  function Released(h: Hashes, g: Progress, p: Placement): Progress {
    Release(ProvideImage(h, g.(seen := g.seen + {Key(h, p)}), p).0, p.source, HostImage(h, p))
  }

  lemma ReleasedState(h: Hashes, U: Universe, g: Progress, p: Placement)
    requires Linked(g.cache) && Visible(p) && (p.data != [] || HostImage(h, p) in g.cache.images)
    requires DistinctIds(h, U) && Keyed(h, U, g.cache) && (p.pane, p.signature) in U
    ensures forall viewChanged :: Place(h, g, p, viewChanged) == Show(h, Released(h, g, p), p, viewChanged)
    ensures var r := Released(h, g, p); var seen := g.seen + {Key(h, p)};
            && Linked(r.cache) && HostImage(h, p) in r.cache.images
            && r.cache.sources == g.cache.sources[p.source := HostImage(h, p)]
            && r.seen <= seen
            && (forall k :: k in seen && r.cache.References(k.0) ==> k in r.seen)
            && (forall k :: k in g.cache.placements && r.cache.References(k.0) ==>
                  k in r.cache.placements && r.cache.placements[k] == g.cache.placements[k])
    ensures var r := Released(h, g, p);
            forall i :: i in r.cache.images
                        <==> i == HostImage(h, p)
                             || (i in g.cache.images && !(Backs(g.cache, p.source, i) && !r.cache.References(i)))
  {
    var begun := g.(seen := g.seen + {Key(h, p)});
    ProvideKeyed(h, U, begun, p);
    hide DistinctIds, Keyed, ClippedPlacement, ProvideImage, Release;
    ReleaseKeepsReferenced(ProvideImage(h, begun, p).0, p.source, HostImage(h, p));
    var r := Released(h, g, p);
    assert r.cache.References(HostImage(h, p)) by {
      assert p.source in r.cache.sources;
    }
  }

  lemma CaughtStep(h: Hashes, U: Universe, c: Cache, ps: seq<Placement>, n: nat, g: Progress, viewChanged: bool)
    requires n < |ps| && Caught(h, c, ps, n, g) && !Loses(h, c, ps, n)
    requires DistinctIds(h, U) && Keyed(h, U, g.cache) && Within(U, ps) && OneImagePerSource(ps)
    ensures Caught(h, c, ps, n + 1, Place(h, g, ps[n], viewChanged))
  {
    hide DistinctIds, Keyed, Visible, ProvideImage, Release, SourcesAre, Missing, OneImagePerSource, Linked;
    var p := ps[n];
    assert ps[..n + 1][..n] == ps[..n] && ps[..n + 1][n] == p;
    if Visible(p) {
      CaughtPlaced(h, U, c, ps, n, g, viewChanged);
    } else {
      InvisibleRound(h, c, ps, n);
    }
  }

  lemma CaughtPlaced(h: Hashes, U: Universe, c: Cache, ps: seq<Placement>, n: nat, g: Progress, viewChanged: bool)
    requires n < |ps| && Caught(h, c, ps, n, g) && !Loses(h, c, ps, n) && Visible(ps[n])
    requires DistinctIds(h, U) && Keyed(h, U, g.cache) && Within(U, ps) && OneImagePerSource(ps)
    ensures Caught(h, c, ps, n + 1, Place(h, g, ps[n], viewChanged))
  {
    hide DistinctIds, Keyed, Visible, Released, OneImagePerSource, HostImage, Linked, Place,
         SourcesAre, Missing, Wanted;
    var p := ps[n];
    ReleasedState(h, U, g, p);
    var released := Released(h, g, p);
    SourcesStep(h, c, ps, n, g.cache.sources);
    DrawnAreReferenced(h, c, ps, n + 1, released.cache);
    CaughtKeys(h, ps, n, g, released, viewChanged);
    forall id
      ensures id in released.cache.images <==> !Missing(h, c, ps, n + 1, id)
    {
      MissingStep(h, c, ps, n, g.cache, released.cache, id);
    }
  }

  lemma DrawnAreReferenced(h: Hashes, c: Cache, ps: seq<Placement>, n: nat, d: Cache)
    requires n <= |ps| && SourcesAre(h, c, ps, n, d.sources)
    ensures forall i :: 0 <= i < n && Visible(ps[i]) ==> d.References(HostImage(h, ps[i]))
    ensures forall i :: 0 <= i < n && Visible(ps[i]) ==> Backs(d, ps[i].source, HostImage(h, ps[i]))
  {
    hide Visible, HostImage, CurrentSources;
    forall i | 0 <= i < n && Visible(ps[i])
      ensures Backs(d, ps[i].source, HostImage(h, ps[i]))
    {
      assert Uses(ps, i, ps[i].source);
    }
  }

  lemma CaughtKeys(h: Hashes, ps: seq<Placement>, n: nat, g: Progress, released: Progress, viewChanged: bool)
    requires n < |ps| && Visible(ps[n]) && Linked(released.cache) && Shows(h, ps, n, g)
    requires released.seen <= g.seen + {Key(h, ps[n])}
    requires forall k :: k in g.seen + {Key(h, ps[n])} && released.cache.References(k.0) ==> k in released.seen
    requires forall k :: k in g.cache.placements && released.cache.References(k.0) ==>
               k in released.cache.placements && released.cache.placements[k] == g.cache.placements[k]
    requires HostImage(h, ps[n]) in released.cache.images
    requires forall i :: 0 <= i < n + 1 && Visible(ps[i]) ==> released.cache.References(HostImage(h, ps[i]))
    ensures var done := Show(h, released, ps[n], viewChanged);
            && Linked(done.cache) && Shows(h, ps, n + 1, done)
            && done.cache.sources == released.cache.sources && done.cache.images == released.cache.images
  {
    hide ClippedPlacement;
    var p := ps[n];
    var key := Key(h, p);
    assert ps[..n + 1][..n] == ps[..n] && ps[..n + 1][n] == p;
    var wanted := Wanted(h, ps[..n + 1]);
    assert wanted == Wanted(h, ps[..n])[key := SignatureOf(p)];
    forall k | k in wanted
      ensures released.cache.References(k.0)
    {
      if k != key {
        var i := WantedComesFrom(h, ps[..n], k);
        assert ps[..n][i] == ps[i];
      }
    }
    assert released.seen == wanted.Keys;
  }

  /** What a frame needs for its update to be followed: distinct image ids and one image for each source.
      Which placements bring their data is left open. */
  ghost predicate Proper(h: Hashes, U: Universe, c: Cache, ps: seq<Placement>) {
    DistinctIds(h, U) && Within(U, ps) && Keyed(h, U, c) && OneImagePerSource(ps)
  }

  /** The placement loop in front of round `n`. */
  function InFront(h: Hashes, c: Cache, ps: seq<Placement>, n: nat, viewChanged: bool, retired: seq<ImageId>): Progress
    requires n <= |ps|
  {
    PlaceAll(h, Pruned(c, ps, retired), ps[..n], viewChanged)
  }

  lemma InFrontStep(h: Hashes, c: Cache, ps: seq<Placement>, n: nat, viewChanged: bool, retired: seq<ImageId>)
    requires n < |ps|
    ensures InFront(h, c, ps, n + 1, viewChanged, retired)
            == Place(h, InFront(h, c, ps, n, viewChanged, retired), ps[n], viewChanged)
  {
    hide PlaceAll, Place, Pruned;
    PlaceAllAppend(h, Pruned(c, ps, retired), ps[..n], ps[n], viewChanged);
    assert ps[..n] + [ps[n]] == ps[..n + 1];
  }

  lemma {:induction false} LoopCatchesUp(
      h: Hashes, U: Universe, c: Cache, ps: seq<Placement>, n: nat, viewChanged: bool, retired: seq<ImageId>)
    requires n <= |ps| && Linked(c) && Proper(h, U, c, ps) && Lists(retired, RetiredImages(c, CurrentSources(ps)))
    requires forall i :: 0 <= i < n ==> !Loses(h, c, ps, i)
    ensures var g := InFront(h, c, ps, n, viewChanged, retired); Caught(h, c, ps, n, g) && Keyed(h, U, g.cache)
    decreases n
  {
    hide Caught, DistinctIds, Keyed, Place, OneImagePerSource, Loses, Lists, Within, InFront, Linked;
    if n == 0 {
      CaughtStart(h, c, ps, retired);
      PrunedKeyed(h, U, c, ps, retired);
      assert InFront(h, c, ps, 0, viewChanged, retired) == Pruned(c, ps, retired)
        by { NothingInFront(h, c, ps, viewChanged, retired); }
    } else {
      LoopCatchesUp(h, U, c, ps, n - 1, viewChanged, retired);
      var g := InFront(h, c, ps, n - 1, viewChanged, retired);
      InFrontStep(h, c, ps, n - 1, viewChanged, retired);
      CaughtStep(h, U, c, ps, n - 1, g, viewChanged);
      PlaceKeyed(h, U, g, ps[n - 1], viewChanged) by { WithinAt(U, ps, n - 1); }
    }
  }

  lemma NothingInFront(h: Hashes, c: Cache, ps: seq<Placement>, viewChanged: bool, retired: seq<ImageId>)
    ensures InFront(h, c, ps, 0, viewChanged, retired) == Pruned(c, ps, retired)
  {
    hide Pruned;
    assert ps[..0] == [];
  }

  lemma WithinAt(U: Universe, ps: seq<Placement>, i: nat)
    requires Within(U, ps) && i < |ps|
    ensures (ps[i].pane, ps[i].signature) in U
  {
  }

  /** If nothing is lost, the cache after an update lists exactly the visible placements; its sources are those
      of the frame, each visible one backed by its image; and its images are those that are not missing. */
  lemma {:induction false} UpdateCatchesUp(
      h: Hashes, U: Universe, c: Cache, ps: seq<Placement>, viewChanged: bool,
      retired: seq<ImageId>, stale: seq<PlacementKey>)
    requires Linked(c) && Proper(h, U, c, ps) && OrdersFit(h, c, ps, viewChanged, retired, stale)
    requires NothingLost(h, c, ps)
    ensures var d := Update(h, c, ps, viewChanged, retired, stale).0;
            && d.placements == Wanted(h, ps)
            && SourcesAre(h, c, ps, |ps|, d.sources)
            && ImagesAre(h, c, ps, |ps|, d.images.Keys)
            && Linked(d) && Keyed(h, U, d)
  {
    hide DistinctIds, Keyed, PlaceAll, OneImagePerSource, ClippedPlacement, Pruned, Missing, SourcesAre, Loses, Lists;
    LoopCatchesUp(h, U, c, ps, |ps|, viewChanged, retired);
    UpdateKeyed(h, U, c, ps, viewChanged, retired, stale);
    assert ps[..|ps|] == ps;
    var g := Placed(h, c, ps, viewChanged, retired);
    DeleteStaleKeeps(g.cache, stale);
    var d := Update(h, c, ps, viewChanged, retired, stale).0;
    assert d.placements == Wanted(h, ps) by {
      ListsAll(stale, StaleKeys(g));
      assert d.placements.Keys == g.seen;
    }
  }

  lemma ListsAll<T>(order: seq<T>, s: set<T>)
    requires Lists(order, s)
    ensures forall k :: k in order <==> k in s
  {
  }

  /* ---- exactness ---- */

  /** What the host shows. */
  function Pictured(wanted: map<PlacementKey, PlacementSignature>): map<PlacementKey, (Clipped, int)> {
    map k | k in wanted :: (wanted[k].clip, wanted[k].z)
  }

  /** The host shows exactly the clipped visible placements of the frame, each over an image that was
      uploaded with its signature. */
  predicate ShowsExactly(h: Hashes, host: Host, ps: seq<Placement>) {
    && host.placements == Pictured(Wanted(h, ps))
    && (forall i :: 0 <= i < |ps| && Visible(ps[i]) ==>
          HostImage(h, ps[i]) in host.images && Signature(h, host.images[HostImage(h, ps[i])]) == ps[i].signature)
  }

  lemma {:induction false} UpdateShowsExactly(
      h: Hashes, U: Universe, host: Host, c: Cache, ps: seq<Placement>, viewChanged: bool,
      retired: seq<ImageId>, stale: seq<PlacementKey>)
    requires Mirrors(h, host, c) && Linked(c) && AllHonest(h, ps)
    requires Proper(h, U, c, ps) && OrdersFit(h, c, ps, viewChanged, retired, stale) && NothingLost(h, c, ps)
    ensures ShowsExactly(h, Replay(host, Update(h, c, ps, viewChanged, retired, stale).1), ps)
  {
    hide Update, Mirrors, Keyed, DistinctIds, OneImagePerSource, ClippedPlacement, Wanted, NoCollision,
         OrdersFit, AllHonest,
         Missing, SourcesAre, NothingLost, Replay, ShowsExactly;
    var (d, cs) := Update(h, c, ps, viewChanged, retired, stale);
    UpdateCatchesUp(h, U, c, ps, viewChanged, retired, stale);
    UpdateKeyed(h, U, c, ps, viewChanged, retired, stale);
    UpdateMirrors(h, host, c, ps, viewChanged, retired, stale);
    DrawnAreReferenced(h, c, ps, |ps|, d);
    forall i | 0 <= i < |ps| && Visible(ps[i])
      ensures HostImage(h, ps[i]) in d.images && d.images[HostImage(h, ps[i])] == ps[i].signature
    {
      assert Backs(d, ps[i].source, HostImage(h, ps[i]));
      KeyedFinds(h, U, d, ps[i]);
    }
    MirrorShowsExactly(h, Replay(host, cs), d, ps);
  }

  /** What a mirrored host shows when the cache lists what the frame wants. */
  lemma {:induction false} MirrorShowsExactly(h: Hashes, host: Host, d: Cache, ps: seq<Placement>)
    requires Mirrors(h, host, d) && d.placements == Wanted(h, ps)
    requires forall i :: 0 <= i < |ps| && Visible(ps[i]) ==>
               HostImage(h, ps[i]) in d.images && d.images[HostImage(h, ps[i])] == ps[i].signature
    ensures ShowsExactly(h, host, ps)
  {
    hide Signature, ClippedPlacement, Wanted, HostImage;
    assert host.placements == Pictured(Wanted(h, ps));
  }

  /* ---- a placement that is lost ---- */

  /** A round lists no key but its own. */
  lemma PlaceAddsItsKey(h: Hashes, g: Progress, p: Placement, viewChanged: bool, k: PlacementKey)
    requires k in Place(h, g, p, viewChanged).cache.placements
    ensures k in g.cache.placements || (Visible(p) && k == Key(h, p))
  {
    hide ClippedPlacement;
  }

  lemma SkippedRound(h: Hashes, g: Progress, p: Placement, viewChanged: bool)
    requires p.data == [] && HostImage(h, p) !in g.cache.images
    ensures Place(h, g, p, viewChanged).cache == g.cache
  {
    hide ClippedPlacement;
  }

  /** No later visible placement of the frame has the key of position `i`. */
  predicate LastOfItsKey(h: Hashes, ps: seq<Placement>, i: nat) {
    i < |ps| && forall j :: i < j < |ps| && Visible(ps[j]) ==> Key(h, ps[j]) != Key(h, ps[i])
  }

  lemma {:induction false} StaysAway(
      h: Hashes, c: Cache, ps: seq<Placement>, i: nat, n: nat, viewChanged: bool, retired: seq<ImageId>)
    requires i < n <= |ps| && LastOfItsKey(h, ps, i)
    requires Key(h, ps[i]) !in InFront(h, c, ps, i + 1, viewChanged, retired).cache.placements
    ensures Key(h, ps[i]) !in InFront(h, c, ps, n, viewChanged, retired).cache.placements
    decreases n
  {
    hide InFront, Place, Visible, Key;
    if i + 1 < n {
      StaysAway(h, c, ps, i, n - 1, viewChanged, retired);
      InFrontStep(h, c, ps, n - 1, viewChanged, retired);
      var g := InFront(h, c, ps, n - 1, viewChanged, retired);
      if Key(h, ps[i]) in Place(h, g, ps[n - 1], viewChanged).cache.placements {
        PlaceAddsItsKey(h, g, ps[n - 1], viewChanged, Key(h, ps[i]));
      }
    }
  }

  /** The first lost placement of a frame is not shown, although it is visible. */
  lemma {:induction false} LostIsNotShown(
      h: Hashes, U: Universe, c: Cache, ps: seq<Placement>, i: nat, viewChanged: bool,
      retired: seq<ImageId>, stale: seq<PlacementKey>)
    requires Linked(c) && Proper(h, U, c, ps) && Lists(retired, RetiredImages(c, CurrentSources(ps)))
    requires Loses(h, c, ps, i) && (forall j :: 0 <= j < i ==> !Loses(h, c, ps, j)) && LastOfItsKey(h, ps, i)
    ensures Key(h, ps[i]) in Wanted(h, ps)
    ensures Key(h, ps[i]) !in Update(h, c, ps, viewChanged, retired, stale).0.placements
  {
    hide ClippedPlacement, Proper, Missing, Lists, InFront, SourcesAre, Wanted, LastOfItsKey, Place, Pruned;
    WantedHas(h, ps, i);
    LoopCatchesUp(h, U, c, ps, i, viewChanged, retired);
    var g := InFront(h, c, ps, i, viewChanged, retired);
    InFrontStep(h, c, ps, i, viewChanged, retired);
    SkippedRound(h, g, ps[i], viewChanged);
    StaysAway(h, c, ps, i, |ps|, viewChanged, retired);
    LoopIsInFront(h, c, ps, viewChanged, retired);
    DeleteStaleKeeps(Placed(h, c, ps, viewChanged, retired).cache, stale);
  }

  lemma LoopIsInFront(h: Hashes, c: Cache, ps: seq<Placement>, viewChanged: bool, retired: seq<ImageId>)
    ensures Placed(h, c, ps, viewChanged, retired) == InFront(h, c, ps, |ps|, viewChanged, retired)
  {
    hide PlaceAll, Pruned;
    assert ps[..|ps|] == ps;
  }

  /** Distinct placement ids: no two visible placements of the frame share a key. */
  predicate DistinctKeys(h: Hashes, ps: seq<Placement>) {
    forall i, j :: 0 <= i < j < |ps| && Visible(ps[i]) && Visible(ps[j]) ==> Key(h, ps[i]) != Key(h, ps[j])
  }

  lemma FirstLost(h: Hashes, c: Cache, ps: seq<Placement>) returns (i: nat)
    requires !NothingLost(h, c, ps)
    ensures Loses(h, c, ps, i) && forall j :: 0 <= j < i ==> !Loses(h, c, ps, j)
  {
    hide Loses;
    i := 0;
    while !Loses(h, c, ps, i)
      invariant i <= |ps| && forall j :: 0 <= j < i ==> !Loses(h, c, ps, j)
      decreases |ps| - i
    {
      i := i + 1;
    }
  }

  /** Exactness, with its exact condition: after an update the host shows exactly the clipped visible
      placements of the frame if nothing is lost and, with distinct placement ids, only if. A placement is
      lost when it brings no data, and its image, though perhaps cached, has been given up in front of it. */
  lemma {:induction false} UpdateIsExact(
      h: Hashes, U: Universe, host: Host, c: Cache, ps: seq<Placement>, viewChanged: bool,
      retired: seq<ImageId>, stale: seq<PlacementKey>)
    requires Mirrors(h, host, c) && Linked(c) && AllHonest(h, ps)
    requires Proper(h, U, c, ps) && OrdersFit(h, c, ps, viewChanged, retired, stale)
    ensures var after := Replay(host, Update(h, c, ps, viewChanged, retired, stale).1);
            && (NothingLost(h, c, ps) ==> ShowsExactly(h, after, ps))
            && (DistinctKeys(h, ps) ==> (ShowsExactly(h, after, ps) <==> NothingLost(h, c, ps)))
  {
    hide Update, Replay, Proper, Mirrors, AllHonest, NoCollision;
    if NothingLost(h, c, ps) {
      UpdateShowsExactly(h, U, host, c, ps, viewChanged, retired, stale);
    } else if DistinctKeys(h, ps) {
      LostIsVisible(h, U, host, c, ps, viewChanged, retired, stale);
    }
  }

  lemma {:induction false} LostIsVisible(
      h: Hashes, U: Universe, host: Host, c: Cache, ps: seq<Placement>, viewChanged: bool,
      retired: seq<ImageId>, stale: seq<PlacementKey>)
    requires Mirrors(h, host, c) && Linked(c) && AllHonest(h, ps)
    requires Proper(h, U, c, ps) && OrdersFit(h, c, ps, viewChanged, retired, stale)
    requires !NothingLost(h, c, ps) && DistinctKeys(h, ps)
    ensures !ShowsExactly(h, Replay(host, Update(h, c, ps, viewChanged, retired, stale).1), ps)
  {
    hide Update, DistinctIds, Keyed, OneImagePerSource, Within, AllHonest, NoCollision, Missing,
         Lists, Wanted, ClippedPlacement, Signature;
    UpdateKeyed(h, U, c, ps, viewChanged, retired, stale);
    UpdateMirrors(h, host, c, ps, viewChanged, retired, stale);
    var i := FirstLost(h, c, ps);
    LostIsNotShown(h, U, c, ps, i, viewChanged, retired, stale);
  }

  /* ---- painting a frame again after a loss ---- */

  /** Every image that is cached and has been drawn in front of round `n` backs the source of a placement
      that draws it. This holds whether or not placements have been lost. */
  ghost predicate DrawnAreBacked(h: Hashes, ps: seq<Placement>, n: nat, c: Cache) {
    forall id :: id in c.images && DrawnBefore(h, ps, n, id) ==> HasBacker(h, ps, n, c, id)
  }

  predicate HasBacker(h: Hashes, ps: seq<Placement>, n: nat, c: Cache, id: ImageId) {
    exists j :: 0 <= j < n && Draws(h, ps, j, id) && Backs(c, ps[j].source, id)
  }

  lemma BackerStep(
      h: Hashes, U: Universe, ps: seq<Placement>, n: nat, g: Progress, viewChanged: bool)
    requires n < |ps| && Linked(g.cache) && DrawnAreBacked(h, ps, n, g.cache)
    requires DistinctIds(h, U) && Keyed(h, U, g.cache) && Within(U, ps) && OneImagePerSource(ps)
    ensures var r := Place(h, g, ps[n], viewChanged); Linked(r.cache) && DrawnAreBacked(h, ps, n + 1, r.cache)
  {
    hide DistinctIds, Keyed, Visible, Place, OneImagePerSource, HostImage, DrawnBefore, Linked, Released, HasBacker;
    var p, next := ps[n], Place(h, g, ps[n], viewChanged).cache;
    forall id | id in next.images && DrawnBefore(h, ps, n + 1, id)
      ensures HasBacker(h, ps, n + 1, next, id)
    {
      DrawnStep(h, ps, n, id);
      if Visible(p) && (p.data != [] || HostImage(h, p) in g.cache.images) {
        PlacedCache(h, U, g, p, viewChanged);
        BackerPlaced(h, ps, n, g.cache, next, id);
      } else {
        UnplacedCache(h, g, p, viewChanged);
        assert !Draws(h, ps, n, id);
        BackerStays(h, ps, n, next, id);
      }
    }
    if Visible(p) && (p.data != [] || HostImage(h, p) in g.cache.images) {
      PlacedCache(h, U, g, p, viewChanged);
    } else {
      UnplacedCache(h, g, p, viewChanged);
    }
  }

  /** A round that shows its placement: sources and images afterwards. */
  lemma PlacedCache(h: Hashes, U: Universe, g: Progress, p: Placement, viewChanged: bool)
    requires Linked(g.cache) && Visible(p) && (p.data != [] || HostImage(h, p) in g.cache.images)
    requires DistinctIds(h, U) && Keyed(h, U, g.cache) && (p.pane, p.signature) in U
    ensures var next := Place(h, g, p, viewChanged).cache;
            && Linked(next)
            && next.sources == g.cache.sources[p.source := HostImage(h, p)]
            && (forall id :: id in next.images ==> id == HostImage(h, p) || id in g.cache.images)
  {
    hide DistinctIds, Keyed, ClippedPlacement, Place, Released;
    ReleasedState(h, U, g, p);
    assert Place(h, g, p, viewChanged) == Show(h, Released(h, g, p), p, viewChanged);
  }

  /** A round that shows nothing leaves the cache as it is. */
  lemma UnplacedCache(h: Hashes, g: Progress, p: Placement, viewChanged: bool)
    requires !Visible(p) || (p.data == [] && HostImage(h, p) !in g.cache.images)
    ensures Place(h, g, p, viewChanged).cache == g.cache
  {
    if Visible(p) {
      SkippedRound(h, g, p, viewChanged);
    }
    hide ProvideImage, ClippedPlacement;
  }

  lemma BackerStays(h: Hashes, ps: seq<Placement>, n: nat, c: Cache, id: ImageId)
    requires HasBacker(h, ps, n, c, id)
    ensures HasBacker(h, ps, n + 1, c, id)
  {
    hide Visible, HostImage, Backs;
    var j :| 0 <= j < n && Draws(h, ps, j, id) && Backs(c, ps[j].source, id);
    assert 0 <= j < n + 1 && Draws(h, ps, j, id) && Backs(c, ps[j].source, id);
  }

  lemma BackerPlaced(h: Hashes, ps: seq<Placement>, n: nat, c: Cache, next: Cache, id: ImageId)
    requires n < |ps| && Visible(ps[n]) && OneImagePerSource(ps) && DrawnAreBacked(h, ps, n, c)
    requires next.sources == c.sources[ps[n].source := HostImage(h, ps[n])]
    requires DrawnBefore(h, ps, n, id) || Draws(h, ps, n, id)
    requires id == HostImage(h, ps[n]) || id in c.images
    ensures HasBacker(h, ps, n + 1, next, id)
  {
    hide Visible, OneImagePerSource, HostImage, DrawnBefore;
    if id == HostImage(h, ps[n]) {
      assert 0 <= n < n + 1 && Draws(h, ps, n, id) && Backs(next, ps[n].source, id);
    } else {
      assert HasBacker(h, ps, n, c, id);
      var j :| 0 <= j < n && Draws(h, ps, j, id) && Backs(c, ps[j].source, id);
      if ps[j].source == ps[n].source {
        SameSourceSameImage(h, ps, j, n);
      }
      assert 0 <= j < n + 1 && Draws(h, ps, j, id) && Backs(next, ps[j].source, id);
    }
  }

  lemma {:induction false} LoopBacksDrawn(
      h: Hashes, U: Universe, c: Cache, ps: seq<Placement>, n: nat, viewChanged: bool, retired: seq<ImageId>)
    requires n <= |ps| && Linked(c) && Proper(h, U, c, ps)
    ensures var g := InFront(h, c, ps, n, viewChanged, retired);
            DrawnAreBacked(h, ps, n, g.cache) && Linked(g.cache) && Keyed(h, U, g.cache)
    decreases n
  {
    hide DistinctIds, Keyed, Place, OneImagePerSource, Within, InFront, Linked, HasBacker;
    if n == 0 {
      PrunedLinked(c, ps, retired);
      PrunedKeyed(h, U, c, ps, retired);
      NothingInFront(h, c, ps, viewChanged, retired);
      assert forall id :: !DrawnBefore(h, ps, 0, id);
    } else {
      LoopBacksDrawn(h, U, c, ps, n - 1, viewChanged, retired);
      var g := InFront(h, c, ps, n - 1, viewChanged, retired);
      InFrontStep(h, c, ps, n - 1, viewChanged, retired);
      BackerStep(h, U, ps, n - 1, g, viewChanged);
      PlaceKeyed(h, U, g, ps[n - 1], viewChanged) by { WithinAt(U, ps, n - 1); }
    }
  }

  lemma PrunedLinked(c: Cache, ps: seq<Placement>, retired: seq<ImageId>)
    requires Linked(c)
    ensures Linked(Pruned(c, ps, retired).cache)
  {
    hide CurrentSources;
    RetainKeepsLinked(c, CurrentSources(ps));
    DeleteRetiredImages(Retain(c, CurrentSources(ps)), retired);
  }

  /** The rule by which data is left out: only for an image that is cached. */
  predicate LeavesOutCached(h: Hashes, c: Cache, ps: seq<Placement>) {
    forall i :: 0 <= i < |ps| && Visible(ps[i]) && ps[i].data == [] ==> HostImage(h, ps[i]) in c.images
  }

  lemma BackedIsNotLost(h: Hashes, d: Cache, ps: seq<Placement>, i: nat)
    requires i < |ps| && Linked(d) && OneImagePerSource(ps) && HasBacker(h, ps, |ps|, d, HostImage(h, ps[i]))
    ensures !Loses(h, d, ps, i)
  {
    hide Visible, OneImagePerSource, HostImage, CurrentSources, Loses, Linked;
    var id := HostImage(h, ps[i]);
    var j :| 0 <= j < |ps| && Draws(h, ps, j, id) && Backs(d, ps[j].source, id);
    UsedIsCurrent(ps, j, ps[j].source);
    forall k | 0 <= k < i && Uses(ps, k, ps[j].source)
      ensures HostImage(h, ps[k]) == id
    {
      SameSourceSameImage(h, ps, k, j);
    }
    StayingImageIsNotLost(h, d, ps, i, ps[j].source);
  }

  /** After an update, whatever it has lost, the same frame loses nothing when its data is left out by the rule. */
  lemma NothingLostAgain(
      h: Hashes, U: Universe, c: Cache, ps: seq<Placement>, again: seq<Placement>, viewChanged: bool,
      retired: seq<ImageId>, stale: seq<PlacementKey>)
    requires Linked(c) && Proper(h, U, c, ps) && SameButData(ps, again)
    requires LeavesOutCached(h, Update(h, c, ps, viewChanged, retired, stale).0, again)
    ensures NothingLost(h, Update(h, c, ps, viewChanged, retired, stale).0, again)
  {
    hide Update, Proper, SameButData, HasBacker, Missing, Visible, HostImage, DrawnAreBacked, Linked, OneImagePerSource;
    var d := Update(h, c, ps, viewChanged, retired, stale).0;
    UpdateBacksDrawn(h, U, c, ps, viewChanged, retired, stale);
    AgainIsProper(h, U, c, ps, again);
    assert OneImagePerSource(again) by { ProperHasOneImage(h, U, c, again); }
    forall i | 0 <= i < |again|
      ensures !Loses(h, d, again, i)
    {
      if Visible(again[i]) && again[i].data == [] {
        DrawnAgain(h, ps, again, i, d);
        BackedIsNotLost(h, d, again, i);
      }
    }
  }

  lemma ProperHasOneImage(h: Hashes, U: Universe, c: Cache, ps: seq<Placement>)
    requires Proper(h, U, c, ps)
    ensures OneImagePerSource(ps)
  {
  }

  lemma UpdateBacksDrawn(
      h: Hashes, U: Universe, c: Cache, ps: seq<Placement>, viewChanged: bool,
      retired: seq<ImageId>, stale: seq<PlacementKey>)
    requires Linked(c) && Proper(h, U, c, ps)
    ensures var d := Update(h, c, ps, viewChanged, retired, stale).0; Linked(d) && DrawnAreBacked(h, ps, |ps|, d)
  {
    hide Proper, HasBacker, DrawnBefore, Pruned, PlaceAll, InFront;
    LoopBacksDrawn(h, U, c, ps, |ps|, viewChanged, retired);
    LoopIsInFront(h, c, ps, viewChanged, retired);
    var g := Placed(h, c, ps, viewChanged, retired);
    DeleteStaleKeeps(g.cache, stale);
    var d := Update(h, c, ps, viewChanged, retired, stale).0;
    assert d.images == g.cache.images && d.sources == g.cache.sources;
    forall id | id in d.images && DrawnBefore(h, ps, |ps|, id)
      ensures HasBacker(h, ps, |ps|, d, id)
    {
      SameBackers(h, ps, |ps|, g.cache, d, id);
    }
  }

  lemma SameBackers(h: Hashes, ps: seq<Placement>, n: nat, c: Cache, d: Cache, id: ImageId)
    requires d.sources == c.sources
    ensures HasBacker(h, ps, n, c, id) <==> HasBacker(h, ps, n, d, id)
  {
    hide Visible, HostImage;
  }

  lemma AgainIsProper(h: Hashes, U: Universe, c: Cache, ps: seq<Placement>, again: seq<Placement>)
    requires Proper(h, U, c, ps) && SameButData(ps, again)
    ensures Proper(h, U, c, again)
  {
    RepeatedFrame(h, ps, again);
    hide DistinctIds, Keyed, ClippedPlacement;
  }

  lemma DrawnAgain(h: Hashes, ps: seq<Placement>, again: seq<Placement>, i: nat, d: Cache)
    requires SameButData(ps, again) && i < |again| && Visible(again[i]) && HostImage(h, again[i]) in d.images
    requires DrawnAreBacked(h, ps, |ps|, d)
    ensures HasBacker(h, again, |again|, d, HostImage(h, again[i]))
  {
    RepeatedFrame(h, ps, again);
    hide Visible, HostImage, SameButData;
    var id := HostImage(h, again[i]);
    assert Draws(h, ps, i, id);
    var j :| 0 <= j < |ps| && Draws(h, ps, j, id) && Backs(d, ps[j].source, id);
    assert Draws(h, again, j, id) && Backs(d, again[j].source, id);
  }

  /** Recovery: whatever an update has lost, painting the same frame again, with data left out by the rule, loses
      nothing, and then the host shows exactly the frame. */
  lemma {:induction false} SecondUpdateRecovers(
      h: Hashes, U: Universe, host: Host, c: Cache, ps: seq<Placement>, again: seq<Placement>, viewChanged: bool,
      viewChanged': bool, retired: seq<ImageId>, stale: seq<PlacementKey>,
      retired': seq<ImageId>, stale': seq<PlacementKey>)
    requires Mirrors(h, host, c) && Linked(c) && AllHonest(h, ps) && AllHonest(h, again)
    requires Proper(h, U, c, ps) && SameButData(ps, again)
    requires LeavesOutCached(h, Update(h, c, ps, viewChanged, retired, stale).0, again)
    requires OrdersFit(h, Update(h, c, ps, viewChanged, retired, stale).0, again, viewChanged', retired', stale')
    ensures var (d, cs) := Update(h, c, ps, viewChanged, retired, stale);
            && NothingLost(h, d, again)
            && ShowsExactly(h, Replay(Replay(host, cs), Update(h, d, again, viewChanged', retired', stale').1), again)
  {
    hide Update, Replay, Mirrors, Linked, AllHonest, SameButData, OrdersFit, NothingLost, ShowsExactly, LeavesOutCached,
         Keyed, DistinctIds, Within, OneImagePerSource, NoCollision;
    var (d, cs) := Update(h, c, ps, viewChanged, retired, stale);
    NothingLostAgain(h, U, c, ps, again, viewChanged, retired, stale);
    UpdateKeyed(h, U, c, ps, viewChanged, retired, stale);
    UpdateMirrors(h, host, c, ps, viewChanged, retired, stale);
    AgainIsProper(h, U, c, ps, again);
    UpdateIsExact(h, U, Replay(host, cs), d, again, viewChanged', retired', stale');
  }

  /* ---- images that nothing needs ---- */

  /** Which images stay although no source is backed by them: exactly the cached ones that nothing visible
      in the frame shows and that only backed terminal sources which have gone from the frame, if any. Such
      sources are forgotten without a delete, and their images stay behind. */
  lemma UnbackedImagesStay(
      h: Hashes, U: Universe, c: Cache, ps: seq<Placement>, viewChanged: bool,
      retired: seq<ImageId>, stale: seq<PlacementKey>, id: ImageId)
    requires Linked(c) && Proper(h, U, c, ps) && OrdersFit(h, c, ps, viewChanged, retired, stale)
    requires NothingLost(h, c, ps)
    ensures var d := Update(h, c, ps, viewChanged, retired, stale).0;
            id in d.images && !d.References(id)
            <==> id in c.images && !DrawnBefore(h, ps, |ps|, id)
                 && forall s :: Backs(c, s, id) ==> s.Terminal? && s !in CurrentSources(ps)
  {
    hide Update, Proper, OrdersFit, NothingLost, Wanted, SourcesAre, CurrentSources, Visible, DrawnBefore;
    UpdateCatchesUp(h, U, c, ps, viewChanged, retired, stale);
    var d := Update(h, c, ps, viewChanged, retired, stale).0;
    ReferencedImages(h, c, ps, |ps|, d, id);
    forall s
      ensures s !in CurrentSources(ps) ==> !UsedBefore(ps, |ps|, s)
    {
      if UsedBefore(ps, |ps|, s) {
        var j :| 0 <= j < |ps| && Uses(ps, j, s);
        UsedIsCurrent(ps, j, s);
      }
    }
  }

  lemma UsedIsCurrent(ps: seq<Placement>, j: nat, s: SourceKey)
    requires Uses(ps, j, s)
    ensures s in CurrentSources(ps)
  {
    hide Visible;
  }

  /* ---- repeating a frame ---- */

  /** The same placements; only the data that comes along may differ. */
  predicate SameButData(a: seq<Placement>, b: seq<Placement>) {
    |a| == |b| && forall i :: 0 <= i < |a| ==> b[i] == a[i].(data := b[i].data)
  }

  /** Distinct placement ids: visible placements under one key are drawn alike. */
  predicate DistinctPlacements(h: Hashes, ps: seq<Placement>) {
    forall i, j ::
      && 0 <= i < |ps| && 0 <= j < |ps| && Visible(ps[i]) && Visible(ps[j])
      && Key(h, ps[i]) == Key(h, ps[j])
      ==> SignatureOf(ps[i]) == SignatureOf(ps[j])
  }

  lemma ClipIgnoresData(p: Placement, data: bytes)
    ensures ClippedPlacement(p.(data := data)) == ClippedPlacement(p)
  {
    hide ClipAxis, CutCells;
  }

  lemma {:induction false} RepeatIsSilent(h: Hashes, U: Universe, c: Cache, ps: seq<Placement>, g: Progress, n: nat)
    requires DistinctIds(h, U) && Keyed(h, U, c) && Within(U, ps) && Linked(c) && DistinctPlacements(h, ps)
    requires c.placements == Wanted(h, ps)
    requires forall i :: 0 <= i < |ps| && Visible(ps[i]) ==> Backs(c, ps[i].source, HostImage(h, ps[i]))
    requires n <= |ps| && g.cache == c && g.commands == []
    requires forall i :: 0 <= i < n && Visible(ps[i]) ==> Key(h, ps[i]) in g.seen
    ensures var r := PlaceAll(h, g, ps[n..], false);
            && r.cache == c && r.commands == []
            && (forall i :: 0 <= i < |ps| && Visible(ps[i]) ==> Key(h, ps[i]) in r.seen)
    decreases |ps| - n
  {
    hide DistinctIds, Keyed, ClippedPlacement, Place, Wanted;
    if n < |ps| {
      assert ps[n..][0] == ps[n] && ps[n..][1..] == ps[n + 1..];
      PlaceIsSilent(h, U, c, ps, g, n);
      RepeatIsSilent(h, U, c, ps, Place(h, g, ps[n], false), n + 1);
    }
  }

  lemma {:induction false} PlaceIsSilent(h: Hashes, U: Universe, c: Cache, ps: seq<Placement>, g: Progress, n: nat)
    requires DistinctIds(h, U) && Keyed(h, U, c) && Within(U, ps) && Linked(c) && DistinctPlacements(h, ps)
    requires c.placements == Wanted(h, ps) && n < |ps| && g.cache == c
    requires Visible(ps[n]) ==> Backs(c, ps[n].source, HostImage(h, ps[n]))
    ensures var r := Place(h, g, ps[n], false);
            r == if Visible(ps[n]) then g.(seen := g.seen + {Key(h, ps[n])}) else g
  {
    var p := ps[n];
    var begun := g.(seen := g.seen + {Key(h, p)});
    if Visible(p) {
      ProvideKeyed(h, U, begun, p);
      hide DistinctIds, Keyed, ClippedPlacement, ProvideImage;
      WantedHas(h, ps, n);
      var i := WantedComesFrom(h, ps, Key(h, p));
      hide Wanted;
      assert c.placements[Key(h, p)] == SignatureOf(p);
      assert c.sources[p.source := HostImage(h, p)] == c.sources;
      assert Release(begun, p.source, HostImage(h, p)) == begun;
    }
  }

  /** Idempotence: updating with a frame that was just shown with nothing lost, in the same view and whatever
      data comes along, emits nothing and leaves the cache as it is. */
  lemma RepeatedUpdateIsSilent(
      h: Hashes, U: Universe, c: Cache, ps: seq<Placement>, again: seq<Placement>, viewChanged: bool,
      retired: seq<ImageId>, stale: seq<PlacementKey>, retired': seq<ImageId>, stale': seq<PlacementKey>)
    requires Linked(c) && Proper(h, U, c, ps) && OrdersFit(h, c, ps, viewChanged, retired, stale)
    requires NothingLost(h, c, ps)
    requires SameButData(ps, again) && DistinctPlacements(h, ps)
    requires OrdersFit(h, Update(h, c, ps, viewChanged, retired, stale).0, again, false, retired', stale')
    ensures var d := Update(h, c, ps, viewChanged, retired, stale).0;
            Update(h, d, again, false, retired', stale') == (d, [])
  {
    hide PlaceAll, Keyed, DistinctIds, ClippedPlacement, Wanted, Missing, NothingLost, Loses, SourcesAre;
    UpdateCatchesUp(h, U, c, ps, viewChanged, retired, stale);
    var d := Update(h, c, ps, viewChanged, retired, stale).0;
    DrawnAreReferenced(h, c, ps, |ps|, d);
    SourcesAreCurrent(h, c, ps, |ps|, d.sources);
    RepeatedFrame(h, ps, again);
    hide Update, OrdersFit, SameButData;
    SilentUpdate(h, U, d, again, retired', stale');
  }

  lemma SourcesAreCurrent(h: Hashes, c: Cache, ps: seq<Placement>, n: nat, now: map<SourceKey, ImageId>)
    requires n <= |ps| && SourcesAre(h, c, ps, n, now)
    ensures now.Keys <= CurrentSources(ps)
  {
    hide Visible, HostImage, CurrentSources;
    forall s | s in now
      ensures s in CurrentSources(ps)
    {
      if UsedBefore(ps, n, s) {
        var j :| 0 <= j < n && Uses(ps, j, s);
        UsedIsCurrent(ps, j, s);
      }
    }
  }

  lemma {:induction false} RepeatedFrame(h: Hashes, ps: seq<Placement>, again: seq<Placement>)
    requires SameButData(ps, again)
    ensures Wanted(h, again) == Wanted(h, ps) && CurrentSources(again) == CurrentSources(ps)
    ensures forall i :: 0 <= i < |ps| ==>
              Visible(again[i]) == Visible(ps[i]) && again[i].source == ps[i].source
              && HostImage(h, again[i]) == HostImage(h, ps[i]) && Key(h, again[i]) == Key(h, ps[i])
              && again[i].pane == ps[i].pane && again[i].signature == ps[i].signature
              && (Visible(ps[i]) ==> SignatureOf(again[i]) == SignatureOf(ps[i]))
    decreases |ps|
  {
    forall i | 0 <= i < |ps|
      ensures ClippedPlacement(again[i]) == ClippedPlacement(ps[i])
    {
      ClipIgnoresData(ps[i], again[i].data);
    }
    hide ClippedPlacement;
    if ps != [] {
      var last := |ps| - 1;
      RepeatedFrame(h, ps[..last], again[..last]);
    }
    assert CurrentSources(again) == CurrentSources(ps);
  }

  lemma ListsNothing<T>(order: seq<T>, s: set<T>)
    requires Lists(order, s) && s == {}
    ensures order == []
  {
    if |order| > 0 {
      ListsFirst(order, s);
    }
  }

  lemma ListsFirst<T>(order: seq<T>, s: set<T>)
    requires Lists(order, s) && |order| > 0
    ensures order[0] in s
  {
  }

  lemma {:induction false} SilentUpdate(h: Hashes, U: Universe, d: Cache, ps: seq<Placement>,
      retired: seq<ImageId>, stale: seq<PlacementKey>)
    requires DistinctIds(h, U) && Keyed(h, U, d) && Within(U, ps) && Linked(d) && DistinctPlacements(h, ps)
    requires d.placements == Wanted(h, ps) && d.sources.Keys <= CurrentSources(ps)
    requires forall i :: 0 <= i < |ps| && Visible(ps[i]) ==> Backs(d, ps[i].source, HostImage(h, ps[i]))
    requires OrdersFit(h, d, ps, false, retired, stale)
    ensures Update(h, d, ps, false, retired, stale) == (d, [])
  {
    hide PlaceAll, Keyed, DistinctIds, ClippedPlacement, Wanted;
    assert RetiredImages(d, CurrentSources(ps)) == {};
    ListsNothing(retired, RetiredImages(d, CurrentSources(ps)));
    assert Retain(d, CurrentSources(ps)) == d;
    var g := Pruned(d, ps, retired);
    assert g == Progress(d, {}, []);
    RepeatIsSilent(h, U, d, ps, g, 0);
    assert ps[0..] == ps;
    var r := Placed(h, d, ps, false, retired);
    assert StaleKeys(r) == {} by {
      forall k | k in d.placements
        ensures k in r.seen
      {
        var i := WantedComesFrom(h, ps, k);
      }
    }
    ListsNothing(stale, StaleKeys(r));
    var none: seq<Command> := [];
    assert none + none == none;
    assert Update(h, d, ps, false, retired, stale) == (r.cache, r.commands + none);
  }

  /* ---- runs with distinct ids ---- */

  predicate FramesWithin(h: Hashes, U: Universe, ops: seq<Op>) {
    forall i :: 0 <= i < |ops| && ops[i].Paint? ==> Within(U, ops[i].frame) && AllHonest(h, ops[i].frame)
  }

  /** The orders of iteration are orders of the sets met on the way. */
  predicate OrdersFitAll(h: Hashes, s: Session, ops: seq<Op>)
    decreases |ops|
  {
    ops == [] || (
      && (match ops[0]
          case Paint(view, frame, retired, stale) => OrdersFit(h, s.cache, frame, s.view != view, retired, stale)
          case Clear(ids) => Lists(ids, s.cache.images.Keys))
      && OrdersFitAll(h, Perform(h, s, ops[0]).0, ops[1..]))
  }

  lemma {:induction false} DistinctRunsAllowed(h: Hashes, U: Universe, s: Session, ops: seq<Op>)
    requires DistinctIds(h, U) && Keyed(h, U, s.cache)
    requires FramesWithin(h, U, ops) && OrdersFitAll(h, s, ops)
    ensures AllAllowed(h, s, ops)
    decreases |ops|
  {
    hide DistinctIds, OrdersFit, NoCollision, Update, Pruned, Within, AllHonest;
    if ops != [] {
      var next := Perform(h, s, ops[0]).0;
      match ops[0] {
        case Paint(view, frame, retired, stale) =>
          UpdateKeyed(h, U, s.cache, frame, s.view != view, retired, stale);
        case Clear(ids) =>
      }
      DistinctRunsAllowed(h, U, next, ops[1..]);
    }
  }

  /** Mirror refinement without collisions: with distinct image ids, every run of honest frames and
      clears from a fresh cache leaves on an empty host exactly what the cache lists. */
  lemma {:induction false} DistinctRunMirrors(h: Hashes, U: Universe, ops: seq<Op>)
    requires DistinctIds(h, U) && FramesWithin(h, U, ops) && OrdersFitAll(h, FRESH, ops)
    ensures var (t, cs) := PerformAll(h, FRESH, ops);
            Mirrors(h, Replay(EMPTY_HOST, cs), t.cache) && Linked(t.cache)
  {
    assert Keyed(h, U, EMPTY_CACHE);
    DistinctRunsAllowed(h, U, FRESH, ops);
    RunMirrors(h, EMPTY_HOST, FRESH, ops);
  }

  /** A run from a fresh cache keeps it keyed. */
  lemma {:induction false} RunKeyed(h: Hashes, U: Universe, s: Session, ops: seq<Op>)
    requires DistinctIds(h, U) && Keyed(h, U, s.cache) && FramesWithin(h, U, ops)
    ensures Keyed(h, U, PerformAll(h, s, ops).0.cache)
    decreases |ops|
  {
    hide DistinctIds, Update, Within, AllHonest;
    if ops != [] {
      var next := Perform(h, s, ops[0]).0;
      match ops[0] {
        case Paint(view, frame, retired, stale) =>
          UpdateKeyed(h, U, s.cache, frame, s.view != view, retired, stale);
        case Clear(ids) =>
      }
      RunKeyed(h, U, next, ops[1..]);
    }
  }

  /** Exactness over whole runs: after any run of honest frames and clears from a fresh cache, one more frame
      leaves on the host exactly what that frame wants, if nothing is lost, and with distinct placement ids
      only if. Nothing of the frames before it remains to be seen. */
  lemma {:induction false} RunShowsLastFrame(
      h: Hashes, U: Universe, ops: seq<Op>, view: Option<nat>, frame: seq<Placement>,
      retired: seq<ImageId>, stale: seq<PlacementKey>)
    requires DistinctIds(h, U) && FramesWithin(h, U, ops) && OrdersFitAll(h, FRESH, ops)
    requires Within(U, frame) && AllHonest(h, frame) && OneImagePerSource(frame)
    requires var s := PerformAll(h, FRESH, ops).0; OrdersFit(h, s.cache, frame, s.view != view, retired, stale)
    ensures var (s, cs) := PerformAll(h, FRESH, ops);
            var more := Perform(h, s, Op.Paint(view, frame, retired, stale)).1;
            var after := Replay(EMPTY_HOST, cs + more);
            && (NothingLost(h, s.cache, frame) ==> ShowsExactly(h, after, frame))
            && (DistinctKeys(h, frame) ==> (ShowsExactly(h, after, frame) <==> NothingLost(h, s.cache, frame)))
  {
    assert Keyed(h, U, EMPTY_CACHE);
    hide Update, PerformAll, OrdersFitAll, FramesWithin, OrdersFit, NothingLost, ShowsExactly, DistinctKeys,
         Mirrors, Linked, Keyed,
         DistinctIds, AllHonest, Within, OneImagePerSource;
    var (s, cs) := PerformAll(h, FRESH, ops);
    RunKeyed(h, U, FRESH, ops);
    DistinctRunMirrors(h, U, ops);
    var host := Replay(EMPTY_HOST, cs);
    UpdateIsExact(h, U, host, s.cache, frame, s.view != view, retired, stale);
    ReplayAppend(EMPTY_HOST, cs, Perform(h, s, Op.Paint(view, frame, retired, stale)).1);
  }
}
