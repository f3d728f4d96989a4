/** The cache mirrors the host: what it lists is what the emitted commands have left there. */
module KittyMirror {
  import opened Options
  import opened KittyGraphics

  /** The signature that uploaded content is cached under. */
  function Signature(h: Hashes, c: Content): ImageSignature {
    ImageSignature(c.width, c.height, c.format, |c.data|, h.fingerprint(c.data))
  }

  /** Data that is sent along is the data the signature was computed from. */
  predicate HonestData(h: Hashes, p: Placement) {
    p.data != [] ==> p.signature.dataLength == |p.data| && p.signature.fingerprint == h.fingerprint(p.data)
  }

  predicate Mirrors(h: Hashes, host: Host, c: Cache) {
    && host.images.Keys == c.images.Keys
    && (forall id :: id in c.images ==> Signature(h, host.images[id]) == c.images[id])
    && host.placements.Keys == c.placements.Keys
    && (forall k :: k in c.placements ==> host.placements[k] == (c.placements[k].clip, c.placements[k].z))
  }

  /** Every source and every placement points to a cached image. */
  predicate Linked(c: Cache) {
    && (forall s :: s in c.sources ==> c.sources[s] in c.images)
    && (forall k :: k in c.placements ==> k.0 in c.images)
  }

  /** The one case in which the mirror breaks: another image is cached under the id of a visible
      placement, and that placement brings no data. The image is deleted but stays in the cache. */
  predicate CollidesWithoutData(h: Hashes, c: Cache, p: Placement) {
    && Visible(p) && p.data == []
    && HostImage(h, p) in c.images && c.images[HostImage(h, p)] != p.signature
  }

  /** The host as the commands of a placement loop have left it. */
  function Reached(host: Host, g: Progress): Host { Replay(host, g.commands) }

  lemma {:induction false} ReachedAppend(host: Host, g: Progress, c: Command)
    ensures Replay(host, g.commands + [c]) == Execute(Reached(host, g), c)
  {
    ReplayAppend(host, g.commands, [c]);
    var there := Reached(host, g);
    assert [c][1..] == [];
    assert Replay(there, [c]) == Replay(Execute(there, c), []);
  }

  lemma ReleaseMirrors(h: Hashes, host: Host, g: Progress, source: SourceKey, id: ImageId)
    requires Mirrors(h, Reached(host, g), g.cache) && Linked(g.cache) && id in g.cache.images
    ensures var r := Release(g, source, id);
            && Mirrors(h, Reached(host, r), r.cache) && Linked(r.cache)
            && id in r.cache.images && r.cache.images[id] == g.cache.images[id]
  {
    hide Signature;
    var c := g.cache.(sources := g.cache.sources[source := id]);
    if !(source !in g.cache.sources || g.cache.sources[source] == id || c.References(g.cache.sources[source])) {
      ReachedAppend(host, g, DeleteImage(g.cache.sources[source]));
    }
  }

  lemma UploadMirrors(h: Hashes, host: Host, g: Progress, p: Placement)
    requires HonestData(h, p) && p.data != []
    requires var there := Reached(host, g); var id := HostImage(h, p);
             && (forall i :: i != id ==> (i in g.cache.images <==> i in there.images))
             && (forall i :: i in g.cache.images && i in there.images && i != id ==>
                   Signature(h, there.images[i]) == g.cache.images[i])
             && there.placements.Keys == g.cache.placements.Keys
             && (forall k :: k in g.cache.placements ==>
                   k.0 != id && there.placements[k] == (g.cache.placements[k].clip, g.cache.placements[k].z))
    ensures var (u, ok) := UploadImage(h, g, p);
            ok && Mirrors(h, Reached(host, u), u.cache)
  {
    var id := HostImage(h, p);
    ReachedAppend(host, g, Upload(id, ContentOf(p)));
    var there := Reached(host, g);
    assert WithoutImage(there.placements, id) == there.placements;
    var u := UploadImage(h, g, p).0;
    assert Reached(host, u).images == there.images[id := ContentOf(p)];
  }

  lemma ClearedHost(h: Hashes, host: Host, g: Progress, id: ImageId)
    requires Mirrors(h, Reached(host, g), g.cache) && Linked(g.cache)
    ensures var there := Reached(host, Cleared(g, id)); var was := Reached(host, g);
            && there.images == was.images - {id}
            && there.placements == WithoutImage(was.placements, id)
            && Linked(Cleared(g, id).cache)
  {
    hide Mirrors;
    ReachedAppend(host, g, DeleteImage(id));
  }

  lemma CollidingMirrors(h: Hashes, host: Host, g: Progress, p: Placement)
    requires Mirrors(h, Reached(host, g), g.cache) && Linked(g.cache) && HonestData(h, p)
    requires var id := HostImage(h, p); id in g.cache.images && g.cache.images[id] != p.signature
    ensures var (r, ok) := ProvideImage(h, g, p); var id := HostImage(h, p);
            && Linked(r.cache)
            && (Mirrors(h, Reached(host, r), r.cache) <==> p.data != [])
            && (ok <==> p.data != [])
            && (ok ==> id in r.cache.images && r.cache.images[id] == p.signature)
  {
    hide Signature, Reached, HostImage, HonestData;
    var id := HostImage(h, p);
    ClearedHost(h, host, g, id);
    if p.data != [] {
      UploadMirrors(h, host, Cleared(g, id), p);
    } else {
      assert id !in Reached(host, Cleared(g, id)).images && id in Cleared(g, id).cache.images;
    }
  }

  lemma ProvideMirrors(h: Hashes, host: Host, g: Progress, p: Placement)
    requires Mirrors(h, Reached(host, g), g.cache) && Linked(g.cache) && HonestData(h, p) && Visible(p)
    ensures var (r, ok) := ProvideImage(h, g, p); var id := HostImage(h, p);
            && Linked(r.cache)
            && (Mirrors(h, Reached(host, r), r.cache) <==> !CollidesWithoutData(h, g.cache, p))
            && (ok ==> id in r.cache.images && r.cache.images[id] == p.signature)
            && (CollidesWithoutData(h, g.cache, p) ==> !ok)
  {
    var id := HostImage(h, p);
    hide Signature, Visible, HostImage, HonestData, Reached;
    if id !in g.cache.images {
      if p.data != [] {
        UploadMirrors(h, host, g, p);
      }
    } else if g.cache.images[id] != p.signature {
      CollidingMirrors(h, host, g, p);
    }
  }

  lemma ShowMirrors(h: Hashes, host: Host, g: Progress, p: Placement, viewChanged: bool)
    requires Mirrors(h, Reached(host, g), g.cache) && Linked(g.cache) && Visible(p) && HostImage(h, p) in g.cache.images
    ensures var r := Show(h, g, p, viewChanged);
            Mirrors(h, Reached(host, r), r.cache) && Linked(r.cache)
  {
    hide Signature, ClippedPlacement;
    var signature := SignatureOf(p);
    ReachedAppend(host, g, Display(Key(h, p), signature.clip, p.z));
  }

  /** One round of the placement loop keeps the mirror if and only if it is not the collision without data. */
  lemma PlaceMirrors(h: Hashes, host: Host, g: Progress, p: Placement, viewChanged: bool)
    requires Mirrors(h, Reached(host, g), g.cache) && Linked(g.cache) && HonestData(h, p)
    ensures var r := Place(h, g, p, viewChanged);
            && Linked(r.cache)
            && (Mirrors(h, Reached(host, r), r.cache) <==> !CollidesWithoutData(h, g.cache, p))
  {
    hide Signature, ClippedPlacement, ProvideImage, Release, Show, Mirrors, Linked, HonestData;
    if Visible(p) {
      var begun := g.(seen := g.seen + {Key(h, p)});
      assert Reached(host, begun) == Reached(host, g) && begun.cache == g.cache;
      ProvideMirrors(h, host, begun, p);
      var (provided, ok) := ProvideImage(h, begun, p);
      if ok {
        ReleaseMirrors(h, host, provided, p.source, HostImage(h, p));
        ShowMirrors(h, host, Release(provided, p.source, HostImage(h, p)), p, viewChanged);
      }
    }
  }

  /** No round of a placement loop meets the collision without data. */
  predicate NoCollision(h: Hashes, g: Progress, ps: seq<Placement>, viewChanged: bool)
    decreases |ps|
  {
    ps == [] || (!CollidesWithoutData(h, g.cache, ps[0])
      && NoCollision(h, Place(h, g, ps[0], viewChanged), ps[1..], viewChanged))
  }

  predicate AllHonest(h: Hashes, ps: seq<Placement>) { forall i :: 0 <= i < |ps| ==> HonestData(h, ps[i]) }

  lemma {:induction false} PlaceAllMirrors(h: Hashes, host: Host, g: Progress, ps: seq<Placement>, viewChanged: bool)
    requires Mirrors(h, Reached(host, g), g.cache) && Linked(g.cache)
    requires AllHonest(h, ps) && NoCollision(h, g, ps, viewChanged)
    ensures var r := PlaceAll(h, g, ps, viewChanged);
            Mirrors(h, Reached(host, r), r.cache) && Linked(r.cache)
    decreases |ps|
  {
    hide Mirrors, Linked, Place, HonestData, CollidesWithoutData;
    if ps != [] {
      PlaceMirrors(h, host, g, ps[0], viewChanged);
      PlaceAllMirrors(h, host, Place(h, g, ps[0], viewChanged), ps[1..], viewChanged);
    }
  }

  lemma {:induction false} DeleteRetiredMirrors(h: Hashes, host: Host, c: Cache, ids: seq<ImageId>)
    requires Mirrors(h, host, c) && Linked(c)
    ensures var (d, cs) := DeleteRetired(c, ids);
            Mirrors(h, Replay(host, cs), d) && Linked(d) && d.sources == c.sources
    decreases |ids|
  {
    hide Signature;
    if ids != [] {
      if c.References(ids[0]) {
        DeleteRetiredMirrors(h, host, c, ids[1..]);
      } else {
        var (d, cs) := DeleteRetired(c.DropImage(ids[0]), ids[1..]);
        assert ([DeleteImage(ids[0])] + cs)[1..] == cs;
        DeleteRetiredMirrors(h, Execute(host, DeleteImage(ids[0])), c.DropImage(ids[0]), ids[1..]);
      }
    }
  }

  lemma {:induction false} DeleteStaleMirrors(h: Hashes, host: Host, c: Cache, keys: seq<PlacementKey>)
    requires Mirrors(h, host, c) && Linked(c)
    ensures var (d, cs) := DeleteStale(c, keys);
            && Mirrors(h, Replay(host, cs), d) && Linked(d)
            && d.images == c.images && d.sources == c.sources
            && d.placements == c.placements - (set k | k in keys)
    decreases |keys|
  {
    hide Signature;
    if keys != [] {
      var rest := c.(placements := c.placements - {keys[0]});
      var (d, cs) := DeleteStale(rest, keys[1..]);
      assert ([DeletePlacement(keys[0])] + cs)[1..] == cs;
      DeleteStaleMirrors(h, Execute(host, DeletePlacement(keys[0])), rest, keys[1..]);
      assert (set k | k in keys) == {keys[0]} + (set k | k in keys[1..]);
      assert c.placements - (set k | k in keys) == rest.placements - (set k | k in keys[1..]);
    }
  }

  lemma PrunedMirrors(h: Hashes, host: Host, c: Cache, ps: seq<Placement>, retired: seq<ImageId>)
    requires Mirrors(h, host, c) && Linked(c)
    ensures var g := Pruned(c, ps, retired);
            && Mirrors(h, Reached(host, g), g.cache) && Linked(g.cache)
            && g.cache.sources == Retain(c, CurrentSources(ps)).sources
  {
    DeleteRetiredMirrors(h, host, Retain(c, CurrentSources(ps)), retired);
  }

  /** An update keeps the mirror: replaying its commands on a mirrored host gives a host that the new
      cache mirrors. Needed of the frame: honest data and no collision without data. */
  lemma {:induction false} UpdateMirrors(
      h: Hashes, host: Host, c: Cache, ps: seq<Placement>, viewChanged: bool,
      retired: seq<ImageId>, stale: seq<PlacementKey>)
    requires Mirrors(h, host, c) && Linked(c) && AllHonest(h, ps)
    requires NoCollision(h, Pruned(c, ps, retired), ps, viewChanged)
    ensures var (d, cs) := Update(h, c, ps, viewChanged, retired, stale);
            Mirrors(h, Replay(host, cs), d) && Linked(d)
  {
    hide Mirrors, Linked, PlaceAll, NoCollision, AllHonest, Pruned;
    PrunedMirrors(h, host, c, ps, retired);
    PlaceAllMirrors(h, host, Pruned(c, ps, retired), ps, viewChanged);
    var g := Placed(h, c, ps, viewChanged, retired);
    DeleteStaleMirrors(h, Reached(host, g), g.cache, stale);
    ReplayAppend(host, g.commands, DeleteStale(g.cache, stale).1);
  }

  /* ---- clearing ---- */

  lemma {:induction false} ClearRemoves(host: Host, ids: seq<ImageId>)
    ensures Replay(host, ClearCommands(ids)).images == host.images - (set i | i in ids)
    ensures forall k :: k in Replay(host, ClearCommands(ids)).placements <==> k in host.placements && k.0 !in ids
    decreases |ids|
  {
    if ids != [] {
      var next := Execute(host, DeleteImage(ids[0]));
      assert ClearCommands(ids)[1..] == ClearCommands(ids[1..]);
      ClearRemoves(next, ids[1..]);
      assert (set i | i in ids) == {ids[0]} + (set i | i in ids[1..]);
      assert forall k :: k !in ids <==> k != ids[0] && k !in ids[1..];
    }
  }

  /** Clearing a linked, mirrored cache leaves nothing on the host: deleting the images is enough. */
  lemma {:induction false} ClearEmptiesHost(h: Hashes, host: Host, c: Cache, ids: seq<ImageId>)
    requires Mirrors(h, host, c) && Linked(c) && Lists(ids, c.images.Keys)
    ensures Replay(host, ClearCommands(ids)) == EMPTY_HOST
  {
    ClearRemoves(host, ids);
    var after := Replay(host, ClearCommands(ids));
    assert after.images == map[];
    assert after.placements == map[] by {
      assert forall k :: k in host.placements ==> k.0 in ids;
    }
  }

  /* ---- runs ---- */

  /** A frame to paint with its view, or a clear; with the orders of iteration that were met. */
  datatype Op =
    | Paint(view: Option<nat>, frame: seq<Placement>, retired: seq<ImageId>, stale: seq<PlacementKey>)
    | Clear(ids: seq<ImageId>)

  /** The cache together with the view that it was last painted for. */
  datatype Session = Session(cache: Cache, view: Option<nat>)

  const FRESH := Session(EMPTY_CACHE, None)

  function Perform(h: Hashes, s: Session, op: Op): (Session, seq<Command>) {
    match op
    case Paint(view, frame, retired, stale) =>
      var (d, cs) := Update(h, s.cache, frame, s.view != view, retired, stale);
      (Session(d, view), cs)
    case Clear(ids) => (FRESH, ClearCommands(ids))
  }

  predicate Allowed(h: Hashes, s: Session, op: Op) {
    match op
    case Paint(view, frame, retired, stale) =>
      && AllHonest(h, frame)
      && OrdersFit(h, s.cache, frame, s.view != view, retired, stale)
      && NoCollision(h, Pruned(s.cache, frame, retired), frame, s.view != view)
    case Clear(ids) => Lists(ids, s.cache.images.Keys)
  }

  function PerformAll(h: Hashes, s: Session, ops: seq<Op>): (Session, seq<Command>)
    decreases |ops|
  {
    if ops == [] then (s, [])
    else
      var (t, cs) := Perform(h, s, ops[0]);
      var (u, rest) := PerformAll(h, t, ops[1..]);
      (u, cs + rest)
  }

  predicate AllAllowed(h: Hashes, s: Session, ops: seq<Op>)
    decreases |ops|
  {
    ops == [] || (Allowed(h, s, ops[0]) && AllAllowed(h, Perform(h, s, ops[0]).0, ops[1..]))
  }

  lemma {:induction false} PerformMirrors(h: Hashes, host: Host, s: Session, op: Op)
    requires Mirrors(h, host, s.cache) && Linked(s.cache) && Allowed(h, s, op)
    ensures var (t, cs) := Perform(h, s, op);
            Mirrors(h, Replay(host, cs), t.cache) && Linked(t.cache)
  {
    match op
    case Paint(view, frame, retired, stale) =>
      hide Update, Mirrors, Linked, NoCollision;
      UpdateMirrors(h, host, s.cache, frame, s.view != view, retired, stale);
    case Clear(ids) =>
      ClearEmptiesHost(h, host, s.cache, ids);
  }

  /** Mirror refinement: over every run of frames and clears, replaying all emitted commands on the host
      leaves exactly the images and placements that the cache lists, and every source and placement
      points to a cached image. */
  lemma {:induction false} RunMirrors(h: Hashes, host: Host, s: Session, ops: seq<Op>)
    requires Mirrors(h, host, s.cache) && Linked(s.cache) && AllAllowed(h, s, ops)
    ensures var (t, cs) := PerformAll(h, s, ops);
            Mirrors(h, Replay(host, cs), t.cache) && Linked(t.cache)
    decreases |ops|
  {
    hide Mirrors, Linked, Perform, Allowed;
    if ops != [] {
      var (t, cs) := Perform(h, s, ops[0]);
      PerformMirrors(h, host, s, ops[0]);
      RunMirrors(h, Replay(host, cs), t, ops[1..]);
      ReplayAppend(host, cs, PerformAll(h, t, ops[1..]).1);
    }
  }

  /** From an empty host and a fresh cache, any run followed by a clear leaves an empty host. */
  lemma {:induction false} ClearAfterRun(h: Hashes, ops: seq<Op>, ids: seq<ImageId>)
    requires AllAllowed(h, FRESH, ops)
    requires Lists(ids, PerformAll(h, FRESH, ops).0.cache.images.Keys)
    ensures Replay(EMPTY_HOST, PerformAll(h, FRESH, ops).1 + ClearCommands(ids)) == EMPTY_HOST
  {
    assert Mirrors(h, EMPTY_HOST, EMPTY_CACHE) && Linked(EMPTY_CACHE);
    hide PerformAll, AllAllowed, Mirrors, Linked;
    var (t, cs) := PerformAll(h, FRESH, ops);
    RunMirrors(h, EMPTY_HOST, FRESH, ops);
    ReplayAppend(EMPTY_HOST, cs, ClearCommands(ids));
    ClearEmptiesHost(h, Replay(EMPTY_HOST, cs), t.cache, ids);
  }
}
