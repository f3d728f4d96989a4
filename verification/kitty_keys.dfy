/** When image ids do not collide, every cached image stays under the id of its own signature, and no update
    meets a collision. */
module KittyKeys {
  import opened KittyGraphics
  import opened KittyMirror

  /** The images that occur, as the hash sees them. */
  type Universe = set<(PaneId, ImageSignature)>

  ghost predicate DistinctIds(h: Hashes, U: Universe) {
    forall a, b {:trigger h.image(a.0, a.1), h.image(b.0, b.1)} ::
      a in U && b in U && h.image(a.0, a.1) == h.image(b.0, b.1) ==> a == b
  }

  /** Every cached image is listed under the id of its signature. */
  ghost predicate Keyed(h: Hashes, U: Universe, c: Cache) {
    forall id :: id in c.images ==> exists a :: a in U && a.1 == c.images[id] && h.image(a.0, a.1) == id
  }

  predicate Within(U: Universe, ps: seq<Placement>) {
    forall i :: 0 <= i < |ps| ==> (ps[i].pane, ps[i].signature) in U
  }

  lemma KeyedFinds(h: Hashes, U: Universe, c: Cache, p: Placement)
    requires DistinctIds(h, U) && Keyed(h, U, c) && (p.pane, p.signature) in U
    ensures HostImage(h, p) in c.images ==> c.images[HostImage(h, p)] == p.signature
  {
    var id := HostImage(h, p);
    if id in c.images {
      var a :| a in U && a.1 == c.images[id] && h.image(a.0, a.1) == id;
      var b := (p.pane, p.signature);
      assert h.image(b.0, b.1) == id;
    }
  }

  lemma DropKeepsKeyed(h: Hashes, U: Universe, c: Cache, id: ImageId)
    requires Keyed(h, U, c)
    ensures Keyed(h, U, c.DropImage(id))
  {
    forall i | i in c.DropImage(id).images
      ensures exists a :: a in U && a.1 == c.DropImage(id).images[i] && h.image(a.0, a.1) == i
    {
      var a :| a in U && a.1 == c.images[i] && h.image(a.0, a.1) == i;
    }
  }

  lemma SameImagesKeyed(h: Hashes, U: Universe, c: Cache, d: Cache)
    requires Keyed(h, U, c) && d.images == c.images
    ensures Keyed(h, U, d)
  {
    forall i | i in d.images
      ensures exists a :: a in U && a.1 == d.images[i] && h.image(a.0, a.1) == i
    {
      var a :| a in U && a.1 == c.images[i] && h.image(a.0, a.1) == i;
    }
  }

  /** Without collisions a placement needs at most one upload, and skips it when the image is there. */
  lemma ProvideKeyed(h: Hashes, U: Universe, g: Progress, p: Placement)
    requires DistinctIds(h, U) && Keyed(h, U, g.cache) && (p.pane, p.signature) in U
    ensures var (r, ok) := ProvideImage(h, g, p); var id := HostImage(h, p);
            && Keyed(h, U, r.cache)
            && (ok <==> id in g.cache.images || p.data != [])
            && r.seen == g.seen && r.cache.placements == g.cache.placements && r.cache.sources == g.cache.sources
            && (if ok then r.cache.images == g.cache.images[id := p.signature] else r == g)
            && (id in g.cache.images ==> r == g)
  {
    KeyedFinds(h, U, g.cache, p);
    var (r, ok) := ProvideImage(h, g, p);
    var id := HostImage(h, p);
    if id in g.cache.images {
      assert g.cache.images[id := p.signature] == g.cache.images;
    } else if ok {
      forall i | i in r.cache.images
        ensures exists a :: a in U && a.1 == r.cache.images[i] && h.image(a.0, a.1) == i
      {
        if i == id {
          var a := (p.pane, p.signature);
          assert a in U && a.1 == r.cache.images[i] && h.image(a.0, a.1) == i;
        } else {
          var a :| a in U && a.1 == g.cache.images[i] && h.image(a.0, a.1) == i;
        }
      }
    }
  }

  lemma ReleaseKeyed(h: Hashes, U: Universe, g: Progress, source: SourceKey, id: ImageId)
    requires Keyed(h, U, g.cache)
    ensures Keyed(h, U, Release(g, source, id).cache)
  {
    hide Keyed;
    var c := g.cache.(sources := g.cache.sources[source := id]);
    SameImagesKeyed(h, U, g.cache, c);
    if source in g.cache.sources {
      DropKeepsKeyed(h, U, c, g.cache.sources[source]);
    }
  }

  lemma PlaceKeyed(h: Hashes, U: Universe, g: Progress, p: Placement, viewChanged: bool)
    requires DistinctIds(h, U) && Keyed(h, U, g.cache) && (p.pane, p.signature) in U
    ensures !CollidesWithoutData(h, g.cache, p)
    ensures Keyed(h, U, Place(h, g, p, viewChanged).cache)
  {
    KeyedFinds(h, U, g.cache, p);
    hide Keyed, DistinctIds, ClippedPlacement, ProvideImage, Release;
    if Visible(p) {
      var begun := g.(seen := g.seen + {Key(h, p)});
      ProvideKeyed(h, U, begun, p);
      var (provided, ok) := ProvideImage(h, begun, p);
      if ok {
        ReleaseKeyed(h, U, provided, p.source, HostImage(h, p));
        var released := Release(provided, p.source, HostImage(h, p));
        SameImagesKeyed(h, U, released.cache, Show(h, released, p, viewChanged).cache);
      }
    }
  }

  lemma {:induction false} PlaceAllKeyed(h: Hashes, U: Universe, g: Progress, ps: seq<Placement>, viewChanged: bool)
    requires DistinctIds(h, U) && Keyed(h, U, g.cache) && Within(U, ps)
    ensures NoCollision(h, g, ps, viewChanged)
    ensures Keyed(h, U, PlaceAll(h, g, ps, viewChanged).cache)
    decreases |ps|
  {
    hide Keyed, DistinctIds, Place, CollidesWithoutData;
    if ps != [] {
      PlaceKeyed(h, U, g, ps[0], viewChanged);
      PlaceAllKeyed(h, U, Place(h, g, ps[0], viewChanged), ps[1..], viewChanged);
    }
  }

  lemma {:induction false} DeleteRetiredKeyed(h: Hashes, U: Universe, c: Cache, ids: seq<ImageId>)
    requires Keyed(h, U, c)
    ensures Keyed(h, U, DeleteRetired(c, ids).0)
    decreases |ids|
  {
    hide Keyed;
    if ids != [] {
      DropKeepsKeyed(h, U, c, ids[0]);
      DeleteRetiredKeyed(h, U, if c.References(ids[0]) then c else c.DropImage(ids[0]), ids[1..]);
    }
  }

  lemma {:induction false} DeleteStaleKeeps(c: Cache, keys: seq<PlacementKey>)
    ensures var d := DeleteStale(c, keys).0;
            d.images == c.images && d.sources == c.sources && d.placements == c.placements - (set k | k in keys)
    decreases |keys|
  {
    if keys != [] {
      DeleteStaleKeeps(c.(placements := c.placements - {keys[0]}), keys[1..]);
      assert (set k | k in keys) == {keys[0]} + (set k | k in keys[1..]);
    }
  }

  /** With distinct ids no update collides, and the cache stays keyed. */
  lemma {:induction false} UpdateKeyed(
      h: Hashes, U: Universe, c: Cache, ps: seq<Placement>, viewChanged: bool,
      retired: seq<ImageId>, stale: seq<PlacementKey>)
    requires DistinctIds(h, U) && Keyed(h, U, c) && Within(U, ps)
    ensures NoCollision(h, Pruned(c, ps, retired), ps, viewChanged)
    ensures Keyed(h, U, Update(h, c, ps, viewChanged, retired, stale).0)
  {
    hide Keyed, DistinctIds, PlaceAll, NoCollision;
    var kept := Retain(c, CurrentSources(ps));
    SameImagesKeyed(h, U, c, kept);
    DeleteRetiredKeyed(h, U, kept, retired);
    PlaceAllKeyed(h, U, Pruned(c, ps, retired), ps, viewChanged);
    var g := Placed(h, c, ps, viewChanged, retired);
    DeleteStaleKeeps(g.cache, stale);
    SameImagesKeyed(h, U, g.cache, Update(h, c, ps, viewChanged, retired, stale).0);
  }

  lemma PrunedKeyed(h: Hashes, U: Universe, c: Cache, ps: seq<Placement>, retired: seq<ImageId>)
    requires Keyed(h, U, c)
    ensures Keyed(h, U, Pruned(c, ps, retired).cache)
  {
    hide Keyed;
    var kept := Retain(c, CurrentSources(ps));
    SameImagesKeyed(h, U, c, kept);
    DeleteRetiredKeyed(h, U, kept, retired);
  }
}
