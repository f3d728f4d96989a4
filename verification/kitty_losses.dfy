/** Frames that show where updates go wrong: leaving out the data of a shared image, and colliding ids. */
module KittyLosses {
  import opened Geometry
  import opened KittyClip
  import opened KittyGraphics
  import opened KittyMirror
  import opened KittySources
  import opened KittyExactness

  /* ---- where leaving out data goes wrong ---- */

  /** A source shows an image with its data; then it moves on to another image, while another source asks
      for what the first one showed, and sends no data because that is still cached. */
  predicate SharesImage(h: Hashes, first: Placement, moving: Placement, sharing: Placement) {
    && Visible(first) && Visible(moving) && Visible(sharing)
    && AllHonest(h, [first]) && AllHonest(h, [moving, sharing])
    && OwnSource(first) && OwnSource(moving) && OwnSource(sharing) && first.pane == sharing.pane
    && first.source.Terminal? && first.source == moving.source && moving.source != sharing.source
    && first.signature == sharing.signature && HostImage(h, moving) != HostImage(h, first)
    && first.data != [] && moving.data != [] && sharing.data == []
  }

  /** The cache after the first frame. */
  function AfterFirst(h: Hashes, first: Placement): Cache
    requires Visible(first)
  {
    Cache(map[HostImage(h, first) := first.signature], map[Key(h, first) := SignatureOf(first)],
          map[first.source := HostImage(h, first)])
  }

  lemma FirstIsShown(h: Hashes, first: Placement)
    requires Visible(first) && first.data != []
    ensures Update(h, EMPTY_CACHE, [first], false, [], []).0 == AfterFirst(h, first)
  {
    hide ClippedPlacement;
    var ps := [first];
    var g := Progress(EMPTY_CACHE, {}, []);
    assert Pruned(EMPTY_CACHE, ps, []) == g;
    assert ps[1..] == [];
    var shown := Place(h, g, first, false);
    assert shown.cache == AfterFirst(h, first);
    assert PlaceAll(h, g, ps, false) == PlaceAll(h, shown, [], false) == shown;
  }

  /** The sharing placement, and it alone, is lost. */
  lemma SharingLoses(h: Hashes, first: Placement, moving: Placement, sharing: Placement)
    requires SharesImage(h, first, moving, sharing)
    ensures var c := AfterFirst(h, first); var ps := [moving, sharing];
            Loses(h, c, ps, 1) && !Loses(h, c, ps, 0)
  {
    var c, ps := AfterFirst(h, first), [moving, sharing];
    hide Visible, CurrentSources, AllHonest, SignatureOf, HostPlacement;
    assert HostImage(h, sharing) == HostImage(h, first);
    assert ps[0] == moving && ps[1] == sharing;
    assert Uses(ps, 0, first.source);
    assert Backs(c, first.source, HostImage(h, first)) && Leaves(ps, 1, first.source);
    hide HostImage;
  }

  /** Leaving out the data of an image that is cached, but only for another source, loses a placement when
      that other source moves on in the same frame: it is visible and yet not shown. */
  lemma {:induction false} SharedImageIsLost(
      h: Hashes, first: Placement, moving: Placement, sharing: Placement, stale: seq<PlacementKey>)
    requires SharesImage(h, first, moving, sharing)
    ensures var shown := Update(h, EMPTY_CACHE, [first], false, [], []).0;
            && HostImage(h, sharing) in shown.images && shown.images[HostImage(h, sharing)] == sharing.signature
            && Key(h, sharing) in Wanted(h, [moving, sharing])
            && Key(h, sharing) !in Update(h, shown, [moving, sharing], false, [], stale).0.placements
  {
    hide ClippedPlacement, Update, AllHonest;
    FirstIsShown(h, first);
    SharingLoses(h, first, moving, sharing);
    var c, ps := AfterFirst(h, first), [moving, sharing];
    var U := {(first.pane, first.signature), (moving.pane, moving.signature)};
    assert ps[0] == moving && ps[1] == sharing;
    SharingIsProper(h, first, moving, sharing);
    assert moving.source in CurrentSources(ps);
    assert RetiredImages(c, CurrentSources(ps)) == {};
    hide Loses, Proper, Wanted, CurrentSources;
    LostIsNotShown(h, U, c, ps, 1, false, [], stale);
  }

  lemma SharingIsProper(h: Hashes, first: Placement, moving: Placement, sharing: Placement)
    requires SharesImage(h, first, moving, sharing)
    ensures Proper(h, {(first.pane, first.signature), (moving.pane, moving.signature)},
                   AfterFirst(h, first), [moving, sharing])
  {
    hide ClippedPlacement, AllHonest, SignatureOf, HostPlacement;
    var a, ps := (first.pane, first.signature), [moving, sharing];
    assert a.1 == AfterFirst(h, first).images[HostImage(h, first)] && h.image(a.0, a.1) == HostImage(h, first);
    assert ps[0] == moving && ps[1] == sharing;
  }

  const EXAMPLE_HASHES := Hashes(
    (pane: PaneId, signature: ImageSignature) => signature.fingerprint,
    (layer: bool, pane: PaneId, image: nat, placement: nat) => image,
    (data: bytes) => if data == [] then 0 else data[0])

  /** One cell that shows an image of one pixel. */
  function Pixel(image: nat, fingerprint: nat, data: bytes): Placement {
    Placement(0, Rect(0, 0, 1, 1), 1, 1, Terminal(0, image), image, 0, 0, 0, 0,
              ImageSignature(1, 1, 24, 1, fingerprint), data, Render(1, 1, 1, 1, 0, 0, 0, 0, 0, 0), 0)
  }

  lemma PixelIsVisible(image: nat, fingerprint: nat, data: bytes)
    ensures Visible(Pixel(image, fingerprint, data))
  {
    hide ClipAxis, CutCells;
    PixelAxis();
    var p := Pixel(image, fingerprint, data);
    assert Columns(p) == Rows(p) == Axis(0, 1, 1, 1, 1, 0, 0, 1);
  }

  lemma PixelAxis()
    ensures ClipAxis(Axis(0, 1, 1, 1, 1, 0, 0, 1)).Some?
  {
    UnclippedShowsAll(Axis(0, 1, 1, 1, 1, 0, 0, 1));
  }

  lemma PixelFacts(image: nat, fingerprint: nat, data: bytes)
    requires data == [] || data == [fingerprint]
    ensures var p := Pixel(image, fingerprint, data);
            && HostImage(EXAMPLE_HASHES, p) == fingerprint && HonestData(EXAMPLE_HASHES, p)
            && p.pane == 0 && p.source == Terminal(0, image) && p.data == data
            && p.signature == ImageSignature(1, 1, 24, 1, fingerprint)
  {
    if data == [fingerprint] {
      assert |data| == 1 && data[0] == fingerprint;
    }
  }

  /** Such frames exist. */
  lemma SharedImageExample()
    ensures SharesImage(EXAMPLE_HASHES, Pixel(1, 7, [7]), Pixel(1, 8, [8]), Pixel(2, 7, []))
  {
    hide Visible, HonestData, HostImage, Pixel;
    PixelIsVisible(1, 7, [7]);
    PixelIsVisible(1, 8, [8]);
    PixelIsVisible(2, 7, []);
    PixelFacts(1, 7, [7]);
    PixelFacts(1, 8, [8]);
    PixelFacts(2, 7, []);
  }

  /* ---- colliding ids ---- */

  /** An image is shown under an id; in the next frame another image takes the id over, and then the first is
      asked for again, without data because it was cached in front of the frame. */
  predicate Collides(h: Hashes, first: Placement, other: Placement, again: Placement) {
    && Visible(first) && Visible(other) && Visible(again)
    && first.source.Terminal? && other.source.Terminal? && again.source.Terminal? && first.source == again.source
    && HostImage(h, other) == HostImage(h, first) && HostImage(h, again) == HostImage(h, first)
    && first.signature == again.signature && other.signature != first.signature
    && first.data != [] && other.data != [] && again.data == []
  }

  /** Such a frame meets the collision without data: the image is gone from the host and yet cached, so the
      next frame will not send it. */
  lemma CollisionIsLost(h: Hashes, first: Placement, other: Placement, again: Placement)
    requires Collides(h, first, other, again)
    ensures var c := Update(h, EMPTY_CACHE, [first], false, [], []).0; var id := HostImage(h, first);
            var (d, cs) := Update(h, c, [other, again], false, [], []);
            && id in d.images && d.images[id] == other.signature
            && forall host :: id !in Replay(host, cs).images
  {
    hide ClippedPlacement, Replay;
    FirstIsShown(h, first);
    var c, ps, id := AfterFirst(h, first), [other, again], HostImage(h, first);
    assert ps[0] == other && ps[1] == again;
    assert again.source in CurrentSources(ps);
    assert Retain(c, CurrentSources(ps)) == c;
    hide CurrentSources;
    var g := Progress(c, {}, []);
    assert Pruned(c, ps, []) == g;
    var taken := Place(h, g, other, false);
    TakesOver(h, g, other);
    hide Place;
    DeletesUncached(h, taken, again);
    var last := Place(h, taken, again, false);
    assert ps[1..] == [again] && ps[1..][1..] == [];
    assert PlaceAll(h, taken, [again], false) == PlaceAll(h, last, [], false) == last;
    assert Placed(h, c, ps, false, []) == last;
    assert last.commands + [] == last.commands;
    forall host
      ensures id !in Replay(host, last.commands).images
    {
      ReachedAppend(host, taken, DeleteImage(id));
    }
  }

  lemma TakesOver(h: Hashes, g: Progress, p: Placement)
    requires Visible(p) && p.data != []
    ensures var r := Place(h, g, p, false).cache;
            HostImage(h, p) in r.images && r.images[HostImage(h, p)] == p.signature
  {
    hide ClippedPlacement;
    var id := HostImage(h, p);
    var provided := ProvideImage(h, g.(seen := g.seen + {Key(h, p)}), p).0;
    var c := provided.cache.(sources := provided.cache.sources[p.source := id]);
    assert c.References(id) by { assert c.sources[p.source] == id; }
  }

  lemma DeletesUncached(h: Hashes, g: Progress, p: Placement)
    requires CollidesWithoutData(h, g.cache, p)
    ensures var r := Place(h, g, p, false);
            r.cache.images == g.cache.images && r.commands == g.commands + [DeleteImage(HostImage(h, p))]
  {
    hide ClippedPlacement;
  }

  const COLLIDING_HASHES := EXAMPLE_HASHES.(image := (pane: PaneId, signature: ImageSignature) => 0)

  lemma CollisionExample()
    ensures Collides(COLLIDING_HASHES, Pixel(1, 7, [7]), Pixel(2, 8, [8]), Pixel(1, 7, []))
    ensures HonestData(COLLIDING_HASHES, Pixel(1, 7, [7]))
            && AllHonest(COLLIDING_HASHES, [Pixel(2, 8, [8]), Pixel(1, 7, [])])
  {
    hide Visible;
    PixelIsVisible(1, 7, [7]);
    PixelIsVisible(2, 8, [8]);
    PixelIsVisible(1, 7, []);
  }
}
