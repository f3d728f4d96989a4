/** Which images a frame keeps: sources move to other images in the course of a frame, and an image is
    deleted when the last source that it was backing leaves it. Everything here is said of the cache in
    front of the frame and of the frame alone. */
module KittySources {
  import opened KittyGraphics
  import opened KittyMirror

  /** A source is the pane's own. */
  predicate OwnSource(p: Placement) { p.source.pane == p.pane }

  /** Placements of one source show one image. */
  predicate OneImagePerSource(ps: seq<Placement>) {
    && (forall i :: 0 <= i < |ps| ==> OwnSource(ps[i]))
    && (forall i, j :: 0 <= i < |ps| && 0 <= j < |ps| && ps[i].source == ps[j].source
          ==> ps[i].signature == ps[j].signature)
  }

  lemma SameSourceSameImage(h: Hashes, ps: seq<Placement>, i: nat, j: nat)
    requires OneImagePerSource(ps) && i < |ps| && j < |ps| && ps[i].source == ps[j].source
    ensures HostImage(h, ps[i]) == HostImage(h, ps[j])
  {
    assert OwnSource(ps[i]) && OwnSource(ps[j]);
  }

  /** Position `j` of the frame is visible and shows the source. */
  predicate Uses(ps: seq<Placement>, j: nat, s: SourceKey) { j < |ps| && Visible(ps[j]) && ps[j].source == s }

  /** A visible placement in front of position `n` shows the source. */
  predicate UsedBefore(ps: seq<Placement>, n: nat, s: SourceKey) { exists j :: 0 <= j < n && Uses(ps, j, s) }

  /** Position `j` of the frame is visible and shows the image. */
  predicate Draws(h: Hashes, ps: seq<Placement>, j: nat, id: ImageId) {
    j < |ps| && Visible(ps[j]) && HostImage(h, ps[j]) == id
  }

  predicate DrawnBefore(h: Hashes, ps: seq<Placement>, n: nat, id: ImageId)
    { exists j :: 0 <= j < n && Draws(h, ps, j, id) }

  /** The cached source is backed by the image. */
  predicate Backs(c: Cache, s: SourceKey, id: ImageId) { s in c.sources && c.sources[s] == id }

  /** The source is part of the frame and has not been placed yet: it keeps its image. */
  predicate Stays(ps: seq<Placement>, n: nat, s: SourceKey) { s in CurrentSources(ps) && !UsedBefore(ps, n, s) }

  /** The source gives its image up: it is a retired pane layer, or has been placed. */
  predicate Leaves(ps: seq<Placement>, n: nat, s: SourceKey) {
    UsedBefore(ps, n, s) || (s.PaneLayer? && s !in CurrentSources(ps))
  }

  /** When round `n` begins, the image is not cached: nothing visible in front of `n` shows it, and if it was
      cached, none of the sources that it was backing stays with it and one of them has left it. */
  ghost predicate Missing(h: Hashes, c: Cache, ps: seq<Placement>, n: nat, id: ImageId) {
    && !DrawnBefore(h, ps, n, id)
    && (id in c.images ==>
          && (forall s :: Backs(c, s, id) ==> !Stays(ps, n, s))
          && (exists s :: Backs(c, s, id) && Leaves(ps, n, s)))
  }

  /** The placement is visible, brings no data, and finds its image missing. */
  ghost predicate Loses(h: Hashes, c: Cache, ps: seq<Placement>, i: nat) {
    i < |ps| && Visible(ps[i]) && ps[i].data == [] && Missing(h, c, ps, i, HostImage(h, ps[i]))
  }

  ghost predicate NothingLost(h: Hashes, c: Cache, ps: seq<Placement>) {
    forall i :: 0 <= i < |ps| ==> !Loses(h, c, ps, i)
  }

  /** Data may be left out for an image that is cached and backs a source which shows nothing else in this
      frame, be it the placement's own source or another one that stays put. */
  lemma StayingImageIsNotLost(h: Hashes, c: Cache, ps: seq<Placement>, i: nat, s: SourceKey)
    requires i < |ps| && Linked(c) && Backs(c, s, HostImage(h, ps[i])) && s in CurrentSources(ps)
    requires forall j :: 0 <= j < i && Uses(ps, j, s) ==> HostImage(h, ps[j]) == HostImage(h, ps[i])
    ensures !Loses(h, c, ps, i)
  {
    hide Visible, HostImage, CurrentSources;
    if UsedBefore(ps, i, s) {
      var j :| 0 <= j < i && Uses(ps, j, s);
      assert Draws(h, ps, j, HostImage(h, ps[i]));
    } else {
      assert Stays(ps, i, s);
    }
  }

  /* ---- the sources in the course of a frame ---- */

  /** The sources as the rounds in front of `n` leave them. */
  ghost predicate SourcesAre(h: Hashes, c: Cache, ps: seq<Placement>, n: nat, now: map<SourceKey, ImageId>) {
    && (forall j, s :: 0 <= j < n && Uses(ps, j, s) ==> s in now && now[s] == HostImage(h, ps[j]))
    && (forall s :: s in c.sources && Stays(ps, n, s) ==> s in now && now[s] == c.sources[s])
    && (forall s :: s in now ==> UsedBefore(ps, n, s) || (s in c.sources && Stays(ps, n, s)))
  }

  /** The images as the rounds in front of `n` leave them. */
  ghost predicate ImagesAre(h: Hashes, c: Cache, ps: seq<Placement>, n: nat, images: set<ImageId>) {
    forall id :: id in images <==> !Missing(h, c, ps, n, id)
  }

  lemma UsedStep(ps: seq<Placement>, n: nat, s: SourceKey)
    requires n < |ps|
    ensures UsedBefore(ps, n + 1, s) <==> UsedBefore(ps, n, s) || Uses(ps, n, s)
  {
    hide Uses;
    if UsedBefore(ps, n, s) {
      var j :| 0 <= j < n && Uses(ps, j, s);
      assert 0 <= j < n + 1 && Uses(ps, j, s);
    }
    if Uses(ps, n, s) {
      assert 0 <= n < n + 1 && Uses(ps, n, s);
    }
  }

  lemma DrawnStep(h: Hashes, ps: seq<Placement>, n: nat, id: ImageId)
    requires n < |ps|
    ensures DrawnBefore(h, ps, n + 1, id) <==> DrawnBefore(h, ps, n, id) || Draws(h, ps, n, id)
  {
    hide Draws;
    if DrawnBefore(h, ps, n, id) {
      var j :| 0 <= j < n && Draws(h, ps, j, id);
      assert 0 <= j < n + 1 && Draws(h, ps, j, id);
    }
    if Draws(h, ps, n, id) {
      assert 0 <= n < n + 1 && Draws(h, ps, n, id);
    }
  }

  lemma InvisibleRound(h: Hashes, c: Cache, ps: seq<Placement>, n: nat)
    requires n < |ps| && !Visible(ps[n])
    ensures forall now :: SourcesAre(h, c, ps, n, now) ==> SourcesAre(h, c, ps, n + 1, now)
    ensures forall id :: Missing(h, c, ps, n + 1, id) <==> Missing(h, c, ps, n, id)
  {
    forall s
      ensures UsedBefore(ps, n + 1, s) <==> UsedBefore(ps, n, s)
    {
      UsedStep(ps, n, s);
    }
    forall id
      ensures DrawnBefore(h, ps, n + 1, id) <==> DrawnBefore(h, ps, n, id)
    {
      DrawnStep(h, ps, n, id);
    }
    assert forall s :: !Uses(ps, n, s);
    hide Visible, UsedBefore, DrawnBefore, Uses, CurrentSources, HostImage;
  }

  lemma SourcesStep(h: Hashes, c: Cache, ps: seq<Placement>, n: nat, now: map<SourceKey, ImageId>)
    requires n < |ps| && Visible(ps[n]) && OneImagePerSource(ps) && SourcesAre(h, c, ps, n, now)
    ensures SourcesAre(h, c, ps, n + 1, now[ps[n].source := HostImage(h, ps[n])])
  {
    hide Visible, CurrentSources, UsedBefore, OneImagePerSource, HostImage, Stays;
    var own := ps[n].source;
    var next := now[own := HostImage(h, ps[n])];
    forall s
      ensures UsedBefore(ps, n + 1, s) <==> UsedBefore(ps, n, s) || s == own
      ensures Stays(ps, n + 1, s) <==> Stays(ps, n, s) && s != own
    {
      UsedStep(ps, n, s);
      LeavesStep(ps, n, s);
    }
    forall j, s | 0 <= j < n + 1 && Uses(ps, j, s)
      ensures s in next && next[s] == HostImage(h, ps[j])
    {
      if s == own {
        SameSourceSameImage(h, ps, j, n);
      } else {
        assert j < n;
      }
    }
    forall s | s in next
      ensures UsedBefore(ps, n + 1, s) || (s in c.sources && Stays(ps, n + 1, s))
    {
      assert UsedBefore(ps, n + 1, s) <==> UsedBefore(ps, n, s) || s == own;
    }
    forall s | s in c.sources && Stays(ps, n + 1, s)
      ensures s in next && next[s] == c.sources[s]
    {
      assert Stays(ps, n, s) && s != own;
    }
    hide Uses;
  }

  /** Which images the sources refer to. */
  lemma ReferencedImages(h: Hashes, c: Cache, ps: seq<Placement>, n: nat, d: Cache, id: ImageId)
    requires n <= |ps| && SourcesAre(h, c, ps, n, d.sources)
    ensures d.References(id) <==> DrawnBefore(h, ps, n, id) || exists s :: Backs(c, s, id) && Stays(ps, n, s)
  {
    hide Visible, CurrentSources, HostImage;
    if d.References(id) {
      var s :| s in d.sources && d.sources[s] == id;
      if UsedBefore(ps, n, s) {
        var j :| 0 <= j < n && Uses(ps, j, s);
        assert Draws(h, ps, j, id);
      } else {
        assert Backs(c, s, id) && Stays(ps, n, s);
      }
    }
    if DrawnBefore(h, ps, n, id) {
      var j :| 0 <= j < n && Draws(h, ps, j, id);
      assert Uses(ps, j, ps[j].source);
    }
  }

  /** Who stays and who leaves, one round later. */
  lemma LeavesStep(ps: seq<Placement>, n: nat, s: SourceKey)
    requires n < |ps| && Visible(ps[n])
    ensures Leaves(ps, n + 1, s) <==> Leaves(ps, n, s) || s == ps[n].source
    ensures Stays(ps, n + 1, s) <==> Stays(ps, n, s) && s != ps[n].source
    ensures Stays(ps, n, ps[n].source) <==> !UsedBefore(ps, n, ps[n].source)
  {
    UsedStep(ps, n, s);
    hide Visible, UsedBefore;
  }

  /** The image that the source of round `n` has before it: one it has shown, or the one it came with. */
  lemma OwnImage(h: Hashes, c: Cache, ps: seq<Placement>, n: nat, now: map<SourceKey, ImageId>, id: ImageId)
    requires n < |ps| && Visible(ps[n]) && OneImagePerSource(ps) && SourcesAre(h, c, ps, n, now)
    requires id != HostImage(h, ps[n])
    ensures ps[n].source in now && now[ps[n].source] == id <==> Backs(c, ps[n].source, id) && Stays(ps, n, ps[n].source)
    ensures UsedBefore(ps, n, ps[n].source) ==> Leaves(ps, n, ps[n].source)
  {
    var own := ps[n].source;
    if UsedBefore(ps, n, own) {
      var j :| 0 <= j < n && Uses(ps, j, own);
      SameSourceSameImage(h, ps, j, n);
    }
    hide Visible, CurrentSources, HostImage, OneImagePerSource;
  }

  /** One round more: the placed image is there; the image its source had before is gone exactly when
      no other source is backed by it; every other image is as it was. */
  lemma MissingStep(h: Hashes, c: Cache, ps: seq<Placement>, n: nat, now: Cache, next: Cache, id: ImageId)
    requires n < |ps| && Visible(ps[n]) && OneImagePerSource(ps)
    requires SourcesAre(h, c, ps, n, now.sources)
    requires next.sources == now.sources[ps[n].source := HostImage(h, ps[n])]
    ensures Missing(h, c, ps, n + 1, id)
            <==> id != HostImage(h, ps[n])
                 && (Missing(h, c, ps, n, id) || (Backs(now, ps[n].source, id) && !next.References(id)))
  {
    hide Visible, CurrentSources, HostImage, UsedBefore, DrawnBefore, OneImagePerSource, SourcesAre, Leaves, Stays;
    DrawnStep(h, ps, n, id);
    assert Draws(h, ps, n, id) <==> id == HostImage(h, ps[n]);
    if id != HostImage(h, ps[n]) {
      SourcesStep(h, c, ps, n, now.sources);
      ReferencedImages(h, c, ps, n + 1, next, id);
      OwnImage(h, c, ps, n, now.sources, id);
      LeavesStep(ps, n, ps[n].source);
      if Missing(h, c, ps, n, id) {
        MissingStaysMissing(h, c, ps, n, id);
      } else if Missing(h, c, ps, n + 1, id) {
        LastOneLeft(h, c, ps, n, id);
      }
    }
  }

  lemma MissingStaysMissing(h: Hashes, c: Cache, ps: seq<Placement>, n: nat, id: ImageId)
    requires n < |ps| && Visible(ps[n]) && Missing(h, c, ps, n, id) && id != HostImage(h, ps[n])
    ensures Missing(h, c, ps, n + 1, id)
  {
    hide Visible, CurrentSources, UsedBefore, DrawnBefore, Leaves, Stays;
    DrawnStep(h, ps, n, id);
    forall s
      ensures Leaves(ps, n, s) ==> Leaves(ps, n + 1, s)
      ensures Stays(ps, n + 1, s) ==> Stays(ps, n, s)
    {
      LeavesStep(ps, n, s);
    }
  }

  lemma LastOneLeft(h: Hashes, c: Cache, ps: seq<Placement>, n: nat, id: ImageId)
    requires n < |ps| && Visible(ps[n]) && id != HostImage(h, ps[n])
    requires !Missing(h, c, ps, n, id) && Missing(h, c, ps, n + 1, id)
    ensures Backs(c, ps[n].source, id) && Stays(ps, n, ps[n].source) && !DrawnBefore(h, ps, n, id)
    ensures forall s :: Backs(c, s, id) ==> !Stays(ps, n + 1, s)
  {
    hide Visible, CurrentSources, UsedBefore, DrawnBefore, Draws, Stays, HostImage;
    DrawnStep(h, ps, n, id);
    var t :| Backs(c, t, id) && Leaves(ps, n + 1, t);
    LeavesStep(ps, n, t);
    if Leaves(ps, n, t) {
      var s :| Backs(c, s, id) && Stays(ps, n, s);
      LeavesStep(ps, n, s);
    }
  }
}
