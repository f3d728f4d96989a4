/** The host graphics cache as the object that painting updates in place. Hash-map iteration order is left
    open: each method reports the orders it met, and is proved equal to the update for these orders. */
module HostGraphics {
  import opened Options
  import opened KittyGraphics
  import opened KittyMirror

  lemma {:induction false} DeleteRetiredAppend(c: Cache, ids: seq<ImageId>, id: ImageId)
    ensures var (d, cs) := DeleteRetired(c, ids);
            DeleteRetired(c, ids + [id])
            == if d.References(id) then (d, cs) else (d.DropImage(id), cs + [DeleteImage(id)])
    decreases |ids|
  {
    var none: seq<Command> := [];
    if ids == [] {
      assert ids + [id] == [id] && [id][1..] == [];
      assert [DeleteImage(id)] + none == none + [DeleteImage(id)];
    } else {
      assert (ids + [id])[1..] == ids[1..] + [id] && (ids + [id])[0] == ids[0];
      var next := if c.References(ids[0]) then c else c.DropImage(ids[0]);
      DeleteRetiredAppend(next, ids[1..], id);
      var cs := DeleteRetired(next, ids[1..]).1;
      assert [DeleteImage(ids[0])] + (cs + [DeleteImage(id)]) == ([DeleteImage(ids[0])] + cs) + [DeleteImage(id)];
    }
  }

  lemma {:induction false} DeleteStaleAppend(c: Cache, keys: seq<PlacementKey>, key: PlacementKey)
    ensures var (d, cs) := DeleteStale(c, keys);
            DeleteStale(c, keys + [key]) == (d.(placements := d.placements - {key}), cs + [DeletePlacement(key)])
    decreases |keys|
  {
    var none: seq<Command> := [];
    if keys == [] {
      assert keys + [key] == [key] && [key][1..] == [];
      assert [DeletePlacement(key)] + none == none + [DeletePlacement(key)];
    } else {
      assert (keys + [key])[1..] == keys[1..] + [key] && (keys + [key])[0] == keys[0];
      var next := c.(placements := c.placements - {keys[0]});
      DeleteStaleAppend(next, keys[1..], key);
      var cs := DeleteStale(next, keys[1..]).1;
      assert [DeletePlacement(keys[0])] + (cs + [DeletePlacement(key)])
          == ([DeletePlacement(keys[0])] + cs) + [DeletePlacement(key)];
    }
  }

  lemma {:induction false} ClearCommandsAppend(ids: seq<ImageId>, id: ImageId)
    ensures ClearCommands(ids + [id]) == ClearCommands(ids) + [DeleteImage(id)]
    decreases |ids|
  {
    if ids == [] {
      assert ids + [id] == [id];
      assert ClearCommands([id]) == [DeleteImage(id)] + ClearCommands([]);
    } else {
      assert (ids + [id])[1..] == ids[1..] + [id];
      ClearCommandsAppend(ids[1..], id);
    }
  }

  class HostGraphicsCache {
    const hashes: Hashes
    var images: map<ImageId, ImageSignature>
    var placements: map<PlacementKey, PlacementSignature>
    var sources: map<SourceKey, ImageId>
    var view: Option<nat>

    ghost function Content(): Cache
      reads this
    {
      Cache(images, placements, sources)
    }

    constructor (hashes: Hashes)
      ensures Session(Content(), view) == FRESH && this.hashes == hashes
    {
      this.hashes := hashes;
      images, placements, sources, view := map[], map[], map[], None;
    }

    /** `update_view`: true when the view, if there is one, differs from the one painted last. */
    method UpdateView(key: Option<nat>) returns (changed: bool)
      modifies this`view
      ensures view == key && (changed <==> old(view) != key)
    {
      changed := view != key;
      view := key;
    }

    /** Paint one frame of the given view. */
    method Paint(key: Option<nat>, frame: seq<Placement>)
      returns (commands: seq<Command>, ghost retired: seq<ImageId>, ghost stale: seq<PlacementKey>)
      modifies this
      ensures OrdersFit(hashes, old(Content()), frame, old(view) != key, retired, stale)
      ensures NoRepeats(retired) && NoRepeats(stale)
      ensures (Session(Content(), view), commands)
              == Perform(hashes, Session(old(Content()), old(view)), Op.Paint(key, frame, retired, stale))
    {
      hide Update, OrdersFit;
      var changed := UpdateView(key);
      commands, retired, stale := EncodeGraphicsUpdate(frame, changed);
    }

    /** Delete every image; the host drops their placements by itself. */
    method ClearBytes() returns (commands: seq<Command>, ghost ids: seq<ImageId>)
      modifies this
      ensures Lists(ids, old(images).Keys) && NoRepeats(ids)
      ensures (Session(Content(), view), commands) == Perform(hashes, Session(old(Content()), old(view)), Clear(ids))
    {
      commands, ids := [], [];
      var todo := images.Keys;
      while todo != {}
        invariant todo <= images.Keys && images == old(images)
        invariant Lists(ids, images.Keys - todo) && NoRepeats(ids)
        invariant commands == ClearCommands(ids)
        decreases |todo|
      {
        var id :| id in todo;
        ClearCommandsAppend(ids, id);
        commands := commands + [DeleteImage(id)];
        ids := ids + [id];
        todo := todo - {id};
      }
      images, placements, sources, view := map[], map[], map[], None;
    }

    /** `release_superseded_source_image`, with the keys seen in this frame and the commands so far. */
    method ReleaseSupersededSourceImage(seen: set<PlacementKey>, commands: seq<Command>, source: SourceKey, id: ImageId)
      returns (seen': set<PlacementKey>, commands': seq<Command>)
      modifies this`images, this`placements, this`sources
      ensures Progress(Content(), seen', commands') == Release(Progress(old(Content()), seen, commands), source, id)
    {
      seen', commands' := seen, commands;
      var previous := if source in sources then Some(sources[source]) else None;
      sources := sources[source := id];
      if previous.None? || previous.value == id || previous.value in sources.Values {
        return;
      }
      commands' := commands + [DeleteImage(previous.value)];
      seen' := DropKeys(seen, Cache(images, placements, sources), previous.value);
      images := images - {previous.value};
      placements := WithoutImage(placements, previous.value);
    }

    /** Delete the images of pane layers that the frame no longer uses. */
    method DeleteRetiredImages(frame: seq<Placement>) returns (commands: seq<Command>, ghost retired: seq<ImageId>)
      modifies this`images, this`placements, this`sources
      ensures Lists(retired, RetiredImages(old(Content()), CurrentSources(frame))) && NoRepeats(retired)
      ensures Progress(Content(), {}, commands) == Pruned(old(Content()), frame, retired)
    {
      hide ClippedPlacement;
      var current := CurrentSources(frame);
      var todo := RetiredImages(Cache(images, placements, sources), current);
      ghost var all := todo;
      sources := map s | s in sources && s in current :: sources[s];
      ghost var kept := Content();
      commands, retired := [], [];
      while todo != {}
        invariant todo <= all && Lists(retired, all - todo) && NoRepeats(retired)
        invariant sources == kept.sources
        invariant (Content(), commands) == DeleteRetired(kept, retired)
        decreases |todo|
      {
        var id :| id in todo;
        DeleteRetiredAppend(kept, retired, id);
        retired := retired + [id];
        todo := todo - {id};
        if id !in sources.Values {
          commands := commands + [DeleteImage(id)];
          images := images - {id};
          placements := WithoutImage(placements, id);
        }
      }
    }

    /** One round of the placement loop. */
    method PlaceOne(p: Placement, viewChanged: bool, seen: set<PlacementKey>, commands: seq<Command>)
      returns (seen': set<PlacementKey>, commands': seq<Command>)
      modifies this`images, this`placements, this`sources
      ensures Progress(Content(), seen', commands')
              == Place(hashes, Progress(old(Content()), seen, commands), p, viewChanged)
    {
      hide Release;
      seen', commands' := seen, commands;
      var clip := ClippedPlacement(p);
      if clip.None? {
        return;
      }
      hide ClippedPlacement;
      var key := Key(hashes, p);
      var signature := PlacementSignature(clip.value, p.z, p.scrollback);
      seen' := seen' + {key};
      if key.0 in images && images[key.0] != p.signature {
        commands' := commands' + [DeleteImage(key.0)];
        seen' := DropKeys(seen', Cache(images, placements, sources), key.0);
        placements := WithoutImage(placements, key.0);
      }
      if key.0 !in images || images[key.0] != p.signature {
        if p.data == [] {
          return;
        }
        commands' := commands' + [Upload(key.0, ContentOf(p))];
        images := images[key.0 := p.signature];
      }
      seen', commands' := ReleaseSupersededSourceImage(seen', commands', p.source, key.0);
      if !(key in placements && !viewChanged && placements[key] == signature) {
        commands' := commands' + [Display(key, clip.value, p.z)];
        placements := placements[key := signature];
      }
    }

    method EncodeGraphicsUpdate(frame: seq<Placement>, viewChanged: bool)
      returns (commands: seq<Command>, ghost retired: seq<ImageId>, ghost stale: seq<PlacementKey>)
      modifies this`images, this`placements, this`sources
      ensures OrdersFit(hashes, old(Content()), frame, viewChanged, retired, stale)
      ensures NoRepeats(retired) && NoRepeats(stale)
      ensures (Content(), commands) == Update(hashes, old(Content()), frame, viewChanged, retired, stale)
    {
      hide Pruned, Place, CurrentSources;
      commands, retired := DeleteRetiredImages(frame);
      ghost var begun := Progress(Content(), {}, commands);
      var seen := {};
      for i := 0 to |frame|
        invariant Progress(Content(), seen, commands) == PlaceAll(hashes, begun, frame[..i], viewChanged)
      {
        PlaceAllAppend(hashes, begun, frame[..i], frame[i], viewChanged);
        assert frame[..i] + [frame[i]] == frame[..i + 1];
        seen, commands := PlaceOne(frame[i], viewChanged, seen, commands);
      }
      assert frame[..|frame|] == frame;
      var more;
      more, stale := DeleteStalePlacements(seen);
      commands := commands + more;
    }

    /** Delete the placements that this frame did not mention. */
    method DeleteStalePlacements(seen: set<PlacementKey>)
      returns (commands: seq<Command>, ghost stale: seq<PlacementKey>)
      modifies this`placements
      ensures Lists(stale, old(placements).Keys - seen) && NoRepeats(stale)
      ensures (Content(), commands) == DeleteStale(old(Content()), stale)
    {
      var todo := placements.Keys - seen;
      ghost var all := todo;
      ghost var begun := Content();
      commands, stale := [], [];
      while todo != {}
        invariant todo <= all && Lists(stale, all - todo) && NoRepeats(stale)
        invariant (Content(), commands) == DeleteStale(begun, stale)
        decreases |todo|
      {
        var key :| key in todo;
        DeleteStaleAppend(begun, stale, key);
        commands := commands + [DeletePlacement(key)];
        placements := placements - {key};
        stale := stale + [key];
        todo := todo - {key};
      }
    }
  }
}
