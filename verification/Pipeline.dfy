/** The whole tile pipeline over any run: kit, server and any number of clients.

    A render goes through the kit's delta generator and is saved by the server;
    clients fetch from the server when they like. Caches on both sides may be
    evicted at any time.
 */
module Pipeline {
  import opened Options
  import opened Pixels
  import opened TileDelta
  import opened MakeDelta
  import opened Keyframe
  import opened DeltaCache
  import opened TileStack

  /** The server's key for a tile. The kit's key is the location alone: it leaves
      out the pixel size and the height of the tile in the document. */
  datatype Desc = Desc(loc: TileLocation, tileHeight: int, w: nat, h: nat)

  /** Sizes that a tile descriptor may have and the generator accepts. */
  predicate Renderable(d: Desc) {
    d.tileHeight > 0 && 0 < d.w <= 256 && d.w % 2 == 0 && 0 < d.h <= 256
  }

  /** Two tiles for the server, and one for the kit. */
  predicate Siblings(d: Desc, e: Desc) {
    d != e && d.loc == e.loc && d.w == e.w && d.h == e.h
  }

  /** What one client last got of a tile, and the image it shows. */
  datatype ClientTile = ClientTile(since: nat, img: seq<byte>)

  /** `rendered` and `history` record what has been rendered; no step reads them. */
  datatype World = World(
    kit: Cache,
    maxEntries: nat,
    lastWid: nat,
    stacks: map<Desc, TileData>,
    clients: map<(nat, Desc), ClientTile>,
    rendered: map<Desc, Image>,
    history: map<Desc, seq<Image>>)

  datatype Action =
    | Render(desc: Desc, img: Image, force: bool, msg: seq<byte>)
    | RebalanceDeltas(limit: int)
    | SetSessionCount(count: nat)
    | DropCache
    | EvictStacks(gone: set<Desc>)
    | Fetch(client: nat, desc: Desc)
    | ResetTileSeq(client: nat, desc: Desc)

  const EMPTY_STACK := TileData([], [], [], false)

  // ----- The steps -----

  /** Saving a message: a delta for a tile that the server no longer has is
      dropped. */
  ghost predicate Saved(s: World, s': World, desc: Desc, img: Image, wid: nat, msg: seq<byte>)
    requires |msg| > 0
  {
    if desc !in s.stacks && !IsKeyframe(msg) then
      s'.stacks == s.stacks && s'.history == s.history
    else
      var t := if desc in s.stacks then s.stacks[desc] else EMPTY_STACK;
      var h := if desc in s.history then s.history[desc] else [];
      && s'.stacks == s.stacks[desc := AppendedBlob(t, wid, msg)]
      && s'.history == s.history[desc := if IsKeyframe(msg) then [img] else AfterDelta(t, h, msg, img)]
  }

  ghost predicate RenderStep(s: World, s': World, desc: Desc, img: Image, force: bool, msg: seq<byte>, mode: TileMode) {
    && Sized(img, desc.w, desc.h) && Renderable(desc)
    && s'.lastWid == s.lastWid + 1
    && |msg| > 0
    && Encoded(s.kit, desc.loc, img, desc.w, s'.lastWid, force, mode, s'.kit, msg)
    && Saved(s, s', desc, img, s'.lastWid, msg)
    && s'.rendered == s.rendered[desc := img]
    && s'.clients == s.clients && s'.maxEntries == s.maxEntries
  }

  /** A client asks for a tile: it gets the changes since the version it has, or
      the keyframe and everything after it. */
  function Fetched(t: TileData, desc: Desc, had: ClientTile): ClientTile
    requires Cut(t)
  {
    var data := ChangesSince(t, had.since);
    var img :=
      if data.None? then had.img
      else if had.since < t.wids[0] then ShowKeyframe(data.value, desc.w, desc.h)
      else ShowDelta(had.img, data.value, desc.w);
    ClientTile(t.wids[|t.wids| - 1], img)
  }

  function Had(s: World, client: nat, desc: Desc): ClientTile {
    if (client, desc) in s.clients then s.clients[(client, desc)] else ClientTile(0, [])
  }

  ghost predicate KitOnly(s: World, s': World) {
    s' == s.(kit := s'.kit, maxEntries := s'.maxEntries)
  }

  ghost predicate Next(s: World, s': World, a: Action, mode: TileMode) {
    match a
    case Render(desc, img, force, msg) => RenderStep(s, s', desc, img, force, msg, mode)
    case RebalanceDeltas(limit) =>
      && KitOnly(s, s') && s'.maxEntries == (if limit > 0 then limit else s.maxEntries)
      && Rebalanced(s.kit, s'.kit, s'.maxEntries, false)
    case SetSessionCount(count) =>
      && KitOnly(s, s') && s'.maxEntries == (if count > 1 then count else 1) * 96
      && Rebalanced(s.kit, s'.kit, s'.maxEntries, false)
    case DropCache => s' == s.(kit := Cache(map[], map[]))
    case EvictStacks(gone) => s' == s.(stacks := s.stacks - gone, history := s.history - gone)
    case Fetch(client, desc) =>
      && desc in s.stacks && Cut(s.stacks[desc])
      && s' == s.(clients := s.clients[(client, desc) := Fetched(s.stacks[desc], desc, Had(s, client, desc))])
    case ResetTileSeq(client, desc) =>
      && (client, desc) in s.clients
      && s' == s.(clients := s.clients[(client, desc) := s.clients[(client, desc)].(since := 0)])
  }

  ghost predicate Init(s: World) {
    s == World(Cache(map[], map[]), s.maxEntries, 0, map[], map[], map[], map[])
  }

  // ----- The invariant -----

  /** No sibling of this tile has been rendered. */
  ghost predicate Alone(s: World, d: Desc) {
    forall e :: e in s.rendered ==> !Siblings(d, e)
  }

  /** The cached version at a location is the last one rendered of the tile there
      with this height. */
  ghost predicate CachedFor(s: World, l: TileLocation, tileHeight: int)
    requires l in s.kit.entries && l in s.kit.images
  {
    var d := Desc(l, tileHeight, s.kit.entries[l].width, s.kit.entries[l].height);
    d in s.rendered && s.rendered[d] == s.kit.images[l]
  }

  ghost predicate KitInStep(s: World) {
    && Consistent(s.kit)
    && forall l :: l in s.kit.entries && l in s.kit.images ==> exists tileHeight :: CachedFor(s, l, tileHeight)
  }

  ghost predicate StackInStep(s: World, d: Desc, mode: TileMode)
    requires d in s.stacks
  {
    && d in s.history && d in s.rendered
    && Stacked(s.stacks[d], s.history[d], d.w, d.h, mode)
    && s.history[d][|s.history[d]| - 1] == s.rendered[d]
    && s.stacks[d].wids[|s.stacks[d].wids| - 1] <= s.lastWid
  }

  ghost predicate StacksInStep(s: World, mode: TileMode) {
    && s.stacks.Keys == s.history.Keys
    && (forall d :: d in s.stacks ==> Cut(s.stacks[d]))
    && forall d :: d in s.stacks && Alone(s, d) ==> StackInStep(s, d, mode)
  }

  /** A client that is not behind the keyframe shows the image of its version. */
  ghost predicate ClientInStep(s: World, d: Desc, c: ClientTile, mode: TileMode) {
    && c.since <= s.lastWid
    && (d in s.stacks && |s.stacks[d].wids| > 0 && s.stacks[d].wids[0] <= c.since ==>
        var i := Upto(s.stacks[d].wids, c.since);
        d in s.history && 1 <= i <= |s.history[d]| && c.img == Shown(s.history[d][i - 1], mode))
  }

  ghost predicate Inv(s: World, mode: TileMode) {
    && KitInStep(s)
    && StacksInStep(s, mode)
    && forall k :: k in s.clients && Alone(s, k.1) ==> ClientInStep(s, k.1, s.clients[k], mode)
  }

  // ----- Each step keeps it -----

  lemma RenderKeepsKit(s: World, s': World, desc: Desc, img: Image, force: bool, msg: seq<byte>, mode: TileMode)
    requires KitInStep(s) && RenderStep(s, s', desc, img, force, msg, mode)
    ensures KitInStep(s')
  {
    EncodedConsistent(s.kit, desc.loc, img, desc.w, s'.lastWid, force, mode, s'.kit, msg);
    hide EncodeRows, IsDelta, PackImage, Saved, Consistent;
    CacheKeys(s.kit);
    CacheKeys(s'.kit);
    forall l | l in s'.kit.entries && l in s'.kit.images
      ensures exists tileHeight :: CachedFor(s', l, tileHeight)
    {
      if l == desc.loc {
        assert CachedFor(s', l, desc.tileHeight);
      } else {
        var tileHeight :| CachedFor(s, l, tileHeight);
        assert CachedFor(s', l, tileHeight);
      }
    }
  }

  lemma CacheKeys(c: Cache)
    requires Consistent(c)
    ensures c.entries.Keys == c.images.Keys
  {
  }

  /** A delta is against the image on top of the server's stack, unless a sibling
      has been rendered. */
  lemma DeltaMatchesStack(s: World, s': World, desc: Desc, img: Image, force: bool, msg: seq<byte>, mode: TileMode)
    requires KitInStep(s) && RenderStep(s, s', desc, img, force, msg, mode)
    ensures if IsKeyframe(msg) then msg == [KEYFRAME_TAG] + PackImage(img, mode)
            else msg[0] == DELTA_TAG
                 && (Alone(s', desc) ==> desc in s.rendered && IsDelta(s.rendered[desc], img, desc.w, mode, msg[1..]))
  {
    hide EncodeRows, IsDelta, PackImage, Saved, Consistent;
    if !IsKeyframe(msg) {
      var tileHeight :| CachedFor(s, desc.loc, tileHeight);
      var d := Desc(desc.loc, tileHeight, desc.w, desc.h);
      assert d in s'.rendered;
      assert Siblings(desc, d) || d == desc;
    }
  }

  /** A tile without siblings had none before. */
  lemma AloneBefore(s: World, s': World, d: Desc)
    requires s.rendered.Keys <= s'.rendered.Keys && Alone(s', d)
    ensures Alone(s, d)
  {
  }

  lemma RenderedGrows(s: World, s': World, desc: Desc, img: Image, force: bool, msg: seq<byte>, mode: TileMode)
    requires RenderStep(s, s', desc, img, force, msg, mode)
    ensures s.rendered.Keys <= s'.rendered.Keys
  {
    hide Encoded, Saved;
  }

  /** Saving any message leaves every stack well cut: it starts with a keyframe. */
  lemma RenderKeepsCuts(s: World, s': World, desc: Desc, img: Image, force: bool, msg: seq<byte>, mode: TileMode)
    requires StacksInStep(s, mode) && RenderStep(s, s', desc, img, force, msg, mode)
    ensures forall d :: d in s'.stacks ==> Cut(s'.stacks[d])
  {
    hide Encoded, StackInStep, Cut, AppendedBlob, AfterDelta;
    var t := if desc in s.stacks then s.stacks[desc] else EMPTY_STACK;
    if desc in s.stacks || IsKeyframe(msg) {
      AppendKeepsCut(t, s'.lastWid, msg);
    }
  }

  lemma RenderKeepsStack(s: World, s': World, desc: Desc, img: Image, force: bool, msg: seq<byte>, mode: TileMode, d: Desc)
    requires KitInStep(s) && StacksInStep(s, mode) && RenderStep(s, s', desc, img, force, msg, mode)
    requires d in s'.stacks && Alone(s', d)
    ensures StackInStep(s', d, mode)
  {
    hide IsDelta, PackImage, Encoded, KitInStep, Stacked, AppendedBlob, AfterDelta, Alone, Cut;
    DeltaMatchesStack(s, s', desc, img, force, msg, mode);
    RenderedGrows(s, s', desc, img, force, msg, mode);
    AloneBefore(s, s', d);
    if d == desc && (desc in s.stacks || IsKeyframe(msg)) {
      var t := if desc in s.stacks then s.stacks[desc] else EMPTY_STACK;
      if IsKeyframe(msg) {
        StackKeyframe(t, s'.lastWid, img, desc.w, desc.h, mode);
      } else {
        assert StackInStep(s, d, mode);
        StackedShape(t, s.history[desc], desc.w, desc.h, mode);
        StackDelta(t, s.history[desc], s'.lastWid, msg, img, desc.w, desc.h, mode);
      }
    } else {
      assert StackInStep(s, d, mode);
    }
  }

  lemma RenderKeepsClient(s: World, s': World, desc: Desc, img: Image, force: bool, msg: seq<byte>, mode: TileMode,
                          d: Desc, c: ClientTile)
    requires KitInStep(s) && StacksInStep(s, mode) && RenderStep(s, s', desc, img, force, msg, mode)
    requires Alone(s', d) && ClientInStep(s, d, c, mode)
    ensures ClientInStep(s', d, c, mode)
  {
    hide IsDelta, PackImage, Encoded, KitInStep, Stacked, AppendedBlob, AfterDelta, Upto, Shown, Alone, Cut;
    DeltaMatchesStack(s, s', desc, img, force, msg, mode);
    RenderedGrows(s, s', desc, img, force, msg, mode);
    AloneBefore(s, s', d);
    if d == desc && (desc in s.stacks || IsKeyframe(msg)) {
      var t := if desc in s.stacks then s.stacks[desc] else EMPTY_STACK;
      if IsKeyframe(msg) {
        StackKeyframe(t, s'.lastWid, img, desc.w, desc.h, mode);
      } else {
        assert StackInStep(s, d, mode);
        var imgs := s.history[d];
        StackedShape(t, imgs, d.w, d.h, mode);
        StackDelta(t, imgs, s'.lastWid, msg, img, d.w, d.h, mode);
        if t.wids[0] <= c.since {
          StackDeltaKeepsPlaces(t, imgs, s'.lastWid, msg, img, d.w, d.h, mode, c.since);
        }
      }
    }
  }

  /** From any version it may have, a client gets to the last image of the stack. */
  lemma FetchedImage(t: TileData, imgs: seq<Image>, desc: Desc, had: ClientTile, mode: TileMode)
    requires Stacked(t, imgs, desc.w, desc.h, mode)
    requires t.wids[0] <= had.since ==>
      var i := Upto(t.wids, had.since); 1 <= i <= |imgs| && had.img == Shown(imgs[i - 1], mode)
    ensures Cut(t) && Fetched(t, desc, had) == ClientTile(t.wids[|t.wids| - 1], Shown(imgs[|imgs| - 1], mode))
    ensures t.wids[0] > 0 && Upto(t.wids, t.wids[|t.wids| - 1]) == |imgs|
  {
    hide PackImage, IsDelta, ShowKeyframe, ShowDelta, Shown, ChangesSince, Sized;
    if had.since < t.wids[0] {
      FromKeyframe(t, imgs, desc.w, desc.h, mode, had.since);
    } else {
      CatchUp(t, imgs, desc.w, desc.h, mode, had.since);
    }
    UptoUnique(t.wids, t.wids[|t.wids| - 1], |t.wids|);
  }

  /** After a fetch the client shows the last rendered image, and its version is
      the top of the stack. */
  lemma FetchShowsRendered(s: World, client: nat, desc: Desc, mode: TileMode)
    requires Inv(s, mode) && desc in s.stacks && Alone(s, desc)
    ensures Cut(s.stacks[desc])
    ensures var c := Fetched(s.stacks[desc], desc, Had(s, client, desc));
      && desc in s.rendered && c.img == Shown(s.rendered[desc], mode)
      && ClientInStep(s, desc, c, mode)
  {
    hide KitInStep, Stacked, Shown, Upto, Cut, Fetched, Alone;
    assert StackInStep(s, desc, mode);
    var t, imgs := s.stacks[desc], s.history[desc];
    StackedShape(t, imgs, desc.w, desc.h, mode);
    var had := Had(s, client, desc);
    assert had == ClientTile(0, []) || ClientInStep(s, desc, had, mode) by {
      assert (client, desc).1 == desc;
    }
    FetchedImage(t, imgs, desc, had, mode);
  }

  lemma NextKeepsInv(s: World, s': World, a: Action, mode: TileMode)
    requires Inv(s, mode) && Next(s, s', a, mode)
    ensures Inv(s', mode)
  {
    hide StackInStep, ClientInStep, RenderStep, Rebalanced, Cut, Alone;
    match a
    case Render(desc, img, force, msg) =>
      RenderKeepsInv(s, s', desc, img, force, msg, mode);
    case RebalanceDeltas(limit) =>
      RebalanceKeepsInv(s, s', mode);
    case SetSessionCount(count) =>
      RebalanceKeepsInv(s, s', mode);
    case DropCache =>
      SameServer(s, s', mode);
    case EvictStacks(gone) =>
      EvictKeepsInv(s, s', gone, mode);
    case Fetch(client, desc) =>
      SameServer(s, s', mode);
      KitKept(s, s');
      if Alone(s, desc) {
        FetchShowsRendered(s, client, desc, mode);
      }
    case ResetTileSeq(client, desc) =>
      SameServer(s, s', mode);
      KitKept(s, s');
      if Alone(s, desc) {
        ResetInStep(s, client, desc, mode);
      }
  }

  lemma RenderKeepsInv(s: World, s': World, desc: Desc, img: Image, force: bool, msg: seq<byte>, mode: TileMode)
    requires Inv(s, mode) && RenderStep(s, s', desc, img, force, msg, mode)
    ensures Inv(s', mode)
  {
    hide StackInStep, ClientInStep, KitInStep, RenderStep, Cut, Alone;
    RenderKeepsKit(s, s', desc, img, force, msg, mode);
    RenderKeys(s, s', desc, img, force, msg, mode);
    RenderKeepsCuts(s, s', desc, img, force, msg, mode);
    RenderedGrows(s, s', desc, img, force, msg, mode);
    forall d | d in s'.stacks && Alone(s', d)
      ensures StackInStep(s', d, mode)
    {
      RenderKeepsStack(s, s', desc, img, force, msg, mode, d);
    }
    forall k | k in s'.clients && Alone(s', k.1)
      ensures ClientInStep(s', k.1, s'.clients[k], mode)
    {
      AloneBefore(s, s', k.1);
      RenderKeepsClient(s, s', desc, img, force, msg, mode, k.1, s'.clients[k]);
    }
  }

  lemma RenderKeys(s: World, s': World, desc: Desc, img: Image, force: bool, msg: seq<byte>, mode: TileMode)
    requires StacksInStep(s, mode) && RenderStep(s, s', desc, img, force, msg, mode)
    ensures s'.stacks.Keys == s'.history.Keys && s'.clients == s.clients
  {
    hide Encoded, StackInStep, AppendedBlob, AfterDelta, Cut, Alone;
  }

  /** Steps that leave the server's side alone. */
  lemma SameServer(s: World, s': World, mode: TileMode)
    requires s'.stacks == s.stacks && s'.history == s.history && s'.rendered == s.rendered && s'.lastWid == s.lastWid
    ensures forall d :: d in s.stacks && StackInStep(s, d, mode) ==> StackInStep(s', d, mode)
    ensures forall d, c :: ClientInStep(s, d, c, mode) ==> ClientInStep(s', d, c, mode)
    ensures forall d :: Alone(s', d) == Alone(s, d)
  {
  }

  /** Steps that cache nothing new. */
  lemma KitKept(s: World, s': World)
    requires KitInStep(s) && Consistent(s'.kit) && s'.rendered == s.rendered
    requires forall l :: l in s'.kit.entries ==> l in s.kit.entries && s'.kit.entries[l] == s.kit.entries[l]
    requires forall l :: l in s'.kit.images ==> l in s.kit.images && s'.kit.images[l] == s.kit.images[l]
    ensures KitInStep(s')
  {
    hide Consistent;
    forall l | l in s'.kit.entries && l in s'.kit.images
      ensures exists tileHeight :: CachedFor(s', l, tileHeight)
    {
      var tileHeight :| CachedFor(s, l, tileHeight);
      assert CachedFor(s', l, tileHeight);
    }
  }

  lemma RebalancedKept(c: Cache, c': Cache, maxEntries: nat)
    requires Consistent(c) && Rebalanced(c, c', maxEntries, false)
    ensures Consistent(c')
    ensures forall l :: l in c'.entries ==> l in c.entries && c'.entries[l] == c.entries[l]
    ensures forall l :: l in c'.images ==> l in c.images && c'.images[l] == c.images[l]
  {
    RebalancedConsistent(c, c', maxEntries, false);
    hide Holds;
  }

  lemma RebalanceKeepsInv(s: World, s': World, mode: TileMode)
    requires Inv(s, mode) && KitOnly(s, s') && Rebalanced(s.kit, s'.kit, s'.maxEntries, false)
    ensures Inv(s', mode)
  {
    hide StackInStep, ClientInStep, Consistent, Rebalanced, Cut, Alone;
    RebalancedKept(s.kit, s'.kit, s'.maxEntries);
    KitKept(s, s');
    SameServer(s, s', mode);
    hide KitInStep;
  }

  lemma EvictKeepsInv(s: World, s': World, gone: set<Desc>, mode: TileMode)
    requires Inv(s, mode) && s' == s.(stacks := s.stacks - gone, history := s.history - gone)
    ensures Inv(s', mode)
  {
    hide Stacked, Shown, Upto, Consistent, Cut;
    KitKept(s, s');
    hide KitInStep;
    forall d | d in s'.stacks && Alone(s', d)
      ensures StackInStep(s', d, mode)
    {
      assert Alone(s, d);
      assert StackInStep(s, d, mode);
    }
    forall k | k in s'.clients && Alone(s', k.1)
      ensures ClientInStep(s', k.1, s'.clients[k], mode)
    {
      assert Alone(s, k.1);
      assert ClientInStep(s, k.1, s.clients[k], mode);
    }
  }

  lemma ResetInStep(s: World, client: nat, desc: Desc, mode: TileMode)
    requires Inv(s, mode) && (client, desc) in s.clients && Alone(s, desc)
    ensures ClientInStep(s, desc, s.clients[(client, desc)].(since := 0), mode)
  {
    hide PackImage, IsDelta, Alone, Shown, Upto;
    if desc in s.stacks {
      assert StackInStep(s, desc, mode);
    }
    assert (client, desc).1 == desc;
  }

  // ----- Runs -----

  ghost predicate IsRun(run: seq<World>, actions: seq<Action>, mode: TileMode) {
    && |run| == |actions| + 1 && Init(run[0])
    && forall i :: 0 <= i < |actions| ==> Next(run[i], run[i + 1], actions[i], mode)
  }

  lemma {:induction false} RunKeepsInv(run: seq<World>, actions: seq<Action>, mode: TileMode, i: nat)
    requires IsRun(run, actions, mode) && i <= |actions|
    ensures Inv(run[i], mode)
  {
    hide Next, Init, Inv;
    if i == 0 {
      InitInv(run[0], mode);
    } else {
      RunKeepsInv(run, actions, mode, i - 1);
      NextKeepsInv(run[i - 1], run[i], actions[i - 1], mode);
    }
  }

  lemma InitInv(s: World, mode: TileMode)
    requires Init(s)
    ensures Inv(s, mode)
  {
  }

  /** Over any run, whatever is rendered, forced, evicted, dropped or resized on
      the way, a client that has just fetched a tile shows the RGBA form of the
      last pixmap rendered for it, if no sibling of the tile has been rendered. */
  lemma ClientsShowLastRender(run: seq<World>, actions: seq<Action>, mode: TileMode, i: nat)
    requires IsRun(run, actions, mode) && i < |actions| && actions[i].Fetch? && Alone(run[i], actions[i].desc)
    ensures var k := (actions[i].client, actions[i].desc);
      && k in run[i + 1].clients && k.1 in run[i + 1].rendered
      && run[i + 1].clients[k].img == Shown(run[i + 1].rendered[k.1], mode)
  {
    RunKeepsInv(run, actions, mode, i);
    assert Next(run[i], run[i + 1], actions[i], mode);
    hide Inv, Alone;
    FetchShowsRendered(run[i], actions[i].client, actions[i].desc, mode);
  }

  /** Nothing that is still on the server is stale: it decodes to the last pixmap
      rendered for the tile, if no sibling has been rendered. */
  lemma ServerHoldsLastRender(run: seq<World>, actions: seq<Action>, mode: TileMode, i: nat, d: Desc)
    requires IsRun(run, actions, mode) && i <= |actions| && d in run[i].stacks && Alone(run[i], d)
    ensures d in run[i].rendered
    ensures ShowKeyframe(run[i].stacks[d].deltas, d.w, d.h) == Shown(run[i].rendered[d], mode)
  {
    RunKeepsInv(run, actions, mode, i);
    hide Next, Init, ShowKeyframe, Shown, KitInStep, ClientInStep, Alone, Cut;
    assert StackInStep(run[i], d, mode);
    FromKeyframe(run[i].stacks[d], run[i].history[d], d.w, d.h, mode, 0);
  }

  /** Whatever is on the server can be fetched, with siblings or without. */
  lemma AlwaysFetchable(run: seq<World>, actions: seq<Action>, mode: TileMode, i: nat, d: Desc)
    requires IsRun(run, actions, mode) && i <= |actions| && d in run[i].stacks
    ensures Cut(run[i].stacks[d])
  {
    RunKeepsInv(run, actions, mode, i);
  }

  /** Until the server itself evicts, every tile ever rendered is there, if no
      sibling has been rendered: no delta has come without the keyframe below it. */
  lemma {:induction false} NothingLost(run: seq<World>, actions: seq<Action>, mode: TileMode, i: nat, d: Desc)
    requires IsRun(run, actions, mode) && i <= |actions|
    requires forall j :: 0 <= j < i ==> !actions[j].EvictStacks?
    requires d in run[i].rendered && Alone(run[i], d)
    ensures d in run[i].stacks
  {
    hide Alone, Inv;
    if i > 0 {
      RunKeepsInv(run, actions, mode, i - 1);
      assert Next(run[i - 1], run[i], actions[i - 1], mode);
      RenderedKept(run[i - 1], run[i], actions[i - 1], mode, d);
      if d in run[i - 1].rendered {
        NothingLost(run, actions, mode, i - 1, d);
      }
    }
  }

  lemma RenderedKept(s: World, s': World, a: Action, mode: TileMode, d: Desc)
    requires Inv(s, mode) && Next(s, s', a, mode) && !a.EvictStacks? && d in s'.rendered && Alone(s', d)
    ensures Alone(s, d)
    ensures d in s.stacks ==> d in s'.stacks
    ensures d !in s.rendered ==> d in s'.stacks
  {
    hide StackInStep, ClientInStep, Encoded, Rebalanced, KitInStep, AppendedBlob, AfterDelta, Cut, Fetched, Alone;
    AloneBefore(s, s', d);
    if a.Render? {
      DeltaMatchesStack(s, s', a.desc, a.img, a.force, a.msg, mode);
    }
  }
}
