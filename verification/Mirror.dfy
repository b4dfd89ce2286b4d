/** The delta generator itself against a client that takes every message: it
    replaces its tile on a keyframe and patches it on a delta. */
module Mirror {
  import opened Options
  import opened Pixels
  import opened TileDelta
  import opened MakeDelta
  import opened FlatImage
  import opened BrowserDelta
  import opened Keyframe
  import opened DeltaCache
  import opened TileStack
  import RowInit

  /** A call of the generator. */
  datatype Request =
    | Tile(pixmap: seq<Pixel>, startX: nat, startY: nat, width: nat, height: nat,
           bufferWidth: nat, bufferHeight: nat, loc: TileLocation, wid: nat, forceKeyframe: bool)
    | RebalanceDeltas(limit: int)
    | SetSessionCount(count: nat)
    | DropCache

  /** The sizes that the generator accepts. */
  predicate Proper(r: Request) {
    r.Tile? ==>
      && r.width % 2 == 0 && r.width <= 256 && r.height <= 256
      && InPixmap(r.pixmap, r.bufferWidth, r.bufferHeight, r.startX, r.startY, r.width, r.height)
  }

  function Part(r: Request): (img: Image)
    requires Proper(r) && r.Tile?
    ensures Sized(img, r.width, r.height)
  {
    Window(r.pixmap, r.bufferWidth, r.bufferHeight, r.startX, r.startY, r.width, r.height)
  }

  predicate AllProper(requests: seq<Request>) {
    forall i :: 0 <= i < |requests| ==> Proper(requests[i])
  }

  /** The last of the first n requested pixmaps at a location, in any size. */
  function LastAt(requests: seq<Request>, n: nat, loc: TileLocation): Option<Image>
    requires n <= |requests| && AllProper(requests)
  {
    if n == 0 then None
    else if requests[n - 1].Tile? && requests[n - 1].loc == loc then Some(Part(requests[n - 1]))
    else LastAt(requests, n - 1, loc)
  }

  /** What the client makes of a message for a tile of this size. */
  function Receive(mirror: map<TileLocation, seq<byte>>, loc: TileLocation, w: nat, h: nat, msg: seq<byte>)
    : map<TileLocation, seq<byte>>
    requires |msg| > 0
  {
    if msg[0] == KEYFRAME_TAG then mirror[loc := ShowKeyframe(msg[1..], w, h)]
    else if loc in mirror then mirror[loc := ShowDelta(mirror[loc], msg[1..], w)]
    else mirror
  }

  // ----- The invariant -----

  /** The generator caches only last versions. */
  ghost predicate CachesLast(c: Cache, requests: seq<Request>, n: nat)
    requires n <= |requests| && AllProper(requests)
  {
    Consistent(c) && forall l :: l in c.images ==> LastAt(requests, n, l) == Some(c.images[l])
  }

  /** The client shows the last versions, of every tile requested so far. */
  ghost predicate ShowsLast(mirror: map<TileLocation, seq<byte>>, requests: seq<Request>, n: nat, mode: TileMode)
    requires n <= |requests| && AllProper(requests)
  {
    forall l ::
      && (l in mirror <==> LastAt(requests, n, l).Some?)
      && (l in mirror ==> mirror[l] == Shown(LastAt(requests, n, l).value, mode))
  }

  /** A keyframe alone shows its image. */
  lemma KeyframeShows(img: Image, w: nat, h: nat, mode: TileMode)
    requires Sized(img, w, h) && w <= 256
    ensures ShowKeyframe(PackImage(img, mode), w, h) == Shown(img, mode)
  {
    hide PackImage, UnpackedImage, Flat, ImageToRgba, RowOffset, ApplyChunks;
    var data := PackImage(img, mode);
    KeyframeDecodes(data, img, w, mode);
    ChunksFrom(Shown(img, mode), data, |data|, w);
    assert data[|data|..] == [];
    NoMoreChunks(Shown(img, mode), w);
  }

  /** A delta takes the old image to the new one. */
  lemma DeltaShows(prev: Image, cur: Image, w: nat, mode: TileMode, delta: seq<byte>)
    requires IsDelta(prev, cur, w, mode, delta)
    ensures ShowDelta(Shown(prev, mode), delta, w) == Shown(cur, mode)
  {
    hide IsDelta, ApplyChunks;
    DeltaApplies(prev, cur, w, mode, delta, []);
    assert delta + [] == delta;
    NoMoreChunks(Shown(cur, mode), w);
  }

  /** The message for a tile always fits what the client has, so the client shows
      the new pixmap. */
  lemma MessageShows(c: Cache, requests: seq<Request>, n: nat, mode: TileMode, mirror: map<TileLocation, seq<byte>>,
                     c': Cache, msg: seq<byte>)
    requires n < |requests| && AllProper(requests) && requests[n].Tile?
    requires CachesLast(c, requests, n) && ShowsLast(mirror, requests, n, mode)
    requires var r := requests[n]; Encoded(c, r.loc, Part(r), r.width, r.wid, r.forceKeyframe, mode, c', msg)
    ensures |msg| > 0
    ensures var r := requests[n];
      Receive(mirror, r.loc, r.width, r.height, msg) == mirror[r.loc := Shown(Part(r), mode)]
  {
    hide IsDelta, PackImage, ShowKeyframe, ShowDelta, Shown, EncodeRows, Part, Window, InPixmap, Consistent;
    var r := requests[n];
    var img := Part(r);
    if msg[0] == KEYFRAME_TAG {
      assert msg[1..] == PackImage(img, mode);
      KeyframeShows(img, r.width, r.height, mode);
    } else {
      DeltaShows(c.images[r.loc], img, r.width, mode, msg[1..]);
    }
  }

  lemma TileStep(c: Cache, requests: seq<Request>, n: nat, mode: TileMode, mirror: map<TileLocation, seq<byte>>,
                 c': Cache, msg: seq<byte>)
    requires n < |requests| && AllProper(requests) && requests[n].Tile?
    requires CachesLast(c, requests, n) && ShowsLast(mirror, requests, n, mode) && Consistent(c')
    requires var r := requests[n]; Encoded(c, r.loc, Part(r), r.width, r.wid, r.forceKeyframe, mode, c', msg)
    ensures |msg| > 0
    ensures CachesLast(c', requests, n + 1)
    ensures var r := requests[n]; ShowsLast(Receive(mirror, r.loc, r.width, r.height, msg), requests, n + 1, mode)
  {
    hide IsDelta, PackImage, Shown, EncodeRows, Part, Window, InPixmap, Consistent, Receive;
    MessageShows(c, requests, n, mode, mirror, c', msg);
  }

  /** Evictions lose versions, but no kept version is out of date. */
  lemma EvictionStep(c: Cache, requests: seq<Request>, n: nat, mode: TileMode, mirror: map<TileLocation, seq<byte>>,
                     c': Cache, maxEntries: nat, dropAll: bool)
    requires n < |requests| && AllProper(requests) && !requests[n].Tile?
    requires CachesLast(c, requests, n) && ShowsLast(mirror, requests, n, mode)
    requires Rebalanced(c, c', maxEntries, dropAll)
    ensures CachesLast(c', requests, n + 1)
    ensures ShowsLast(mirror, requests, n + 1, mode)
  {
    RebalancedConsistent(c, c', maxEntries, dropAll);
    hide Shown, Part, Holds;
  }

  // ----- Pixel by pixel -----

  /** Request i is the last tile at the location. */
  ghost predicate LastTile(requests: seq<Request>, loc: TileLocation, i: nat) {
    && i < |requests| && requests[i].Tile? && requests[i].loc == loc
    && forall j :: i < j < |requests| ==> !(requests[j].Tile? && requests[j].loc == loc)
  }

  /** Place c of pixel (x, y) shows pixel (startX + x, startY + y) of the pixmap. */
  predicate ByteShown(bytes: seq<byte>, r: Request, mode: TileMode, x: nat, y: nat, c: nat)
    requires r.Tile?
  {
    var at, from := 4 * (y * r.width + x) + c, (r.startY + y) * r.bufferWidth + r.startX + x;
    at < |bytes| && from < |r.pixmap| && bytes[at] == ClientByte(r.pixmap[from], mode, c)
  }

  ghost predicate TileShown(bytes: seq<byte>, r: Request, mode: TileMode)
    requires r.Tile?
  {
    && |bytes| == 4 * (r.height * r.width)
    && forall x, y, c :: 0 <= x < r.width && 0 <= y < r.height && 0 <= c < 4 ==> ByteShown(bytes, r, mode, x, y, c)
  }

  lemma PartShown(r: Request, mode: TileMode)
    requires Proper(r) && r.Tile?
    ensures TileShown(Shown(Part(r), mode), r, mode)
  {
    hide Shown;
    var img := Part(r);
    ShownSize(img, r.width, mode);
    forall x, y, c | 0 <= x < r.width && 0 <= y < r.height && 0 <= c < 4
      ensures ByteShown(Shown(img, mode), r, mode, x, y, c)
    {
      hide Window, InPixmap, ClientByte, Sized;
      PartByteShown(r, mode, x, y, c);
    }
  }

  lemma PartByteShown(r: Request, mode: TileMode, x: nat, y: nat, c: nat)
    requires Proper(r) && r.Tile? && x < r.width && y < r.height && c < 4
    ensures ByteShown(Shown(Part(r), mode), r, mode, x, y, c)
  {
    hide Shown, Window, InPixmap, ClientByte;
    ShownByte(Part(r), r.width, mode, x, y, c);
    WindowPixel(r.pixmap, r.bufferWidth, r.bufferHeight, r.startX, r.startY, r.width, r.height, x, y);
  }

  lemma {:induction false} LastTileAt(requests: seq<Request>, loc: TileLocation, i: nat, n: nat)
    requires AllProper(requests) && LastTile(requests, loc, i) && i < n <= |requests|
    ensures LastAt(requests, n, loc) == Some(Part(requests[i]))
  {
    hide Part;
    if i < n - 1 {
      LastTileAt(requests, loc, i, n - 1);
    }
  }

  lemma {:induction false} NoTileAt(requests: seq<Request>, loc: TileLocation, n: nat) returns (i: nat)
    requires AllProper(requests) && n <= |requests| && LastAt(requests, n, loc).Some?
    requires forall j :: n <= j < |requests| ==> !(requests[j].Tile? && requests[j].loc == loc)
    ensures LastTile(requests, loc, i)
  {
    hide Part;
    if requests[n - 1].Tile? && requests[n - 1].loc == loc {
      i := n - 1;
    } else {
      i := NoTileAt(requests, loc, n - 1);
    }
  }

  /** A client that shows the last versions shows the pixmaps, byte by byte. */
  ghost predicate ShowsPixmaps(mirror: map<TileLocation, seq<byte>>, requests: seq<Request>, mode: TileMode) {
    && (forall l, i: nat :: LastTile(requests, l, i) ==> l in mirror && TileShown(mirror[l], requests[i], mode))
    && (forall l :: l in mirror ==> exists i: nat :: LastTile(requests, l, i))
  }

  lemma ShowsLastPixmaps(mirror: map<TileLocation, seq<byte>>, requests: seq<Request>, mode: TileMode)
    requires AllProper(requests) && ShowsLast(mirror, requests, |requests|, mode)
    ensures ShowsPixmaps(mirror, requests, mode)
  {
    hide Shown, Part, TileShown;
    forall l, i: nat | LastTile(requests, l, i)
      ensures l in mirror && TileShown(mirror[l], requests[i], mode)
    {
      LastTileAt(requests, l, i, |requests|);
      PartShown(requests[i], mode);
    }
    forall l | l in mirror
      ensures exists i: nat :: LastTile(requests, l, i)
    {
      var i := NoTileAt(requests, l, |requests|);
    }
  }

  // ----- Any run of the generator -----

  /** Whatever is requested, in any sizes, forced, evicted or dropped, the client
      shows the RGBA form of the last pixmap at every location. */
  method Replay(requests: seq<Request>, mode: TileMode, lut: seq<seq<nat>>) returns (mirror: map<TileLocation, seq<byte>>)
    requires AllProper(requests) && RowInit.IsGatherLut(lut)
    ensures ShowsLast(mirror, requests, |requests|, mode)
    ensures ShowsPixmaps(mirror, requests, mode)
  {
    hide *;
    var generator := new DeltaGenerator(mode, lut);
    mirror := map[];
    NothingShown(requests, mode);
    for i := 0 to |requests|
      invariant generator.Valid() && fresh(generator) && generator.mode == mode
      invariant CachesLast(generator.Contents(), requests, i)
      invariant ShowsLast(mirror, requests, i, mode)
    {
      mirror := Serve(generator, requests, i, mirror);
    }
    ShowsLastPixmaps(mirror, requests, mode);
  }

  /** One request and what the client makes of the message, if there is one. */
  method Serve(generator: DeltaGenerator, requests: seq<Request>, i: nat, mirror: map<TileLocation, seq<byte>>)
    returns (mirror': map<TileLocation, seq<byte>>)
    requires i < |requests| && AllProper(requests) && generator.Valid()
    requires CachesLast(generator.Contents(), requests, i) && ShowsLast(mirror, requests, i, generator.mode)
    modifies generator
    ensures generator.Valid()
    ensures CachesLast(generator.Contents(), requests, i + 1)
    ensures ShowsLast(mirror', requests, i + 1, generator.mode)
  {
    hide CachesLast, ShowsLast, Encoded, Rebalanced, Receive, LastAt, InPixmap, Window;
    ghost var before := generator.Contents();
    mirror' := mirror;
    var r := requests[i];
    match r
    case Tile(pixmap, startX, startY, width, height, bufferWidth, bufferHeight, loc, wid, force) =>
      var msg := generator.CompressOrDelta(pixmap, startX, startY, width, height, bufferWidth, bufferHeight, loc, wid, force);
      ValidContents(generator);
      TileStep(before, requests, i, generator.mode, mirror, generator.Contents(), msg);
      mirror' := Receive(mirror, loc, width, height, msg);
    case RebalanceDeltas(limit) =>
      generator.RebalanceDeltas(limit);
      EvictionStep(before, requests, i, generator.mode, mirror, generator.Contents(), generator.maxEntries, false);
    case SetSessionCount(count) =>
      generator.SetSessionCount(count);
      EvictionStep(before, requests, i, generator.mode, mirror, generator.Contents(), generator.maxEntries, false);
    case DropCache =>
      generator.DropCache();
      DroppedIsRebalanced(before, generator.maxEntries);
      EvictionStep(before, requests, i, generator.mode, mirror, generator.Contents(), generator.maxEntries, true);
  }

  lemma NothingShown(requests: seq<Request>, mode: TileMode)
    requires AllProper(requests)
    ensures CachesLast(Cache(map[], map[]), requests, 0) && ShowsLast(map[], requests, 0, mode)
  {
  }

  lemma ValidContents(g: DeltaGenerator)
    requires g.Valid()
    ensures Consistent(g.Contents())
  {
  }

  lemma DroppedIsRebalanced(c: Cache, maxEntries: nat)
    ensures Rebalanced(c, Cache(map[], map[]), maxEntries, true)
  {
  }
}
