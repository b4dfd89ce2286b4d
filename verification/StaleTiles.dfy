/** Which tiles can go stale on the server: those that the server tells apart by
    the height of the tile and the kit does not. */
module StaleTiles {
  import opened Options
  import opened Pixels
  import opened TileDelta
  import opened MakeDelta
  import opened FlatImage
  import opened Keyframe
  import opened DeltaCache
  import opened TileStack
  import opened Pipeline

  /** The server's stack for a tile does not decode to its last rendering. */
  ghost predicate Stale(s: World, d: Desc, mode: TileMode) {
    && d in s.stacks && d in s.rendered
    && ShowKeyframe(s.stacks[d].deltas, d.w, d.h) != Shown(s.rendered[d], mode)
  }

  /** A run that renders none but these tiles and ends with one of them stale. */
  ghost predicate GoesStale(run: seq<World>, actions: seq<Action>, tiles: set<Desc>, d: Desc, mode: TileMode) {
    && IsRun(run, actions, mode)
    && run[|actions|].rendered.Keys <= tiles
    && Stale(run[|actions|], d, mode)
  }

  // ----- Two plain images -----

  function Plain(p: Pixel, w: nat, h: nat): (img: Image)
    ensures Sized(img, w, h)
  {
    seq(h, _ => seq(w, _ => p))
  }

  const INK := Pixel(1, 1, 1, 1)

  /** An image of one colour shows that colour. */
  lemma PlainShows(p: Pixel, w: nat, h: nat, mode: TileMode)
    requires w > 0 && h > 0
    ensures |Shown(Plain(p, w, h), mode)| > 3 && Shown(Plain(p, w, h), mode)[3] == p.b3
  {
    var img := ImageToRgba(Plain(p, w, h), mode);
    FlatRow(img, w, 0);
    StartZero(w);
    var row := PixelBytes(img[0]);
    assert RowAt(Flat(img), w, 0)[3] == row[3];
    assert row[3] == img[0][0].b3 == p.b3;
  }

  lemma PlainDiffer(w: nat, h: nat, mode: TileMode)
    requires w > 0 && h > 0
    ensures Shown(Plain(TRANSPARENT, w, h), mode) != Shown(Plain(INK, w, h), mode)
  {
    hide Shown, Plain;
    PlainShows(TRANSPARENT, w, h, mode);
    PlainShows(INK, w, h, mode);
  }

  // ----- The failing run -----

  /** The state after rendering a tile that the server has or gets a keyframe of. */
  ghost function After(s: World, d: Desc, img: Image, msg: seq<byte>): World
    requires |msg| > 0
  {
    var t := if d in s.stacks then s.stacks[d] else EMPTY_STACK;
    var h := if d in s.history then s.history[d] else [];
    s.(kit := Cache(s.kit.entries[d.loc := DeltaData(s.lastWid + 1, d.w, |img|, EncodeRows(img))],
                    s.kit.images[d.loc := img]),
       lastWid := s.lastWid + 1,
       stacks := s.stacks[d := AppendedBlob(t, s.lastWid + 1, msg)],
       history := s.history[d := if IsKeyframe(msg) then [img] else AfterDelta(t, h, msg, img)],
       rendered := s.rendered[d := img])
  }

  lemma ForcedStep(s: World, d: Desc, img: Image, mode: TileMode)
    requires Sized(img, d.w, d.h) && Renderable(d)
    ensures var msg := [KEYFRAME_TAG] + PackImage(img, mode);
      Next(s, After(s, d, img, msg), Render(d, img, true, msg), mode)
  {
    hide PackImage, AppendedBlob, AfterDelta, EncodeRows, IsDelta, Sized;
    SizedHeight(img, d.w, d.h);
  }

  /** Rendering what the kit has cached gives the empty delta. */
  lemma UnchangedStep(s: World, d: Desc, img: Image, mode: TileMode)
    requires Sized(img, d.w, d.h) && Renderable(d) && d in s.stacks
    requires d.loc in s.kit.entries && d.loc in s.kit.images && s.kit.images[d.loc] == img
    requires s.kit.entries[d.loc].width == d.w && s.kit.entries[d.loc].height == d.h
    ensures Next(s, After(s, d, img, [DELTA_TAG]), Render(d, img, false, [DELTA_TAG]), mode)
  {
    hide AppendedBlob, AfterDelta, EncodeRows, IsDelta, Sized;
    SizedHeight(img, d.w, d.h);
    NothingChanged(img, d.w, d.h, mode);
    assert [DELTA_TAG][1..] == [];
  }

  lemma NothingChanged(img: Image, w: nat, h: nat, mode: TileMode)
    requires Sized(img, w, h) && h <= 256
    ensures IsDelta(img, img, w, mode, [])
  {
    var rgba := ImageToRgba(img, mode);
    assert rgba[..|img|] + rgba[|img|..] == rgba;
    assert Rebuilt(rgba, rgba, [], |img|, w);
  }

  /** A keyframe of one image and an empty delta for another: the image shown is
      the first. */
  lemma StillShows(d: Desc, img: Image, id: nat, mode: TileMode)
    requires Sized(img, d.w, d.h) && d.w <= 256 && id > 1
    ensures var t := KeyframeAndEmpty(PackImage(img, mode), id);
      && Cut(t) && ShowKeyframe(t.deltas, d.w, d.h) == Shown(img, mode)
      && Fetched(t, d, ClientTile(0, [])) == ClientTile(id, Shown(img, mode))
  {
    hide PackImage, ShowKeyframe, Shown, Sized, IsDelta, AppendedBlob, Stacked;
    var z := PackImage(img, mode);
    StackKeyframe(EMPTY_STACK, 1, img, d.w, d.h, mode);
    StackedShape(AppendedBlob(EMPTY_STACK, 1, [KEYFRAME_TAG] + z), [img], d.w, d.h, mode);
    FromKeyframe(AppendedBlob(EMPTY_STACK, 1, [KEYFRAME_TAG] + z), [img], d.w, d.h, mode, 0);
    AppendedKeyframe(z);
    AllSince(z, id);
  }

  /** A keyframe with an empty delta on top. */
  function KeyframeAndEmpty(z: seq<byte>, id: nat): TileData {
    TileData([1, id], [0, |z|], z, true)
  }

  lemma AppendedKeyframe(z: seq<byte>)
    ensures AppendedBlob(EMPTY_STACK, 1, [KEYFRAME_TAG] + z) == TileData([1], [0], z, true)
  {
    assert ([KEYFRAME_TAG] + z)[1..] == z;
  }

  lemma AppendedEmpty(z: seq<byte>, id: nat)
    ensures AppendedBlob(TileData([1], [0], z, true), id, [DELTA_TAG]) == KeyframeAndEmpty(z, id)
  {
    assert [DELTA_TAG][1..] == [] && z + [] == z;
  }

  lemma AllSince(z: seq<byte>, id: nat)
    ensures var t := KeyframeAndEmpty(z, id); Cut(t) && ChangesSince(t, 0) == Some(z)
  {
    assert z[0..] == z;
  }

  /** The kit and the server after three renderings: one tile, its sibling, and the
      first tile again, which now looks like the sibling. */
  lemma ThreeRenders(d: Desc, e: Desc, x: Image, y: Image, mode: TileMode) returns (s: seq<World>, actions: seq<Action>)
    requires Siblings(d, e) && Renderable(d) && Renderable(e) && Sized(x, d.w, d.h) && Sized(y, d.w, d.h)
    ensures |s| == 4 && Init(s[0]) && |actions| == 3 && s[3].clients == map[]
    ensures forall i :: 0 <= i < 3 ==> Next(s[i], s[i + 1], actions[i], mode)
    ensures actions[0].Render? && actions[0].force && actions[1].Render? && actions[1].force
    ensures s[3].rendered == map[d := y, e := y]
    ensures d in s[3].stacks && s[3].stacks[d] == KeyframeAndEmpty(PackImage(x, mode), 3)
  {
    hide PackImage, AppendedBlob, AfterDelta, EncodeRows, Sized, Next, KeyframeAndEmpty;
    var zx, zy := [KEYFRAME_TAG] + PackImage(x, mode), [KEYFRAME_TAG] + PackImage(y, mode);
    var s0 := World(Cache(map[], map[]), 0, 0, map[], map[], map[], map[]);
    var s1 := After(s0, d, x, zx);
    var s2 := After(s1, e, y, zy);
    var s3 := After(s2, d, y, [DELTA_TAG]);
    ForcedStep(s0, d, x, mode);
    ForcedStep(s1, e, y, mode);
    SizedHeight(y, d.w, d.h);
    UnchangedStep(s2, d, y, mode);
    AppendedKeyframe(PackImage(x, mode));
    AppendedEmpty(PackImage(x, mode), 3);
    s := [s0, s1, s2, s3];
    actions := [Render(d, x, true, zx), Render(e, y, true, zy), Render(d, y, false, [DELTA_TAG])];
  }

  /** The kit sends an empty delta for the third rendering, and the server and any
      client keep the first. */
  lemma SiblingsGoStale(d: Desc, e: Desc, mode: TileMode) returns (run: seq<World>, actions: seq<Action>)
    requires Siblings(d, e) && Renderable(d) && Renderable(e)
    ensures GoesStale(run, actions, {d, e}, d, mode) && |actions| == 4 && actions[3] == Fetch(0, d)
    ensures actions[0].Render? && actions[0].force && actions[1].Render? && actions[1].force
    ensures var s := run[4]; (0, d) in s.clients && s.clients[(0, d)].img != Shown(s.rendered[d], mode)
  {
    hide PackImage, Shown, ShowKeyframe, Plain, Sized, RenderStep, Fetched, Cut, Init, IsRun, KeyframeAndEmpty;
    var x, y := Plain(TRANSPARENT, d.w, d.h), Plain(INK, d.w, d.h);
    var s, renders := ThreeRenders(d, e, x, y, mode);
    StillShows(d, x, 3, mode);
    PlainDiffer(d.w, d.h, mode);
    var s4 := s[3].(clients := map[(0, d) := Fetched(s[3].stacks[d], d, ClientTile(0, []))]);
    run, actions := s + [s4], renders + [Fetch(0, d)];
    FourSteps(run, actions, mode);
  }

  lemma FourSteps(run: seq<World>, actions: seq<Action>, mode: TileMode)
    requires |run| == 5 && |actions| == 4 && Init(run[0])
    requires Next(run[0], run[1], actions[0], mode) && Next(run[1], run[2], actions[1], mode)
    requires Next(run[2], run[3], actions[2], mode) && Next(run[3], run[4], actions[3], mode)
    ensures IsRun(run, actions, mode)
  {
    hide Next, Init;
  }

  // ----- Exactly when -----

  lemma {:induction false} RenderedAreRenderable(run: seq<World>, actions: seq<Action>, mode: TileMode, i: nat, d: Desc)
    requires IsRun(run, actions, mode) && i <= |actions| && d in run[i].rendered
    ensures Renderable(d)
  {
    hide Next, Renderable;
    if i > 0 {
      NewlyRendered(run[i - 1], run[i], actions[i - 1], mode, d);
      if d in run[i - 1].rendered {
        RenderedAreRenderable(run, actions, mode, i - 1, d);
      }
    }
  }

  lemma NewlyRendered(s: World, s': World, a: Action, mode: TileMode, d: Desc)
    requires Next(s, s', a, mode) && d in s'.rendered
    ensures d in s.rendered || Renderable(d)
  {
    hide Encoded, Saved, Rebalanced, Fetched, Cut, Renderable;
  }

  /** Some run over a set of tiles leaves one of them stale if and only if two of
      them differ in nothing but the height of the tile. */
  lemma StaleIff(tiles: set<Desc>, mode: TileMode)
    ensures (exists run: seq<World>, actions: seq<Action>, d: Desc :: GoesStale(run, actions, tiles, d, mode))
      <==> exists d, e :: d in tiles && e in tiles && Siblings(d, e) && Renderable(d) && Renderable(e)
  {
    hide IsRun, Renderable, Siblings, Stale, Alone;
    if d, e :| d in tiles && e in tiles && Siblings(d, e) && Renderable(d) && Renderable(e) {
      var run, actions := SiblingsGoStale(d, e, mode);
      assert GoesStale(run, actions, tiles, d, mode);
    }
    forall run: seq<World>, actions: seq<Action>, d: Desc | GoesStale(run, actions, tiles, d, mode)
      ensures exists d, e :: d in tiles && e in tiles && Siblings(d, e) && Renderable(d) && Renderable(e)
    {
      var e := StaleHasSibling(run, actions, tiles, d, mode);
    }
  }

  lemma StaleHasSibling(run: seq<World>, actions: seq<Action>, tiles: set<Desc>, d: Desc, mode: TileMode) returns (e: Desc)
    requires GoesStale(run, actions, tiles, d, mode)
    ensures d in tiles && e in tiles && Siblings(d, e) && Renderable(d) && Renderable(e)
  {
    hide Next, Init, Shown, ShowKeyframe, Renderable;
    var n := |actions|;
    if Alone(run[n], d) {
      ServerHoldsLastRender(run, actions, mode, n, d);
    }
    e :| e in run[n].rendered && Siblings(d, e);
    RenderedAreRenderable(run, actions, mode, n, d);
    RenderedAreRenderable(run, actions, mode, n, e);
  }
}
