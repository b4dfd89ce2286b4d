/** The server's stack of a keyframe and the deltas on top of it (`TileData`),
    and what a client makes of the part it is sent. */
module TileStack {
  import opened Options
  import opened Pixels
  import opened TileDelta
  import opened MakeDelta
  import opened FlatImage
  import opened BrowserDelta
  import opened Keyframe
  import opened DeltaCache

  datatype TileData = TileData(wids: seq<nat>, offsets: seq<nat>, deltas: seq<byte>, valid: bool)

  const PNG_TAG: byte := 0x89

  predicate IsKeyframe(data: seq<byte>) {
    |data| > 0 && (data[0] == KEYFRAME_TAG || data[0] == PNG_TAG)
  }

  // ----- appendBlob and appendChangesSince as functions -----

  function AppendedBlob(t: TileData, id: nat, data: seq<byte>): TileData
    requires |data| >= 1
  {
    var t0 := if IsKeyframe(data) then TileData([], [], [], t.valid) else t;
    if |data| == 1 && |t0.wids| == |t0.offsets| > 1 && t0.offsets[|t0.offsets| - 1] == |t0.deltas| then
      t0.(wids := t0.wids[|t0.wids| - 1 := id], valid := true)
    else
      TileData(t0.wids + [id], t0.offsets + [|t0.deltas|], t0.deltas + data[1..], true)
  }

  /** How many of the stacked frames a client at `since` already has. */
  function Upto(wids: seq<nat>, since: nat): (i: nat)
    ensures i <= |wids|
  {
    if wids == [] || wids[0] > since then 0 else 1 + Upto(wids[1..], since)
  }

  function ChangesSince(t: TileData, since: nat): Option<seq<byte>>
    requires |t.wids| == |t.offsets| && forall i :: 0 <= i < |t.offsets| ==> t.offsets[i] <= |t.deltas|
  {
    var i := if since == 0 then 0 else Upto(t.wids, since);
    if i >= |t.wids| then None else Some(t.deltas[t.offsets[i]..])
  }

  class TileDataObject {
    var wids: seq<nat>
    var offsets: seq<nat>
    var deltas: seq<byte>
    var valid: bool

    function Value(): TileData
      reads this
    {
      TileData(wids, offsets, deltas, valid)
    }

    ghost predicate Valid()
      reads this
    {
      |wids| == |offsets| && forall i :: 0 <= i < |offsets| ==> offsets[i] <= |deltas|
    }

    constructor (id: nat, data: seq<byte>)
      requires |data| >= 1
      ensures Valid() && Value() == AppendedBlob(TileData([], [], [], false), id, data)
    {
      wids, offsets, deltas, valid := [], [], [], false;
      new;
      var _ := AppendBlob(id, data);
    }

    /** Add a frame or delta, returning the change in size. */
    method AppendBlob(id: nat, data: seq<byte>) returns (change: int)
      requires Valid() && |data| >= 1
      modifies this
      ensures Valid() && Value() == AppendedBlob(old(Value()), id, data)
      ensures change == |deltas| - |old(deltas)|
    {
      var oldCacheSize := |deltas|;
      if IsKeyframe(data) {
        wids, offsets, deltas := [], [], [];
      }
      if |data| == 1 && |offsets| > 1 && offsets[|offsets| - 1] == |deltas| {
        wids := wids[|wids| - 1 := id];
      } else {
        wids := wids + [id];
        offsets := offsets + [|deltas|];
        if |data| > 1 {
          deltas := deltas + data[1..];
        }
      }
      valid := true;
      change := |deltas| - oldCacheSize;
    }

    method AppendChangesSince(output: seq<byte>, since: nat) returns (some: bool, output': seq<byte>)
      requires Valid()
      ensures some == ChangesSince(Value(), since).Some?
      ensures output' == output + (if some then ChangesSince(Value(), since).value else [])
    {
      var i := 0;
      while since != 0 && i < |wids| && wids[i] <= since
        invariant i <= |wids|
        invariant since == 0 ==> i == 0
        invariant since != 0 ==> Upto(wids, since) == i + Upto(wids[i..], since)
      {
        i := i + 1;
      }
      if i >= |wids| {
        return false, output;
      }
      return true, output + deltas[offsets[i]..];
    }
  }

  // ----- What a client shows -----

  /** A keyframe, with whatever deltas follow it. */
  function ShowKeyframe(data: seq<byte>, w: nat, h: nat): seq<byte> {
    ApplyChunks(Flat(UnpackedImage(data, w, h)), data, RowOffset(data, h), w)
  }

  /** Deltas on top of the image already shown. */
  function ShowDelta(img: seq<byte>, data: seq<byte>, w: nat): seq<byte> {
    ApplyChunks(img, data, 0, w)
  }

  lemma {:induction false} ChunksFrom(img: seq<byte>, data: seq<byte>, o: nat, w: nat)
    requires o <= |data|
    ensures ApplyChunks(img, data, o, w) == ApplyChunks(img, data[o..], 0, w)
    decreases |data| - o
  {
    hide ApplyChunk;
    var rest := data[o..];
    if o < |data| {
      assert rest[0..] == rest;
      var p := ApplyChunk(img, img, rest, 0, w);
      if o + p.used <= |data| {
        ChunksFrom(p.img, data, o + p.used, w);
        ChunksFrom(p.img, rest, p.used, w);
        assert data[o + p.used..] == rest[p.used..];
      }
    }
  }

  /** A delta, whatever follows it, takes the old image to the new one. */
  lemma DeltaApplies(prev: Image, cur: Image, w: nat, mode: TileMode, delta: seq<byte>, rest: seq<byte>)
    requires IsDelta(prev, cur, w, mode, delta)
    ensures ApplyChunks(Flat(ImageToRgba(prev, mode)), delta + rest, 0, w)
         == ApplyChunks(Flat(ImageToRgba(cur, mode)), rest, 0, w)
  {
    hide ApplyChunk, Flat, Serialize, ImageToRgba;
    var from, to := ImageToRgba(prev, mode), ImageToRgba(cur, mode);
    var ops: seq<Op> :| Rebuilt(from, to, ops, |cur|, w)
      && delta == (if ops == [] then [] else Serialize(ops) + [TERMINATE])
      && (ops == [] <==> prev == cur);
    RgbaSize(prev, mode);
    RgbaSize(cur, mode);
    if ops == [] {
      assert delta + rest == rest;
    } else {
      var data := delta + rest;
      var n := |Serialize(ops)|;
      ThreeParts(Serialize(ops), TERMINATE, rest);
      assert data == Serialize(ops) + [TERMINATE] + rest && data[0..] == data;
      ChunkDecodes(from, from, w, ops, data, 0);
      assert to[..|cur|] + from[|cur|..] == to;
      var p := ApplyChunk(Flat(from), Flat(from), data, 0, w);
      assert p == Patched(Flat(to), n + 1);
      ChunksFrom(Flat(to), data, n + 1, w);
    }
  }

  lemma ThreeParts(a: seq<byte>, x: byte, b: seq<byte>)
    ensures var all := a + [x] + b; all[0..0 + |a|] == a && all[|a|] == x && all[|a| + 1..] == b
  {
  }

  lemma RgbaSize(img: Image, mode: TileMode)
    ensures |ImageToRgba(img, mode)| == |img|
  {
  }

  // ----- The stack and the images it stands for -----

  function End(t: TileData, k: nat): nat
    requires k < |t.offsets|
  {
    if k + 1 < |t.offsets| then t.offsets[k + 1] else |t.deltas|
  }

  ghost predicate Increasing(wids: seq<nat>) {
    forall i, j :: 0 <= i < j < |wids| ==> wids[i] < wids[j]
  }

  /** Offsets cut the data into pieces that follow each other. */
  ghost predicate Cut(t: TileData) {
    && |t.wids| == |t.offsets| > 0 && t.offsets[0] == 0
    && forall k :: 0 <= k < |t.offsets| ==> t.offsets[k] <= End(t, k) <= |t.deltas|
  }

  function Part(t: TileData, k: nat): seq<byte>
    requires Cut(t) && k < |t.offsets|
  {
    t.deltas[t.offsets[k]..End(t, k)]
  }

  /** The stack stands for this list of images: a keyframe of the first, then
      deltas from each to the next. */
  ghost predicate Stacked(t: TileData, imgs: seq<Image>, w: nat, h: nat, mode: TileMode) {
    && Cut(t) && |imgs| == |t.wids| && Increasing(t.wids) && t.wids[0] > 0 && w <= 256
    && (forall k :: 0 <= k < |imgs| ==> Sized(imgs[k], w, h))
    && Part(t, 0) == PackImage(imgs[0], mode)
    && forall k :: 1 <= k < |imgs| ==> IsDelta(imgs[k - 1], imgs[k], w, mode, Part(t, k))
  }

  function Shown(img: Image, mode: TileMode): seq<byte> {
    Flat(ImageToRgba(img, mode))
  }

  /** What is shown of an image, byte by byte. */
  lemma ShownByte(img: Image, w: nat, mode: TileMode, x: nat, y: nat, c: nat)
    requires Sized(img, w, |img|) && y < |img| && x < w && c < 4
    ensures 4 * (y * w + x) + c < |Shown(img, mode)|
    ensures Shown(img, mode)[4 * (y * w + x) + c] == ClientByte(img[y][x], mode, c)
  {
    hide Flat, ToRgba, ClientByte;
    FlatByte(ImageToRgba(img, mode), w, x, y, c);
    ToRgbaBytes(img[y][x], mode, c);
  }

  lemma ShownSize(img: Image, w: nat, mode: TileMode)
    requires Sized(img, w, |img|)
    ensures |Shown(img, mode)| == 4 * (|img| * w)
  {
    hide Flat;
    FlatSize(ImageToRgba(img, mode), w);
  }

  /** Everything from frame k on, applied to the image before it, gives the
      latest image. */
  lemma {:induction false} TailApplies(t: TileData, imgs: seq<Image>, w: nat, h: nat, mode: TileMode, k: nat)
    requires Stacked(t, imgs, w, h, mode) && 1 <= k < |imgs|
    ensures ShowDelta(Shown(imgs[k - 1], mode), t.deltas[t.offsets[k]..], w) == Shown(imgs[|imgs| - 1], mode)
    decreases |imgs| - k
  {
    hide IsDelta, PackImage, ApplyChunks, Flat, ImageToRgba, Sized;
    var rest := t.deltas[End(t, k)..];
    assert t.deltas[t.offsets[k]..] == Part(t, k) + rest;
    DeltaApplies(imgs[k - 1], imgs[k], w, mode, Part(t, k), rest);
    if k + 1 < |imgs| {
      TailApplies(t, imgs, w, h, mode, k + 1);
    } else {
      NoMoreChunks(Shown(imgs[k], mode), w);
    }
  }

  lemma NoMoreChunks(img: seq<byte>, w: nat)
    ensures ApplyChunks(img, [], 0, w) == img
  {
  }

  lemma {:induction false} UptoBounds(wids: seq<nat>, since: nat)
    requires Increasing(wids)
    ensures forall i :: 0 <= i < Upto(wids, since) ==> wids[i] <= since
    ensures forall i :: Upto(wids, since) <= i < |wids| ==> wids[i] > since
  {
    if wids != [] && wids[0] <= since {
      UptoBounds(wids[1..], since);
      assert forall i :: 1 <= i < |wids| ==> wids[i] == wids[1..][i - 1];
    }
  }

  lemma UptoUnique(wids: seq<nat>, since: nat, n: nat)
    requires Increasing(wids) && n <= |wids|
    requires n > 0 ==> wids[n - 1] <= since
    requires n < |wids| ==> wids[n] > since
    ensures Upto(wids, since) == n
  {
    UptoBounds(wids, since);
  }

  /** A client that shows the image as of `since`, which is not before the
      keyframe, is brought to the latest image by the changes since then. */
  lemma CatchUp(t: TileData, imgs: seq<Image>, w: nat, h: nat, mode: TileMode, since: nat)
    requires Stacked(t, imgs, w, h, mode) && since >= t.wids[0]
    ensures var i := Upto(t.wids, since);
      && 1 <= i
      && (match ChangesSince(t, since)
          case Some(data) => ShowDelta(Shown(imgs[i - 1], mode), data, w) == Shown(imgs[|imgs| - 1], mode)
          case None => i == |imgs|)
  {
    hide IsDelta, PackImage, ApplyChunks, Flat, ImageToRgba, Sized;
    UptoBounds(t.wids, since);
    var i := Upto(t.wids, since);
    if i < |imgs| {
      TailApplies(t, imgs, w, h, mode, i);
    }
  }

  /** Any other client is sent the keyframe first and gets there too. */
  lemma FromKeyframe(t: TileData, imgs: seq<Image>, w: nat, h: nat, mode: TileMode, since: nat)
    requires Stacked(t, imgs, w, h, mode) && since < t.wids[0]
    ensures ChangesSince(t, since) == Some(t.deltas)
    ensures ShowKeyframe(t.deltas, w, h) == Shown(imgs[|imgs| - 1], mode)
  {
    hide IsDelta, PackImage, ApplyChunks, Flat, ImageToRgba, UnpackedImage, RowOffset;
    assert Upto(t.wids, since) == 0;
    var n := End(t, 0);
    assert t.deltas == Part(t, 0) + t.deltas[n..];
    assert PackImage(imgs[0], mode) <= t.deltas;
    KeyframeDecodes(t.deltas, imgs[0], w, mode);
    ChunksFrom(Shown(imgs[0], mode), t.deltas, n, w);
    if |imgs| > 1 {
      TailApplies(t, imgs, w, h, mode, 1);
    } else {
      NoMoreChunks(Shown(imgs[0], mode), w);
    }
  }

  // ----- Appending keeps the stack in step -----

  lemma StackKeyframe(t: TileData, id: nat, img: Image, w: nat, h: nat, mode: TileMode)
    requires Sized(img, w, h) && w <= 256 && id > 0
    ensures var t' := AppendedBlob(t, id, [KEYFRAME_TAG] + PackImage(img, mode));
      Stacked(t', [img], w, h, mode) && t'.wids == [id]
  {
    hide PackImage;
    var msg := [KEYFRAME_TAG] + PackImage(img, mode);
    assert msg[1..] == PackImage(img, mode);
    var t' := AppendedBlob(t, id, msg);
    assert t'.deltas == PackImage(img, mode) && t'.offsets == [0];
  }

  /** The images after a delta message: an empty delta on top of an empty delta
      only moves the last wire id. */
  ghost function AfterDelta(t: TileData, imgs: seq<Image>, msg: seq<byte>, img: Image): seq<Image> {
    if |msg| == 1 && |t.wids| == |t.offsets| > 1 && t.offsets[|t.offsets| - 1] == |t.deltas| then imgs
    else imgs + [img]
  }

  lemma StackDelta(t: TileData, imgs: seq<Image>, id: nat, msg: seq<byte>, img: Image, w: nat, h: nat, mode: TileMode)
    requires Stacked(t, imgs, w, h, mode) && Sized(img, w, h) && id > t.wids[|t.wids| - 1]
    requires |msg| > 0 && msg[0] == DELTA_TAG && IsDelta(imgs[|imgs| - 1], img, w, mode, msg[1..])
    ensures var t', imgs' := AppendedBlob(t, id, msg), AfterDelta(t, imgs, msg, img);
      && Stacked(t', imgs', w, h, mode) && imgs'[|imgs'| - 1] == img && t'.wids[|t'.wids| - 1] == id
      && t'.wids[0] == t.wids[0]
  {
    hide PackImage, IsDelta, Sized, Stacked;
    StackedShape(t, imgs, w, h, mode);
    if |msg| == 1 && |t.offsets| > 1 && t.offsets[|t.offsets| - 1] == |t.deltas| {
      EmptyMeansSame(imgs[|imgs| - 1], img, w, mode, msg[1..]);
      StackBump(t, imgs, id, w, h, mode);
    } else {
      StackPush(t, imgs, id, msg[1..], img, w, h, mode);
    }
  }

  lemma StackedShape(t: TileData, imgs: seq<Image>, w: nat, h: nat, mode: TileMode)
    requires Stacked(t, imgs, w, h, mode)
    ensures |t.wids| == |t.offsets| == |imgs| > 0 && t.wids[0] > 0
  {
  }

  lemma CutShape(t: TileData)
    requires Cut(t)
    ensures |t.wids| == |t.offsets| > 0 && t.offsets[0] == 0
  {
  }

  /** Moving the last wire id up. */
  lemma StackBump(t: TileData, imgs: seq<Image>, id: nat, w: nat, h: nat, mode: TileMode)
    requires Stacked(t, imgs, w, h, mode) && id > t.wids[|t.wids| - 1]
    ensures Stacked(t.(wids := t.wids[|t.wids| - 1 := id], valid := true), imgs, w, h, mode)
  {
    hide PackImage, IsDelta, Sized;
    var t' := t.(wids := t.wids[|t.wids| - 1 := id], valid := true);
    assert Cut(t');
    assert forall k :: 0 <= k < |imgs| ==> Part(t', k) == Part(t, k);
  }

  lemma PushEnds(t: TileData, id: nat, delta: seq<byte>)
    requires Cut(t)
    ensures var t' := TileData(t.wids + [id], t.offsets + [|t.deltas|], t.deltas + delta, true);
      && Cut(t')
      && (forall k :: 0 <= k < |t.offsets| ==> t'.offsets[k] == t.offsets[k] && End(t', k) == End(t, k))
      && t'.offsets[|t.offsets|] == |t.deltas| && End(t', |t.offsets|) == |t'.deltas|
  {
    var t' := TileData(t.wids + [id], t.offsets + [|t.deltas|], t.deltas + delta, true);
    forall k | 0 <= k < |t'.offsets|
      ensures t'.offsets[k] <= End(t', k) <= |t'.deltas|
      ensures k < |t.offsets| ==> t'.offsets[k] == t.offsets[k] && End(t', k) == End(t, k)
    {
      if k < |t.offsets| {
        assert t.offsets[k] <= End(t, k) <= |t.deltas|;
      }
    }
  }

  lemma PushParts(t: TileData, id: nat, delta: seq<byte>, k: nat)
    requires Cut(t) && k <= |t.offsets|
    ensures var t' := TileData(t.wids + [id], t.offsets + [|t.deltas|], t.deltas + delta, true);
      Cut(t') && Part(t', k) == if k < |t.offsets| then Part(t, k) else delta
  {
    PushEnds(t, id, delta);
    if k < |t.offsets| {
      assert t.offsets[k] <= End(t, k) <= |t.deltas|;
      hide *;
      PrefixSlice(t.deltas, delta, t.offsets[k], End(t, k));
    }
  }

  lemma PrefixSlice(a: seq<byte>, b: seq<byte>, i: nat, j: nat)
    requires i <= j <= |a|
    ensures (a + b)[i..j] == a[i..j]
  {
  }

  /** A keyframe, or anything on top of what is cut well, leaves a stack cut well. */
  lemma AppendKeepsCut(t: TileData, id: nat, data: seq<byte>)
    requires |data| > 0 && (IsKeyframe(data) || Cut(t))
    ensures Cut(AppendedBlob(t, id, data))
  {
    if !IsKeyframe(data) {
      PushEnds(t, id, data[1..]);
    }
  }

  /** One more delta on top. */
  lemma StackPush(t: TileData, imgs: seq<Image>, id: nat, delta: seq<byte>, img: Image, w: nat, h: nat, mode: TileMode)
    requires Stacked(t, imgs, w, h, mode) && Sized(img, w, h) && id > t.wids[|t.wids| - 1]
    requires IsDelta(imgs[|imgs| - 1], img, w, mode, delta)
    ensures Stacked(TileData(t.wids + [id], t.offsets + [|t.deltas|], t.deltas + delta, true),
                    imgs + [img], w, h, mode)
  {
    hide PackImage, IsDelta, Sized, Cut, Part;
    var t' := TileData(t.wids + [id], t.offsets + [|t.deltas|], t.deltas + delta, true);
    StackedShape(t, imgs, w, h, mode);
    forall k | 0 <= k <= |imgs|
      ensures Cut(t') && Part(t', k) == if k < |imgs| then Part(t, k) else delta
    {
      PushParts(t, id, delta, k);
    }
    CutShape(t');
  }

  lemma EmptyMeansSame(prev: Image, cur: Image, w: nat, mode: TileMode, delta: seq<byte>)
    requires IsDelta(prev, cur, w, mode, delta)
    ensures delta == [] <==> prev == cur
  {
    hide Rebuilt, Serialize;
  }

  /** A client's place in the stack still stands for the image it shows. */
  lemma StackDeltaKeepsPlaces(t: TileData, imgs: seq<Image>, id: nat, msg: seq<byte>, img: Image,
                              w: nat, h: nat, mode: TileMode, since: nat)
    requires Stacked(t, imgs, w, h, mode) && Sized(img, w, h) && id > t.wids[|t.wids| - 1]
    requires |msg| > 0 && msg[0] == DELTA_TAG && IsDelta(imgs[|imgs| - 1], img, w, mode, msg[1..])
    requires t.wids[0] <= since < id
    ensures var t', imgs' := AppendedBlob(t, id, msg), AfterDelta(t, imgs, msg, img);
      var i, i' := Upto(t.wids, since), Upto(t'.wids, since);
      1 <= i <= |imgs| && 1 <= i' <= |imgs'| && imgs'[i' - 1] == imgs[i - 1]
  {
    hide PackImage, IsDelta, Sized, Upto;
    var t' := AppendedBlob(t, id, msg);
    UptoBounds(t.wids, since);
    var i, n := Upto(t.wids, since), |imgs|;
    if |msg| == 1 && n > 1 && t.offsets[n - 1] == |t.deltas| && i == n {
      assert Part(t, n - 1) == [];
      EmptyMeansSame(imgs[n - 2], imgs[n - 1], w, mode, Part(t, n - 1));
      UptoUnique(t'.wids, since, n - 1);
    } else {
      UptoUnique(t'.wids, since, i);
    }
  }

  // ----- What the stack keeps apart -----

  /** A keyframe or a png, told by its first byte, replaces the whole stack. */
  lemma KeyframeResets(t: TileData, id: nat, data: seq<byte>)
    requires |data| > 0 && (data[0] == 90 || data[0] == 0x89)
    ensures AppendedBlob(t, id, data) == TileData([id], [0], data[1..], true)
  {
  }

  /** Any number of empty deltas in a row takes one place in the stack, with the last id. */
  lemma EmptyDeltasMerge(t: TileData, id: nat, id': nat)
    requires Cut(t)
    ensures AppendedBlob(AppendedBlob(t, id, [68]), id', [68]) == AppendedBlob(t, id', [68])
  {
    assert [68 as byte][1..] == [];
    var n := |t.offsets|;
    if n > 1 && t.offsets[n - 1] == |t.deltas| {
      assert t.wids[n - 1 := id][n - 1 := id'] == t.wids[n - 1 := id'];
    } else {
      assert (t.wids + [id])[n := id'] == t.wids + [id'];
    }
  }

  /** Any other delta gets a place of its own. */
  lemma DeltaAddsPlace(t: TileData, id: nat, data: seq<byte>)
    requires Cut(t) && |data| > 1 && data[0] == 68
    ensures AppendedBlob(t, id, data)
      == TileData(t.wids + [id], t.offsets + [|t.deltas|], t.deltas + data[1..], true)
  {
  }
}
