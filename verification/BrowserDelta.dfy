/** The browser's delta decoder (`applyDeltaChunk`, `updateImageFromDeltas`).

    Reading past the end of a byte array gives 0 and writing there is ignored,
    as for a Uint8Array. Image size and stride come from the tile width.
 */
module BrowserDelta {
  import opened Pixels
  import opened TileDelta
  import opened FlatImage

  function Rd(s: seq<byte>, i: nat): byte {
    if i < |s| then s[i] else 0
  }

  /** n bytes of src from `from` on, written over the image from `off` on. */
  function Blit(img: seq<byte>, off: nat, src: seq<byte>, from: nat, n: nat): (r: seq<byte>)
    ensures |r| == |img|
  {
    seq(|img|, k requires 0 <= k < |img| =>
      if off <= k < off + n then Rd(src, from + k - off) else img[k])
  }

  function CopyRowsFlat(img: seq<byte>, oldData: seq<byte>, count: nat, src: nat, dst: nat, w: nat): (r: seq<byte>)
    ensures |r| == |img|
  {
    if count == 0 then img
    else
      Blit(CopyRowsFlat(img, oldData, count - 1, src, dst, w),
           Start(w, dst + count - 1), oldData, Start(w, src + count - 1), 4 * w)
  }

  datatype Patched = Patched(img: seq<byte>, used: nat)

  /** What the decoder does with one chunk, for any bytes whatever. */
  function ApplyChunk(img: seq<byte>, oldData: seq<byte>, delta: seq<byte>, i: nat, w: nat): (p: Patched)
    ensures |p.img| == |img| && p.used >= i && (i < |delta| ==> p.used > i)
    decreases |delta| - i
  {
    if i >= |delta| then Patched(img, i)
    else if delta[i] == COPY_ROW then
      var count, src, dst := Rd(delta, i + 1) as int, Rd(delta, i + 2) as int, Rd(delta, i + 3) as int;
      ApplyChunk(CopyRowsFlat(img, oldData, count, src, dst, w), oldData, delta, i + 4, w)
    else if delta[i] == NEW_RUN then
      var row, col, span := Rd(delta, i + 1) as int, Rd(delta, i + 2) as int, 4 * (Rd(delta, i + 3) as int);
      ApplyChunk(Blit(img, Start(w, row) + 4 * col, delta, i + 4, span), oldData, delta, i + 4 + span, w)
    else if delta[i] == TERMINATE then Patched(img, i + 1)
    else Patched(img, |delta|)
  }

  /** Chunk after chunk, each against the image as the last one left it. */
  function ApplyChunks(img: seq<byte>, deltas: seq<byte>, offset: nat, w: nat): (r: seq<byte>)
    ensures |r| == |img|
    decreases |deltas| - offset
  {
    if offset >= |deltas| then img
    else
      var p := ApplyChunk(img, img, deltas[offset..], 0, w);
      ApplyChunks(p.img, deltas, offset + p.used, w)
  }

  // ----- The decoder itself -----

  method BlitBytes(imgData: array<byte>, off: nat, src: seq<byte>, from: nat, n: nat)
    modifies imgData
    ensures imgData[..] == Blit(old(imgData[..]), off, src, from, n)
  {
    for j := 0 to n
      invariant imgData[..] == Blit(old(imgData[..]), off, src, from, j)
    {
      if off + j < imgData.Length {
        imgData[off + j] := Rd(src, from + j);
      }
    }
  }

  method CopyRowsInto(imgData: array<byte>, oldData: seq<byte>, count: nat, srcRow: nat, destRow: nat, width: nat)
    modifies imgData
    ensures imgData[..] == CopyRowsFlat(old(imgData[..]), oldData, count, srcRow, destRow, width)
  {
    hide Blit, Start;
    for cnt := 0 to count
      invariant imgData[..] == CopyRowsFlat(old(imgData[..]), oldData, cnt, srcRow, destRow, width)
    {
      var src := (srcRow + cnt) * width * 4;
      var dest := (destRow + cnt) * width * 4;
      StartProduct(width, srcRow + cnt);
      StartProduct(width, destRow + cnt);
      BlitBytes(imgData, dest, oldData, src, width * 4);
    }
  }

  method ApplyDeltaChunk(imgData: array<byte>, delta: seq<byte>, oldData: seq<byte>, width: nat)
    returns (i: nat)
    modifies imgData
    ensures Patched(imgData[..], i) == ApplyChunk(old(imgData[..]), oldData, delta, 0, width)
  {
    hide Blit, CopyRowsFlat, Start;
    i := 0;
    var stop := false;
    while i < |delta| && !stop
      invariant stop ==> Patched(imgData[..], i) == ApplyChunk(old(imgData[..]), oldData, delta, 0, width)
      invariant !stop ==>
        ApplyChunk(imgData[..], oldData, delta, i, width) == ApplyChunk(old(imgData[..]), oldData, delta, 0, width)
      decreases !stop, |delta| - i
    {
      if delta[i] == COPY_ROW {
        var count, srcRow, destRow := Rd(delta, i + 1), Rd(delta, i + 2), Rd(delta, i + 3);
        i := i + 4;
        CopyRowsInto(imgData, oldData, count as int, srcRow as int, destRow as int, width);
      } else if delta[i] == NEW_RUN {
        var destRow, destCol := Rd(delta, i + 1) as int, Rd(delta, i + 2) as int;
        var span := Rd(delta, i + 3) as int;
        var offset := destRow * width * 4 + destCol * 4;
        i := i + 4;
        span := span * 4;
        StartProduct(width, destRow);
        BlitBytes(imgData, offset, delta, i, span);
        i := i + span;
      } else if delta[i] == TERMINATE {
        stop := true;
        i := i + 1;
      } else {
        stop := true;
        i := |delta|;
      }
    }
  }

  method UpdateImageFromDeltas(imageData: array<byte>, deltas: seq<byte>, keyframeDeltaSize: nat, tileSize: nat)
    modifies imageData
    ensures imageData[..] == ApplyChunks(old(imageData[..]), deltas, keyframeDeltaSize, tileSize)
  {
    hide ApplyChunk;
    var offset := keyframeDeltaSize;
    while offset < |deltas|
      invariant ApplyChunks(imageData[..], deltas, offset, tileSize)
             == ApplyChunks(old(imageData[..]), deltas, keyframeDeltaSize, tileSize)
      decreases |deltas| - offset
    {
      var oldData := imageData[..];
      var len := ApplyDeltaChunk(imageData, deltas[offset..], oldData, tileSize);
      offset := offset + len;
    }
  }

  // ----- What it makes of a kit's delta -----

  /** Writing pixels into a row of the flat image. */
  lemma BlitSpan(img: Image, w: nat, y: nat, x: nat, px: seq<Pixel>, src: seq<byte>, from: nat)
    requires Sized(img, w, |img|) && y < |img| && x + |px| <= w
    requires from + 4 * |px| <= |src| && src[from..from + 4 * |px|] == PixelBytes(px)
    ensures Blit(Flat(img), Start(w, y) + 4 * x, src, from, 4 * |px|) == Flat(img[y := Overwrite(img[y], x, px)])
  {
    hide Start, PixelBytes, Flat, Overwrite, Blit;
    var img' := img[y := Overwrite(img[y], x, px)];
    var b := Blit(Flat(img), Start(w, y) + 4 * x, src, from, 4 * |px|);
    FlatSize(img, w);
    forall r | 0 <= r < |img'|
      ensures Start(w, r) + 4 * w <= |b| && RowAt(b, w, r) == PixelBytes(img'[r])
    {
      RowInside(w, r, |img|);
      FlatRow(img, w, r);
      if r != y {
        if r < y {
          RowInside(w, r, y);
        } else {
          RowInside(w, y, r);
        }
        BlitElsewhere(Flat(img), Start(w, y) + 4 * x, src, from, 4 * |px|, Start(w, r), Start(w, r) + 4 * w);
      } else {
        BlitSlices(Flat(img), Start(w, y), 4 * w, 4 * x, src, from, 4 * |px|);
        BlitOneRow(img[y], x, px, RowAt(b, w, y));
      }
    }
    FlatByRows(img', w, b);
  }

  lemma BlitSlices(f: seq<byte>, s: nat, len: nat, a: nat, src: seq<byte>, from: nat, n: nat)
    requires s + len <= |f| && a + n <= len && from + n <= |src|
    ensures var r := Blit(f, s + a, src, from, n)[s..s + len];
      && r[..a] == f[s..s + len][..a]
      && r[a..a + n] == src[from..from + n]
      && r[a + n..] == f[s..s + len][a + n..]
  {
    var b := Blit(f, s + a, src, from, n);
    var r := b[s..s + len];
    var p, q := r[a..a + n], src[from..from + n];
    forall k | 0 <= k < n
      ensures p[k] == q[k]
    {
      assert p[k] == b[s + a + k] == Rd(src, from + (s + a + k) - (s + a));
    }
    var row := f[s..s + len];
    assert forall k :: 0 <= k < a || a + n <= k < len ==> r[k] == b[s + k] == f[s + k] == row[k];
  }

  lemma BlitElsewhere(f: seq<byte>, off: nat, src: seq<byte>, from: nat, n: nat, i: nat, j: nat)
    requires i <= j <= |f| && (j <= off || off + n <= i)
    ensures Blit(f, off, src, from, n)[i..j] == f[i..j]
  {
  }

  lemma BlitOneRow(row: seq<Pixel>, x: nat, px: seq<Pixel>, b: seq<byte>)
    requires x + |px| <= |row| && |b| == 4 * |row|
    requires b[..4 * x] == PixelBytes(row)[..4 * x]
    requires b[4 * x..4 * x + 4 * |px|] == PixelBytes(px)
    requires b[4 * x + 4 * |px|..] == PixelBytes(row)[4 * x + 4 * |px|..]
    ensures b == PixelBytes(Overwrite(row, x, px))
  {
    hide PixelBytes;
    var n := |px|;
    PixelBytesConcat(row[..x] + px, row[x + n..]);
    PixelBytesConcat(row[..x], px);
    PixelBytesSlice(row, 0, x);
    PixelBytesSlice(row, x + n, |row|);
    assert row[0..x] == row[..x] && row[x + n..|row|] == row[x + n..];
    assert PixelBytes(row)[0..4 * x] == PixelBytes(row)[..4 * x];
    assert b == b[..4 * x] + b[4 * x..4 * x + 4 * n] + b[4 * x + 4 * n..];
  }

  lemma {:induction false} CopyRowsDecodes(img: Image, prev: Image, w: nat, count: nat, src: nat, dst: nat)
    requires Sized(img, w, |prev|) && Sized(prev, w, |prev|)
    requires Fits(CopyRows(count, src, dst), w, |prev|)
    ensures CopyRowsFlat(Flat(img), Flat(prev), count, src, dst, w)
         == Flat(ApplyOp(img, prev, CopyRows(count, src, dst), w))
    decreases count
  {
    hide Blit, Start, PixelBytes, Flat, ApplyOp, Overwrite;
    if count == 0 {
      CopyNoRows(img, prev, w, src, dst);
    } else {
      CopyRowsDecodes(img, prev, w, count - 1, src, dst);
      var mid := ApplyOp(img, prev, CopyRows(count - 1, src, dst), w);
      var s, d := src + count - 1, dst + count - 1;
      FlatRow(prev, w, s);
      CopyOneMore(img, prev, w, count, src, dst);
      BlitSpan(mid, w, d, 0, prev[s], Flat(prev), Start(w, s));
    }
  }

  lemma CopyNoRows(img: Image, prev: Image, w: nat, src: nat, dst: nat)
    requires Sized(img, w, |prev|) && Sized(prev, w, |prev|) && Fits(CopyRows(0, src, dst), w, |prev|)
    ensures ApplyOp(img, prev, CopyRows(0, src, dst), w) == img
  {
  }

  lemma CopyOneMore(img: Image, prev: Image, w: nat, count: nat, src: nat, dst: nat)
    requires Sized(img, w, |prev|) && Sized(prev, w, |prev|)
    requires count > 0 && Fits(CopyRows(count, src, dst), w, |prev|)
    ensures var mid := ApplyOp(img, prev, CopyRows(count - 1, src, dst), w);
      var s, d := src + count - 1, dst + count - 1;
      mid[d := Overwrite(mid[d], 0, prev[s])] == ApplyOp(img, prev, CopyRows(count, src, dst), w)
  {
    var few, many := CopyRows(count - 1, src, dst), CopyRows(count, src, dst);
    var mid := ApplyOp(img, prev, few, w);
    var s, d := src + count - 1, dst + count - 1;
    assert Overwrite(mid[d], 0, prev[s]) == prev[s];
    hide ApplyOp, Overwrite;
    var a, b := mid[d := prev[s]], ApplyOp(img, prev, many, w);
    forall i | 0 <= i < |prev|
      ensures a[i] == b[i]
    {
      CopiedAt(img, prev, w, few, i);
      CopiedAt(img, prev, w, many, i);
    }
  }

  lemma CopiedAt(img: Image, prev: Image, w: nat, op: Op, i: nat)
    requires Sized(img, w, |prev|) && Sized(prev, w, |prev|) && op.CopyRows? && Fits(op, w, |prev|)
    requires i < |prev|
    ensures ApplyOp(img, prev, op, w)[i]
      == if op.dst <= i < op.dst + op.count then prev[op.src + i - op.dst] else img[i]
  {
    assert |img| == |prev|;
    hide Sized, Fits;
    var r := ApplyOp(img, prev, op, w);
  }

  /** One op of the stream. */
  lemma OpDecodes(img: Image, prev: Image, w: nat, op: Op, delta: seq<byte>, i: nat)
    requires Sized(img, w, |prev|) && Sized(prev, w, |prev|) && Fits(op, w, |prev|)
    requires i + |OpBytes(op)| <= |delta| && delta[i..i + |OpBytes(op)|] == OpBytes(op)
    ensures ApplyChunk(Flat(img), Flat(prev), delta, i, w)
         == ApplyChunk(Flat(ApplyOp(img, prev, op, w)), Flat(prev), delta, i + |OpBytes(op)|, w)
  {
    hide Blit, Start, PixelBytes, Flat, CopyRowsFlat, Overwrite, ApplyOp, ApplyChunk;
    var b := OpBytes(op);
    assert b[0] == delta[i] && b[1] == delta[i + 1] && b[2] == delta[i + 2] && b[3] == delta[i + 3];
    match op
    case CopyRows(count, src, dst) =>
      CopyRowsDecodes(img, prev, w, count, src, dst);
      CopyStep(Flat(img), Flat(prev), delta, i, w);
    case Span(y, x, px) =>
      assert delta[i + 4..i + 4 + 4 * |px|] == b[4..];
      SpanResult(img, prev, w, y, x, px);
      BlitSpan(img, w, y, x, px, delta, i + 4);
      SpanStep(Flat(img), Flat(prev), delta, i, w);
  }

  lemma SpanResult(img: Image, prev: Image, w: nat, y: nat, x: nat, px: seq<Pixel>)
    requires Sized(img, w, |prev|) && Sized(prev, w, |prev|) && Fits(Span(y, x, px), w, |prev|)
    ensures ApplyOp(img, prev, Span(y, x, px), w) == img[y := Overwrite(img[y], x, px)]
  {
  }

  lemma CopyStep(img: seq<byte>, oldData: seq<byte>, delta: seq<byte>, i: nat, w: nat)
    requires i + 4 <= |delta| && delta[i] == COPY_ROW
    ensures ApplyChunk(img, oldData, delta, i, w)
         == ApplyChunk(CopyRowsFlat(img, oldData, delta[i + 1] as int, delta[i + 2] as int, delta[i + 3] as int, w),
                       oldData, delta, i + 4, w)
  {
    hide CopyRowsFlat, Blit;
  }

  lemma SpanStep(img: seq<byte>, oldData: seq<byte>, delta: seq<byte>, i: nat, w: nat)
    requires i + 4 <= |delta| && delta[i] == NEW_RUN
    ensures var n := 4 * (delta[i + 3] as int);
      ApplyChunk(img, oldData, delta, i, w)
      == ApplyChunk(Blit(img, Start(w, delta[i + 1] as int) + 4 * (delta[i + 2] as int), delta, i + 4, n),
                    oldData, delta, i + 4 + n, w)
  {
    hide CopyRowsFlat, Blit, Start;
  }

  /** A serialized op list, terminated, followed by anything: the decoder applies
      the ops and stops right behind the terminator. */
  lemma {:induction false} ChunkDecodes(img: Image, prev: Image, w: nat, ops: seq<Op>, delta: seq<byte>, i: nat)
    requires Sized(img, w, |prev|) && Sized(prev, w, |prev|) && AllFit(ops, w, |prev|)
    requires i + |Serialize(ops)| < |delta|
    requires delta[i..i + |Serialize(ops)|] == Serialize(ops) && delta[i + |Serialize(ops)|] == TERMINATE
    ensures ApplyChunk(Flat(img), Flat(prev), delta, i, w)
         == Patched(Flat(ApplyOps(img, prev, ops, w)), i + |Serialize(ops)| + 1)
    decreases |ops|
  {
    hide Blit, Start, PixelBytes, Flat, CopyRowsFlat, OpBytes, ApplyOp, Serialize, ApplyOps;
    NothingToApply(img, prev, w);
    if ops == [] {
    } else {
      hide ApplyChunk;
      var op, rest := ops[0], ops[1..];
      assert ops == [op] + rest;
      SerializeConcat([op], rest);
      SerializeOne(op);
      assert Serialize(ops) == OpBytes(op) + Serialize(rest);
      var n := |OpBytes(op)|;
      SplitSlice(delta, i, OpBytes(op), Serialize(rest));
      OpDecodes(img, prev, w, op, delta, i);
      ChunkDecodes(ApplyOp(img, prev, op, w), prev, w, rest, delta, i + n);
      ApplyOpsConcat(img, prev, [op], rest, w);
      ApplyOne(img, prev, op, w);
    }
  }

  lemma SplitSlice(s: seq<byte>, i: nat, a: seq<byte>, b: seq<byte>)
    requires i + |a| + |b| <= |s| && s[i..i + |a| + |b|] == a + b
    ensures s[i..i + |a|] == a && s[i + |a|..i + |a| + |b|] == b
  {
    var ab := s[i..i + |a| + |b|];
    assert s[i..i + |a|] == ab[..|a|];
    assert s[i + |a|..i + |a| + |b|] == ab[|a|..];
  }

  lemma NothingToApply(img: Image, prev: Image, w: nat)
    requires Sized(img, w, |prev|) && Sized(prev, w, |prev|)
    ensures Serialize([]) == [] && ApplyOps(img, prev, [], w) == img
  {
  }

  lemma SerializeOne(op: Op)
    ensures Serialize([op]) == OpBytes(op)
  {
    hide OpBytes;
    assert [op][..0] == [];
  }

  lemma ApplyOne(img: Image, prev: Image, op: Op, w: nat)
    requires Sized(img, w, |prev|) && Sized(prev, w, |prev|) && Fits(op, w, |prev|)
    ensures ApplyOps(img, prev, [op], w) == ApplyOp(img, prev, op, w)
  {
    hide ApplyOp;
    assert [op][..0] == [];
  }
}
