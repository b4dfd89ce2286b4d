/** Deltas between two versions of a tile (`diffRowTo` and `makeDelta`). */
module TileDelta {
  import opened Pixels
  import opened RowCodec
  import opened Sequences
  import CopyRow

  type Image = seq<seq<Pixel>>

  predicate Sized(img: Image, width: nat, height: nat) {
    |img| == height && forall y :: 0 <= y < height ==> |img[y]| == width
  }

  // ----- The meaning of a delta -----

  /** Copy `count` rows of the previous image, or overwrite a span of a row. */
  datatype Op =
    | CopyRows(count: nat, src: nat, dst: nat)
    | Span(y: nat, x: nat, px: seq<Pixel>)

  predicate Fits(op: Op, width: nat, height: nat) {
    match op
    case CopyRows(count, src, dst) =>
      count < 256 && src < 256 && dst < 256 && src + count <= height && dst + count <= height
    case Span(y, x, px) =>
      y < 256 && x < 256 && |px| < 256 && y < height && x + |px| <= width
  }

  predicate AllFit(ops: seq<Op>, width: nat, height: nat) {
    forall i :: 0 <= i < |ops| ==> Fits(ops[i], width, height)
  }

  function Overwrite(row: seq<Pixel>, x: nat, px: seq<Pixel>): (r: seq<Pixel>)
    requires x + |px| <= |row|
    ensures |r| == |row|
  {
    row[..x] + px + row[x + |px|..]
  }

  function ApplyOp(img: Image, prev: Image, op: Op, w: nat): (r: Image)
    requires Sized(img, w, |prev|) && Sized(prev, w, |prev|) && Fits(op, w, |prev|)
    ensures Sized(r, w, |prev|)
  {
    match op
    case CopyRows(count, src, dst) =>
      seq(|img|, y requires 0 <= y < |img| =>
        if dst <= y < dst + count then prev[src + y - dst] else img[y])
    case Span(y, x, px) => img[y := Overwrite(img[y], x, px)]
  }

  function ApplyOps(img: Image, prev: Image, ops: seq<Op>, w: nat): (r: Image)
    requires Sized(img, w, |prev|) && Sized(prev, w, |prev|) && AllFit(ops, w, |prev|)
    ensures Sized(r, w, |prev|)
  {
    if ops == [] then img
    else
      var n := |ops| - 1;
      ApplyOp(ApplyOps(img, prev, ops[..n], w), prev, ops[n], w)
  }

  lemma {:induction false} ApplyOpsConcat(img: Image, prev: Image, a: seq<Op>, b: seq<Op>, w: nat)
    requires Sized(img, w, |prev|) && Sized(prev, w, |prev|)
    requires AllFit(a, w, |prev|) && AllFit(b, w, |prev|)
    ensures AllFit(a + b, w, |prev|)
    ensures ApplyOps(img, prev, a + b, w) == ApplyOps(ApplyOps(img, prev, a, w), prev, b, w)
    decreases |b|
  {
    if b == [] {
      assert a + b == a;
    } else {
      var n := |b| - 1;
      ApplyOpsConcat(img, prev, a, b[..n], w);
      assert (a + b)[..|a + b| - 1] == a + b[..n];
    }
  }

  // ----- The byte stream -----

  const COPY_ROW: byte := 99    // 'c'
  const NEW_RUN: byte := 100    // 'd'
  const TERMINATE: byte := 116  // 't'

  function OpBytes(op: Op): (b: seq<byte>)
    ensures |b| >= 4
  {
    match op
    case CopyRows(count, src, dst) => [COPY_ROW, U8(count), U8(src), U8(dst)]
    case Span(y, x, px) => [NEW_RUN, U8(y), U8(x), U8(|px|)] + PixelBytes(px)
  }

  /** The wire format of an op: a letter, three bytes, and for a span its pixels. */
  lemma OpFormat(op: Op, w: nat, h: nat)
    requires Fits(op, w, h)
    ensures var b := OpBytes(op);
      match op
      case CopyRows(count, src, dst) =>
        |b| == 4 && b[0] == 99 && b[1] as int == count && b[2] as int == src && b[3] as int == dst
      case Span(y, x, px) =>
        && |b| == 4 + 4 * |px| && b[0] == 100 && b[1] as int == y && b[2] as int == x && b[3] as int == |px|
        && forall i, c :: 0 <= i < |px| && 0 <= c < 4 ==> PixelInOp(b, px, i, c)
  {
    if op.Span? {
      var b := OpBytes(op);
      forall i, c | 0 <= i < |op.px| && 0 <= c < 4
        ensures PixelInOp(b, op.px, i, c)
      {
        hide PixelBytes;
        PixelByte(op.px, i, c);
        assert b[4 + (4 * i + c)] == PixelBytes(op.px)[4 * i + c];
      }
    }
  }

  /** Byte c of pixel i comes after the four bytes of the op. */
  predicate PixelInOp(b: seq<byte>, px: seq<Pixel>, i: nat, c: nat)
    requires i < |px| && c < 4
  {
    4 + 4 * i + c < |b| && b[4 + 4 * i + c] == px[i].Channel(c)
  }

  function Serialize(ops: seq<Op>): (b: seq<byte>)
    ensures b == [] <==> ops == []
  {
    if ops == [] then [] else Serialize(ops[..|ops| - 1]) + OpBytes(ops[|ops| - 1])
  }

  lemma {:induction false} SerializeConcat(a: seq<Op>, b: seq<Op>)
    ensures Serialize(a + b) == Serialize(a) + Serialize(b)
    decreases |b|
  {
    hide OpBytes;
    if b == [] {
      assert a + b == a;
    } else {
      var n := |b| - 1;
      var ab := a + b;
      assert ab[..|ab| - 1] == a + b[..n] && ab[|ab| - 1] == b[n];
      calc {
        Serialize(ab);
        Serialize(a + b[..n]) + OpBytes(b[n]);
        { SerializeConcat(a, b[..n]); }
        (Serialize(a) + Serialize(b[..n])) + OpBytes(b[n]);
        Serialize(a) + (Serialize(b[..n]) + OpBytes(b[n]));
        Serialize(a) + Serialize(b);
      }
    }
  }

  // ----- Differing rows (diffRowTo) -----

  /** Spans all on row y, within the width and the byte-wide fields. */
  predicate SpansOf(ops: seq<Op>, y: nat, width: nat) {
    forall i :: 0 <= i < |ops| ==>
      && ops[i].Span? && ops[i].y == y
      && ops[i].x < 256 && |ops[i].px| < 256 && ops[i].x + |ops[i].px| <= width
  }

  function ApplySpans(row: seq<Pixel>, ops: seq<Op>, y: nat): (r: seq<Pixel>)
    requires SpansOf(ops, y, |row|)
    ensures |r| == |row|
  {
    if ops == [] then row
    else
      var n := |ops| - 1;
      Overwrite(ApplySpans(row, ops[..n], y), ops[n].x, ops[n].px)
  }

  lemma {:induction false} SpansTouchOneRow(img: Image, prev: Image, ops: seq<Op>, y: nat, w: nat)
    requires Sized(img, w, |prev|) && Sized(prev, w, |prev|) && |prev| <= 256
    requires y < |prev| && SpansOf(ops, y, w)
    ensures AllFit(ops, w, |prev|)
    ensures ApplyOps(img, prev, ops, w) == img[y := ApplySpans(img[y], ops, y)]
  {
    if ops == [] {
      assert img[y := img[y]] == img;
    } else {
      SpansTouchOneRow(img, prev, ops[..|ops| - 1], y, w);
    }
  }

  /** Units of four bytes that the spans take on the wire. */
  function SpanCost(ops: seq<Op>): (c: nat)
    ensures c == 0 <==> ops == []
  {
    if ops == [] then 0
    else SpanCost(ops[..|ops| - 1]) + 1 + (if ops[|ops| - 1].Span? then |ops[|ops| - 1].px| else 0)
  }

  lemma {:induction false} SerializedSize(ops: seq<Op>)
    ensures |Serialize(ops)| == 4 * SpanCost(ops)
  {
    if ops != [] {
      SerializedSize(ops[..|ops| - 1]);
    }
  }

  /** Step over equal pixels. */
  method SkipSame(ghost prev: seq<Pixel>, ghost cur: seq<Pixel>,
                  ghost oldRow: DeltaBitmapRow, ghost curRow: DeltaBitmapRow,
                  oldPixels: PixIterator, curPixels: PixIterator, x: nat, width: nat)
    returns (same: nat)
    requires |prev| == |cur| == width <= 256 && x <= width
    requires oldRow == Encode(prev) && curRow == Encode(cur)
    requires At(oldPixels, oldRow, x) && At(curPixels, curRow, x) && oldPixels != curPixels
    modifies oldPixels, curPixels
    ensures x + same <= width
    ensures At(oldPixels, oldRow, x + same) && At(curPixels, curRow, x + same)
    ensures forall i :: x <= i < x + same ==> prev[i] == cur[i]
    ensures x + same < width ==> prev[x + same] != cur[x + same]
  {
    hide IterAt, Encode;
    same := 0;
    PixelsAt(prev, cur, x);
    while same + x < width && oldPixels.lastPix == curPixels.lastPix
      invariant x + same <= width
      invariant At(oldPixels, oldRow, x + same) && At(curPixels, curRow, x + same)
      invariant x + same < width ==>
        oldPixels.lastPix == prev[x + same] && curPixels.lastPix == cur[x + same]
      invariant forall i :: x <= i < x + same ==> prev[i] == cur[i]
    {
      oldPixels.Next();
      curPixels.Next();
      same := same + 1;
      PixelsAt(prev, cur, x + same);
    }
  }

  /** Collect a run of at most 254 changed pixels; equal pixels end it only
      after the third. */
  method CollectDiff(ghost prev: seq<Pixel>, ghost cur: seq<Pixel>,
                     ghost oldRow: DeltaBitmapRow, ghost curRow: DeltaBitmapRow,
                     oldPixels: PixIterator, curPixels: PixIterator, x: nat, width: nat)
    returns (diff: nat, scratch: array<Pixel>)
    requires |prev| == |cur| == width <= 256 && x <= width
    requires oldRow == Encode(prev) && curRow == Encode(cur)
    requires At(oldPixels, oldRow, x) && At(curPixels, curRow, x) && oldPixels != curPixels
    modifies oldPixels, curPixels
    ensures x + diff <= width
    ensures At(oldPixels, oldRow, x + diff) && At(curPixels, curRow, x + diff)
    ensures scratch.Length == 256 && diff <= 254 && scratch[..diff] == cur[x..x + diff]
    ensures x < width ==> 0 < diff
    ensures x + diff < width ==> 3 <= diff && (diff == 254 || prev[x + diff] == cur[x + diff])
  {
    hide IterAt, Encode;
    scratch := new Pixel[256](_ => TRANSPARENT);
    diff := 0;
    PixelsAt(prev, cur, x);
    while diff + x < width && (oldPixels.lastPix != curPixels.lastPix || diff < 3) && diff < 254
      invariant x + diff <= width && diff <= 254
      invariant At(oldPixels, oldRow, x + diff) && At(curPixels, curRow, x + diff)
      invariant x + diff < width ==>
        oldPixels.lastPix == prev[x + diff] && curPixels.lastPix == cur[x + diff]
      invariant forall i :: 0 <= i < diff ==> scratch[i] == cur[x + i]
    {
      oldPixels.Next();
      scratch[diff] := curPixels.lastPix;
      curPixels.Next();
      diff := diff + 1;
      PixelsAt(prev, cur, x + diff);
    }
    assert scratch[..diff] == cur[x..x + diff] by {
      var px := cur[x..x + diff];
      assert forall i :: 0 <= i < diff ==> px[i] == cur[x + i];
    }
  }

  /** The iterator runs over the row and stands at pixel i. */
  ghost predicate At(it: PixIterator, row: DeltaBitmapRow, i: nat)
    reads it
  {
    it.Valid() && it.row == row && it.calls == i + 1
  }

  lemma AtStart(it: PixIterator, row: DeltaBitmapRow)
    requires it.Valid() && it.row == row && it.calls == 1
    ensures At(it, row, 0)
  {
  }

  lemma PixelsAt(prev: seq<Pixel>, cur: seq<Pixel>, i: nat)
    requires |prev| == |cur| <= 256
    ensures i < |prev| ==>
      && IterAt(Encode(prev), i + 1).lastPix == prev[i]
      && IterAt(Encode(cur), i + 1).lastPix == cur[i]
  {
    PixelAt(prev, i + 1);
    PixelAt(cur, i + 1);
  }

  lemma PatchedPrefix(prev: seq<Pixel>, cur: seq<Pixel>, x: nat, y: nat, z: nat)
    requires |prev| == |cur| && x <= y <= z <= |prev|
    requires forall i :: x <= i < y ==> prev[i] == cur[i]
    ensures Overwrite(cur[..x] + prev[x..], y, cur[y..z]) == cur[..z] + prev[z..]
  {
    var row := cur[..x] + prev[x..];
    assert row[..y] == cur[..y];
    assert row[z..] == prev[z..];
    assert cur[..y] + cur[y..z] == cur[..z];
  }

  lemma SerializeSnoc(ops: seq<Op>, op: Op)
    ensures Serialize(ops + [op]) == Serialize(ops) + OpBytes(op)
  {
    hide OpBytes;
    assert (ops + [op])[..|ops|] == ops;
  }

  lemma SpanCostSnoc(ops: seq<Op>, op: Op)
    ensures SpanCost(ops + [op]) == SpanCost(ops) + 1 + (if op.Span? then |op.px| else 0)
  {
    assert (ops + [op])[..|ops|] == ops;
  }

  /** One more span, from y to z, after pixels equal from x to y. */
  lemma SpanAppended(prev: seq<Pixel>, cur: seq<Pixel>, ops: seq<Op>, curY: nat,
                     x: nat, y: nat, z: nat)
    requires |prev| == |cur| <= 256 && x <= y < z <= |prev| && z - y < 256
    requires forall i :: x <= i < y ==> prev[i] == cur[i]
    requires SpansOf(ops, curY, |prev|)
    requires ApplySpans(prev, ops, curY) == cur[..x] + prev[x..]
    ensures SpansOf(ops + [Span(curY, y, cur[y..z])], curY, |prev|)
    ensures ApplySpans(prev, ops + [Span(curY, y, cur[y..z])], curY) == cur[..z] + prev[z..]
  {
    hide Overwrite;
    var op := Span(curY, y, cur[y..z]);
    assert (ops + [op])[..|ops|] == ops;
    PatchedPrefix(prev, cur, x, y, z);
  }

  /** The first x pixels are dealt with: the spans so far patch them in, and
      cost no more than one unit a pixel and one extra, two once a run has been
      cut at 254. */
  ghost predicate Progress(prev: seq<Pixel>, cur: seq<Pixel>, ops: seq<Op>, curY: nat, x: nat, mode: TileMode) {
    && |prev| == |cur| <= 256 && x <= |prev|
    && SpansOf(ops, curY, |prev|)
    && ApplySpans(RowToRgba(prev, mode), ops, curY)
       == RowToRgba(cur, mode)[..x] + RowToRgba(prev, mode)[x..]
    && SpanCost(ops) <= x + (if x < 254 then 1 else 2)
    && (x < |prev| && SpanCost(ops) > x ==>
        prev[x] == cur[x] || (x >= 254 && SpanCost(ops) <= x + 1))
  }

  /** One round of the outer loop: equal pixels from x to y, a span up to z. */
  lemma Round(prev: seq<Pixel>, cur: seq<Pixel>, ops: seq<Op>, curY: nat,
              x: nat, y: nat, z: nat, mode: TileMode, bytes: seq<byte>) returns (ops': seq<Op>)
    requires Progress(prev, cur, ops, curY, x, mode) && x <= y <= z <= |prev| && z - y <= 254
    requires forall i :: x <= i < y ==> prev[i] == cur[i]
    requires y < |prev| ==> y < z && prev[y] != cur[y]
    requires z < |prev| ==> 3 <= z - y && (z - y == 254 || prev[z] == cur[z])
    requires bytes == if y == z then [] else
      [NEW_RUN, U8(curY), U8(y), U8(z - y)] + PixelBytes(RowToRgba(cur[y..z], mode))
    ensures Progress(prev, cur, ops', curY, z, mode)
    ensures Serialize(ops') == Serialize(ops) + bytes
  {
    hide ApplySpans, Serialize, SpanCost, SpansOf, RowToRgba, PixelBytes, U8;
    if y < z {
      ops' := EmitSpan(prev, cur, ops, curY, x, y, z, mode, bytes);
    } else {
      ops' := ops;
      SameTail(prev, cur, x, mode);
    }
  }

  /** The body of the outer loop: the op, if any, for the changed run from y to z. */
  method NextRun(ghost prev: seq<Pixel>, ghost cur: seq<Pixel>,
                 ghost oldRow: DeltaBitmapRow, ghost curRow: DeltaBitmapRow,
                 oldPixels: PixIterator, curPixels: PixIterator, x: nat, width: nat, curY: nat, mode: TileMode)
    returns (y: nat, z: nat, op: seq<byte>)
    requires |prev| == |cur| == width <= 256 && x < width
    requires oldRow == Encode(prev) && curRow == Encode(cur)
    requires At(oldPixels, oldRow, x) && At(curPixels, curRow, x) && oldPixels != curPixels
    modifies oldPixels, curPixels
    ensures x <= y <= z <= width && z - y <= 254 && x < z
    ensures At(oldPixels, oldRow, z) && At(curPixels, curRow, z)
    ensures forall i :: x <= i < y ==> prev[i] == cur[i]
    ensures y < width ==> y < z && prev[y] != cur[y]
    ensures z < width ==> 3 <= z - y && (z - y == 254 || prev[z] == cur[z])
    ensures op == if y == z then [] else
      [NEW_RUN, U8(curY), U8(y), U8(z - y)] + PixelBytes(RowToRgba(cur[y..z], mode))
  {
    hide IterAt, Encode, RowToRgba, PixelBytes;
    var same := SkipSame(prev, cur, oldRow, curRow, oldPixels, curPixels, x, width);
    var diff, scratch := CollectDiff(prev, cur, oldRow, curRow, oldPixels, curPixels, x + same, width);
    op := [];
    if diff > 0 {
      var bytes := CopyRow.CopyRow(scratch[..diff], mode);
      op := [NEW_RUN, U8(curY), U8(x + same), U8(diff)] + bytes;
    }
    y, z := x + same, x + same + diff;
  }

  /** Append the spans that turn the old row into the new one. The spans cost at
      most four bytes per pixel and eight more. */
  method DiffRowTo(ghost prev: seq<Pixel>, ghost cur: seq<Pixel>,
                   oldRow: DeltaBitmapRow, curRow: DeltaBitmapRow,
                   width: nat, curY: nat, output: seq<byte>, mode: TileMode)
    returns (out: seq<byte>, ghost ops: seq<Op>)
    requires |prev| == |cur| == width <= 256
    requires oldRow == Encode(prev) && curRow == Encode(cur)
    ensures output <= out && |out| <= |output| + 4 * (width + 2)
    ensures out == output + Serialize(ops)
    ensures SpansOf(ops, curY, width)
    ensures ApplySpans(RowToRgba(prev, mode), ops, curY) == RowToRgba(cur, mode)
    ensures SpanCost(ops) <= width + 2
  {
    hide *;
    var oldPixels := new PixIterator(oldRow);
    var curPixels := new PixIterator(curRow);
    AtStart(oldPixels, oldRow);
    AtStart(curPixels, curRow);
    out, ops := output, [];
    NoSpans(prev, cur, curY, mode);
    var x := 0;
    while x < width
      invariant x <= width
      invariant fresh(oldPixels) && fresh(curPixels) && oldPixels != curPixels
      invariant At(oldPixels, oldRow, x) && At(curPixels, curRow, x)
      invariant out == output + Serialize(ops)
      invariant Progress(prev, cur, ops, curY, x, mode)
    {
      var y, z, op := NextRun(prev, cur, oldRow, curRow, oldPixels, curPixels, x, width, curY, mode);
      ghost var ops' := Round(prev, cur, ops, curY, x, y, z, mode, op);
      ConcatAssoc(output, Serialize(ops), op);
      out := out + op;
      ops := ops';
      x := z;
    }
    Finished(prev, cur, ops, curY, mode);
    SerializedSize(ops);
  }

  lemma Finished(prev: seq<Pixel>, cur: seq<Pixel>, ops: seq<Op>, curY: nat, mode: TileMode)
    requires Progress(prev, cur, ops, curY, |prev|, mode)
    ensures SpansOf(ops, curY, |prev|)
    ensures ApplySpans(RowToRgba(prev, mode), ops, curY) == RowToRgba(cur, mode)
    ensures SpanCost(ops) <= |prev| + 2
  {
  }

  lemma NoSpans(prev: seq<Pixel>, cur: seq<Pixel>, curY: nat, mode: TileMode)
    requires |prev| == |cur| <= 256
    ensures Progress(prev, cur, [], curY, 0, mode) && Serialize([]) == []
  {
  }

  /** The bookkeeping of one emitted span. */
  lemma EmitSpan(prev: seq<Pixel>, cur: seq<Pixel>, ops: seq<Op>, curY: nat,
                 x: nat, y: nat, z: nat, mode: TileMode, bytes: seq<byte>) returns (ops': seq<Op>)
    requires |prev| == |cur| <= 256 && x <= y < z <= |prev| && z - y < 256
    requires forall i :: x <= i < y ==> prev[i] == cur[i]
    requires SpansOf(ops, curY, |prev|)
    requires ApplySpans(RowToRgba(prev, mode), ops, curY)
          == RowToRgba(cur, mode)[..x] + RowToRgba(prev, mode)[x..]
    requires bytes == [NEW_RUN, U8(curY), U8(y), U8(z - y)] + PixelBytes(RowToRgba(cur[y..z], mode))
    ensures SpansOf(ops', curY, |prev|)
    ensures ApplySpans(RowToRgba(prev, mode), ops', curY)
         == RowToRgba(cur, mode)[..z] + RowToRgba(prev, mode)[z..]
    ensures Serialize(ops') == Serialize(ops) + bytes
    ensures SpanCost(ops') == SpanCost(ops) + 1 + (z - y)
  {
    hide ApplySpans, Serialize, SpanCost, RowToRgba;
    var from, to := RowToRgba(prev, mode), RowToRgba(cur, mode);
    RgbaSlice(cur, y, z, mode);
    RgbaSame(prev, cur, x, y, mode);
    var op := Span(curY, y, to[y..z]);
    ops' := ops + [op];
    SpanAppended(from, to, ops, curY, x, y, z);
    SerializeSnoc(ops, op);
    SpanCostSnoc(ops, op);
  }

  lemma RgbaSlice(row: seq<Pixel>, y: nat, z: nat, mode: TileMode)
    requires y <= z <= |row|
    ensures RowToRgba(row[y..z], mode) == RowToRgba(row, mode)[y..z]
  {
  }

  lemma RgbaSame(prev: seq<Pixel>, cur: seq<Pixel>, x: nat, y: nat, mode: TileMode)
    requires |prev| == |cur| && x <= y <= |prev|
    requires forall i :: x <= i < y ==> prev[i] == cur[i]
    ensures var from, to := RowToRgba(prev, mode), RowToRgba(cur, mode);
      forall i :: x <= i < y ==> from[i] == to[i]
  {
  }

  lemma SameTail(prev: seq<Pixel>, cur: seq<Pixel>, x: nat, mode: TileMode)
    requires |prev| == |cur| && x <= |prev|
    requires forall i :: x <= i < |prev| ==> prev[i] == cur[i]
    ensures var from, to := RowToRgba(prev, mode), RowToRgba(cur, mode);
      to[..x] + from[x..] == to[..|to|] + from[|to|..]
  {
  }
}
