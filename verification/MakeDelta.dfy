/** Whole-tile deltas (`DeltaData`, `makeDelta`). */
module MakeDelta {
  import opened Options
  import opened Pixels
  import opened RowCodec
  import opened TileDelta

  /** A cached tile: the coded rows with their size and wire id. */
  datatype DeltaData = DeltaData(wid: nat, width: nat, height: nat, rows: seq<DeltaBitmapRow>)

  function EncodeRows(img: Image): (rows: seq<DeltaBitmapRow>)
    ensures |rows| == |img|
  {
    seq(|img|, y requires 0 <= y < |img| => Encode(img[y]))
  }

  /** The tile holds exactly this image. */
  ghost predicate Holds(d: DeltaData, img: Image) {
    Sized(img, d.width, d.height) && d.rows == EncodeRows(img)
  }

  // ----- Row matching -----

  const TWO64 := 0x1_0000_0000_0000_0000

  /** `lastMatchOffset` as a `size_t`: a negative offset wraps. */
  function AsSize(d: int): nat
    requires -0x1_0000 < d < 0x1_0000
  {
    if d < 0 then TWO64 + d else d
  }

  lemma {:induction false} MultipleAtLeast(h: nat, q: int, p: int)
    requires q > p
    ensures h * q >= h * p + h
    decreases q - p
  {
    assert h * q == h * (q - 1) + h;
    if q > p + 1 {
      MultipleAtLeast(h, q - 1, p);
    }
  }

  lemma ModUnique(a: int, h: nat, q: int, r: nat)
    requires a == h * q + r && r < h
    ensures a % h == r
  {
    var p := a / h;
    if q > p {
      MultipleAtLeast(h, q, p);
    } else if q < p {
      MultipleAtLeast(h, p, q);
    }
  }

  /** The j-th row visited when going round from row r0. */
  function Slot(r0: nat, h: nat, j: nat): (r: nat)
    requires r0 < h && j < h
    ensures r < h
  {
    if r0 + j < h then r0 + j else r0 + j - h
  }

  lemma CircularStep(base: nat, h: nat, j: nat)
    requires h > 0 && j < h
    ensures (base + j) % h == Slot(base % h, h, j)
  {
    var q, r0 := base / h, base % h;
    assert base == h * q + r0;
    if r0 + j < h {
      ModUnique(base + j, h, q, r0 + j);
    } else {
      assert h * (q + 1) == h * q + h;
      ModUnique(base + j, h, q + 1, r0 + j - h);
    }
  }

  /** Going round from row r0, no identical row comes before this one. */
  ghost predicate FirstFrom(prev: seq<DeltaBitmapRow>, row: DeltaBitmapRow, r0: nat, match': nat)
    requires r0 < |prev|
  {
    exists j: nat :: j < |prev| && Slot(r0, |prev|, j) == match'
      && forall i: nat :: i < j ==> !Identical(prev[Slot(r0, |prev|, i)], row)
  }

  lemma FirstFound(prev: seq<DeltaBitmapRow>, row: DeltaBitmapRow, r0: nat, j: nat, m: nat)
    requires r0 < |prev| && j < |prev| && m == Slot(r0, |prev|, j)
    requires forall i :: 0 <= i < j ==> !Identical(prev[Slot(r0, |prev|, i)], row)
    ensures FirstFrom(prev, row, r0, m)
  {
    hide Identical;
    assert forall i: nat :: i < j ==> !Identical(prev[Slot(r0, |prev|, i)], row);
  }

  /** The row that the last match suggests. */
  ghost function StartRow(y: nat, d: int, h: nat): (r: nat)
    requires h > 0 && 0 <= y + d
    ensures r < h
  {
    (y + d) % h
  }

  /** The row looked at in round j, unsigned wrap-around and all. */
  lemma Candidate(y: nat, d: int, offset: nat, j: nat, h: nat)
    requires y < h <= 256 && j < h && 0 <= y + d && d < 256 && offset == AsSize(d)
    ensures (y + offset + j) % TWO64 % h == Slot(StartRow(y, d, h), h, j)
  {
    Unwrapped(y, d, offset, j);
    hide AsSize;
    CircularStep(y + d, h, j);
  }

  lemma Unwrapped(y: nat, d: int, offset: nat, j: nat)
    requires y < 256 && j < 256 && 0 <= y + d && d < 256 && offset == AsSize(d)
    ensures (y + offset + j) % TWO64 == y + d + j
  {
    if d < 0 {
      assert y + offset + j == TWO64 + (y + d + j);
    }
  }

  lemma AllVisited(prev: seq<DeltaBitmapRow>, row: DeltaBitmapRow, r0: nat)
    requires r0 < |prev|
    requires forall j :: 0 <= j < |prev| ==> !Identical(prev[Slot(r0, |prev|, j)], row)
    ensures forall r :: 0 <= r < |prev| ==> !Identical(prev[r], row)
  {
    hide Identical;
    var h := |prev|;
    forall r | 0 <= r < h
      ensures !Identical(prev[r], row)
    {
      var j := if r >= r0 then r - r0 else r - r0 + h;
      assert Slot(r0, h, j) == r;
    }
  }

  /** Hunt for a row of the previous tile that equals the new row, starting
      where the last match suggests and going round. */
  method FindMatch(prev: seq<DeltaBitmapRow>, row: DeltaBitmapRow, y: nat, offset: nat, ghost d: int)
    returns (matched: bool, match': nat)
    requires y < |prev| <= 256
    requires 0 <= y + d && d < 256 && offset == AsSize(d)
    ensures matched ==> match' < |prev| && Identical(prev[match'], row)
    ensures matched ==> FirstFrom(prev, row, (y + d) % |prev|, match')
    ensures !matched ==> forall r :: 0 <= r < |prev| ==> !Identical(prev[r], row)
  {
    hide Identical, FirstFrom, Slot, AsSize;
    var h := |prev|;
    matched, match' := false, 0;
    ghost var r0 := StartRow(y, d, h);
    assert r0 == (y + d) % h;
    hide StartRow;
    var yn := 0;
    while yn < h && !matched
      invariant yn <= h
      invariant matched ==> match' < h && Identical(prev[match'], row) && FirstFrom(prev, row, r0, match')
      invariant !matched ==> forall j :: 0 <= j < yn ==> !Identical(prev[Slot(r0, h, j)], row)
    {
      Candidate(y, d, offset, yn, h);
      var m := (y + offset + yn) % TWO64 % h;
      if Identical(prev[m], row) {
        FirstFound(prev, row, r0, yn, m);
        matched, match' := true, m;
      }
      yn := yn + 1;
    }
    if !matched {
      AllVisited(prev, row, r0);
    }
  }

  // ----- What each row contributes -----

  /** The ops rebuild the first y rows and leave the others alone. */
  ghost predicate Rebuilt(from: Image, to: Image, ops: seq<Op>, y: nat, w: nat) {
    && Sized(from, w, |from|) && Sized(to, w, |from|) && y <= |from| <= 256
    && AllFit(ops, w, |from|)
    && ApplyOps(from, from, ops, w) == to[..y] + from[y..]
  }

  lemma RebuiltSame(from: Image, to: Image, ops: seq<Op>, y: nat, w: nat)
    requires Rebuilt(from, to, ops, y, w) && y < |from| && from[y] == to[y]
    ensures Rebuilt(from, to, ops, y + 1, w)
  {
    hide ApplyOps;
    assert to[..y] + from[y..] == to[..y + 1] + from[y + 1..];
  }

  lemma RebuiltCopy(from: Image, to: Image, ops: seq<Op>, y: nat, w: nat, src: nat)
    requires Rebuilt(from, to, ops, y, w) && y < |from| && src < |from| && from[src] == to[y]
    ensures Rebuilt(from, to, ops + [CopyRows(1, src, y)], y + 1, w)
  {
    hide ApplyOps, ApplyOp;
    ApplyOpsSnoc(from, from, ops, CopyRows(1, src, y), w);
    CopiedRow(from, to, y, w, src);
  }

  lemma ApplyOpsSnoc(img: Image, prev: Image, ops: seq<Op>, op: Op, w: nat)
    requires Sized(img, w, |prev|) && Sized(prev, w, |prev|) && AllFit(ops, w, |prev|) && Fits(op, w, |prev|)
    ensures AllFit(ops + [op], w, |prev|)
    ensures ApplyOps(img, prev, ops + [op], w) == ApplyOp(ApplyOps(img, prev, ops, w), prev, op, w)
  {
    hide ApplyOp;
    assert (ops + [op])[..|ops|] == ops;
  }

  lemma SizedHeight(img: Image, w: nat, h: nat)
    requires Sized(img, w, h)
    ensures |img| == h
  {
  }

  lemma CopiedRow(from: Image, to: Image, y: nat, w: nat, src: nat)
    requires Sized(from, w, |from|) && Sized(to, w, |from|) && |from| <= 256
    requires y < |from| && src < |from| && from[src] == to[y]
    ensures Sized(to[..y] + from[y..], w, |from|)
    ensures ApplyOp(to[..y] + from[y..], from, CopyRows(1, src, y), w) == to[..y + 1] + from[y + 1..]
  {
    var img := to[..y] + from[y..];
    assert Sized(img, w, |from|) by {
      assert forall i :: 0 <= i < |img| ==> img[i] == if i < y then to[i] else from[i];
    }
    hide Sized;
    var a, b := ApplyOp(img, from, CopyRows(1, src, y), w), to[..y + 1] + from[y + 1..];
    assert |a| == |b| by {
      SizedHeight(a, w, |from|);
    }
    forall i | 0 <= i < |a|
      ensures a[i] == b[i]
    {
      assert a[i] == if i == y then from[src] else img[i];
    }
  }

  /** Widening the last copy by one row. */
  lemma RebuiltMerge(from: Image, to: Image, ops: seq<Op>, y: nat, w: nat, c: nat, src: nat, dst: nat)
    requires Rebuilt(from, to, ops + [CopyRows(c, src, dst)], y, w) && y < |from|
    requires dst + c == y && src + c < |from| && from[src + c] == to[y]
    requires c + 1 < 256
    ensures Rebuilt(from, to, ops + [CopyRows(c + 1, src, dst)], y + 1, w)
  {
    var op, op' := CopyRows(c, src, dst), CopyRows(c + 1, src, dst);
    assert (ops + [op])[..|ops|] == ops == (ops + [op'])[..|ops|];
    assert (ops + [op])[|ops|] == op;
    assert AllFit(ops, w, |from|) by {
      assert forall i :: 0 <= i < |ops| ==> ops[i] == (ops + [op])[i];
    }
    var img := ApplyOps(from, from, ops, w);
    var a, b := ApplyOp(img, from, op, w), ApplyOp(img, from, op', w);
    assert a == to[..y] + from[y..];
    assert b == to[..y + 1] + from[y + 1..] by {
      forall i | 0 <= i < |b|
        ensures b[i] == (to[..y + 1] + from[y + 1..])[i]
      {
        assert i != y ==> b[i] == a[i];
      }
    }
  }

  lemma RebuiltSpans(from: Image, to: Image, ops: seq<Op>, spans: seq<Op>, y: nat, w: nat)
    requires Rebuilt(from, to, ops, y, w) && y < |from|
    requires SpansOf(spans, y, w) && ApplySpans(from[y], spans, y) == to[y]
    ensures Rebuilt(from, to, ops + spans, y + 1, w)
  {
    hide ApplyOps, ApplySpans;
    var img := to[..y] + from[y..];
    SpansTouchOneRow(img, from, spans, y, w);
    ApplyOpsConcat(from, from, ops, spans, w);
    assert img[y := to[y]] == to[..y + 1] + from[y + 1..];
  }

  // ----- The op buffer -----

  /** `lastCopy` is 0 or the place of the count byte of the last copy op. That
      op ends at or above row y, and if it ends right there it is the last op. */
  ghost predicate LastCopy(output: seq<byte>, ops: seq<Op>, lastCopy: nat, y: nat) {
    lastCopy > 0 ==>
      && lastCopy + 2 < |output|
      && output[lastCopy] as int + output[lastCopy + 2] as int <= y
      && (output[lastCopy] as int + output[lastCopy + 2] as int == y ==>
          && lastCopy + 3 == |output| && |ops| > 0
          && ops[|ops| - 1] == CopyRows(output[lastCopy] as int, output[lastCopy + 1] as int,
                                        output[lastCopy + 2] as int))
  }

  /** The count byte of the last copy goes up by one. */
  lemma MergeBytes(output: seq<byte>, ops: seq<Op>, lastCopy: nat, y: nat) returns (ops': seq<Op>)
    requires output == Serialize(ops) && lastCopy > 0 && LastCopy(output, ops, lastCopy, y)
    requires output[lastCopy] as int + output[lastCopy + 2] as int == y < 256
    ensures var c := output[lastCopy] as int;
      && ops != []
      && ops[|ops| - 1] == CopyRows(c, output[lastCopy + 1] as int, output[lastCopy + 2] as int)
      && ops' == ops[..|ops| - 1] + [ops[|ops| - 1].(count := c + 1)]
      && (c < 255 ==>
          && output[lastCopy := U8(c + 1)] == Serialize(ops')
          && LastCopy(output[lastCopy := U8(c + 1)], ops', lastCopy, y + 1))
  {
    hide Serialize;
    var rest, op := ops[..|ops| - 1], ops[|ops| - 1];
    var op' := op.(count := op.count + 1);
    ops' := rest + [op'];
    assert ops == rest + [op];
    SerializeSnoc(rest, op);
    SerializeSnoc(rest, op');
  }

  lemma CopyBytes(output: seq<byte>, ops: seq<Op>, y: nat, src: nat)
    requires output == Serialize(ops) && y < 256 && src < 256
    ensures var output' := output + [COPY_ROW, 1, U8(src), U8(y)];
      && output' == Serialize(ops + [CopyRows(1, src, y)])
      && LastCopy(output', ops + [CopyRows(1, src, y)], |output| + 1, y + 1)
  {
    hide Serialize;
    SerializeSnoc(ops, CopyRows(1, src, y));
  }

  /** The last copy can take one more row: the match follows its source, the row
      follows its destination, and another row of the old tile comes after. */
  predicate Extends(output: seq<byte>, lastCopy: nat, match': nat, y: nat, height: nat) {
    && lastCopy > 0 && lastCopy + 2 < |output|
    && output[lastCopy + 1] as int + output[lastCopy] as int == match'
    && output[lastCopy + 2] as int + output[lastCopy] as int == y
    && match' + 1 < height
  }

  /** Emit or extend a copy of the matched row. */
  method EmitCopy(ghost from: Image, ghost to: Image, ghost ops: seq<Op>, ghost w: nat,
                  output: seq<byte>, lastCopy: nat, lastMatchOffset: nat, ghost d: int,
                  y: nat, match': nat, height: nat)
    returns (output': seq<byte>, lastCopy': nat, offset': nat, ghost d': int, ghost ops': seq<Op>)
    requires Rebuilt(from, to, ops, y, w) && height == |from| && y < height && match' < height
    requires from[match'] == to[y]
    requires output == Serialize(ops) && LastCopy(output, ops, lastCopy, y)
    requires 0 <= y + d && d < 256 && lastMatchOffset == AsSize(d)
    ensures Rebuilt(from, to, ops', y + 1, w)
    ensures output' == Serialize(ops') && LastCopy(output', ops', lastCopy', y + 1)
    ensures 0 <= y + d' && d' < 256 && offset' == AsSize(d')
    ensures ops' != [] && |output'| <= |output| + 4
    ensures if Extends(output, lastCopy, match', y, height) then
        && output' == output[lastCopy := U8(output[lastCopy] as int + 1)]
        && lastCopy' == lastCopy && offset' == lastMatchOffset
      else
        && output' == output + [99, 1, U8(match'), U8(y)]
        && lastCopy' == |output| + 1 && offset' == AsSize(match' - y)
  {
    hide Rebuilt, Serialize, LastCopy;
    RebuiltSized(from, to, ops, y, w);
    LastCopyInBuffer(output, ops, lastCopy, y);
    if lastCopy > 0 {
      var cnt := output[lastCopy] as int;
      if output[lastCopy + 1] as int + cnt == match' && output[lastCopy + 2] as int + cnt == y
         && output[lastCopy + 1] as int + cnt + 1 < height
      {
        ops' := MergeBytes(output, ops, lastCopy, y);
        assert ops == ops[..|ops| - 1] + [ops[|ops| - 1]];
        RebuiltMerge(from, to, ops[..|ops| - 1], y, w, cnt,
                     output[lastCopy + 1] as int, output[lastCopy + 2] as int);
        output' := output[lastCopy := U8(cnt + 1)];
        lastCopy', offset', d' := lastCopy, lastMatchOffset, d;
        return;
      }
    }
    d' := match' - y;
    offset' := (match' + TWO64 - y) % TWO64;
    RebuiltCopy(from, to, ops, y, w, match');
    CopyBytes(output, ops, y, match');
    ops' := ops + [CopyRows(1, match', y)];
    output' := output + [COPY_ROW, 1, U8(match'), U8(y)];
    lastCopy' := |output| + 1;
  }

  lemma LastCopyInBuffer(output: seq<byte>, ops: seq<Op>, lastCopy: nat, y: nat)
    requires LastCopy(output, ops, lastCopy, y)
    ensures lastCopy > 0 ==> lastCopy + 2 < |output|
  {
  }

  lemma RebuiltSized(from: Image, to: Image, ops: seq<Op>, y: nat, w: nat)
    requires Rebuilt(from, to, ops, y, w)
    ensures Sized(from, w, |from|) && Sized(to, w, |from|) && y <= |from| <= 256
  {
  }

  // ----- makeDelta -----

  /** Distinct rows give distinct coded rows, before and after channel order. */
  lemma RowsMatch(a: seq<Pixel>, b: seq<Pixel>, mode: TileMode)
    requires |a| == |b|
    ensures Identical(Encode(a), Encode(b)) <==> a == b
    ensures a == b <==> RowToRgba(a, mode) == RowToRgba(b, mode)
  {
    IdenticalIffSamePixels(a, b);
    if RowToRgba(a, mode) == RowToRgba(b, mode) {
      RowToRgbaInjective(a, b, mode);
    }
  }

  /** What y rows can cost at most: 4 * (w + 2) bytes each. */
  function RowsCost(w: nat, y: nat): nat {
    y * (4 * (w + 2))
  }

  /** The capacity that makeDelta reserves for its output. */
  function Reserve(w: nat, h: nat): nat {
    w * (h + 4) * 4
  }

  lemma Capacity(w: nat, h: nat)
    ensures RowsCost(w, h) == h * (4 * (w + 2)) && Reserve(w, h) == w * (h + 4) * 4
  {
  }

  lemma OneMoreRow(w: nat, y: nat)
    ensures RowsCost(w, y + 1) == RowsCost(w, y) + 4 * (w + 2)
  {
  }

  /** State of the row loop after y rows. */
  ghost predicate Ahead(prev: Image, cur: Image, ops: seq<Op>, output: seq<byte>, lastCopy: nat,
                        offset: nat, d: int, y: nat, w: nat, mode: TileMode) {
    && Sized(prev, w, |prev|) && Sized(cur, w, |prev|) && w <= 256
    && Rebuilt(ImageToRgba(prev, mode), ImageToRgba(cur, mode), ops, y, w)
    && output == Serialize(ops) && LastCopy(output, ops, lastCopy, y)
    && 0 <= y + d && d < 256 && offset == AsSize(d)
    && (ops == [] <==> prev[..y] == cur[..y])
    && |output| <= RowsCost(w, y)
  }

  lemma NothingDoneYet(prev: Image, cur: Image, w: nat, mode: TileMode)
    requires Sized(prev, w, |prev|) && Sized(cur, w, |prev|) && w <= 256 && |prev| <= 256
    ensures Ahead(prev, cur, [], [], 0, 0, 0, 0, w, mode)
  {
    var from, to := ImageToRgba(prev, mode), ImageToRgba(cur, mode);
    assert to[..0] + from[0..] == from;
  }

  lemma SamePrefixGrows(prev: Image, cur: Image, y: nat)
    requires y < |prev| == |cur|
    ensures prev[..y + 1] == cur[..y + 1] <==> prev[..y] == cur[..y] && prev[y] == cur[y]
  {
    assert prev[..y + 1] == prev[..y] + [prev[y]] && cur[..y + 1] == cur[..y] + [cur[y]];
  }

  /** One row: unchanged, copied from some row of the old tile, or patched. */
  method DeltaRow(ghost prevImg: Image, ghost curImg: Image, prev: DeltaData, cur: DeltaData,
                  ghost ops: seq<Op>, output: seq<byte>, lastCopy: nat, offset: nat, ghost d: int,
                  y: nat, mode: TileMode)
    returns (output': seq<byte>, lastCopy': nat, offset': nat, ghost d': int, ghost ops': seq<Op>)
    requires Holds(prev, prevImg) && Holds(cur, curImg)
    requires prev.width == cur.width && prev.height == cur.height && y < prev.height
    requires Ahead(prevImg, curImg, ops, output, lastCopy, offset, d, y, cur.width, mode)
    ensures |output'| <= |output| + 4 * (cur.width + 2)
    ensures prevImg[y] == curImg[y] ==> output' == output && lastCopy' == lastCopy && offset' == offset
    ensures curImg[y] in prevImg ==> |output'| <= |output| + 4
    ensures Ahead(prevImg, curImg, ops', output', lastCopy', offset', d', y + 1, cur.width, mode)
  {
    hide Identical, Encode, Rebuilt, Serialize, LastCopy, RowToRgba, RowsCost;
    OneMoreRow(cur.width, y);
    ghost var from, to, w := ImageToRgba(prevImg, mode), ImageToRgba(curImg, mode), cur.width;
    RebuiltSized(from, to, ops, y, w);
    SamePrefixGrows(prevImg, curImg, y);
    RowsMatch(prevImg[y], curImg[y], mode);
    lastCopy', offset', d' := lastCopy, offset, d;
    if Identical(prev.rows[y], cur.rows[y]) {
      RebuiltSame(from, to, ops, y, w);
      LastCopyPasses(output, ops, lastCopy, output, ops, y);
      return output, lastCopy, offset, d, ops;
    }
    var matched, match' := FindMatch(prev.rows, cur.rows[y], y, offset, d);
    if matched {
      RowsMatch(prevImg[match'], curImg[y], mode);
      output', lastCopy', offset', d', ops' :=
        EmitCopy(from, to, ops, w, output, lastCopy, offset, d, y, match', prev.height);
      return;
    }
    assert curImg[y] !in prevImg by {
      NoRowMatches(prevImg, curImg[y], prev.rows);
    }
    ghost var spans;
    output', spans := DiffRowTo(prevImg[y], curImg[y], prev.rows[y], cur.rows[y], prev.width, y, output, mode);
    ops' := ops + spans;
    RebuiltSpans(from, to, ops, spans, y, w);
    SerializeConcat(ops, spans);
    SerializedSize(spans);
    if spans == [] {
      NoSpansNoChange(from[y], y);
    }
    LastCopyPasses(output, ops, lastCopy, output', ops', y);
  }

  lemma NoRowMatches(img: Image, row: seq<Pixel>, rows: seq<DeltaBitmapRow>)
    requires rows == EncodeRows(img) && Sized(img, |row|, |img|)
    requires forall r :: 0 <= r < |rows| ==> !Identical(rows[r], Encode(row))
    ensures row !in img
  {
    hide Identical, Encode;
    forall r | 0 <= r < |img|
      ensures img[r] != row
    {
      IdenticalIffSamePixels(img[r], row);
      assert rows[r] == Encode(img[r]);
    }
  }

  /** The guessed capacity is enough for every tile less than twice as high as
      it is wide, square ones in particular. */
  lemma FitsReserve(w: nat, h: nat)
    ensures h < 2 * w ==> RowsCost(w, h) + 1 <= Reserve(w, h)
  {
    assert h * (4 * (w + 2)) == 4 * (h * w) + 8 * h;
    assert w * (h + 4) * 4 == 4 * (h * w) + 16 * w;
  }

  lemma NoSpansNoChange(row: seq<Pixel>, y: nat)
    ensures ApplySpans(row, [], y) == row
  {
  }

  /** Once a row is handled without a copy, the last copy cannot grow any more. */
  lemma LastCopyPasses(output: seq<byte>, ops: seq<Op>, lastCopy: nat,
                       output': seq<byte>, ops': seq<Op>, y: nat)
    requires LastCopy(output, ops, lastCopy, y) && output <= output'
    ensures LastCopy(output', ops', lastCopy, y + 1)
  {
  }

  /** The delta of two tiles of one size patches the old image, in RGBA order,
      into exactly the new one. It is empty if and only if nothing changed, and
      terminated otherwise; only tiles of different sizes get no delta. */
  method MakeDelta(ghost prevImg: Image, ghost curImg: Image, prev: DeltaData, cur: DeltaData, mode: TileMode)
    returns (delta: Option<seq<byte>>, ghost ops: seq<Op>)
    requires Holds(prev, prevImg) && Holds(cur, curImg)
    requires prev.width <= 256 && prev.height <= 256
    ensures delta.Some? <==> prev.width == cur.width && prev.height == cur.height
    ensures delta.Some? ==>
      && Rebuilt(ImageToRgba(prevImg, mode), ImageToRgba(curImg, mode), ops, cur.height, cur.width)
      && delta.value == (if ops == [] then [] else Serialize(ops) + [TERMINATE])
      && (ops == [] <==> prevImg == curImg)
      && |delta.value| <= cur.height * (4 * (cur.width + 2)) + 1
      && (cur.height < 2 * cur.width ==> |delta.value| <= cur.width * (cur.height + 4) * 4)
  {
    hide RowsCost, Reserve, Rebuilt, LastCopy, Serialize;
    if prev.width != cur.width || prev.height != cur.height {
      return None, [];
    }
    var output: seq<byte> := [];
    var lastMatchOffset, lastCopy := 0, 0;
    ghost var d := 0;
    ops := [];
    NothingDoneYet(prevImg, curImg, cur.width, mode);
    for y := 0 to prev.height
      invariant Ahead(prevImg, curImg, ops, output, lastCopy, lastMatchOffset, d, y, cur.width, mode)
    {
      output, lastCopy, lastMatchOffset, d, ops :=
        DeltaRow(prevImg, curImg, prev, cur, ops, output, lastCopy, lastMatchOffset, d, y, mode);
    }
    FitsReserve(cur.width, cur.height);
    Capacity(cur.width, cur.height);
    if output == [] {
      return Some([]), ops;
    }
    output := output + [TERMINATE];
    return Some(output), ops;
  }
}
