/** Run-length coded bitmap rows (`DeltaGenerator::DeltaBitmapRow`). */
module RowCodec {
  import opened Pixels

  /** A `uint64_t` mask word as its 64 bits, least significant first. */
  type Word = w: seq<bool> | |w| == 64 witness seq(64, _ => false)

  /** The word with every bit equal to b. */
  function Fill(b: bool): Word {
    seq(64, _ => b)
  }

  /** `_rleSize` is |rleData|; `_rleData` is null exactly when that is zero. */
  datatype DeltaBitmapRow = DeltaBitmapRow(rleMask: seq<Word>, rleData: seq<Pixel>)

  // ----- What a row encodes -----

  /** The pixel to the left, transparent before the first. */
  function Prev(pix: seq<Pixel>, i: nat): Pixel
    requires i <= |pix|
  {
    if i == 0 then TRANSPARENT else pix[i - 1]
  }

  predicate Dup(pix: seq<Pixel>, i: nat)
    requires i < |pix|
  {
    pix[i] == Prev(pix, i)
  }

  /** The pixels among the first n that differ from their left neighbour. */
  function Kept(pix: seq<Pixel>, n: nat): (r: seq<Pixel>)
    requires n <= |pix|
    ensures |r| <= n
  {
    if n == 0 then []
    else Kept(pix, n - 1) + if Dup(pix, n - 1) then [] else [pix[n - 1]]
  }

  /** Only the first 256 pixels are run-length coded. */
  function Coded(pix: seq<Pixel>): nat {
    if |pix| < 256 then |pix| else 256
  }

  function MaskWord(pix: seq<Pixel>, m: nat): Word {
    seq(64, k requires 0 <= k < 64 => 64 * m + k < |pix| && Dup(pix, 64 * m + k))
  }

  function Masks(pix: seq<Pixel>): seq<Word> {
    [MaskWord(pix, 0), MaskWord(pix, 1), MaskWord(pix, 2), MaskWord(pix, 3)]
  }

  function RleData(pix: seq<Pixel>): seq<Pixel> {
    Kept(pix, Coded(pix)) + pix[Coded(pix)..]
  }

  function Encode(pix: seq<Pixel>): (row: DeltaBitmapRow)
    ensures |row.rleMask| == 4
  {
    DeltaBitmapRow(Masks(pix), RleData(pix))
  }

  lemma {:induction false} KeptPrefix(pix: seq<Pixel>, p: nat, q: nat)
    requires p <= q <= |pix|
    ensures Kept(pix, p) <= Kept(pix, q)
    decreases q - p
  {
    if p < q {
      KeptPrefix(pix, p, q - 1);
    }
  }

  /** If nothing is kept between p and q, the row is constant there. */
  lemma {:induction false} NothingKept(pix: seq<Pixel>, p: nat, q: nat)
    requires p <= q <= |pix|
    requires |Kept(pix, p)| == |Kept(pix, q)|
    ensures forall i :: p <= i < q ==> pix[i] == Prev(pix, p)
    decreases q - p
  {
    if p < q {
      KeptPrefix(pix, p, q - 1);
      NothingKept(pix, p, q - 1);
    }
  }

  // ----- Encoding (initPixRowCpu, initRow) -----

  /** One mask word: the inner loop of the scalar encoder, over the pixels from
      x up to stop, which is 64 pixels on or the end of the row. */
  method InitMaskWord(from: seq<Pixel>, scratch: array<Pixel>, m: nat, start: nat, outp0: nat)
    returns (rleMask: Word, x: nat, outp: nat)
    requires scratch.Length == |from|
    requires start == Min(64 * m, |from|)
    requires outp0 <= start && scratch[..outp0] == Kept(from, start)
    modifies scratch
    ensures x == Min(64 * m + 64, |from|)
    ensures outp <= x && scratch[..outp] == Kept(from, x)
    ensures rleMask == MaskWord(from, m)
  {
    var width := |from|;
    x, outp := start, outp0;
    var lastPix := Prev(from, x);
    rleMask := Fill(false);
    var bitToSet := 0;
    var stop := if width - x > 64 then x + 64 else width;
    while x < stop
      invariant start + bitToSet == x <= stop
      invariant lastPix == Prev(from, x)
      invariant outp <= x && scratch[..outp] == Kept(from, x)
      invariant forall k :: 0 <= k < 64 ==>
        rleMask[k] == (k < bitToSet && Dup(from, start + k))
    {
      if from[x] == lastPix {
        rleMask := rleMask[bitToSet := true];
      } else {
        lastPix := from[x];
        scratch[outp] := lastPix;
        outp := outp + 1;
      }
      x, bitToSet := x + 1, bitToSet + 1;
    }
    assert forall k :: 0 <= k < 64 ==> rleMask[k] == MaskWord(from, m)[k];
  }

  /** The scalar encoder fills the scratch buffer with the kept pixels, then
      the raw tail, and builds the four mask words. */
  method InitPixRowCpu(from: seq<Pixel>, scratch: array<Pixel>)
    returns (scratchLen: nat, rleMaskBlock: seq<Word>)
    requires scratch.Length == |from|
    modifies scratch
    ensures scratchLen <= scratch.Length
    ensures scratch[..scratchLen] == RleData(from)
    ensures rleMaskBlock == Masks(from)
  {
    var width := |from|;
    var x, outp := 0, 0;
    rleMaskBlock := [];
    for mask := 0 to 4
      invariant x == Min(64 * mask, width)
      invariant 0 <= outp <= x && scratch[..outp] == Kept(from, x)
      invariant rleMaskBlock == Masks(from)[..mask]
    {
      var rleMask;
      rleMask, x, outp := InitMaskWord(from, scratch, mask, x, outp);
      rleMaskBlock := rleMaskBlock + [rleMask];
    }
    if x < width {
      forall i | x <= i < width {
        scratch[outp + (i - x)] := from[i];
      }
      assert scratch[..outp + (width - x)] == Kept(from, x) + from[x..];
      outp := outp + (width - x);
    }
    scratchLen := outp;
  }

  // ----- Reading back (PixIterator) -----

  /** The fields of the iterator. `_bitToCheck` is the power of two 1 << bit;
      64 stands for a bit that has been shifted out of the word. */
  datatype IterState = IterState(mask: nat, lastPix: Pixel, lastMask: Word, bit: nat, rlePos: nat)

  const ITER_START := IterState(0, TRANSPARENT, Fill(false), 64, 0)

  function LoadMask(row: DeltaBitmapRow, s: IterState): IterState {
    if s.mask < |row.rleMask| then s.(lastMask := row.rleMask[s.mask], mask := s.mask + 1, bit := 0)
    else s.(lastMask := Fill(true), bit := 0)
  }

  function TakeBit(row: DeltaBitmapRow, s: IterState): IterState
    requires s.bit < 64 && s.rlePos < |row.rleData|
  {
    if s.lastMask[s.bit] then s.(bit := s.bit + 1)
    else s.(lastPix := row.rleData[s.rlePos], rlePos := s.rlePos + 1, bit := s.bit + 1)
  }

  function NextState(row: DeltaBitmapRow, s: IterState): (r: IterState)
    requires s.bit <= 64 && s.rlePos <= |row.rleData|
    ensures r.bit <= 64 && r.rlePos <= |row.rleData|
  {
    if s.rlePos == |row.rleData| then s
    else TakeBit(row, if s.bit == 64 then LoadMask(row, s) else s)
  }

  /** The state after n calls of Next. */
  function IterAt(row: DeltaBitmapRow, n: nat): (s: IterState)
    ensures s.bit <= 64 && s.rlePos <= |row.rleData|
  {
    if n == 0 then ITER_START else NextState(row, IterAt(row, n - 1))
  }

  class PixIterator {
    const row: DeltaBitmapRow
    var mask: nat
    var lastPix: Pixel
    var lastMask: Word
    var bit: nat
    var rlePos: nat
    ghost var calls: nat  // calls of Next, counting the constructor's own

    ghost predicate Valid()
      reads this
    {
      && IterState(mask, lastPix, lastMask, bit, rlePos) == IterAt(row, calls)
      && |row.rleMask| == 4
    }

    constructor (row: DeltaBitmapRow)
      requires |row.rleMask| == 4
      ensures Valid() && this.row == row && calls == 1
    {
      this.row := row;
      mask, lastPix, lastMask, bit, rlePos := 0, TRANSPARENT, Fill(false), 64, 0;
      calls := 0;
      new;
      Next();
    }

    method Next()
      requires Valid()
      modifies this
      ensures Valid() && calls == old(calls) + 1
    {
      calls := calls + 1;
      if rlePos == |row.rleData| {
        return;
      }
      if bit == 64 {
        if mask < 4 {
          lastMask := row.rleMask[mask];
          mask := mask + 1;
        } else {
          lastMask := Fill(true);
        }
        bit := 0;
      }
      if !lastMask[bit] {
        lastPix := row.rleData[rlePos];
        rlePos := rlePos + 1;
      }
      bit := bit + 1;
    }
  }

  /** The state agrees with having stepped over pos pixels. */
  ghost predicate Tracks(pix: seq<Pixel>, pos: nat, s: IterState) {
    && Aligned(pix, pos, s.mask, s.bit, s.lastMask)
    && AtData(pix, pos, s.rlePos, s.lastPix)
  }

  lemma TracksStep(pix: seq<Pixel>, pos: nat, s: IterState)
    requires Tracks(pix, pos, s) && s.rlePos < |RleData(pix)|
    ensures Tracks(pix, pos + 1, NextState(Encode(pix), s))
  {
    var row := Encode(pix);
    var t := if s.bit == 64 then LoadMask(row, s) else s;
    if s.bit == 64 && s.mask < 4 {
      assert t.lastMask == MaskWord(pix, s.mask);
    }
    StepOver(pix, pos, t.mask, t.bit, t.lastMask, t.rlePos, t.lastPix);
  }

  /** After n calls the iterator has stepped over pos pixels, and has stopped
      short of n only because the data ran out. */
  lemma {:induction false} TracksAlways(pix: seq<Pixel>, n: nat) returns (pos: nat)
    ensures pos <= n && Tracks(pix, pos, IterAt(Encode(pix), n))
    ensures pos < n ==> IterAt(Encode(pix), n).rlePos == |RleData(pix)|
  {
    if n == 0 {
      pos := 0;
      assert Min(0, Coded(pix)) == 0;
    } else {
      pos := TracksAlways(pix, n - 1);
      if IterAt(Encode(pix), n - 1).rlePos < |RleData(pix)| {
        TracksStep(pix, pos, IterAt(Encode(pix), n - 1));
        pos := pos + 1;
      }
    }
  }

  /** What getPixel returns after n calls: the row's pixel number n - 1. */
  lemma PixelAt(pix: seq<Pixel>, n: nat)
    requires 0 < n
    ensures n <= Coded(pix) ==> IterAt(Encode(pix), n).lastPix == pix[n - 1]
    ensures n > 256 && |pix| > 256 ==> IterAt(Encode(pix), n).lastPix == pix[255]
  {
    var pos := TracksAlways(pix, n);
    var s := IterAt(Encode(pix), n);
    if pos < n {
      EndOfData(pix, pos, s.rlePos, s.lastPix);
      NothingKept(pix, Min(pos, Coded(pix)), Coded(pix));
    }
  }

  /** The iterator's mask fields agree with having stepped over pos pixels. */
  ghost predicate Aligned(pix: seq<Pixel>, pos: nat, mask: nat, bit: nat, lastMask: Word) {
    && bit <= 64 && mask <= 4
    && (pos <= 256 ==>
        && 64 * mask + bit == pos + 64
        && (0 < mask ==> lastMask == MaskWord(pix, mask - 1)))
    && (pos > 256 ==> mask == 4 && lastMask == Fill(true))
  }

  /** So do its data pointer and its current pixel. */
  ghost predicate AtData(pix: seq<Pixel>, pos: nat, rlePos: nat, lastPix: Pixel) {
    && (pos > Coded(pix) ==> |pix| > 256)
    && rlePos == |Kept(pix, Min(pos, Coded(pix)))| <= |RleData(pix)|
    && lastPix == Prev(pix, Min(pos, Coded(pix)))
  }

  lemma LoadedBit(pix: seq<Pixel>, pos: nat, mask: nat, bit: nat, lastMask: Word)
    requires bit < 64 && mask <= 4
    requires pos < 256 ==> 0 < mask && 64 * mask + bit == pos + 64 && lastMask == MaskWord(pix, mask - 1)
    requires pos >= 256 ==> mask == 4 && lastMask == Fill(true)
    ensures pos < 256 ==> lastMask[bit] == (pos < |pix| && Dup(pix, pos))
    ensures pos >= 256 ==> lastMask[bit]
    ensures Aligned(pix, pos + 1, mask, bit + 1, lastMask)
  {
    if pos < 256 {
      assert 64 * (mask - 1) + bit == pos;
    }
  }

  /** One step of the iterator, once the mask word is in place. */
  lemma StepOver(pix: seq<Pixel>, pos: nat, mask: nat, bit: nat, lastMask: Word,
                 rlePos: nat, lastPix: Pixel)
    requires bit < 64
    requires Aligned(pix, pos, mask, bit, lastMask) || pos == 256
    requires pos == 256 ==> mask == 4 && lastMask == Fill(true)
    requires AtData(pix, pos, rlePos, lastPix) && rlePos < |RleData(pix)|
    ensures Aligned(pix, pos + 1, mask, bit + 1, lastMask)
    ensures if lastMask[bit] then AtData(pix, pos + 1, rlePos, lastPix)
            else AtData(pix, pos + 1, rlePos + 1, RleData(pix)[rlePos])
  {
    EndMeansKept(pix, pos, rlePos, lastPix);
    LoadedBit(pix, pos, mask, bit, lastMask);
  }

  function Min(a: nat, b: nat): nat {
    if a < b then a else b
  }

  /** Data runs out only once every coded pixel is accounted for. */
  lemma EndOfData(pix: seq<Pixel>, pos: nat, rlePos: nat, lastPix: Pixel)
    requires AtData(pix, pos, rlePos, lastPix) && rlePos == |RleData(pix)|
    ensures |pix| <= 256
    ensures |Kept(pix, Min(pos, Coded(pix)))| == |Kept(pix, Coded(pix))|
  {
    KeptPrefix(pix, Min(pos, Coded(pix)), Coded(pix));
  }

  /** While data is left, stepping over one more pixel reads the next entry
      exactly when that pixel was kept. */
  lemma EndMeansKept(pix: seq<Pixel>, pos: nat, rlePos: nat, lastPix: Pixel)
    requires AtData(pix, pos, rlePos, lastPix) && rlePos < |RleData(pix)|
    ensures pos < Coded(pix) || (256 <= pos && |pix| > 256)
    ensures pos < Coded(pix) && !Dup(pix, pos) ==>
      AtData(pix, pos + 1, rlePos + 1, RleData(pix)[rlePos])
    ensures pos >= 256 || Dup(pix, pos) ==> AtData(pix, pos + 1, rlePos, lastPix)
  {
    if pos < Coded(pix) {
      KeptPrefix(pix, pos + 1, Coded(pix));
      assert Kept(pix, pos + 1) <= RleData(pix);
    }
  }

  // ----- Comparing rows -----

  /** `identical`: sizes, masks, null-ness, data, in that order. */
  predicate Identical(a: DeltaBitmapRow, b: DeltaBitmapRow) {
    if |a.rleData| != |b.rleData| then false
    else if a.rleMask != b.rleMask then false
    else if |a.rleData| == 0 && |b.rleData| == 0 then true
    else if |a.rleData| == 0 || |b.rleData| == 0 then false
    else a.rleData == b.rleData
  }

  lemma MaskBit(a: seq<Pixel>, b: seq<Pixel>, x: nat)
    requires Masks(a) == Masks(b)
    requires x < |a| == |b| && x < 256
    ensures Dup(a, x) == Dup(b, x)
  {
    var m, k := x / 64, x % 64;
    assert MaskWord(a, m) == Masks(a)[m] == Masks(b)[m] == MaskWord(b, m);
    assert MaskWord(a, m)[k] == MaskWord(b, m)[k];
  }

  lemma {:induction false} SamePrefix(a: seq<Pixel>, b: seq<Pixel>, n: nat)
    requires |a| == |b| && n <= Coded(a)
    requires Masks(a) == Masks(b) && RleData(a) == RleData(b)
    ensures a[..n] == b[..n] && |Kept(a, n)| == |Kept(b, n)|
  {
    if n > 0 {
      SamePrefix(a, b, n - 1);
      MaskBit(a, b, n - 1);
      assert Prev(a, n - 1) == Prev(b, n - 1) by {
        if n > 1 {
          assert a[..n - 1][n - 2] == b[..n - 1][n - 2];
        }
      }
      KeptPrefix(a, n, Coded(a));
      KeptPrefix(b, n, Coded(b));
      if !Dup(a, n - 1) {
        var i := |Kept(a, n - 1)|;
        assert a[n - 1] == Kept(a, n)[i] == RleData(a)[i];
        assert b[n - 1] == Kept(b, n)[i] == RleData(b)[i];
      }
      assert a[n - 1] == b[n - 1];
      assert a[..n] == a[..n - 1] + [a[n - 1]] && b[..n] == b[..n - 1] + [b[n - 1]];
    }
  }

  /** The coded form is canonical: rows of one width are identical exactly
      when their pixels are equal. */
  lemma IdenticalIffSamePixels(a: seq<Pixel>, b: seq<Pixel>)
    requires |a| == |b|
    ensures Identical(Encode(a), Encode(b)) <==> a == b
  {
    if Identical(Encode(a), Encode(b)) {
      assert RleData(a) == RleData(b);
      var c := Coded(a);
      SamePrefix(a, b, c);
      assert a[c..] == RleData(a)[|Kept(a, c)|..] == RleData(b)[|Kept(b, c)|..] == b[c..];
      assert a == a[..c] + a[c..] && b == b[..c] + b[c..];
    }
  }

  /** What the iterator delivers for a row: past pixel 255 it repeats that
      pixel, since it never reads the raw tail. */
  function ReadBack(pix: seq<Pixel>): seq<Pixel> {
    seq(|pix|, i requires 0 <= i < |pix| => if i < 256 then pix[i] else pix[255])
  }

  /** Reading a whole row back through the iterator. */
  method ReadRow(ghost pix: seq<Pixel>, row: DeltaBitmapRow, width: nat) returns (out: seq<Pixel>)
    requires row == Encode(pix) && width == |pix|
    ensures out == ReadBack(pix)
  {
    var it := new PixIterator(row);
    out := [];
    while |out| < width
      invariant |out| <= width
      invariant it.Valid() && it.row == row && it.calls == |out| + 1 && fresh(it)
      invariant out == ReadBack(pix)[..|out|]
    {
      PixelAt(pix, |out| + 1);
      assert ReadBack(pix)[..|out| + 1] == ReadBack(pix)[..|out|] + [ReadBack(pix)[|out|]];
      out := out + [it.lastPix];
      it.Next();
    }
  }

  /** The iterator replays a row faithfully exactly when the row fits the mask
      or its raw tail only repeats pixel 255. */
  lemma ReadBackExact(pix: seq<Pixel>)
    ensures ReadBack(pix) == pix <==> forall i :: 256 <= i < |pix| ==> pix[i] == pix[255]
  {
    if ReadBack(pix) == pix {
      forall i | 256 <= i < |pix|
        ensures pix[i] == pix[255]
      {
        assert ReadBack(pix)[i] == pix[i];
      }
    }
  }

  /** A row that is not replayed: 256 transparent pixels and one that is not. */
  lemma TailIsLost(pix: seq<Pixel>)
    requires |pix| == 257 && (forall i :: 0 <= i < 256 ==> pix[i] == TRANSPARENT) && pix[256] == Pixel(1, 1, 1, 1)
    ensures ReadBack(pix) != pix && ReadBack(pix)[256] == TRANSPARENT
  {
    ReadBackExact(pix);
  }
}
