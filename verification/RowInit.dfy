/** Coding a row (`initRow`), with the AVX2 encoder (`simd_initPixRowSimd`).

    A 256-bit register of pixels is a sequence of eight lanes, lowest first.
 */
module RowInit {
  import opened Pixels
  import opened Bits
  import opened RowCodec

  // ----- The gather table -----

  /** The numbers below n whose bit in the pattern is clear, in order. */
  function Clear(pattern: nat, n: nat): (r: seq<nat>)
    ensures |r| <= n && forall i :: 0 <= i < |r| ==> r[i] < n
  {
    if n == 0 then []
    else Clear(pattern, n - 1) + if TestBit(pattern, n - 1) then [] else [n - 1]
  }

  /** The control lanes for a pattern: the kept lanes first, then lane 0. */
  function GatherRow(pattern: nat): (r: seq<nat>)
    ensures |r| == 8
  {
    Clear(pattern, 8) + seq(8 - |Clear(pattern, 8)|, _ => 0)
  }

  ghost predicate IsGatherLut(lut: seq<seq<nat>>) {
    |lut| == 256 && forall p :: 0 <= p < 256 ==> lut[p] == GatherRow(p)
  }

  method InitGatherLut() returns (table: seq<seq<nat>>)
    ensures IsGatherLut(table)
  {
    hide TestBit;
    table := [];
    for pattern := 0 to 256
      invariant |table| == pattern
      invariant forall p :: 0 <= p < pattern ==> table[p] == GatherRow(p)
    {
      var lut: seq<nat> := [];
      for src := 0 to 8
        invariant lut == Clear(pattern, src)
      {
        if !TestBit(pattern, src) {
          lut := lut + [src];
        }
      }
      while |lut| < 8
        invariant |Clear(pattern, 8)| <= |lut| <= 8
        invariant lut == Clear(pattern, 8) + seq(|lut| - |Clear(pattern, 8)|, _ => 0)
      {
        lut := lut + [0];
      }
      table := table + [lut];
    }
  }

  // ----- Lane operations -----

  type Lanes = v: seq<Pixel> | |v| == 8 witness seq(8, _ => TRANSPARENT)

  /** `_mm256_permutevar8x32_epi32`. */
  function Permute(v: Lanes, control: seq<nat>): Lanes
    requires |control| == 8 && forall i :: 0 <= i < 8 ==> control[i] < 8
  {
    seq(8, i requires 0 <= i < 8 => v[control[i]])
  }

  /** Keep lane 0 only, or all lanes but lane 0: the low pixel mask. */
  function OnlyLow(v: Lanes): Lanes {
    [v[0], TRANSPARENT, TRANSPARENT, TRANSPARENT, TRANSPARENT, TRANSPARENT, TRANSPARENT, TRANSPARENT]
  }

  function AllButLow(v: Lanes): Lanes {
    v[0 := TRANSPARENT]
  }

  /** Bitwise or of registers of which one is zero in every lane. */
  function Merge(a: Lanes, b: Lanes): Lanes
    requires forall i :: 0 <= i < 8 ==> a[i] == TRANSPARENT || b[i] == TRANSPARENT
  {
    seq(8, i requires 0 <= i < 8 => if a[i] == TRANSPARENT then b[i] else a[i])
  }

  /** Compare lanes and collect the sign bits. */
  function DiffMask(a: Lanes, b: Lanes): (m: nat)
    ensures m < 256
  {
    assert Pow2(8) == 256;
    FromBits(seq(8, i requires 0 <= i < 8 => a[i] == b[i]))
  }

  const SHIFT_LEFT: seq<nat> := [0, 0, 1, 2, 3, 4, 5, 6]
  const LAST_TO_FIRST: seq<nat> := [7, 0, 0, 0, 0, 0, 0, 0]

  /** The eight pixels to the left of the current eight. */
  function Neighbours(prev: Lanes, curr: Lanes): Lanes {
    var lastPix := OnlyLow(Permute(prev, LAST_TO_FIRST));
    var shifted := AllButLow(Permute(curr, SHIFT_LEFT));
    Merge(shifted, lastPix)
  }

  lemma NeighboursAre(prev: Lanes, curr: Lanes)
    ensures Neighbours(prev, curr) == [prev[7]] + curr[..7]
  {
    var lastPix := OnlyLow(Permute(prev, LAST_TO_FIRST));
    var shifted := AllButLow(Permute(curr, SHIFT_LEFT));
    assert lastPix[0] == prev[7];
    assert forall i :: 1 <= i < 8 ==> shifted[i] == curr[i - 1];
  }

  // ----- The encoder -----

  /** The eight mask bits from pixel x on. */
  lemma BlockMask(from: seq<Pixel>, x: nat, prev: Lanes, k: nat)
    requires |from| == 256 && x + 8 <= 256 && k < 8
    requires prev[7] == Prev(from, x)
    ensures var curr := from[x..x + 8];
      TestBit(DiffMask(Neighbours(prev, curr), curr), k) == Dup(from, x + k)
  {
    var curr: Lanes := from[x..x + 8];
    NeighboursAre(prev, curr);
    var n := [prev[7]] + curr[..7];
    hide TestBit, FromBits, Neighbours;
    var bits := seq(8, i requires 0 <= i < 8 => n[i] == curr[i]);
    BitsRoundTrip(bits, k);
    assert n[k] == Prev(from, x + k);
  }

  /** Gathering the clear lanes of a block appends exactly its kept pixels. */
  lemma {:induction false} BlockKept(from: seq<Pixel>, x: nat, mask: nat, n: nat)
    requires |from| == 256 && x + n <= 256 && n <= 8
    requires forall k :: 0 <= k < n ==> TestBit(mask, k) == Dup(from, x + k)
    ensures |Kept(from, x + n)| == |Kept(from, x)| + |Clear(mask, n)|
    ensures Kept(from, x + n) == Kept(from, x)
      + seq(|Clear(mask, n)|, i requires 0 <= i < |Clear(mask, n)| => from[x + Clear(mask, n)[i]])
  {
    hide TestBit;
    if n > 0 {
      BlockKept(from, x, mask, n - 1);
      var c, d := Clear(mask, n - 1), Clear(mask, n);
      var a := seq(|c|, i requires 0 <= i < |c| => from[x + c[i]]);
      var b := seq(|d|, i requires 0 <= i < |d| => from[x + d[i]]);
      if TestBit(mask, n - 1) {
        assert a == b;
      } else {
        assert b == a + [from[x + n - 1]];
      }
    }
  }

  /** What the gather delivers for a pattern: the block's kept pixels. */
  lemma GatheredPixels(from: seq<Pixel>, x: nat, mask: nat)
    requires |from| == 256 && x + 8 <= 256
    requires forall k :: 0 <= k < 8 ==> TestBit(mask, k) == Dup(from, x + k)
    ensures var n := |Clear(mask, 8)|; var packed := Permute(from[x..x + 8], GatherRow(mask));
      Kept(from, x + 8) == Kept(from, x) + packed[..n]
  {
    BlockKept(from, x, mask, 8);
    hide Kept, TestBit, Clear;
    var c := Clear(mask, 8);
    var packed := Permute(from[x..x + 8], GatherRow(mask));
    var p, q := packed[..|c|], seq(|c|, i requires 0 <= i < |c| => from[x + c[i]]);
    forall i | 0 <= i < |c|
      ensures p[i] == q[i]
    {
      assert p[i] == packed[i] == from[x..x + 8][c[i]] == from[x + c[i]];
    }
  }

  /** The number of set bits of the inverted mask: `_mm_popcnt_u32`. */
  method CountUnset(mask: nat) returns (n: nat)
    ensures n == |Clear(mask, 8)|
  {
    n := 0;
    for k := 0 to 8
      invariant n == |Clear(mask, k)|
    {
      if !TestBit(mask, k) {
        n := n + 1;
      }
    }
  }

  /** One pass of eight pixels. The store is eight lanes wide whatever the count. */
  method SimdBlock(from: seq<Pixel>, lut: seq<seq<nat>>, scratch: array<Pixel>, x: nat, dest: nat, prev: Lanes)
    returns (mask: nat, dest': nat)
    requires |from| == 256 && IsGatherLut(lut) && scratch.Length == 256
    requires x + 8 <= 256 && prev[7] == Prev(from, x)
    requires dest <= x && scratch[..dest] == Kept(from, x)
    modifies scratch
    ensures mask < 256 && forall k :: 0 <= k < 8 ==> TestBit(mask, k) == Dup(from, x + k)
    ensures dest' <= x + 8 && scratch[..dest'] == Kept(from, x + 8)
  {
    hide TestBit, Neighbours, DiffMask, Kept, Clear;
    var curr: Lanes := from[x..x + 8];
    mask := DiffMask(Neighbours(prev, curr), curr);
    forall k | 0 <= k < 8
      ensures TestBit(mask, k) == Dup(from, x + k)
    {
      BlockMask(from, x, prev, k);
    }
    var packed := Permute(curr, lut[mask]);
    var count := CountUnset(mask);
    forall i | 0 <= i < 8 {
      scratch[dest + i] := packed[i];
    }
    GatheredPixels(from, x, mask);
    dest' := dest + count;
    assert scratch[..dest'] == Kept(from, x) + packed[..count];
  }

  /** The word whose bytes, in memory order, are these. */
  function WordOf(bytes: seq<nat>): Word
    requires |bytes| == 8
  {
    seq(64, k requires 0 <= k < 64 => TestBit(bytes[k / 8], k % 8))
  }

  lemma MaskBytesAreWords(from: seq<Pixel>, bytes: seq<nat>)
    requires |from| == 256 && |bytes| == 32
    requires forall x :: 0 <= x < 256 ==> TestBit(bytes[x / 8], x % 8) == Dup(from, x)
    ensures [WordOf(bytes[..8]), WordOf(bytes[8..16]), WordOf(bytes[16..24]), WordOf(bytes[24..])] == Masks(from)
  {
    hide TestBit;
    WordMatches(from, bytes, 0);
    WordMatches(from, bytes, 1);
    WordMatches(from, bytes, 2);
    WordMatches(from, bytes, 3);
    assert bytes[0..8] == bytes[..8] && bytes[24..32] == bytes[24..];
  }

  lemma WordMatches(from: seq<Pixel>, bytes: seq<nat>, m: nat)
    requires |from| == 256 && |bytes| == 32 && m < 4
    requires forall x :: 0 <= x < 256 ==> TestBit(bytes[x / 8], x % 8) == Dup(from, x)
    ensures WordOf(bytes[8 * m..8 * m + 8]) == MaskWord(from, m)
  {
    hide TestBit;
    var a, b := WordOf(bytes[8 * m..8 * m + 8]), MaskWord(from, m);
    forall k | 0 <= k < 64
      ensures a[k] == b[k]
    {
      var x := 64 * m + k;
      assert x / 8 == 8 * m + k / 8 && x % 8 == k % 8;
      assert a[k] == TestBit(bytes[x / 8], x % 8);
    }
  }

  /** The AVX2 encoder of a 256-pixel row gives what the scalar one gives. */
  method InitPixRowSimd(from: seq<Pixel>, lut: seq<seq<nat>>, scratch: array<Pixel>)
    returns (scratchLen: nat, rleMaskBlock: seq<Word>)
    requires |from| == 256 && IsGatherLut(lut) && scratch.Length == 256
    modifies scratch
    ensures scratchLen <= scratch.Length
    ensures scratch[..scratchLen] == RleData(from)
    ensures rleMaskBlock == Masks(from)
  {
    hide TestBit, Kept, WordOf, IsGatherLut, Masks, Dup;
    var bytes: seq<nat> := [];
    var dest := 0;
    var prev: Lanes := seq(8, _ => TRANSPARENT);
    NothingKeptYet(from);
    for b := 0 to 32
      invariant 0 <= dest <= 8 * b && scratch[..dest] == Kept(from, 8 * b)
      invariant |bytes| == b && forall i :: 0 <= i < b ==> bytes[i] < 256
      invariant forall x :: 0 <= x < 8 * b ==> TestBit(bytes[x / 8], x % 8) == Dup(from, x)
      invariant prev[7] == Prev(from, 8 * b)
    {
      var x := 8 * b;
      var mask;
      mask, dest := SimdBlock(from, lut, scratch, x, dest, prev);
      forall y | 8 * b <= y < 8 * b + 8
        ensures TestBit(mask, y % 8) == Dup(from, y) && y / 8 == b
      {
        assert y == x + y % 8;
      }
      bytes := bytes + [mask];
      prev := from[x..x + 8];
    }
    MaskBytesAreWords(from, bytes);
    scratchLen := dest;
    rleMaskBlock := [WordOf(bytes[..8]), WordOf(bytes[8..16]), WordOf(bytes[16..24]), WordOf(bytes[24..])];
  }

  lemma NothingKeptYet(from: seq<Pixel>)
    ensures Kept(from, 0) == []
  {
  }

  /** On any machine, with AVX2 or without, a row gets its one coded form. */
  method InitRow(from: seq<Pixel>, lut: seq<seq<nat>>) returns (row: DeltaBitmapRow)
    requires IsGatherLut(lut)
    ensures row == Encode(from)
  {
    hide IsGatherLut, Masks, RleData;
    var scratch := new Pixel[|from|](_ => TRANSPARENT);
    var hasAvx2: bool := *;
    var len, masks;
    if hasAvx2 && |from| == 256 {
      len, masks := InitPixRowSimd(from, lut, scratch);
    } else {
      len, masks := InitPixRowCpu(from, scratch);
    }
    row := DeltaBitmapRow(masks, scratch[..len]);
  }
}
