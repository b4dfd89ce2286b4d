/** Copying pixels into RGBA order (`copy_row`, `simd_copyRowSwapRB`). */
module CopyRow {
  import opened Pixels

  /** Where byte i of the swapped row comes from: red and blue change places. */
  function SwapIndex(i: nat): nat {
    if i % 4 == 0 then i + 2 else if i % 4 == 2 then i - 2 else i
  }

  function Swapped(src: seq<byte>): (r: seq<byte>)
    requires |src| % 4 == 0
    ensures |r| == |src|
  {
    seq(|src|, i requires 0 <= i < |src| => src[SwapIndex(i)])
  }

  lemma SwappedPixels(row: seq<Pixel>)
    ensures Swapped(PixelBytes(row)) == PixelBytes(RowToRgba(row, Bgra))
  {
    var a, b := Swapped(PixelBytes(row)), PixelBytes(RowToRgba(row, Bgra));
    forall i | 0 <= i < |a|
      ensures a[i] == b[i]
    {
      assert SwapIndex(i) / 4 == i / 4;
      assert a[i] == row[i / 4].Channel(SwapIndex(i) % 4);
      assert b[i] == ToRgba(row[i / 4], Bgra).Channel(i % 4);
    }
  }

  /** The control bytes of the shuffle, lowest first, the same in both lanes. */
  const SHUFFLE: seq<nat> := [2, 1, 0, 3, 6, 5, 4, 7, 10, 9, 8, 11, 14, 13, 12, 15]

  /** `_mm256_shuffle_epi8`: each 128-bit lane is shuffled by itself. */
  function ShuffleLanes(v: seq<byte>): (r: seq<byte>)
    requires |v| == 32
    ensures |r| == 32
  {
    seq(32, i requires 0 <= i < 32 => v[i / 16 * 16 + SHUFFLE[i % 16]])
  }

  lemma ShuffleSwaps(i: nat)
    requires i < 32
    ensures i / 16 * 16 + SHUFFLE[i % 16] == SwapIndex(i)
  {
    var j := i % 16;
    assert SHUFFLE[j] == SwapIndex(j);
  }

  /** The remaining pixels, or all of them, one by one. */
  method SwapScalar(dest: array<byte>, src: seq<byte>, start: nat)
    requires dest.Length == |src| && |src| % 4 == 0 && start % 4 == 0 && start <= |src|
    requires dest[..start] == Swapped(src)[..start]
    modifies dest
    ensures dest[..] == Swapped(src)
  {
    hide Swapped;
    var i := start;
    while i < |src|
      invariant start <= i <= |src| && i % 4 == 0
      invariant dest[..i] == Swapped(src)[..i]
    {
      ghost var before := dest[..];
      var pixel := [src[i + 2], src[i + 1], src[i], src[i + 3]];
      PixelSwapped(src, i);
      StoreBlock(dest, i, pixel);
      PrefixGrows(before, dest[..], Swapped(src), i, pixel);
      i := i + 4;
    }
    assert dest[..] == dest[..i];
  }

  /** Eight pixels at a time, then the rest. */
  method SwapSimd(dest: array<byte>, src: seq<byte>)
    requires dest.Length == |src| && |src| % 4 == 0
    modifies dest
    ensures dest[..] == Swapped(src)
  {
    hide Swapped, ShuffleLanes;
    var i := 0;
    NoneSwapped(src, dest[..0]);
    while i + 32 <= |src|
      invariant i <= |src| && i % 4 == 0
      invariant dest[..i] == Swapped(src)[..i]
    {
      ghost var before := dest[..];
      var swapped := ShuffleLanes(src[i..i + 32]);
      BlockSwapped(src, i);
      StoreBlock(dest, i, swapped);
      PrefixGrows(before, dest[..], Swapped(src), i, swapped);
      i := i + 32;
    }
    SwapScalar(dest, src, i);
  }

  /** A block stored after a finished prefix makes a longer one. */
  lemma PrefixGrows(before: seq<byte>, after: seq<byte>, goal: seq<byte>, i: nat, v: seq<byte>)
    requires i + |v| <= |before| && i + |v| <= |goal|
    requires after == before[..i] + v + before[i + |v|..]
    requires before[..i] == goal[..i] && v == goal[i..i + |v|]
    ensures after[..i + |v|] == goal[..i + |v|]
  {
    assert goal[..i + |v|] == goal[..i] + goal[i..i + |v|];
  }

  lemma PixelSwapped(src: seq<byte>, i: nat)
    requires |src| % 4 == 0 && i % 4 == 0 && i + 4 <= |src|
    ensures [src[i + 2], src[i + 1], src[i], src[i + 3]] == Swapped(src)[i..i + 4]
  {
    assert SwapIndex(i) == i + 2 && SwapIndex(i + 1) == i + 1 && SwapIndex(i + 2) == i && SwapIndex(i + 3) == i + 3;
  }

  lemma BlockSwapped(src: seq<byte>, i: nat)
    requires |src| % 4 == 0 && i % 4 == 0 && i + 32 <= |src|
    ensures ShuffleLanes(src[i..i + 32]) == Swapped(src)[i..i + 32]
  {
    var v := src[i..i + 32];
    var a, b := ShuffleLanes(v), Swapped(src)[i..i + 32];
    forall k | 0 <= k < 32
      ensures a[k] == b[k]
    {
      ByteSwapped(src, i, k);
    }
  }

  lemma ByteSwapped(src: seq<byte>, i: nat, k: nat)
    requires |src| % 4 == 0 && i % 4 == 0 && i + 32 <= |src| && k < 32
    ensures ShuffleLanes(src[i..i + 32])[k] == Swapped(src)[i + k]
  {
    ShuffleSwaps(k);
    IndexShifts(i / 4, k);
  }

  lemma IndexShifts(q: nat, k: nat)
    ensures SwapIndex(4 * q + k) == 4 * q + SwapIndex(k)
  {
    var r := k % 4;
    assert 4 * q + k == 4 * (q + k / 4) + r;
  }

  method StoreBlock(dest: array<byte>, at: nat, v: seq<byte>)
    requires at + |v| <= dest.Length
    modifies dest
    ensures dest[..] == old(dest[..at]) + v + old(dest[at + |v|..])
  {
    forall k | 0 <= k < |v| {
      dest[at + k] := v[k];
    }
  }

  /** Byte c of pixel x, as the client must see it. */
  predicate ByteIs(dest: seq<byte>, src: seq<Pixel>, mode: TileMode, x: nat, c: nat)
    requires x < |src|
  {
    4 * x + c < |dest| && dest[4 * x + c] == ClientByte(src[x], mode, c)
  }

  lemma CopiedBytes(src: seq<Pixel>, mode: TileMode, dest: seq<byte>, x: nat, c: nat)
    requires dest == PixelBytes(RowToRgba(src, mode)) && x < |src| && c < 4
    ensures ByteIs(dest, src, mode, x, c)
  {
    hide PixelBytes, ToRgba, ClientByte;
    PixelByte(RowToRgba(src, mode), x, c);
    ToRgbaBytes(src[x], mode, c);
  }

  /** On any machine, with AVX2 or without, the copy is in RGBA order. */
  method CopyRow(src: seq<Pixel>, mode: TileMode) returns (dest: seq<byte>)
    ensures dest == PixelBytes(RowToRgba(src, mode))
    ensures |dest| == 4 * |src|
    ensures forall x, c :: 0 <= x < |src| && 0 <= c < 4 ==> ByteIs(dest, src, mode, x, c)
  {
    hide PixelBytes, Swapped;
    var bytes := PixelBytes(src);
    if mode == Rgba {
      assert RowToRgba(src, mode) == src;
      dest := bytes;
    } else {
      var hasAvx2: bool := *;
      var out := new byte[|bytes|];
      NoneSwapped(bytes, out[..0]);
      if hasAvx2 {
        SwapSimd(out, bytes);
      } else {
        SwapScalar(out, bytes, 0);
      }
      SwappedPixels(src);
      dest := out[..];
    }
    hide ByteIs, ToRgba;
    forall x, c | 0 <= x < |src| && 0 <= c < 4
      ensures ByteIs(dest, src, mode, x, c)
    {
      CopiedBytes(src, mode, dest, x, c);
    }
  }

  lemma NoneSwapped(src: seq<byte>, none: seq<byte>)
    requires |src| % 4 == 0 && none == []
    ensures none == Swapped(src)[..0]
  {
  }
}
