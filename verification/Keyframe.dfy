/** Keyframes: rows packed for the network (`packForNetwork`) and unpacked by
    the browser (`unrle`). */
module Keyframe {
  import opened Pixels
  import opened Bits
  import opened RowCodec
  import opened TileDelta
  import opened FlatImage
  import opened BrowserDelta
  import CopyRow
  import opened MakeDelta

  // ----- Mask bytes -----

  /** Byte j of a little-endian mask word. */
  function MaskByte(w: Word, j: nat): byte
    requires j < 8
  {
    assert Pow2(8) == 256;
    FromBits(w[8 * j..8 * j + 8]) as byte
  }

  /** The 32 mask bytes in memory order. */
  function MaskBytes(masks: seq<Word>): (b: seq<byte>)
    requires |masks| == 4
    ensures |b| == 32
  {
    seq(32, i requires 0 <= i < 32 => MaskByte(masks[i / 8], i % 8))
  }

  // ----- Packing -----

  function PackRow(row: DeltaBitmapRow, mode: TileMode): (b: seq<byte>)
    requires |row.rleMask| == 4
    ensures |b| == 34 + 4 * |row.rleData|
  {
    [U8(|row.rleData|), U8(|row.rleData| / 256)] + MaskBytes(row.rleMask)
    + PixelBytes(RowToRgba(row.rleData, mode))
  }

  method PackForNetwork(row: DeltaBitmapRow, mode: TileMode) returns (output: seq<byte>)
    requires |row.rleMask| == 4 && |row.rleData| < 65536
    ensures output == PackRow(row, mode)
  {
    output := [U8(|row.rleData|), U8(|row.rleData| / 256)];
    output := output + MaskBytes(row.rleMask);
    if |row.rleData| > 0 {
      var pixels := CopyRow.CopyRow(row.rleData, mode);
      output := output + pixels;
    }
  }

  /** The size of a packed row is within the row buffer that the kit sets aside. */
  lemma PackedRowFits(pix: seq<Pixel>, mode: TileMode)
    ensures |PackRow(Encode(pix), mode)| <= |pix| * 4 + 32 + 2
  {
  }

  // ----- The browser's side -----

  datatype RowState = RowState(lastPixel: Pixel, pixSrc: nat)

  function PixelAtByte(data: seq<byte>, i: nat): Pixel {
    Pixel(Rd(data, i), Rd(data, i + 1), Rd(data, i + 2), Rd(data, i + 3))
  }

  /** Having produced x pixels of the row packed at `offset`. */
  function Unpacked(data: seq<byte>, offset: nat, x: nat): RowState {
    if x == 0 then RowState(TRANSPARENT, offset + 34)
    else
      var s := Unpacked(data, offset, x - 1);
      if TestBit(Rd(data, offset + 2 + (x - 1) / 8) as int, (x - 1) % 8) then s
      else RowState(PixelAtByte(data, s.pixSrc), s.pixSrc + 4)
  }

  function UnpackedRow(data: seq<byte>, offset: nat, w: nat): (row: seq<Pixel>)
    ensures |row| == w
  {
    seq(w, x requires 0 <= x < w => Unpacked(data, offset, x + 1).lastPixel)
  }

  function RowBytes(data: seq<byte>, offset: nat): nat {
    34 + 4 * (Rd(data, offset) as int + Rd(data, offset + 1) as int * 256)
  }

  /** Where row y starts in the packed data. */
  function RowOffset(data: seq<byte>, y: nat): nat {
    if y == 0 then 0
    else var o := RowOffset(data, y - 1); o + RowBytes(data, o)
  }

  function UnpackedImage(data: seq<byte>, w: nat, h: nat): (img: Image)
    ensures Sized(img, w, h)
  {
    seq(h, y requires 0 <= y < h => UnpackedRow(data, RowOffset(data, y), w))
  }

  /** One pixel of unrle: fetch the next mask byte when due, test its bit, and
      take a new pixel unless the bit is set. */
  method NextPixel(data: seq<byte>, ghost offset: nat, ghost x: nat,
                   lastPixel: Pixel, lastMask: byte, bit: nat, rleMaskOffset: nat, pixSrc: nat)
    returns (lastPixel': Pixel, lastMask': byte, bit': nat, rleMaskOffset': nat, pixSrc': nat)
    requires MaskAt(data, offset, x, lastMask, bit, rleMaskOffset)
    requires RowState(lastPixel, pixSrc) == Unpacked(data, offset, x)
    ensures MaskAt(data, offset, x + 1, lastMask', bit', rleMaskOffset')
    ensures RowState(lastPixel', pixSrc') == Unpacked(data, offset, x + 1)
  {
    lastPixel', lastMask', bit', rleMaskOffset', pixSrc' := lastPixel, lastMask, bit, rleMaskOffset, pixSrc;
    if bit' == 8 {
      bit' := 0;
      lastMask' := Rd(data, rleMaskOffset');
      rleMaskOffset' := rleMaskOffset' + 1;
    }
    assert x / 8 == rleMaskOffset' - 1 - offset - 2 && x % 8 == bit';
    if !TestBit(lastMask' as int, bit') {
      lastPixel' := PixelAtByte(data, pixSrc');
      pixSrc' := pixSrc' + 4;
    }
    bit' := bit' + 1;
  }

  /** `bitToCheck` is 1 << bit; at 8 the next mask byte is due. */
  ghost predicate MaskAt(data: seq<byte>, offset: nat, x: nat, lastMask: byte, bit: nat, rleMaskOffset: nat) {
    && bit <= 8 && 8 * (rleMaskOffset - offset - 2) == x + 8 - bit
    && (bit < 8 ==> offset + 2 < rleMaskOffset && lastMask == Rd(data, rleMaskOffset - 1))
  }

  /** One row of unrle: pixels go to the output from pixOffset on. */
  method UnrleRow(data: seq<byte>, offset: nat, width: nat, output: array<byte>, pixOffset: nat)
    requires pixOffset + 4 * width <= output.Length
    modifies output
    ensures output[..] == Put(old(output[..]), pixOffset, UnpackedRow(data, offset, width))
  {
    hide Unpacked, Put;
    ghost var before := output[..];
    var lastPixel, lastMask, bit := TRANSPARENT, 0 as byte, 8;
    var rleMaskOffset: nat, pixSrc: nat := offset + 2, offset + 34;
    ghost var row := UnpackedRow(data, offset, width);
    NoPixels(data, offset, before, pixOffset);
    for x := 0 to width
      invariant MaskAt(data, offset, x, lastMask, bit, rleMaskOffset)
      invariant RowState(lastPixel, pixSrc) == Unpacked(data, offset, x)
      invariant output[..] == Put(before, pixOffset, row[..x])
    {
      lastPixel, lastMask, bit, rleMaskOffset, pixSrc :=
        NextPixel(data, offset, x, lastPixel, lastMask, bit, rleMaskOffset, pixSrc);
      assert row[..x + 1] == row[..x] + [lastPixel];
      PutPixel(output, pixOffset + 4 * x, lastPixel, before, pixOffset, row[..x]);
    }
    assert row[..width] == row;
  }

  /** The image bytes with these pixels written from `at` on. */
  function Put(b: seq<byte>, at: nat, row: seq<Pixel>): (r: seq<byte>)
    requires at + 4 * |row| <= |b|
    ensures |r| == |b|
  {
    b[..at] + PixelBytes(row) + b[at + 4 * |row|..]
  }

  lemma NoPixels(data: seq<byte>, offset: nat, b: seq<byte>, at: nat)
    requires at <= |b|
    ensures Put(b, at, []) == b && Unpacked(data, offset, 0) == RowState(TRANSPARENT, offset + 34)
  {
  }

  method PutPixel(output: array<byte>, at: nat, p: Pixel, ghost before: seq<byte>, ghost start: nat, ghost row: seq<Pixel>)
    requires at + 4 <= output.Length == |before| && at == start + 4 * |row|
    requires output[..] == Put(before, start, row)
    modifies output
    ensures output[..] == Put(before, start, row + [p])
  {
    output[at], output[at + 1], output[at + 2], output[at + 3] := p.b0, p.b1, p.b2, p.b3;
    PixelBytesConcat(row, [p]);
    hide PixelBytes;
    PixelBytesOne(p);
  }

  lemma PixelBytesOne(p: Pixel)
    ensures PixelBytes([p]) == [p.b0, p.b1, p.b2, p.b3]
  {
  }

  method Unrle(data: seq<byte>, width: nat, height: nat, output: array<byte>) returns (offset: nat)
    requires output.Length == Start(width, height)
    modifies output
    ensures output[..] == Flat(UnpackedImage(data, width, height))
    ensures offset == RowOffset(data, height)
  {
    hide Start, UnpackedRow, PixelBytes, Flat, Put, RowOffset;
    offset := 0;
    ghost var img := UnpackedImage(data, width, height);
    EmptyFlat(width);
    for y := 0 to height
      invariant offset == RowOffset(data, y)
      invariant Start(width, y) <= output.Length && output[..Start(width, y)] == Flat(img[..y])
    {
      var rleSize := Rd(data, offset) as int + Rd(data, offset + 1) as int * 256;
      StartProduct(width, y);
      RowInside(width, y, height);
      NextStart(width, y);
      var pixOffset := y * width * 4;
      ghost var before := output[..];
      UnrleRow(data, offset, width, output, pixOffset);
      PutPrefix(before, pixOffset, img[y]);
      FlatSnoc(img, y);
      NextRowOffset(data, y);
      offset := offset + 34 + rleSize * 4;
    }
    assert img[..height] == img;
  }

  lemma PutPrefix(b: seq<byte>, at: nat, row: seq<Pixel>)
    requires at + 4 * |row| <= |b|
    ensures Put(b, at, row)[..at + 4 * |row|] == b[..at] + PixelBytes(row)
  {
    hide PixelBytes;
  }

  lemma EmptyFlat(w: nat)
    ensures Start(w, 0) == 0 && Flat([]) == [] && forall d :: RowOffset(d, 0) == 0
  {
  }

  lemma NextRowOffset(data: seq<byte>, y: nat)
    ensures RowOffset(data, y + 1) == RowOffset(data, y) + RowBytes(data, RowOffset(data, y))
  {
  }

  lemma FlatSnoc(img: Image, y: nat)
    requires y < |img|
    ensures Flat(img[..y + 1]) == Flat(img[..y]) + PixelBytes(img[y])
  {
    assert img[..y + 1][..y] == img[..y];
  }

  // ----- Packed rows unpack to the rendered pixels -----

  ghost predicate PackedAt(data: seq<byte>, offset: nat, pix: seq<Pixel>, mode: TileMode) {
    var b := PackRow(Encode(pix), mode);
    offset + |b| <= |data| && data[offset..offset + |b|] == b
  }

  lemma SliceSlice<T>(s: seq<T>, a: nat, b: nat, i: nat, j: nat)
    requires a <= b <= |s| && i <= j <= b - a
    ensures s[a..b][i..j] == s[a + i..a + j]
  {
    var p, q := s[a..b][i..j], s[a + i..a + j];
    forall k | 0 <= k < j - i
      ensures p[k] == q[k]
    {
      assert p[k] == s[a..b][i + k] == s[a + (i + k)];
    }
  }

  lemma MaskBytesBit(pix: seq<Pixel>, x: nat)
    requires x < |pix| <= 256
    ensures TestBit(MaskBytes(Masks(pix))[x / 8] as int, x % 8) == Dup(pix, x)
  {
    hide TestBit, FromBits;
    var i, k := x / 8, x % 8;
    var j := i % 8;
    var w := MaskWord(pix, i / 8);
    assert Masks(pix)[i / 8] == w;
    BitsRoundTrip(w[8 * j..8 * j + 8], k);
    assert 64 * (i / 8) + 8 * j + k == x;
  }

  predicate BitSet(v: nat, k: nat)
    requires k < 8
  {
    v / [1, 2, 4, 8, 16, 32, 64, 128][k] % 2 == 1
  }

  lemma BitIs(v: nat, k: nat)
    requires k < 8
    ensures TestBit(v, k) <==> BitSet(v, k)
  {
    hide Pow2;
    PowerIs(k);
  }

  lemma PowerIs(k: nat)
    requires k < 8
    ensures Pow2(k) == [1, 2, 4, 8, 16, 32, 64, 128][k]
  {
    assert Pow2(0) == 1 && Pow2(1) == 2 && Pow2(2) == 4 && Pow2(3) == 8;
    assert Pow2(4) == 16 && Pow2(5) == 32 && Pow2(6) == 64 && Pow2(7) == 128;
  }

  /** The wire format of a packed row: the number of pixels sent, low byte first; 32
      bytes in which bit x % 8 of byte x / 8 tells that pixel x repeats its left
      neighbour, transparent before the first; then the other pixels, four bytes each. */
  lemma PackedFormat(pix: seq<Pixel>, mode: TileMode, x: nat)
    requires x < |pix| <= 256
    ensures var b := PackRow(Encode(pix), mode);
      && |b| == 34 + 4 * (b[0] as int + 256 * b[1] as int)
      && (BitSet(b[2 + x / 8] as int, x % 8) <==> pix[x] == if x == 0 then Pixel(0, 0, 0, 0) else pix[x - 1])
  {
    var b := PackRow(Encode(pix), mode);
    PackedCount(pix, mode);
    hide BitSet, TestBit, PackRow, Encode;
    MaskInPlace(pix, mode, x / 8);
    MaskBytesBit(pix, x);
    BitIs(MaskBytes(Masks(pix))[x / 8] as int, x % 8);
  }

  lemma PackedCount(pix: seq<Pixel>, mode: TileMode)
    requires |pix| <= 256
    ensures var b := PackRow(Encode(pix), mode); |b| == 34 + 4 * (b[0] as int + 256 * b[1] as int)
  {
    hide MaskBytes, PixelBytes, Masks;
  }

  lemma MaskInPlace(pix: seq<Pixel>, mode: TileMode, i: nat)
    requires i < 32
    ensures PackRow(Encode(pix), mode)[2 + i] == MaskBytes(Masks(pix))[i]
  {
    hide MaskBytes, PixelBytes, Masks, U8;
  }

  /** The pixel after k others that were sent is in the 4 bytes after theirs. */
  lemma PackedPixels(pix: seq<Pixel>, mode: TileMode, x: nat, c: nat)
    requires x < |pix| <= 256 && !Dup(pix, x) && c < 4
    ensures var b := PackRow(Encode(pix), mode); var k := |Kept(pix, x)|;
      34 + 4 * k + c < |b| && b[34 + 4 * k + c] == ClientByte(pix[x], mode, c)
  {
    hide PixelBytes, MaskBytes, Masks, ClientByte, ToRgba;
    KeptPrefix(pix, x + 1, Coded(pix));
    var k := |Kept(pix, x)|;
    assert Kept(pix, x + 1)[k] == pix[x] && RleData(pix)[k] == pix[x];
    var row := RowToRgba(RleData(pix), mode);
    PixelByte(row, k, c);
    ToRgbaBytes(pix[x], mode, c);
    var b := PackRow(Encode(pix), mode);
    assert b[34 + (4 * k + c)] == PixelBytes(row)[4 * k + c];
  }

  /** The three parts of a packed row. */
  lemma PackedParts(data: seq<byte>, offset: nat, pix: seq<Pixel>, mode: TileMode)
    requires PackedAt(data, offset, pix, mode)
    ensures offset + 34 + 4 * |RleData(pix)| <= |data|
    ensures data[offset] == U8(|RleData(pix)|) && data[offset + 1] == U8(|RleData(pix)| / 256)
    ensures data[offset + 2..offset + 34] == MaskBytes(Masks(pix))
    ensures data[offset + 34..offset + 34 + 4 * |RleData(pix)|] == PixelBytes(RowToRgba(RleData(pix), mode))
  {
    hide MaskBytes, PixelBytes, RleData, Masks, U8;
    var b := PackRow(Encode(pix), mode);
    SliceSlice(data, offset, offset + |b|, 2, 34);
    SliceSlice(data, offset, offset + |b|, 34, |b|);
    assert b[2..34] == MaskBytes(Masks(pix));
    assert b[34..|b|] == PixelBytes(RowToRgba(RleData(pix), mode));
    assert data[offset] == b[0] && data[offset + 1] == b[1];
  }

  lemma PackedMaskBit(data: seq<byte>, offset: nat, pix: seq<Pixel>, mode: TileMode, x: nat)
    requires PackedAt(data, offset, pix, mode) && x < |pix| <= 256
    ensures TestBit(Rd(data, offset + 2 + x / 8) as int, x % 8) == Dup(pix, x)
  {
    PackedParts(data, offset, pix, mode);
    MaskBytesBit(pix, x);
    hide *;
    assert data[offset + 2 + x / 8] == data[offset + 2..offset + 34][x / 8];
  }

  lemma PackedPixel(data: seq<byte>, offset: nat, pix: seq<Pixel>, mode: TileMode, i: nat)
    requires PackedAt(data, offset, pix, mode) && i < |RleData(pix)|
    ensures PixelAtByte(data, offset + 34 + 4 * i) == ToRgba(RleData(pix)[i], mode)
  {
    hide MaskBytes, Masks, RleData, PackedAt, PixelBytes, PixelAtByte;
    PackedParts(data, offset, pix, mode);
    PixelOfRow(data, offset + 34, RowToRgba(RleData(pix), mode), i);
  }

  lemma PixelOfRow(data: seq<byte>, at: nat, row: seq<Pixel>, i: nat)
    requires at + 4 * |row| <= |data| && data[at..at + 4 * |row|] == PixelBytes(row) && i < |row|
    ensures PixelAtByte(data, at + 4 * i) == row[i]
  {
    hide PixelBytes;
    PixelBytesAt(row, i);
    PixelBytesOne(row[i]);
    SliceSlice(data, at, at + 4 * |row|, 4 * i, 4 * i + 4);
    var q := data[at + 4 * i..at + 4 * i + 4];
    assert q[0] == data[at + 4 * i] && q[1] == data[at + 4 * i + 1];
    assert q[2] == data[at + 4 * i + 2] && q[3] == data[at + 4 * i + 3];
  }

  lemma {:induction false} PackedPrefix(data: seq<byte>, offset: nat, pix: seq<Pixel>, mode: TileMode, x: nat)
    requires PackedAt(data, offset, pix, mode) && x <= |pix| <= 256
    ensures Unpacked(data, offset, x) == RowState(ToRgba(Prev(pix, x), mode), offset + 34 + 4 * |Kept(pix, x)|)
  {
    hide PackedAt, PixelAtByte, TestBit;
    if x > 0 {
      PackedPrefix(data, offset, pix, mode, x - 1);
      PackedMaskBit(data, offset, pix, mode, x - 1);
      if !Dup(pix, x - 1) {
        KeptPrefix(pix, x, Coded(pix));
        var i := |Kept(pix, x - 1)|;
        assert pix[x - 1] == Kept(pix, x)[i] == RleData(pix)[i];
        PackedPixel(data, offset, pix, mode, i);
      }
    }
  }

  lemma PackedRowDecodes(data: seq<byte>, offset: nat, pix: seq<Pixel>, mode: TileMode)
    requires PackedAt(data, offset, pix, mode) && |pix| <= 256
    ensures UnpackedRow(data, offset, |pix|) == RowToRgba(pix, mode)
    ensures RowBytes(data, offset) == |PackRow(Encode(pix), mode)|
  {
    PackedRowSize(data, offset, pix, mode);
    hide *;
    var r, s := UnpackedRow(data, offset, |pix|), RowToRgba(pix, mode);
    forall x | 0 <= x < |pix|
      ensures r[x] == s[x]
    {
      PixelUnpacks(data, offset, pix, mode, x);
    }
  }

  lemma PixelUnpacks(data: seq<byte>, offset: nat, pix: seq<Pixel>, mode: TileMode, x: nat)
    requires PackedAt(data, offset, pix, mode) && x < |pix| <= 256
    ensures UnpackedRow(data, offset, |pix|)[x] == RowToRgba(pix, mode)[x]
  {
    hide Unpacked, PackedAt;
    PackedPrefix(data, offset, pix, mode, x + 1);
  }

  lemma PackedRowSize(data: seq<byte>, offset: nat, pix: seq<Pixel>, mode: TileMode)
    requires PackedAt(data, offset, pix, mode) && |pix| <= 256
    ensures RowBytes(data, offset) == |PackRow(Encode(pix), mode)|
  {
    PackedParts(data, offset, pix, mode);
  }

  /** A whole keyframe: the packed rows of an image. */
  function PackImage(img: Image, mode: TileMode): seq<byte> {
    if img == [] then []
    else PackImage(img[..|img| - 1], mode) + PackRow(Encode(img[|img| - 1]), mode)
  }

  lemma EmptyPack(img: Image, mode: TileMode)
    ensures PackImage(img[..0], mode) == []
  {
  }

  lemma PackImageSnoc(img: Image, mode: TileMode, y: nat)
    requires y < |img|
    ensures PackImage(img[..y + 1], mode) == PackImage(img[..y], mode) + PackRow(Encode(img[y]), mode)
  {
    hide PackRow, Encode;
    assert img[..y + 1][..y] == img[..y];
  }

  lemma {:induction false} PackImagePrefix(img: Image, mode: TileMode, y: nat)
    requires y <= |img|
    ensures PackImage(img[..y], mode) <= PackImage(img, mode)
    decreases |img| - y
  {
    hide PackImage, PackRow, Encode;
    if y == |img| {
      assert img[..y] == img;
    } else {
      PackImagePrefix(img, mode, y + 1);
      PackImageSnoc(img, mode, y);
    }
  }

  lemma SliceOfPrefix(all: seq<byte>, a: seq<byte>, b: seq<byte>)
    requires a + b <= all
    ensures all[|a|..|a| + |b|] == b
  {
    assert all[..|a| + |b|] == a + b;
  }

  lemma PackImageRow(img: Image, mode: TileMode, y: nat)
    requires y < |img|
    ensures var o := |PackImage(img[..y], mode)|; var b := PackRow(Encode(img[y]), mode);
      && o + |b| <= |PackImage(img, mode)|
      && PackImage(img, mode)[o..o + |b|] == b
      && o + |b| == |PackImage(img[..y + 1], mode)|
  {
    hide PackImage, PackRow, Encode;
    PackImageSnoc(img, mode, y);
    PackImagePrefix(img, mode, y + 1);
    SliceOfPrefix(PackImage(img, mode), PackImage(img[..y], mode), PackRow(Encode(img[y]), mode));
  }

  lemma {:induction false} PackedOffsets(data: seq<byte>, img: Image, w: nat, mode: TileMode, y: nat)
    requires PackImage(img, mode) <= data && Sized(img, w, |img|) && w <= 256 && y <= |img|
    ensures RowOffset(data, y) == |PackImage(img[..y], mode)|
    ensures y < |img| ==> PackedAt(data, RowOffset(data, y), img[y], mode)
  {
    hide PackRow, Encode, PackImage, UnpackedRow, RowToRgba, RowBytes;
    if y == 0 {
      EmptyPack(img, mode);
    } else {
      PackedOffsets(data, img, w, mode, y - 1);
      PackedRowDecodes(data, RowOffset(data, y - 1), img[y - 1], mode);
      PackImageRow(img, mode, y - 1);
    }
    if y < |img| {
      PackImageRow(img, mode, y);
      var b := PackRow(Encode(img[y]), mode);
      var o := |PackImage(img[..y], mode)|;
      assert data[o..o + |b|] == PackImage(img, mode)[o..o + |b|];
    }
  }

  /** A keyframe followed by anything unpacks to the image in RGBA order, and the
      browser finds where the keyframe ends. */
  lemma KeyframeDecodes(data: seq<byte>, img: Image, w: nat, mode: TileMode)
    requires PackImage(img, mode) <= data && Sized(img, w, |img|) && w <= 256
    ensures UnpackedImage(data, w, |img|) == ImageToRgba(img, mode)
    ensures RowOffset(data, |img|) == |PackImage(img, mode)|
  {
    hide UnpackedRow, RowToRgba, PackedAt, PackImage, RowOffset;
    var u, r := UnpackedImage(data, w, |img|), ImageToRgba(img, mode);
    forall y | 0 <= y < |img|
      ensures u[y] == r[y]
    {
      PackedOffsets(data, img, w, mode, y);
      PackedRowDecodes(data, RowOffset(data, y), img[y], mode);
    }
    PackedOffsets(data, img, w, mode, |img|);
    assert img[..|img|] == img;
  }

  /** The kit's loop over the coded rows produces exactly that keyframe. */
  method PackTile(ghost img: Image, tile: DeltaData, mode: TileMode) returns (output: seq<byte>)
    requires Holds(tile, img) && tile.width <= 256
    ensures output == PackImage(img, mode)
  {
    hide PackRow, Encode;
    output := [];
    for y := 0 to tile.height
      invariant output == PackImage(img[..y], mode)
    {
      PackedRowFits(img[y], mode);
      var packed := PackForNetwork(tile.rows[y], mode);
      output := output + packed;
      assert img[..y + 1][..y] == img[..y];
    }
    assert img[..tile.height] == img;
  }
}
