/** Pixels, channel order and the byte form of pixel rows.

    A `uint32_t` pixel is modelled by its four bytes in memory order on a
    little-endian machine; two pixels are equal exactly when the words are.
 */
module Pixels {
  newtype byte = x: int | 0 <= x < 256

  /** Conversion of a non-negative integer to `uint8_t`: the value wraps. */
  function U8(x: nat): byte {
    (x % 256) as byte
  }

  datatype Pixel = Pixel(b0: byte, b1: byte, b2: byte, b3: byte)
  {
    function Channel(c: nat): byte
      requires c < 4
    {
      if c == 0 then b0 else if c == 1 then b1 else if c == 2 then b2 else b3
    }
  }

  const TRANSPARENT := Pixel(0, 0, 0, 0)

  datatype TileMode = Rgba | Bgra

  /** The pixel as the client sees it: RGBA whatever the rendering mode. */
  function ToRgba(p: Pixel, mode: TileMode): Pixel {
    match mode
    case Rgba => p
    case Bgra => Pixel(p.b2, p.b1, p.b0, p.b3)
  }

  function RowToRgba(row: seq<Pixel>, mode: TileMode): (r: seq<Pixel>)
    ensures |r| == |row|
  {
    seq(|row|, i requires 0 <= i < |row| => ToRgba(row[i], mode))
  }

  function ImageToRgba(img: seq<seq<Pixel>>, mode: TileMode): seq<seq<Pixel>> {
    seq(|img|, y requires 0 <= y < |img| => RowToRgba(img[y], mode))
  }

  /** The bytes of a row of pixels, four per pixel. */
  function PixelBytes(row: seq<Pixel>): (b: seq<byte>)
    ensures |b| == 4 * |row|
  {
    seq(4 * |row|, i requires 0 <= i < 4 * |row| => row[i / 4].Channel(i % 4))
  }

  lemma PixelBytesConcat(a: seq<Pixel>, b: seq<Pixel>)
    ensures PixelBytes(a + b) == PixelBytes(a) + PixelBytes(b)
  {
    var l, r := PixelBytes(a + b), PixelBytes(a) + PixelBytes(b);
    forall i | 0 <= i < |l|
      ensures l[i] == r[i]
    {
      if i >= 4 * |a| {
        assert (i - 4 * |a|) / 4 == i / 4 - |a|;
        assert (i - 4 * |a|) % 4 == i % 4;
      }
    }
  }

  lemma PixelBytesAt(row: seq<Pixel>, i: nat)
    requires i < |row|
    ensures PixelBytes(row)[4 * i..4 * i + 4] == PixelBytes([row[i]])
  {
  }

  lemma PixelBytesSlice(row: seq<Pixel>, i: nat, j: nat)
    requires i <= j <= |row|
    ensures PixelBytes(row)[4 * i..4 * j] == PixelBytes(row[i..j])
  {
    var l, r := PixelBytes(row)[4 * i..4 * j], PixelBytes(row[i..j]);
    forall k | 0 <= k < |l|
      ensures l[k] == r[k]
    {
      assert (4 * i + k) / 4 == i + k / 4;
      assert (4 * i + k) % 4 == k % 4;
    }
  }

  /** Channel swapping loses nothing: the bytes determine the pixels. */
  lemma RowToRgbaInjective(a: seq<Pixel>, b: seq<Pixel>, mode: TileMode)
    requires |a| == |b|
    requires RowToRgba(a, mode) == RowToRgba(b, mode)
    ensures a == b
  {
    forall i | 0 <= i < |a|
      ensures a[i] == b[i]
    {
      assert RowToRgba(a, mode)[i] == RowToRgba(b, mode)[i];
    }
  }

  /** The byte that the client must see at place c of a pixel: in memory order for an
      RGBA kit, red and blue exchanged for a BGRA one. */
  function ClientByte(p: Pixel, mode: TileMode, c: nat): byte {
    if c == 0 then (if mode.Rgba? then p.b0 else p.b2)
    else if c == 1 then p.b1
    else if c == 2 then (if mode.Rgba? then p.b2 else p.b0)
    else p.b3
  }

  lemma ToRgbaBytes(p: Pixel, mode: TileMode, c: nat)
    requires c < 4
    ensures ToRgba(p, mode).Channel(c) == ClientByte(p, mode, c)
  {
  }

  lemma PixelByte(row: seq<Pixel>, x: nat, c: nat)
    requires x < |row| && c < 4
    ensures PixelBytes(row)[4 * x + c] == row[x].Channel(c)
  {
    assert (4 * x + c) / 4 == x && (4 * x + c) % 4 == c;
  }
}
