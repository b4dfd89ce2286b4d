/** The flat byte form of an image: four bytes a pixel, row after row. */
module FlatImage {
  import opened Pixels
  import opened TileDelta

  function Flat(img: Image): (b: seq<byte>) {
    if img == [] then [] else Flat(img[..|img| - 1]) + PixelBytes(img[|img| - 1])
  }

  /** Where row y starts. */
  function Start(w: nat, y: nat): nat {
    y * (4 * w)
  }

  lemma StartProduct(w: nat, y: nat)
    ensures Start(w, y) == y * w * 4
  {
  }

  lemma NextStart(w: nat, y: nat)
    ensures Start(w, y + 1) == Start(w, y) + 4 * w
  {
  }

  lemma {:induction false} StartMonotone(w: nat, a: nat, b: nat)
    requires a <= b
    ensures Start(w, a) <= Start(w, b)
    ensures a < b ==> Start(w, a) + 4 * w <= Start(w, b)
    decreases b - a
  {
    hide Start;
    if a < b {
      StartMonotone(w, a, b - 1);
      NextStart(w, b - 1);
    }
  }

  /** Row y of n rows lies within the image. */
  lemma RowInside(w: nat, y: nat, n: nat)
    requires y < n
    ensures Start(w, y) + 4 * w <= Start(w, n)
  {
    StartMonotone(w, y, n);
  }

  /** The bytes of row y. */
  function RowAt(b: seq<byte>, w: nat, y: nat): seq<byte>
    requires Start(w, y) + 4 * w <= |b|
  {
    b[Start(w, y)..Start(w, y) + 4 * w]
  }

  lemma {:induction false} FlatSize(img: Image, w: nat)
    requires Sized(img, w, |img|)
    ensures |Flat(img)| == Start(w, |img|)
  {
    hide PixelBytes;
    if img != [] {
      FlatSize(img[..|img| - 1], w);
      NextStart(w, |img| - 1);
    }
  }

  lemma {:induction false} FlatRow(img: Image, w: nat, y: nat)
    requires Sized(img, w, |img|) && y < |img|
    ensures |Flat(img)| == Start(w, |img|) && Start(w, y) + 4 * w <= |Flat(img)|
    ensures RowAt(Flat(img), w, y) == PixelBytes(img[y])
  {
    hide PixelBytes, Start;
    var n := |img| - 1;
    FlatSize(img, w);
    FlatSize(img[..n], w);
    RowInside(w, y, |img|);
    NextStart(w, n);
    if y < n {
      FlatRow(img[..n], w, y);
      assert RowAt(Flat(img), w, y) == RowAt(Flat(img[..n]), w, y);
    }
  }

  /** A byte sequence is the flat form of an image if it is so row by row. */
  lemma {:induction false} FlatByRows(img: Image, w: nat, b: seq<byte>)
    requires Sized(img, w, |img|) && |b| == Start(w, |img|)
    requires forall y :: 0 <= y < |img| ==>
      Start(w, y) + 4 * w <= |b| && RowAt(b, w, y) == PixelBytes(img[y])
    ensures b == Flat(img)
  {
    hide PixelBytes, Start;
    if img == [] {
      StartZero(w);
    } else {
      var n := |img| - 1;
      NextStart(w, n);
      var c := b[..Start(w, n)];
      forall y | 0 <= y < n
        ensures Start(w, y) + 4 * w <= |c| && RowAt(c, w, y) == PixelBytes(img[..n][y])
      {
        RowInside(w, y, n);
        assert RowAt(c, w, y) == RowAt(b, w, y);
      }
      FlatByRows(img[..n], w, c);
      assert b == c + RowAt(b, w, n);
    }
  }

  lemma StartZero(w: nat)
    ensures Start(w, 0) == 0
  {
  }

  lemma PixelPlace(w: nat, x: nat, y: nat, c: nat)
    ensures 4 * (y * w + x) + c == Start(w, y) + (4 * x + c)
  {
  }

  /** Channel c of pixel (x, y) is byte 4 * (y * w + x) + c. */
  lemma FlatByte(img: Image, w: nat, x: nat, y: nat, c: nat)
    requires Sized(img, w, |img|) && y < |img| && x < w && c < 4
    ensures 4 * (y * w + x) + c < |Flat(img)| && Flat(img)[4 * (y * w + x) + c] == img[y][x].Channel(c)
  {
    hide Start, Flat, PixelBytes;
    PixelPlace(w, x, y, c);
    FlatRow(img, w, y);
    PixelByte(img[y], x, c);
    assert RowAt(Flat(img), w, y)[4 * x + c] == Flat(img)[Start(w, y) + (4 * x + c)];
  }
}
