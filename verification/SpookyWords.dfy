/** How SpookyHash reads a message: bytes as little-endian words, words as blocks.
    No byte is lost on the way. */
module SpookyWords {
  import opened Pixels
  import opened SpookyMix

  // ----- A byte as a word of eight bits -----

  function Bits8(b7: bool, b6: bool, b5: bool, b4: bool, b3: bool, b2: bool, b1: bool, b0: bool): bv8 {
    (if b7 then 0x80 else 0) | (if b6 then 0x40 else 0) | (if b5 then 0x20 else 0) | (if b4 then 0x10 else 0)
    | (if b3 then 0x08 else 0) | (if b2 then 0x04 else 0) | (if b1 then 0x02 else 0) | (if b0 then 0x01 else 0)
  }

  predicate Odd(n: int) {
    n % 2 == 1
  }

  /** The binary digits of a byte. */
  function Byte8(b: byte): bv8 {
    var n0 := b as int;
    var n1 := n0 / 2; var n2 := n1 / 2; var n3 := n2 / 2; var n4 := n3 / 2;
    var n5 := n4 / 2; var n6 := n5 / 2; var n7 := n6 / 2;
    Bits8(Odd(n7), Odd(n6), Odd(n5), Odd(n4), Odd(n3), Odd(n2), Odd(n1), Odd(n0))
  }

  lemma BitsInjective(a7: bool, a6: bool, a5: bool, a4: bool, a3: bool, a2: bool, a1: bool, a0: bool,
                      b7: bool, b6: bool, b5: bool, b4: bool, b3: bool, b2: bool, b1: bool, b0: bool)
    requires Bits8(a7, a6, a5, a4, a3, a2, a1, a0) == Bits8(b7, b6, b5, b4, b3, b2, b1, b0)
    ensures a7 == b7 && a6 == b6 && a5 == b5 && a4 == b4 && a3 == b3 && a2 == b2 && a1 == b1 && a0 == b0
  {
  }

  lemma SameHalf(n: int, m: int)
    requires n / 2 == m / 2 && Odd(n) == Odd(m)
    ensures n == m
  {
  }

  lemma Byte8Injective(a: byte, b: byte)
    requires Byte8(a) == Byte8(b)
    ensures a == b
  {
    hide Odd, Bits8;
    var n0 := a as int;
    var n1 := n0 / 2; var n2 := n1 / 2; var n3 := n2 / 2; var n4 := n3 / 2;
    var n5 := n4 / 2; var n6 := n5 / 2; var n7 := n6 / 2;
    var m0 := b as int;
    var m1 := m0 / 2; var m2 := m1 / 2; var m3 := m2 / 2; var m4 := m3 / 2;
    var m5 := m4 / 2; var m6 := m5 / 2; var m7 := m6 / 2;
    BitsInjective(Odd(n7), Odd(n6), Odd(n5), Odd(n4), Odd(n3), Odd(n2), Odd(n1), Odd(n0),
                  Odd(m7), Odd(m6), Odd(m5), Odd(m4), Odd(m3), Odd(m2), Odd(m1), Odd(m0));
    assert n7 / 2 == 0 && m7 / 2 == 0;
    SameHalf(n7, m7);
    SameHalf(n6, m6);
    SameHalf(n5, m5);
    SameHalf(n4, m4);
    SameHalf(n3, m3);
    SameHalf(n2, m2);
    SameHalf(n1, m1);
    SameHalf(n0, m0);
  }

  lemma ByteExample()
    ensures Byte8(0x83) == 0x83
  {
    assert Odd(1) && !Odd(2) && !Odd(4) && !Odd(8) && !Odd(16) && !Odd(32) && Odd(65) && Odd(131);
    hide Odd;
  }

  // ----- Words -----

  /** The lowest byte first. */
  function Join8(x0: bv8, x1: bv8, x2: bv8, x3: bv8, x4: bv8, x5: bv8, x6: bv8, x7: bv8): bv64 {
    (x0 as bv64) | (x1 as bv64 << 8) | (x2 as bv64 << 16) | (x3 as bv64 << 24)
    | (x4 as bv64 << 32) | (x5 as bv64 << 40) | (x6 as bv64 << 48) | (x7 as bv64 << 56)
  }

  lemma JoinInjective(x0: bv8, x1: bv8, x2: bv8, x3: bv8, x4: bv8, x5: bv8, x6: bv8, x7: bv8,
                      y0: bv8, y1: bv8, y2: bv8, y3: bv8, y4: bv8, y5: bv8, y6: bv8, y7: bv8)
    requires Join8(x0, x1, x2, x3, x4, x5, x6, x7) == Join8(y0, y1, y2, y3, y4, y5, y6, y7)
    ensures x0 == y0 && x1 == y1 && x2 == y2 && x3 == y3 && x4 == y4 && x5 == y5 && x6 == y6 && x7 == y7
  {
  }

  lemma JoinExample()
    ensures Join8(1, 2, 3, 4, 5, 6, 7, 8) == 0x0807_0605_0403_0201
  {
  }

  /** Byte i of a short sequence, 0 behind its end. */
  function ByteAt(b: seq<byte>, i: nat): bv8 {
    if i < |b| then Byte8(b[i]) else 0
  }

  /** The little-endian value of up to eight bytes. */
  function Word(b: seq<byte>): bv64 {
    Join8(ByteAt(b, 0), ByteAt(b, 1), ByteAt(b, 2), ByteAt(b, 3), ByteAt(b, 4), ByteAt(b, 5), ByteAt(b, 6), ByteAt(b, 7))
  }

  /** A word determines its bytes. */
  lemma WordInjective(a: seq<byte>, b: seq<byte>)
    requires |a| == |b| <= 8 && Word(a) == Word(b)
    ensures a == b
  {
    hide Join8, ByteAt;
    JoinInjective(ByteAt(a, 0), ByteAt(a, 1), ByteAt(a, 2), ByteAt(a, 3), ByteAt(a, 4), ByteAt(a, 5), ByteAt(a, 6), ByteAt(a, 7),
                  ByteAt(b, 0), ByteAt(b, 1), ByteAt(b, 2), ByteAt(b, 3), ByteAt(b, 4), ByteAt(b, 5), ByteAt(b, 6), ByteAt(b, 7));
    forall i | 0 <= i < |a|
      ensures a[i] == b[i]
    {
      assert i == 0 || i == 1 || i == 2 || i == 3 || i == 4 || i == 5 || i == 6 || i == 7;
      SameByteAt(a, b, i);
    }
  }

  lemma SameByteAt(a: seq<byte>, b: seq<byte>, i: nat)
    requires i < |a| == |b| && ByteAt(a, i) == ByteAt(b, i)
    ensures a[i] == b[i]
  {
    hide Byte8;
    Byte8Injective(a[i], b[i]);
  }

  // ----- Blocks -----

  function Words(block: seq<byte>): Vars
    requires |block| == 96
  {
    hide *;
    Vars(Word(block[0..8]), Word(block[8..16]), Word(block[16..24]), Word(block[24..32]),
         Word(block[32..40]), Word(block[40..48]), Word(block[48..56]), Word(block[56..64]),
         Word(block[64..72]), Word(block[72..80]), Word(block[80..88]), Word(block[88..96]))
  }

  /** So do the words of a block. */
  lemma WordsInjective(a: seq<byte>, b: seq<byte>)
    requires |a| == |b| == 96 && Words(a) == Words(b)
    ensures a == b
  {
    hide Word;
    SameSlice(a, b, 0);
    SameSlice(a, b, 8);
    SameSlice(a, b, 16);
    SameSlice(a, b, 24);
    SameSlice(a, b, 32);
    SameSlice(a, b, 40);
    SameSlice(a, b, 48);
    SameSlice(a, b, 56);
    SameSlice(a, b, 64);
    SameSlice(a, b, 72);
    SameSlice(a, b, 80);
    SameSlice(a, b, 88);
  }

  lemma SameSlice(a: seq<byte>, b: seq<byte>, i: nat)
    requires |a| == |b| == 96 && i + 8 <= 96 && Word(a[i..i + 8]) == Word(b[i..i + 8])
    ensures forall k :: i <= k < i + 8 ==> a[k] == b[k]
  {
    hide Word;
    var p, q := a[i..i + 8], b[i..i + 8];
    WordInjective(p, q);
    forall k | i <= k < i + 8
      ensures a[k] == b[k]
    {
      assert p[k - i] == a[k] && q[k - i] == b[k];
    }
  }

  /** The last partial block, padded with zeros, its size in the last byte. */
  function Padded(rest: seq<byte>): (b: seq<byte>)
    requires |rest| < 96
    ensures |b| == 96
  {
    rest + seq(95 - |rest|, _ => 0 as byte) + [|rest| as byte]
  }

  lemma PaddedInjective(a: seq<byte>, b: seq<byte>)
    requires |a| < 96 && |b| < 96 && Padded(a) == Padded(b)
    ensures a == b
  {
    var p, q := Padded(a), Padded(b);
    assert p[95] as int == |a| && q[95] as int == |b|;
    assert p[..|a|] == a && q[..|b|] == b;
  }

  /** Everything that is mixed in for a message: its whole blocks and the padded rest. */
  function Blocks(msg: seq<byte>): (blocks: seq<Vars>)
    ensures |blocks| == |msg| / 96 + 1
  {
    seq(|msg| / 96, i requires 0 <= i < |msg| / 96 => Words(msg[96 * i..96 * i + 96]))
    + [Words(Padded(msg[96 * (|msg| / 96)..]))]
  }

  /** The blocks of a message determine it, byte by byte. */
  lemma BlocksInjective(a: seq<byte>, b: seq<byte>)
    requires Blocks(a) == Blocks(b)
    ensures a == b
  {
    hide Words, Padded;
    var p, q := Blocks(a), Blocks(b);
    var n := |a| / 96;
    assert |p| == n + 1 && |q| == |b| / 96 + 1;
    var ra, rb := a[96 * n..], b[96 * n..];
    assert p[n] == Words(Padded(ra)) && q[n] == Words(Padded(rb));
    WordsInjective(Padded(ra), Padded(rb));
    PaddedInjective(ra, rb);
    forall i | 0 <= i < n
      ensures a[96 * i..96 * i + 96] == b[96 * i..96 * i + 96]
    {
      assert p[i] == Words(a[96 * i..96 * i + 96]) && q[i] == Words(b[96 * i..96 * i + 96]);
      WordsInjective(a[96 * i..96 * i + 96], b[96 * i..96 * i + 96]);
    }
    SameBlocks(a, b, n);
  }

  lemma SameBlocks(a: seq<byte>, b: seq<byte>, n: nat)
    requires 96 * n <= |a| && 96 * n <= |b| && a[96 * n..] == b[96 * n..]
    requires forall i :: 0 <= i < n ==> a[96 * i..96 * i + 96] == b[96 * i..96 * i + 96]
    ensures a == b
  {
    assert |a| == |b|;
    forall k | 0 <= k < |a|
      ensures a[k] == b[k]
    {
      if k < 96 * n {
        var i := k / 96;
        assert a[96 * i..96 * i + 96][k % 96] == a[k] && b[96 * i..96 * i + 96][k % 96] == b[k];
      } else {
        assert a[96 * n..][k - 96 * n] == a[k] && b[96 * n..][k - 96 * n] == b[k];
      }
    }
  }
}
