/** The mixing functions of SpookyHash V2 on 64-bit words.

    Each function is a fixed sequence of lines, and each line does the same to the
    variables in turn. A line here works on the first ones and then moves all of
    them up by one place, so that the next line finds its own in front. Every line
    can be undone, so each function is a permutation of the state.
 */
module SpookyMix {
  /** The twelve variables h0 to h11, or the four of the short hash. */
  datatype Vars = Vars(h0: bv64, h1: bv64, h2: bv64, h3: bv64, h4: bv64, h5: bv64,
                       h6: bv64, h7: bv64, h8: bv64, h9: bv64, h10: bv64, h11: bv64)

  datatype Short4 = Short4(h0: bv64, h1: bv64, h2: bv64, h3: bv64)

  const SC_CONST: bv64 := 0xdead_beef_dead_beef

  // ----- Word operations and their inverses -----

  function Add(a: bv64, b: bv64): bv64 {
    a + b
  }

  function Sub(a: bv64, b: bv64): bv64 {
    a - b
  }

  function Xor(a: bv64, b: bv64): bv64 {
    a ^ b
  }

  /** Left rotation; the lemmas below give the shifts it stands for. */
  function Rot64(x: bv64, k: nat): bv64
    requires k < 64
  {
    x.RotateLeft(k)
  }

  function RotBack(x: bv64, k: nat): bv64
    requires k < 64
  {
    x.RotateRight(k)
  }

  lemma XorTwice(a: bv64, b: bv64)
    ensures Xor(Xor(a, b), b) == a
  {
    assert Xor(Xor(a, b), b) == Xor(a ^ b, b);
    assert Xor(a ^ b, b) == (a ^ b) ^ b;
  }

  lemma AddSub(a: bv64, b: bv64)
    ensures Sub(Add(a, b), b) == a
  {
    assert Sub(Add(a, b), b) == Sub(a + b, b);
    assert Sub(a + b, b) == (a + b) - b;
  }

  // Every rotation can be undone; the amounts are literals for the solver.

  lemma Back0(x: bv64) ensures RotBack(Rot64(x, 0), 0) == x { assert RotBack(x.RotateLeft(0), 0) == x; }
  lemma Back1(x: bv64) ensures RotBack(Rot64(x, 1), 1) == x { assert RotBack(x.RotateLeft(1), 1) == x; }
  lemma Back2(x: bv64) ensures RotBack(Rot64(x, 2), 2) == x { assert RotBack(x.RotateLeft(2), 2) == x; }
  lemma Back3(x: bv64) ensures RotBack(Rot64(x, 3), 3) == x { assert RotBack(x.RotateLeft(3), 3) == x; }
  lemma Back4(x: bv64) ensures RotBack(Rot64(x, 4), 4) == x { assert RotBack(x.RotateLeft(4), 4) == x; }
  lemma Back5(x: bv64) ensures RotBack(Rot64(x, 5), 5) == x { assert RotBack(x.RotateLeft(5), 5) == x; }
  lemma Back6(x: bv64) ensures RotBack(Rot64(x, 6), 6) == x { assert RotBack(x.RotateLeft(6), 6) == x; }
  lemma Back7(x: bv64) ensures RotBack(Rot64(x, 7), 7) == x { assert RotBack(x.RotateLeft(7), 7) == x; }
  lemma Back8(x: bv64) ensures RotBack(Rot64(x, 8), 8) == x { assert RotBack(x.RotateLeft(8), 8) == x; }
  lemma Back9(x: bv64) ensures RotBack(Rot64(x, 9), 9) == x { assert RotBack(x.RotateLeft(9), 9) == x; }
  lemma Back10(x: bv64) ensures RotBack(Rot64(x, 10), 10) == x { assert RotBack(x.RotateLeft(10), 10) == x; }
  lemma Back11(x: bv64) ensures RotBack(Rot64(x, 11), 11) == x { assert RotBack(x.RotateLeft(11), 11) == x; }
  lemma Back12(x: bv64) ensures RotBack(Rot64(x, 12), 12) == x { assert RotBack(x.RotateLeft(12), 12) == x; }
  lemma Back13(x: bv64) ensures RotBack(Rot64(x, 13), 13) == x { assert RotBack(x.RotateLeft(13), 13) == x; }
  lemma Back14(x: bv64) ensures RotBack(Rot64(x, 14), 14) == x { assert RotBack(x.RotateLeft(14), 14) == x; }
  lemma Back15(x: bv64) ensures RotBack(Rot64(x, 15), 15) == x { assert RotBack(x.RotateLeft(15), 15) == x; }
  lemma Back16(x: bv64) ensures RotBack(Rot64(x, 16), 16) == x { assert RotBack(x.RotateLeft(16), 16) == x; }
  lemma Back17(x: bv64) ensures RotBack(Rot64(x, 17), 17) == x { assert RotBack(x.RotateLeft(17), 17) == x; }
  lemma Back18(x: bv64) ensures RotBack(Rot64(x, 18), 18) == x { assert RotBack(x.RotateLeft(18), 18) == x; }
  lemma Back19(x: bv64) ensures RotBack(Rot64(x, 19), 19) == x { assert RotBack(x.RotateLeft(19), 19) == x; }
  lemma Back20(x: bv64) ensures RotBack(Rot64(x, 20), 20) == x { assert RotBack(x.RotateLeft(20), 20) == x; }
  lemma Back21(x: bv64) ensures RotBack(Rot64(x, 21), 21) == x { assert RotBack(x.RotateLeft(21), 21) == x; }
  lemma Back22(x: bv64) ensures RotBack(Rot64(x, 22), 22) == x { assert RotBack(x.RotateLeft(22), 22) == x; }
  lemma Back23(x: bv64) ensures RotBack(Rot64(x, 23), 23) == x { assert RotBack(x.RotateLeft(23), 23) == x; }
  lemma Back24(x: bv64) ensures RotBack(Rot64(x, 24), 24) == x { assert RotBack(x.RotateLeft(24), 24) == x; }
  lemma Back25(x: bv64) ensures RotBack(Rot64(x, 25), 25) == x { assert RotBack(x.RotateLeft(25), 25) == x; }
  lemma Back26(x: bv64) ensures RotBack(Rot64(x, 26), 26) == x { assert RotBack(x.RotateLeft(26), 26) == x; }
  lemma Back27(x: bv64) ensures RotBack(Rot64(x, 27), 27) == x { assert RotBack(x.RotateLeft(27), 27) == x; }
  lemma Back28(x: bv64) ensures RotBack(Rot64(x, 28), 28) == x { assert RotBack(x.RotateLeft(28), 28) == x; }
  lemma Back29(x: bv64) ensures RotBack(Rot64(x, 29), 29) == x { assert RotBack(x.RotateLeft(29), 29) == x; }
  lemma Back30(x: bv64) ensures RotBack(Rot64(x, 30), 30) == x { assert RotBack(x.RotateLeft(30), 30) == x; }
  lemma Back31(x: bv64) ensures RotBack(Rot64(x, 31), 31) == x { assert RotBack(x.RotateLeft(31), 31) == x; }
  lemma Back32(x: bv64) ensures RotBack(Rot64(x, 32), 32) == x { assert RotBack(x.RotateLeft(32), 32) == x; }
  lemma Back33(x: bv64) ensures RotBack(Rot64(x, 33), 33) == x { assert RotBack(x.RotateLeft(33), 33) == x; }
  lemma Back34(x: bv64) ensures RotBack(Rot64(x, 34), 34) == x { assert RotBack(x.RotateLeft(34), 34) == x; }
  lemma Back35(x: bv64) ensures RotBack(Rot64(x, 35), 35) == x { assert RotBack(x.RotateLeft(35), 35) == x; }
  lemma Back36(x: bv64) ensures RotBack(Rot64(x, 36), 36) == x { assert RotBack(x.RotateLeft(36), 36) == x; }
  lemma Back37(x: bv64) ensures RotBack(Rot64(x, 37), 37) == x { assert RotBack(x.RotateLeft(37), 37) == x; }
  lemma Back38(x: bv64) ensures RotBack(Rot64(x, 38), 38) == x { assert RotBack(x.RotateLeft(38), 38) == x; }
  lemma Back39(x: bv64) ensures RotBack(Rot64(x, 39), 39) == x { assert RotBack(x.RotateLeft(39), 39) == x; }
  lemma Back40(x: bv64) ensures RotBack(Rot64(x, 40), 40) == x { assert RotBack(x.RotateLeft(40), 40) == x; }
  lemma Back41(x: bv64) ensures RotBack(Rot64(x, 41), 41) == x { assert RotBack(x.RotateLeft(41), 41) == x; }
  lemma Back42(x: bv64) ensures RotBack(Rot64(x, 42), 42) == x { assert RotBack(x.RotateLeft(42), 42) == x; }
  lemma Back43(x: bv64) ensures RotBack(Rot64(x, 43), 43) == x { assert RotBack(x.RotateLeft(43), 43) == x; }
  lemma Back44(x: bv64) ensures RotBack(Rot64(x, 44), 44) == x { assert RotBack(x.RotateLeft(44), 44) == x; }
  lemma Back45(x: bv64) ensures RotBack(Rot64(x, 45), 45) == x { assert RotBack(x.RotateLeft(45), 45) == x; }
  lemma Back46(x: bv64) ensures RotBack(Rot64(x, 46), 46) == x { assert RotBack(x.RotateLeft(46), 46) == x; }
  lemma Back47(x: bv64) ensures RotBack(Rot64(x, 47), 47) == x { assert RotBack(x.RotateLeft(47), 47) == x; }
  lemma Back48(x: bv64) ensures RotBack(Rot64(x, 48), 48) == x { assert RotBack(x.RotateLeft(48), 48) == x; }
  lemma Back49(x: bv64) ensures RotBack(Rot64(x, 49), 49) == x { assert RotBack(x.RotateLeft(49), 49) == x; }
  lemma Back50(x: bv64) ensures RotBack(Rot64(x, 50), 50) == x { assert RotBack(x.RotateLeft(50), 50) == x; }
  lemma Back51(x: bv64) ensures RotBack(Rot64(x, 51), 51) == x { assert RotBack(x.RotateLeft(51), 51) == x; }
  lemma Back52(x: bv64) ensures RotBack(Rot64(x, 52), 52) == x { assert RotBack(x.RotateLeft(52), 52) == x; }
  lemma Back53(x: bv64) ensures RotBack(Rot64(x, 53), 53) == x { assert RotBack(x.RotateLeft(53), 53) == x; }
  lemma Back54(x: bv64) ensures RotBack(Rot64(x, 54), 54) == x { assert RotBack(x.RotateLeft(54), 54) == x; }
  lemma Back55(x: bv64) ensures RotBack(Rot64(x, 55), 55) == x { assert RotBack(x.RotateLeft(55), 55) == x; }
  lemma Back56(x: bv64) ensures RotBack(Rot64(x, 56), 56) == x { assert RotBack(x.RotateLeft(56), 56) == x; }
  lemma Back57(x: bv64) ensures RotBack(Rot64(x, 57), 57) == x { assert RotBack(x.RotateLeft(57), 57) == x; }
  lemma Back58(x: bv64) ensures RotBack(Rot64(x, 58), 58) == x { assert RotBack(x.RotateLeft(58), 58) == x; }
  lemma Back59(x: bv64) ensures RotBack(Rot64(x, 59), 59) == x { assert RotBack(x.RotateLeft(59), 59) == x; }
  lemma Back60(x: bv64) ensures RotBack(Rot64(x, 60), 60) == x { assert RotBack(x.RotateLeft(60), 60) == x; }
  lemma Back61(x: bv64) ensures RotBack(Rot64(x, 61), 61) == x { assert RotBack(x.RotateLeft(61), 61) == x; }
  lemma Back62(x: bv64) ensures RotBack(Rot64(x, 62), 62) == x { assert RotBack(x.RotateLeft(62), 62) == x; }
  lemma Back63(x: bv64) ensures RotBack(Rot64(x, 63), 63) == x { assert RotBack(x.RotateLeft(63), 63) == x; }

  lemma RotateBackFrom0(x: bv64, k: nat)
    requires k < 16
    ensures RotBack(Rot64(x, k), k) == x
  {
    hide *;
    Back0(x); Back1(x); Back2(x); Back3(x);
    Back4(x); Back5(x); Back6(x); Back7(x);
    Back8(x); Back9(x); Back10(x); Back11(x);
    Back12(x); Back13(x); Back14(x); Back15(x);
  }

  lemma RotateBackFrom16(x: bv64, k: nat)
    requires 16 <= k < 32
    ensures RotBack(Rot64(x, k), k) == x
  {
    hide *;
    Back16(x); Back17(x); Back18(x); Back19(x);
    Back20(x); Back21(x); Back22(x); Back23(x);
    Back24(x); Back25(x); Back26(x); Back27(x);
    Back28(x); Back29(x); Back30(x); Back31(x);
  }

  lemma RotateBackFrom32(x: bv64, k: nat)
    requires 32 <= k < 48
    ensures RotBack(Rot64(x, k), k) == x
  {
    hide *;
    Back32(x); Back33(x); Back34(x); Back35(x);
    Back36(x); Back37(x); Back38(x); Back39(x);
    Back40(x); Back41(x); Back42(x); Back43(x);
    Back44(x); Back45(x); Back46(x); Back47(x);
  }

  lemma RotateBackFrom48(x: bv64, k: nat)
    requires 48 <= k < 64
    ensures RotBack(Rot64(x, k), k) == x
  {
    hide *;
    Back48(x); Back49(x); Back50(x); Back51(x);
    Back52(x); Back53(x); Back54(x); Back55(x);
    Back56(x); Back57(x); Back58(x); Back59(x);
    Back60(x); Back61(x); Back62(x); Back63(x);
  }

  lemma RotateBack(x: bv64, k: nat)
    requires k < 64
    ensures RotBack(Rot64(x, k), k) == x
  {
    hide *;
    if k < 16 {
      RotateBackFrom0(x, k);
    } else if k < 32 {
      RotateBackFrom16(x, k);
    } else if k < 48 {
      RotateBackFrom32(x, k);
    } else {
      RotateBackFrom48(x, k);
    }
  }

  lemma RotIsShiftsLow(x: bv64)
    ensures Rot64(x, 5) == (x << 5) | (x >> 59)
    ensures Rot64(x, 9) == (x << 9) | (x >> 55)
    ensures Rot64(x, 10) == (x << 10) | (x >> 54)
    ensures Rot64(x, 11) == (x << 11) | (x >> 53)
    ensures Rot64(x, 13) == (x << 13) | (x >> 51)
    ensures Rot64(x, 15) == (x << 15) | (x >> 49)
    ensures Rot64(x, 17) == (x << 17) | (x >> 47)
    ensures Rot64(x, 21) == (x << 21) | (x >> 43)
    ensures Rot64(x, 22) == (x << 22) | (x >> 42)
    ensures Rot64(x, 25) == (x << 25) | (x >> 39)
    ensures Rot64(x, 26) == (x << 26) | (x >> 38)
    ensures Rot64(x, 28) == (x << 28) | (x >> 36)
    ensures Rot64(x, 30) == (x << 30) | (x >> 34)
  {
  }

  lemma RotIsShiftsMiddle(x: bv64)
    ensures Rot64(x, 31) == (x << 31) | (x >> 33)
    ensures Rot64(x, 32) == (x << 32) | (x >> 32)
    ensures Rot64(x, 33) == (x << 33) | (x >> 31)
    ensures Rot64(x, 34) == (x << 34) | (x >> 30)
    ensures Rot64(x, 36) == (x << 36) | (x >> 28)
    ensures Rot64(x, 37) == (x << 37) | (x >> 27)
    ensures Rot64(x, 38) == (x << 38) | (x >> 26)
    ensures Rot64(x, 39) == (x << 39) | (x >> 25)
    ensures Rot64(x, 41) == (x << 41) | (x >> 23)
    ensures Rot64(x, 42) == (x << 42) | (x >> 22)
    ensures Rot64(x, 43) == (x << 43) | (x >> 21)
    ensures Rot64(x, 44) == (x << 44) | (x >> 20)
    ensures Rot64(x, 46) == (x << 46) | (x >> 18)
  {
  }

  lemma RotIsShiftsHigh(x: bv64)
    ensures Rot64(x, 47) == (x << 47) | (x >> 17)
    ensures Rot64(x, 48) == (x << 48) | (x >> 16)
    ensures Rot64(x, 50) == (x << 50) | (x >> 14)
    ensures Rot64(x, 51) == (x << 51) | (x >> 13)
    ensures Rot64(x, 52) == (x << 52) | (x >> 12)
    ensures Rot64(x, 53) == (x << 53) | (x >> 11)
    ensures Rot64(x, 54) == (x << 54) | (x >> 10)
    ensures Rot64(x, 55) == (x << 55) | (x >> 9)
    ensures Rot64(x, 57) == (x << 57) | (x >> 7)
    ensures Rot64(x, 62) == (x << 62) | (x >> 2)
    ensures Rot64(x, 63) == (x << 63) | (x >> 1)
  {
  }

  // ----- Mix -----

  /** h0 += d; h2 ^= h10; h11 ^= h0; rotate h0; h11 += h1. */
  function MixLine(s: Vars, d: bv64, k: nat): Vars
    requires k < 64
  {
    var h0 := Add(s.h0, d);
    var h2 := Xor(s.h2, s.h10);
    var h11 := Add(Xor(s.h11, h0), s.h1);
    Vars(s.h1, h2, s.h3, s.h4, s.h5, s.h6, s.h7, s.h8, s.h9, s.h10, h11, Rot64(h0, k))
  }

  function UnmixLine(r: Vars, d: bv64, k: nat): Vars
    requires k < 64
  {
    var h0 := RotBack(r.h11, k);
    var h11 := Xor(Sub(r.h10, r.h0), h0);
    var h2 := Xor(r.h1, r.h9);
    Vars(Sub(h0, d), r.h0, h2, r.h2, r.h3, r.h4, r.h5, r.h6, r.h7, r.h8, r.h9, h11)
  }

  lemma UnmixLineInverts(s: Vars, d: bv64, k: nat)
    requires k < 64
    ensures UnmixLine(MixLine(s, d, k), d, k) == s
  {
    hide Add, Sub, Xor, Rot64, RotBack;
    var h0 := Add(s.h0, d);
    AddSub(s.h0, d);
    RotateBack(h0, k);
    XorTwice(s.h2, s.h10);
    AddSub(Xor(s.h11, h0), s.h1);
    XorTwice(s.h11, h0);
  }

  /** The data of a line is not lost either. */
  lemma MixLineData(s: Vars, d: bv64, e: bv64, k: nat)
    requires k < 64 && MixLine(s, d, k) == MixLine(s, e, k)
    ensures d == e
  {
    hide Add, Sub, Xor, Rot64, RotBack;
    RotateBack(Add(s.h0, d), k);
    RotateBack(Add(s.h0, e), k);
    AddCommutes(s.h0, d);
    AddCommutes(s.h0, e);
    AddSub(d, s.h0);
    AddSub(e, s.h0);
  }

  lemma AddCommutes(a: bv64, b: bv64)
    ensures Add(a, b) == Add(b, a)
  {
  }

  function Mix(d: Vars, s: Vars): Vars {
    hide *;
    var s1 := MixLine(s, d.h0, 11);
    var s2 := MixLine(s1, d.h1, 32);
    var s3 := MixLine(s2, d.h2, 43);
    var s4 := MixLine(s3, d.h3, 31);
    var s5 := MixLine(s4, d.h4, 17);
    var s6 := MixLine(s5, d.h5, 28);
    var s7 := MixLine(s6, d.h6, 39);
    var s8 := MixLine(s7, d.h7, 57);
    var s9 := MixLine(s8, d.h8, 55);
    var s10 := MixLine(s9, d.h9, 54);
    var s11 := MixLine(s10, d.h10, 22);
    MixLine(s11, d.h11, 46)
  }

  function Unmix(d: Vars, r: Vars): Vars {
    hide *;
    var s11 := UnmixLine(r, d.h11, 46);
    var s10 := UnmixLine(s11, d.h10, 22);
    var s9 := UnmixLine(s10, d.h9, 54);
    var s8 := UnmixLine(s9, d.h8, 55);
    var s7 := UnmixLine(s8, d.h7, 57);
    var s6 := UnmixLine(s7, d.h6, 39);
    var s5 := UnmixLine(s6, d.h5, 28);
    var s4 := UnmixLine(s5, d.h4, 17);
    var s3 := UnmixLine(s4, d.h3, 31);
    var s2 := UnmixLine(s3, d.h2, 43);
    var s1 := UnmixLine(s2, d.h1, 32);
    UnmixLine(s1, d.h0, 11)
  }

  lemma UnmixInverts(d: Vars, s: Vars)
    ensures Unmix(d, Mix(d, s)) == s
  {
    hide MixLine, UnmixLine;
    UnmixLineInverts(s, d.h0, 11);
    var s1 := MixLine(s, d.h0, 11);
    UnmixLineInverts(s1, d.h1, 32);
    var s2 := MixLine(s1, d.h1, 32);
    UnmixLineInverts(s2, d.h2, 43);
    var s3 := MixLine(s2, d.h2, 43);
    UnmixLineInverts(s3, d.h3, 31);
    var s4 := MixLine(s3, d.h3, 31);
    UnmixLineInverts(s4, d.h4, 17);
    var s5 := MixLine(s4, d.h4, 17);
    UnmixLineInverts(s5, d.h5, 28);
    var s6 := MixLine(s5, d.h5, 28);
    UnmixLineInverts(s6, d.h6, 39);
    var s7 := MixLine(s6, d.h6, 39);
    UnmixLineInverts(s7, d.h7, 57);
    var s8 := MixLine(s7, d.h7, 57);
    UnmixLineInverts(s8, d.h8, 55);
    var s9 := MixLine(s8, d.h8, 55);
    UnmixLineInverts(s9, d.h9, 54);
    var s10 := MixLine(s9, d.h9, 54);
    UnmixLineInverts(s10, d.h10, 22);
    var s11 := MixLine(s10, d.h10, 22);
    UnmixLineInverts(s11, d.h11, 46);
  }

  /** Mixing in a fixed sequence of blocks. */
  function MixAll(blocks: seq<Vars>, s: Vars): Vars {
    if blocks == [] then s else Mix(blocks[|blocks| - 1], MixAll(blocks[..|blocks| - 1], s))
  }

  /** Different states stay different, whatever blocks are mixed in. */
  lemma {:induction false} MixAllInjective(blocks: seq<Vars>, s: Vars, t: Vars)
    ensures MixAll(blocks, s) == MixAll(blocks, t) <==> s == t
  {
    hide Mix, Unmix;
    if blocks != [] && MixAll(blocks, s) == MixAll(blocks, t) {
      var n := |blocks| - 1;
      UnmixInverts(blocks[n], MixAll(blocks[..n], s));
      UnmixInverts(blocks[n], MixAll(blocks[..n], t));
      MixAllInjective(blocks[..n], s, t);
    }
  }

  // ----- EndPartial and End -----

  /** h11 += h1; h2 ^= h11; rotate h1. */
  function EndLine(s: Vars, k: nat): Vars
    requires k < 64
  {
    var h11 := Add(s.h11, s.h1);
    Vars(Rot64(s.h1, k), Xor(s.h2, h11), s.h3, s.h4, s.h5, s.h6, s.h7, s.h8, s.h9, s.h10, h11, s.h0)
  }

  function UnendLine(r: Vars, k: nat): Vars
    requires k < 64
  {
    var h1 := RotBack(r.h0, k);
    Vars(r.h11, h1, Xor(r.h1, r.h10), r.h2, r.h3, r.h4, r.h5, r.h6, r.h7, r.h8, r.h9, Sub(r.h10, h1))
  }

  lemma UnendLineInverts(s: Vars, k: nat)
    requires k < 64
    ensures UnendLine(EndLine(s, k), k) == s
  {
    hide Add, Sub, Xor, Rot64, RotBack;
    RotateBack(s.h1, k);
    XorTwice(s.h2, Add(s.h11, s.h1));
    AddSub(s.h11, s.h1);
  }

  function EndPartial(s: Vars): Vars {
    hide *;
    var s1 := EndLine(s, 44);
    var s2 := EndLine(s1, 15);
    var s3 := EndLine(s2, 34);
    var s4 := EndLine(s3, 21);
    var s5 := EndLine(s4, 38);
    var s6 := EndLine(s5, 33);
    var s7 := EndLine(s6, 10);
    var s8 := EndLine(s7, 13);
    var s9 := EndLine(s8, 38);
    var s10 := EndLine(s9, 53);
    var s11 := EndLine(s10, 42);
    EndLine(s11, 54)
  }

  function UnendPartial(r: Vars): Vars {
    hide *;
    var s11 := UnendLine(r, 54);
    var s10 := UnendLine(s11, 42);
    var s9 := UnendLine(s10, 53);
    var s8 := UnendLine(s9, 38);
    var s7 := UnendLine(s8, 13);
    var s6 := UnendLine(s7, 10);
    var s5 := UnendLine(s6, 33);
    var s4 := UnendLine(s5, 38);
    var s3 := UnendLine(s4, 21);
    var s2 := UnendLine(s3, 34);
    var s1 := UnendLine(s2, 15);
    UnendLine(s1, 44)
  }

  lemma UnendPartialInverts(s: Vars)
    ensures UnendPartial(EndPartial(s)) == s
  {
    hide EndLine, UnendLine;
    UnendLineInverts(s, 44);
    var s1 := EndLine(s, 44);
    UnendLineInverts(s1, 15);
    var s2 := EndLine(s1, 15);
    UnendLineInverts(s2, 34);
    var s3 := EndLine(s2, 34);
    UnendLineInverts(s3, 21);
    var s4 := EndLine(s3, 21);
    UnendLineInverts(s4, 38);
    var s5 := EndLine(s4, 38);
    UnendLineInverts(s5, 33);
    var s6 := EndLine(s5, 33);
    UnendLineInverts(s6, 10);
    var s7 := EndLine(s6, 10);
    UnendLineInverts(s7, 13);
    var s8 := EndLine(s7, 13);
    UnendLineInverts(s8, 38);
    var s9 := EndLine(s8, 38);
    UnendLineInverts(s9, 53);
    var s10 := EndLine(s9, 53);
    UnendLineInverts(s10, 42);
    var s11 := EndLine(s10, 42);
    UnendLineInverts(s11, 54);
  }

  lemma EndPartialInjective(s: Vars, t: Vars)
    ensures EndPartial(s) == EndPartial(t) <==> s == t
  {
    hide EndPartial, UnendPartial;
    UnendPartialInverts(s);
    UnendPartialInverts(t);
  }

  function AddBlock(d: Vars, s: Vars): Vars {
    Vars(Add(s.h0, d.h0), Add(s.h1, d.h1), Add(s.h2, d.h2), Add(s.h3, d.h3), Add(s.h4, d.h4), Add(s.h5, d.h5),
         Add(s.h6, d.h6), Add(s.h7, d.h7), Add(s.h8, d.h8), Add(s.h9, d.h9), Add(s.h10, d.h10), Add(s.h11, d.h11))
  }

  function End(d: Vars, s: Vars): Vars {
    EndPartial(EndPartial(EndPartial(AddBlock(d, s))))
  }

  /** So is the final mixing, before it is cut down to two words: for a fixed last
      block a permutation of the state, and for a fixed state one of the block. */
  lemma EndInjective(d: Vars, s: Vars, t: Vars)
    ensures End(d, s) == End(d, t) <==> s == t
    ensures End(s, d) == End(t, d) <==> s == t
  {
    hide EndPartial, AddBlock;
    AddBlockInjective(d, s, t);
    AddBlockCommutes(d, s);
    AddBlockCommutes(d, t);
    EndInjectiveBlock(AddBlock(d, s), AddBlock(d, t));
    EndInjectiveBlock(AddBlock(s, d), AddBlock(t, d));
  }

  lemma EndInjectiveBlock(a: Vars, b: Vars)
    ensures EndPartial(EndPartial(EndPartial(a))) == EndPartial(EndPartial(EndPartial(b))) <==> a == b
  {
    hide EndPartial;
    EndPartialInjective(a, b);
    EndPartialInjective(EndPartial(a), EndPartial(b));
    EndPartialInjective(EndPartial(EndPartial(a)), EndPartial(EndPartial(b)));
  }

  lemma AddInjective(a: bv64, b: bv64, c: bv64)
    ensures Add(a, c) == Add(b, c) <==> a == b
    ensures Add(c, a) == Add(c, b) <==> a == b
  {
    hide Add, Sub;
    AddSub(a, c);
    AddSub(b, c);
    AddCommutes(a, c);
    AddCommutes(b, c);
  }

  lemma AddBlockInjective(d: Vars, s: Vars, t: Vars)
    ensures AddBlock(d, s) == AddBlock(d, t) <==> s == t
  {
    hide Add;
    AddInjective(s.h0, t.h0, d.h0);
    AddInjective(s.h1, t.h1, d.h1);
    AddInjective(s.h2, t.h2, d.h2);
    AddInjective(s.h3, t.h3, d.h3);
    AddInjective(s.h4, t.h4, d.h4);
    AddInjective(s.h5, t.h5, d.h5);
    AddInjective(s.h6, t.h6, d.h6);
    AddInjective(s.h7, t.h7, d.h7);
    AddInjective(s.h8, t.h8, d.h8);
    AddInjective(s.h9, t.h9, d.h9);
    AddInjective(s.h10, t.h10, d.h10);
    AddInjective(s.h11, t.h11, d.h11);
  }

  lemma AddBlockCommutes(d: Vars, s: Vars)
    ensures AddBlock(d, s) == AddBlock(s, d)
  {
    hide Add;
    AddCommutes(s.h0, d.h0);
    AddCommutes(s.h1, d.h1);
    AddCommutes(s.h2, d.h2);
    AddCommutes(s.h3, d.h3);
    AddCommutes(s.h4, d.h4);
    AddCommutes(s.h5, d.h5);
    AddCommutes(s.h6, d.h6);
    AddCommutes(s.h7, d.h7);
    AddCommutes(s.h8, d.h8);
    AddCommutes(s.h9, d.h9);
    AddCommutes(s.h10, d.h10);
    AddCommutes(s.h11, d.h11);
  }

  // ----- ShortMix and ShortEnd -----

  /** Rotate h2; h2 += h3; h0 ^= h2. */
  function ShortMixLine(s: Short4, k: nat): Short4
    requires k < 64
  {
    var h2 := Add(Rot64(s.h2, k), s.h3);
    Short4(s.h1, h2, s.h3, Xor(s.h0, h2))
  }

  function ShortUnmixLine(r: Short4, k: nat): Short4
    requires k < 64
  {
    Short4(Xor(r.h3, r.h1), r.h0, RotBack(Sub(r.h1, r.h2), k), r.h2)
  }

  lemma ShortUnmixLineInverts(s: Short4, k: nat)
    requires k < 64
    ensures ShortUnmixLine(ShortMixLine(s, k), k) == s
  {
    hide Add, Sub, Xor, Rot64, RotBack;
    RotateBack(s.h2, k);
    AddSub(Rot64(s.h2, k), s.h3);
    XorTwice(s.h0, Add(Rot64(s.h2, k), s.h3));
  }

  function ShortMix(s: Short4): Short4 {
    hide *;
    var s1 := ShortMixLine(s, 50);
    var s2 := ShortMixLine(s1, 52);
    var s3 := ShortMixLine(s2, 30);
    var s4 := ShortMixLine(s3, 41);
    var s5 := ShortMixLine(s4, 54);
    var s6 := ShortMixLine(s5, 48);
    var s7 := ShortMixLine(s6, 38);
    var s8 := ShortMixLine(s7, 37);
    var s9 := ShortMixLine(s8, 62);
    var s10 := ShortMixLine(s9, 34);
    var s11 := ShortMixLine(s10, 5);
    ShortMixLine(s11, 36)
  }

  function ShortUnmix(r: Short4): Short4 {
    hide *;
    var s11 := ShortUnmixLine(r, 36);
    var s10 := ShortUnmixLine(s11, 5);
    var s9 := ShortUnmixLine(s10, 34);
    var s8 := ShortUnmixLine(s9, 62);
    var s7 := ShortUnmixLine(s8, 37);
    var s6 := ShortUnmixLine(s7, 38);
    var s5 := ShortUnmixLine(s6, 48);
    var s4 := ShortUnmixLine(s5, 54);
    var s3 := ShortUnmixLine(s4, 41);
    var s2 := ShortUnmixLine(s3, 30);
    var s1 := ShortUnmixLine(s2, 52);
    ShortUnmixLine(s1, 50)
  }

  lemma ShortUnmixInverts(s: Short4)
    ensures ShortUnmix(ShortMix(s)) == s
  {
    hide ShortMixLine, ShortUnmixLine;
    ShortUnmixLineInverts(s, 50);
    var s1 := ShortMixLine(s, 50);
    ShortUnmixLineInverts(s1, 52);
    var s2 := ShortMixLine(s1, 52);
    ShortUnmixLineInverts(s2, 30);
    var s3 := ShortMixLine(s2, 30);
    ShortUnmixLineInverts(s3, 41);
    var s4 := ShortMixLine(s3, 41);
    ShortUnmixLineInverts(s4, 54);
    var s5 := ShortMixLine(s4, 54);
    ShortUnmixLineInverts(s5, 48);
    var s6 := ShortMixLine(s5, 48);
    ShortUnmixLineInverts(s6, 38);
    var s7 := ShortMixLine(s6, 38);
    ShortUnmixLineInverts(s7, 37);
    var s8 := ShortMixLine(s7, 37);
    ShortUnmixLineInverts(s8, 62);
    var s9 := ShortMixLine(s8, 62);
    ShortUnmixLineInverts(s9, 34);
    var s10 := ShortMixLine(s9, 34);
    ShortUnmixLineInverts(s10, 5);
    var s11 := ShortMixLine(s10, 5);
    ShortUnmixLineInverts(s11, 36);
  }

  /** h3 ^= h2; rotate h2; h3 += h2. */
  function ShortEndLine(s: Short4, k: nat): Short4
    requires k < 64
  {
    var h2 := Rot64(s.h2, k);
    Short4(s.h1, h2, Add(Xor(s.h3, s.h2), h2), s.h0)
  }

  function ShortUnendLine(r: Short4, k: nat): Short4
    requires k < 64
  {
    var h2 := RotBack(r.h1, k);
    Short4(r.h3, r.h0, h2, Xor(Sub(r.h2, r.h1), h2))
  }

  lemma ShortUnendLineInverts(s: Short4, k: nat)
    requires k < 64
    ensures ShortUnendLine(ShortEndLine(s, k), k) == s
  {
    hide Add, Sub, Xor, Rot64, RotBack;
    RotateBack(s.h2, k);
    AddSub(Xor(s.h3, s.h2), Rot64(s.h2, k));
    XorTwice(s.h3, s.h2);
  }

  /** Eleven lines, and one place more so that each variable is back in its own. */
  function ShortEnd(s: Short4): Short4 {
    hide *;
    var s1 := ShortEndLine(s, 15);
    var s2 := ShortEndLine(s1, 52);
    var s3 := ShortEndLine(s2, 26);
    var s4 := ShortEndLine(s3, 51);
    var s5 := ShortEndLine(s4, 28);
    var s6 := ShortEndLine(s5, 9);
    var s7 := ShortEndLine(s6, 47);
    var s8 := ShortEndLine(s7, 54);
    var s9 := ShortEndLine(s8, 32);
    var s10 := ShortEndLine(s9, 25);
    var s11 := ShortEndLine(s10, 63);
    Short4(s11.h1, s11.h2, s11.h3, s11.h0)
  }

  function ShortUnend(r: Short4): Short4 {
    hide *;
    var s11 := Short4(r.h3, r.h0, r.h1, r.h2);
    var s10 := ShortUnendLine(s11, 63);
    var s9 := ShortUnendLine(s10, 25);
    var s8 := ShortUnendLine(s9, 32);
    var s7 := ShortUnendLine(s8, 54);
    var s6 := ShortUnendLine(s7, 47);
    var s5 := ShortUnendLine(s6, 9);
    var s4 := ShortUnendLine(s5, 28);
    var s3 := ShortUnendLine(s4, 51);
    var s2 := ShortUnendLine(s3, 26);
    var s1 := ShortUnendLine(s2, 52);
    ShortUnendLine(s1, 15)
  }

  lemma ShortUnendInverts(s: Short4)
    ensures ShortUnend(ShortEnd(s)) == s
  {
    hide ShortEndLine, ShortUnendLine;
    ShortUnendLineInverts(s, 15);
    var s1 := ShortEndLine(s, 15);
    ShortUnendLineInverts(s1, 52);
    var s2 := ShortEndLine(s1, 52);
    ShortUnendLineInverts(s2, 26);
    var s3 := ShortEndLine(s2, 26);
    ShortUnendLineInverts(s3, 51);
    var s4 := ShortEndLine(s3, 51);
    ShortUnendLineInverts(s4, 28);
    var s5 := ShortEndLine(s4, 28);
    ShortUnendLineInverts(s5, 9);
    var s6 := ShortEndLine(s5, 9);
    ShortUnendLineInverts(s6, 47);
    var s7 := ShortEndLine(s6, 47);
    ShortUnendLineInverts(s7, 54);
    var s8 := ShortEndLine(s7, 54);
    ShortUnendLineInverts(s8, 32);
    var s9 := ShortEndLine(s8, 32);
    ShortUnendLineInverts(s9, 25);
    var s10 := ShortEndLine(s9, 25);
    ShortUnendLineInverts(s10, 63);
  }

  lemma ShortMixInjective(s: Short4, t: Short4)
    ensures ShortMix(s) == ShortMix(t) <==> s == t
    ensures ShortEnd(s) == ShortEnd(t) <==> s == t
  {
    hide *;
    ShortUnmixInverts(s);
    ShortUnmixInverts(t);
    ShortUnendInverts(s);
    ShortUnendInverts(t);
  }
}
