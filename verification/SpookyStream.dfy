/** SpookyHash V2 in one call and in pieces (`Hash128`, `Init`, `Update`,
    `Final`, `hashSubBuffer`). A block is 96 bytes, the buffer holds two.
    Lengths are unbounded. */
module SpookyStream {
  import opened Pixels
  import opened SpookyMix
  import opened SpookyWords

  // ----- The short hash -----

  /** n whole groups of 32 bytes; the four variables are a, b, c, d. */
  function ShortGroups(msg: seq<byte>, n: nat, s: Short4): Short4
    requires 32 * n <= |msg|
  {
    if n == 0 then s
    else
      var p := ShortGroups(msg, n - 1, s);
      var g := msg[32 * (n - 1)..32 * n];
      var q := ShortMix(Short4(p.h0, p.h1, p.h2 + Word(g[..8]), p.h3 + Word(g[8..16])));
      Short4(q.h0 + Word(g[16..24]), q.h1 + Word(g[24..]), q.h2, q.h3)
  }

  /** The last 0 to 15 bytes, and the length. */
  function ShortTail(rest: seq<byte>, length: nat, s: Short4): Short4
    requires |rest| < 16
  {
    var d := s.h3 + (((length % 256) as bv64) << 56);
    if rest == [] then Short4(s.h0, s.h1, s.h2 + SC_CONST, d + SC_CONST)
    else if |rest| <= 8 then Short4(s.h0, s.h1, s.h2 + Word(rest), d)
    else Short4(s.h0, s.h1, s.h2 + Word(rest[..8]), d + Word(rest[8..]))
  }

  function Short(msg: seq<byte>, seed1: bv64, seed2: bv64): (bv64, bv64) {
    var n := |msg| / 32;
    var s := ShortGroups(msg, n, Short4(seed1, seed2, SC_CONST, SC_CONST));
    var rest := msg[32 * n..];
    var e :=
      if |rest| >= 16 then
        var m := ShortMix(Short4(s.h0, s.h1, s.h2 + Word(rest[..8]), s.h3 + Word(rest[8..16])));
        ShortTail(rest[16..], |msg|, m)
      else ShortTail(rest, |msg|, s);
    var r := ShortEnd(e);
    (r.h0, r.h1)
  }

  // ----- The hash in one call -----

  function InitVars(seed1: bv64, seed2: bv64): Vars {
    Vars(seed1, seed2, SC_CONST, seed1, seed2, SC_CONST, seed1, seed2, SC_CONST, seed1, seed2, SC_CONST)
  }

  /** n whole blocks of the message. */
  function MixBlocks(msg: seq<byte>, n: nat, s: Vars): Vars
    requires 96 * n <= |msg|
  {
    if n == 0 then s
    else Mix(Words(msg[96 * (n - 1)..96 * n]), MixBlocks(msg, n - 1, s))
  }

  function Hash128(msg: seq<byte>, seed1: bv64, seed2: bv64): (bv64, bv64) {
    if |msg| < 192 then Short(msg, seed1, seed2)
    else
      var n := |msg| / 96;
      var h := End(Words(Padded(msg[96 * n..])), MixBlocks(msg, n, InitVars(seed1, seed2)));
      (h.h0, h.h1)
  }

  function Hash64(msg: seq<byte>, seed: bv64): bv64 {
    Hash128(msg, seed, seed).0
  }

  /** Blocks already mixed do not depend on what follows. */
  lemma {:induction false} MixBlocksPrefix(msg: seq<byte>, more: seq<byte>, n: nat, s: Vars)
    requires 96 * n <= |msg|
    ensures MixBlocks(msg + more, n, s) == MixBlocks(msg, n, s)
  {
    hide Mix, Words;
    if n > 0 {
      MixBlocksPrefix(msg, more, n - 1, s);
      assert (msg + more)[96 * (n - 1)..96 * n] == msg[96 * (n - 1)..96 * n];
    }
  }

  // ----- The hash in pieces -----

  /** The hash of a long message is worked out from its blocks, which determine it. */
  lemma LongHashOfBlocks(msg: seq<byte>, seed1: bv64, seed2: bv64)
    requires |msg| >= 192
    ensures var b := Blocks(msg);
      var r := End(b[|b| - 1], MixAll(b[..|b| - 1], InitVars(seed1, seed2)));
      Hash128(msg, seed1, seed2) == (r.h0, r.h1)
  {
    hide End, Words, Padded, Mix, InitVars;
    var b, n := Blocks(msg), |msg| / 96;
    MixBlocksAreAll(msg, n, InitVars(seed1, seed2));
    assert b[..|b| - 1] == b[..n] && b[n] == Words(Padded(msg[96 * n..]));
  }

  lemma {:induction false} MixBlocksAreAll(msg: seq<byte>, n: nat, s: Vars)
    requires 96 * n <= |msg|
    ensures MixBlocks(msg, n, s) == MixAll(Blocks(msg)[..n], s)
  {
    hide Words, Padded, Mix;
    var b := Blocks(msg)[..n];
    if n > 0 {
      MixBlocksAreAll(msg, n - 1, s);
      assert b[..n - 1] == Blocks(msg)[..n - 1];
      assert b[n - 1] == Words(msg[96 * (n - 1)..96 * n]);
    }
  }

  /** The variables after the first n blocks of a message. */
  ghost predicate Mixed(h: Vars, msg: seq<byte>, n: nat, seed1: bv64, seed2: bv64) {
    96 * n <= |msg| && h == MixBlocks(msg, n, InitVars(seed1, seed2))
  }

  /** What the fields stand for: a message of which n blocks have been mixed and
      the rest is stashed. */
  ghost predicate Stashed(msg: seq<byte>, seed1: bv64, seed2: bv64,
                          buffer: seq<byte>, state: Vars, length: nat, remainder: nat) {
    && |buffer| == 192 && length == |msg| && remainder < 192 && remainder <= |msg|
    && buffer[..remainder] == msg[|msg| - remainder..]
    && if |msg| < 192 then
         remainder == |msg| && state.h0 == seed1 && state.h1 == seed2
       else
         && (|msg| - remainder) % 96 == 0
         && Mixed(state, msg, (|msg| - remainder) / 96, seed1, seed2)
  }

  /** What of a message is left behind its first n blocks. */
  ghost predicate IsRest(whole: seq<byte>, n: nat, rest: seq<byte>) {
    96 * n + |rest| == |whole| && whole[96 * n..] == rest
  }

  /** What is left behind the last whole block. */
  function Tail(rest: seq<byte>): (tail: seq<byte>)
    ensures |tail| == |rest| % 96
  {
    rest[96 * (|rest| / 96)..]
  }

  class SpookyHash {
    const data: array<byte>
    var state: Vars
    var length: nat
    var remainder: nat
    ghost var message: seq<byte>
    ghost var seed1: bv64
    ghost var seed2: bv64

    ghost predicate Valid()
      reads this, data
    {
      data.Length == 192 && Stashed(message, seed1, seed2, data[..], state, length, remainder)
    }

    constructor Init(s1: bv64, s2: bv64)
      ensures Valid() && fresh(data) && message == [] && seed1 == s1 && seed2 == s2
    {
      data := new byte[192];
      state := Vars(s1, s2, 0, 0, 0, 0, 0, 0, 0, 0, 0, 0);
      length, remainder := 0, 0;
      message, seed1, seed2 := [], s1, s2;
    }

    method Store(at: nat, piece: seq<byte>)
      requires data.Length == 192 && at + |piece| <= 192
      modifies data
      ensures data[..] == old(data[..at]) + piece + old(data[at + |piece|..])
    {
      forall k | 0 <= k < |piece| {
        data[at + k] := piece[k];
      }
    }

    /** Add a piece of the message. */
    method Update(fragment: seq<byte>)
      requires Valid()
      modifies this, data
      ensures Valid() && message == old(message) + fragment && seed1 == old(seed1) && seed2 == old(seed2)
    {
      hide Mix, Words, MixBlocks, InitVars, Stashed;
      StashedShape(message, seed1, seed2, data[..], state, length, remainder);
      var newLength := |fragment| + remainder;
      if newLength < 192 {
        StashAway(fragment);
      } else {
        MixIn(fragment);
      }
    }

    /** Long enough to mix: go on from the variables so far. */
    method MixIn(fragment: seq<byte>)
      requires Valid() && remainder + |fragment| >= 192
      modifies this`length, this`remainder, this`state, this`message, data
      ensures Valid() && message == old(message) + fragment
    {
      hide Mixed, InitVars, Stashed, IsRest;
      StashedShape(message, seed1, seed2, data[..], state, length, remainder);
      ghost var whole := message + fragment;
      var h := if length < 192 then InitVars(state.h0, state.h1) else state;
      ghost var n := StartMixing(message, fragment, seed1, seed2, data[..], state, remainder, h);
      length := length + |fragment|;
      var rest := fragment;
      if remainder != 0 {
        h, rest := MixStash(fragment, h, n);
        n := n + 2;
      } else {
        AllIsRest(message, fragment, n);
      }
      Absorb(rest, h, whole, n);
    }

    /** Too short to mix: keep it for later. */
    method StashAway(fragment: seq<byte>)
      requires Valid() && remainder + |fragment| < 192
      modifies this`length, this`remainder, this`message, data
      ensures Valid() && message == old(message) + fragment
    {
      hide Stashed;
      StashedShape(message, seed1, seed2, data[..], state, length, remainder);
      StashMore(message, fragment, seed1, seed2, data[..], state, remainder);
      Store(remainder, fragment);
      length, remainder := length + |fragment|, remainder + |fragment|;
      message := message + fragment;
    }

    /** Mix the whole blocks of the rest and stash what remains. */
    method Absorb(rest: seq<byte>, h0: Vars, ghost whole: seq<byte>, ghost n: nat)
      requires data.Length == 192 && length == |whole| >= 192
      requires IsRest(whole, n, rest)
      requires Mixed(h0, whole, n, seed1, seed2)
      modifies this`remainder, this`state, this`message, data
      ensures Valid() && message == whole
    {
      hide Mixed, Stashed;
      var h := MixWhole(rest, h0, whole, n);
      var tail := Tail(rest);
      Store(0, tail);
      StashTail(whole, rest, n, seed1, seed2, h, data[..]);
      remainder, state := |tail|, h;
      message := whole;
    }

    /** Fill the buffer up from the fragment and mix its two blocks. */
    method MixStash(fragment: seq<byte>, h0: Vars, ghost n: nat) returns (h: Vars, rest: seq<byte>)
      requires data.Length == 192 && 0 < remainder < 192 && remainder <= |message|
      requires data[..remainder] == message[|message| - remainder..] && |fragment| + remainder >= 192
      requires 96 * n == |message| - remainder
      requires Mixed(h0, message + fragment, n, seed1, seed2)
      modifies data
      ensures IsRest(message + fragment, n + 2, rest)
      ensures Mixed(h, message + fragment, n + 2, seed1, seed2)
    {
      hide Mix, Words, Mixed;
      var prefix := 192 - remainder;
      ghost var stash := data[..remainder];
      Store(remainder, fragment[..prefix]);
      assert data[..] == stash + fragment[..prefix];
      ghost var whole := message + fragment;
      StraddlingSlice(message, fragment, remainder, prefix);
      TwoBlocks(whole, n, seed1, seed2, h0, data[..], |message| - remainder);
      h := Mix(Words(data[..96]), h0);
      h := Mix(Words(data[96..]), h);
      rest := fragment[prefix..];
      FragmentIsRest(message, fragment, rest);
    }

    /** The hash of the message so far; the object still stands for it. */
    method Final() returns (hash1: bv64, hash2: bv64)
      requires Valid()
      modifies data
      ensures Valid()
      ensures (hash1, hash2) == Hash128(message, seed1, seed2)
    {
      hide Mix, Words, Mixed, Short, End, Padded, Hash128, Stashed;
      StashedShape(message, seed1, seed2, data[..], state, length, remainder);
      if length < 192 {
        ShortStash(message, seed1, seed2, data[..], state, remainder);
        var h := Short(data[..length], state.h0, state.h1);
        hash1, hash2 := h.0, h.1;
        return;
      }
      ghost var before := data[..];
      ghost var n := StashedBlocks(message, seed1, seed2, data[..], state, remainder);
      var at, rest, h := 0, remainder, state;
      if rest >= 96 {
        NextMixed(message, n, seed1, seed2, h);
        h := Mix(Words(data[..96]), h);
        at, rest := 96, rest - 96;
        n := n + 1;
      }
      assert data[at..at + rest] == before[at..at + rest];
      PadBuffer(at, rest);
      StashKept(message, seed1, seed2, before, data[..], state, remainder);
      LongHash(message, n, seed1, seed2, h);
      h := End(Words(data[at..at + 96]), h);
      hash1, hash2 := h.h0, h.h1;
    }

    /** Zero the rest of a block from at + rest on, and put the size last. */
    method PadBuffer(at: nat, rest: nat)
      requires data.Length == 192 && at + 96 <= 192 && rest < 96
      modifies data
      ensures data[..at + rest] == old(data[..at + rest])
      ensures data[at..at + 96] == Padded(old(data[at..at + rest]))
    {
      forall k | rest <= k < 95 {
        data[at + k] := 0;
      }
      data[at + 95] := rest as byte;
    }

    /** All whole blocks of the rest, which starts behind block n of the message. */
    method MixWhole(rest: seq<byte>, h0: Vars, ghost whole: seq<byte>, ghost n: nat) returns (h: Vars)
      requires 96 * n + |rest| == |whole| && whole[96 * n..] == rest
      requires Mixed(h0, whole, n, seed1, seed2)
      ensures Mixed(h, whole, n + |rest| / 96, seed1, seed2)
    {
      hide Mix, Words, Mixed;
      h := h0;
      for i := 0 to |rest| / 96
        invariant Mixed(h, whole, n + i, seed1, seed2)
      {
        NextMixed(whole, n + i, seed1, seed2, h);
        var block := rest[96 * i..96 * i + 96];
        assert block == whole[96 * (n + i)..96 * (n + i + 1)];
        h := Mix(Words(block), h);
      }
    }
  }

  lemma ShortStash(msg: seq<byte>, seed1: bv64, seed2: bv64, buffer: seq<byte>, state: Vars, remainder: nat)
    requires Stashed(msg, seed1, seed2, buffer, state, |msg|, remainder) && |msg| < 192
    ensures buffer[..|msg|] == msg && Short(buffer[..|msg|], state.h0, state.h1) == Hash128(msg, seed1, seed2)
  {
    hide Short;
  }

  /** The stash of a long message starts behind its n-th block. */
  lemma StashedBlocks(msg: seq<byte>, seed1: bv64, seed2: bv64, buffer: seq<byte>, state: Vars, remainder: nat) returns (n: nat)
    requires Stashed(msg, seed1, seed2, buffer, state, |msg|, remainder) && |msg| >= 192
    ensures 96 * n + remainder == |msg| && Mixed(state, msg, n, seed1, seed2) && |buffer| == 192
    ensures remainder >= 96 ==>
      n + 1 == |msg| / 96 && buffer[..96] == msg[96 * n..96 * (n + 1)] && buffer[96..remainder] == msg[96 * (n + 1)..]
    ensures remainder < 96 ==> n == |msg| / 96 && buffer[0..remainder] == msg[96 * n..]
  {
    hide Mixed;
    n := (|msg| - remainder) / 96;
    var stash := buffer[..remainder];
    assert stash == msg[96 * n..];
    if remainder >= 96 {
      assert buffer[..96] == stash[..96] && buffer[96..remainder] == stash[96..];
    }
  }

  /** What lies behind the stash does not matter. */
  lemma StashKept(msg: seq<byte>, seed1: bv64, seed2: bv64, before: seq<byte>, buffer: seq<byte>, state: Vars, remainder: nat)
    requires Stashed(msg, seed1, seed2, before, state, |msg|, remainder)
    requires |buffer| == 192 && buffer[..remainder] == before[..remainder]
    ensures Stashed(msg, seed1, seed2, buffer, state, |msg|, remainder)
  {
    hide Mixed;
  }

  lemma LongHash(msg: seq<byte>, n: nat, seed1: bv64, seed2: bv64, h: Vars)
    requires Mixed(h, msg, n, seed1, seed2) && |msg| >= 192 && n == |msg| / 96
    ensures var r := End(Words(Padded(msg[96 * n..])), h); (r.h0, r.h1) == Hash128(msg, seed1, seed2)
  {
    hide End, Words, Padded, MixBlocks, InitVars;
  }

  lemma StashedShape(msg: seq<byte>, seed1: bv64, seed2: bv64,
                     buffer: seq<byte>, state: Vars, length: nat, remainder: nat)
    requires Stashed(msg, seed1, seed2, buffer, state, length, remainder)
    ensures length == |msg| && remainder < 192 && remainder <= |msg| && |buffer| == 192
    ensures buffer[..remainder] == msg[|msg| - remainder..]
  {
  }

  lemma FragmentIsRest(msg: seq<byte>, fragment: seq<byte>, rest: seq<byte>)
    requires |rest| <= |fragment| && rest == fragment[|fragment| - |rest|..]
    ensures (msg + fragment)[|msg| + |fragment| - |rest|..] == rest
  {
  }

  lemma StashTail(whole: seq<byte>, rest: seq<byte>, n: nat, seed1: bv64, seed2: bv64, h: Vars, buffer: seq<byte>)
    requires |whole| >= 192 && IsRest(whole, n, rest) && Mixed(h, whole, n + |rest| / 96, seed1, seed2)
    requires |buffer| == 192 && buffer[..|Tail(rest)|] == Tail(rest)
    ensures Stashed(whole, seed1, seed2, buffer, h, |whole|, |Tail(rest)|)
  {
    hide Mixed;
    var r := |Tail(rest)|;
    assert Tail(rest) == whole[|whole| - r..];
  }

  lemma AllIsRest(msg: seq<byte>, fragment: seq<byte>, n: nat)
    requires 96 * n == |msg|
    ensures IsRest(msg + fragment, n, fragment)
  {
  }

  lemma StashMore(msg: seq<byte>, piece: seq<byte>, seed1: bv64, seed2: bv64,
                  buffer: seq<byte>, state: Vars, remainder: nat)
    requires Stashed(msg, seed1, seed2, buffer, state, |msg|, remainder) && remainder + |piece| < 192
    ensures Stashed(msg + piece, seed1, seed2, buffer[..remainder] + piece + buffer[remainder + |piece|..],
                    state, |msg| + |piece|, remainder + |piece|)
  {
    hide Mixed;
    var whole := msg + piece;
    var b := buffer[..remainder] + piece + buffer[remainder + |piece|..];
    assert b[..remainder + |piece|] == whole[|whole| - (remainder + |piece|)..];
    if |msg| >= 192 {
      MixedPrefix(msg, piece, (|msg| - remainder) / 96, seed1, seed2, state);
    }
  }

  lemma MixedPrefix(msg: seq<byte>, piece: seq<byte>, n: nat, seed1: bv64, seed2: bv64, h: Vars)
    requires Mixed(h, msg, n, seed1, seed2)
    ensures Mixed(h, msg + piece, n, seed1, seed2)
  {
    hide InitVars, MixBlocks;
    MixBlocksPrefix(msg, piece, n, InitVars(seed1, seed2));
  }

  lemma NothingMixed(msg: seq<byte>, seed1: bv64, seed2: bv64)
    ensures Mixed(InitVars(seed1, seed2), msg, 0, seed1, seed2)
  {
    hide InitVars;
  }

  /** The variables to go on with are those of the blocks mixed so far. */
  lemma StartMixing(msg: seq<byte>, piece: seq<byte>, seed1: bv64, seed2: bv64,
                    buffer: seq<byte>, state: Vars, remainder: nat, h: Vars) returns (n: nat)
    requires Stashed(msg, seed1, seed2, buffer, state, |msg|, remainder)
    requires h == if |msg| < 192 then InitVars(state.h0, state.h1) else state
    ensures 96 * n == |msg| - remainder && Mixed(h, msg + piece, n, seed1, seed2)
  {
    hide Mixed, InitVars;
    n := (|msg| - remainder) / 96;
    if |msg| < 192 {
      NothingMixed(msg + piece, seed1, seed2);
    } else {
      MixedPrefix(msg, piece, n, seed1, seed2, h);
    }
  }

  lemma NextMixed(msg: seq<byte>, n: nat, seed1: bv64, seed2: bv64, h: Vars)
    requires 96 * (n + 1) <= |msg| && Mixed(h, msg, n, seed1, seed2)
    ensures Mixed(Mix(Words(msg[96 * n..96 * (n + 1)]), h), msg, n + 1, seed1, seed2)
  {
    hide Mix, Words, InitVars;
  }

  lemma TwoBlocks(msg: seq<byte>, n: nat, seed1: bv64, seed2: bv64, h: Vars, b: seq<byte>, at: nat)
    requires |b| == 192 && at == 96 * n && at + 192 <= |msg| && msg[at..at + 192] == b
    requires Mixed(h, msg, n, seed1, seed2)
    ensures Mixed(Mix(Words(b[96..]), Mix(Words(b[..96]), h)), msg, n + 2, seed1, seed2)
  {
    hide Mix, Words, Mixed;
    assert b[..96] == msg[96 * n..96 * (n + 1)];
    assert b[96..] == msg[96 * (n + 1)..96 * (n + 2)];
    NextMixed(msg, n, seed1, seed2, h);
    NextMixed(msg, n + 1, seed1, seed2, Mix(Words(b[..96]), h));
  }

  /** The concatenation of the first n pieces. */
  function Concat(pieces: seq<seq<byte>>, n: nat): seq<byte>
    requires n <= |pieces|
  {
    if n == 0 then [] else Concat(pieces, n - 1) + pieces[n - 1]
  }

  /** Whatever the pieces, a hash asked for after each of them is the one-call hash
      of everything so far. */
  method HashInPieces(pieces: seq<seq<byte>>, seed1: bv64, seed2: bv64) returns (hashes: seq<(bv64, bv64)>)
    ensures |hashes| == |pieces|
    ensures forall i :: 0 <= i < |pieces| ==> hashes[i] == Hash128(Concat(pieces, i + 1), seed1, seed2)
  {
    hide Hash128, Stashed;
    var h := new SpookyHash.Init(seed1, seed2);
    hashes := [];
    for n := 0 to |pieces|
      invariant h.Valid() && fresh(h) && fresh(h.data) && h.seed1 == seed1 && h.seed2 == seed2
      invariant h.message == Concat(pieces, n) && |hashes| == n
      invariant forall i :: 0 <= i < n ==> hashes[i] == Hash128(Concat(pieces, i + 1), seed1, seed2)
    {
      h.Update(pieces[n]);
      var hash1, hash2 := h.Final();
      hashes := hashes + [(hash1, hash2)];
    }
  }

  // ----- Hashing part of a pixmap -----

  const SEED: bv64 := 1073741789

  function RowPosition(startX: nat, startY: nat, bufferWidth: nat, y: nat): nat {
    (startY + y) * bufferWidth * 4 + startX * 4
  }

  /** The rows of the part lie in the pixmap. */
  predicate PartInside(pixmap: seq<byte>, startX: nat, startY: nat, width: nat, height: nat, bufferWidth: nat) {
    forall y :: 0 <= y < height ==> RowPosition(startX, startY, bufferWidth, y) + width * 4 <= |pixmap|
  }

  /** The first n rows of the part, one after the other. */
  function Flattened(pixmap: seq<byte>, startX: nat, startY: nat, width: nat, n: nat, bufferWidth: nat): seq<byte>
    requires PartInside(pixmap, startX, startY, width, n, bufferWidth)
  {
    if n == 0 then []
    else
      var p := RowPosition(startX, startY, bufferWidth, n - 1);
      Flattened(pixmap, startX, startY, width, n - 1, bufferWidth) + pixmap[p..p + width * 4]
  }

  function RowStart(y: nat, width: nat): nat {
    4 * (y * width)
  }

  lemma NextRowStart(y: nat, width: nat)
    ensures RowStart(0, width) == 0 && RowStart(y + 1, width) == RowStart(y, width) + 4 * width
  {
  }

  lemma {:induction false} FlattenedSize(pixmap: seq<byte>, startX: nat, startY: nat, width: nat, n: nat, bufferWidth: nat)
    requires PartInside(pixmap, startX, startY, width, n, bufferWidth)
    ensures |Flattened(pixmap, startX, startY, width, n, bufferWidth)| == RowStart(n, width)
  {
    hide RowPosition, RowStart;
    if n == 0 {
      NextRowStart(0, width);
    } else {
      FlattenedSize(pixmap, startX, startY, width, n - 1, bufferWidth);
      NextRowStart(n - 1, width);
    }
  }

  lemma {:induction false} FlattenedByte(pixmap: seq<byte>, startX: nat, startY: nat, width: nat, n: nat, bufferWidth: nat,
                                         y: nat, i: nat)
    requires PartInside(pixmap, startX, startY, width, n, bufferWidth) && y < n && i < 4 * width
    ensures var flat := Flattened(pixmap, startX, startY, width, n, bufferWidth);
      var at := RowStart(y, width) + i; var from := RowPosition(startX, startY, bufferWidth, y) + i;
      at < |flat| && from < |pixmap| && flat[at] == pixmap[from]
  {
    hide RowPosition, RowStart;
    FlattenedSize(pixmap, startX, startY, width, n - 1, bufferWidth);
    if y < n - 1 {
      FlattenedByte(pixmap, startX, startY, width, n - 1, bufferWidth, y, i);
    } else {
      var p := RowPosition(startX, startY, bufferWidth, n - 1);
      assert p + width * 4 <= |pixmap|;
      assert pixmap[p..p + width * 4][i] == pixmap[p + i];
    }
  }

  /** Byte i of row y of the part is byte i of the pixmap's row startY + y, counted
      from its pixel startX. */
  lemma FlattenedAt(pixmap: seq<byte>, startX: nat, startY: nat, width: nat, n: nat, bufferWidth: nat, y: nat, i: nat)
    requires PartInside(pixmap, startX, startY, width, n, bufferWidth) && y < n && i < 4 * width
    ensures var flat := Flattened(pixmap, startX, startY, width, n, bufferWidth);
      var at := 4 * (y * width) + i; var from := 4 * ((startY + y) * bufferWidth + startX) + i;
      |flat| == 4 * (n * width) && at < |flat| && from < |pixmap| && flat[at] == pixmap[from]
  {
    hide Flattened, PartInside;
    FlattenedSize(pixmap, startX, startY, width, n, bufferWidth);
    FlattenedByte(pixmap, startX, startY, width, n, bufferWidth, y, i);
  }

  /** Hashing row by row is hashing the flattened part; a part that is larger than
      the buffer has the invalid hash 0. */
  method HashSubBuffer(pixmap: seq<byte>, startX: nat, startY: nat, width: nat, height: nat,
                       bufferWidth: nat, bufferHeight: nat) returns (hash: bv64)
    requires PartInside(pixmap, startX, startY, width, height, bufferWidth)
    ensures hash == if bufferWidth < width || bufferHeight < height then 0
                    else Hash64(Flattened(pixmap, startX, startY, width, height, bufferWidth), 1073741789)
  {
    hide Hash128, RowPosition, Stashed;
    if bufferWidth < width || bufferHeight < height {
      return 0;
    }
    var h := new SpookyHash.Init(SEED, SEED);
    for y := 0 to height
      invariant h.Valid() && fresh(h) && fresh(h.data) && h.seed1 == SEED && h.seed2 == SEED
      invariant h.message == Flattened(pixmap, startX, startY, width, y, bufferWidth)
    {
      var position := RowPosition(startX, startY, bufferWidth, y);
      h.Update(pixmap[position..position + width * 4]);
    }
    var hash1, hash2 := h.Final();
    return hash1;
  }

  /** The end of one sequence and the start of the next, as a slice of both. */
  lemma StraddlingSlice(a: seq<byte>, b: seq<byte>, r: nat, p: nat)
    requires r <= |a| && p <= |b|
    ensures (a + b)[|a| - r..|a| - r + (r + p)] == a[|a| - r..] + b[..p]
  {
  }
}
