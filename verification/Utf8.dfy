/** Checking UTF-8 and cutting it between characters (`isValidUtf8`, `truncateUtf8`,
    `getAbbreviatedMessage`). */
module Utf8 {
  import opened Pixels

  // ----- What the check accepts -----

  predicate Continuation(b: byte) {
    b / 64 == 2
  }

  /** Length of the sequence a lead byte starts: five-byte forms pass, longer ones
      and stray continuations (0) do not. */
  function SequenceLength(lead: byte): nat {
    if lead < 0x80 then 1
    else if lead < 0xC0 then 0
    else if lead < 0xE0 then 2
    else if lead < 0xF0 then 3
    else if lead < 0xF8 then 4
    else if lead < 0xFC then 5
    else 0
  }

  /** One complete sequence at the start of s. */
  predicate StartsWithSequence(s: seq<byte>) {
    && s != []
    && 1 <= SequenceLength(s[0]) <= |s|
    && forall k :: 1 <= k < SequenceLength(s[0]) ==> Continuation(s[k])
  }

  /** A concatenation of complete sequences. */
  predicate Accepted(s: seq<byte>) {
    s == [] || (StartsWithSequence(s) && Accepted(s[SequenceLength(s[0])..]))
  }

  // ----- isValidUtf8 -----

  /** Bit k of a byte, counted from the lowest. */
  predicate Bit(b: byte, k: nat)
    requires k < 8
  {
    b / [1, 2, 4, 8, 16, 32, 64, 128][k] % 2 == 1
  }

  /** The bit loop on a lead byte: 0 when it gives up. */
  method ChunkLength(lead: byte) returns (chunkLen: nat)
    requires lead >= 0xC0
    ensures chunkLen == SequenceLength(lead)
  {
    chunkLen := 1;
    while Bit(lead, 7 - chunkLen)
      invariant 1 <= chunkLen <= 5
      invariant lead >= [0x80, 0xC0, 0xE0, 0xF0, 0xF8][chunkLen - 1]
      decreases 5 - chunkLen
    {
      if chunkLen > 4 {
        return 0;
      }
      chunkLen := chunkLen + 1;
    }
  }

  /** A rejected message: `start` is the end of its longest accepted prefix, and
      `at` is there too, or is the byte that should have continued the sequence. */
  ghost predicate RejectedAt(data: seq<byte>, start: nat, at: nat) {
    && start <= at < |data|
    && Accepted(data[..start])
    && (forall m :: start < m <= |data| ==> !Accepted(data[..m]))
    && (forall k :: start < k < at ==> Continuation(data[k]))
    && (at > start ==> !Continuation(data[at]))
  }

  lemma {:induction false} AcceptedAppends(a: seq<byte>, b: seq<byte>)
    requires Accepted(a)
    ensures Accepted(a + b) <==> Accepted(b)
  {
    if a == [] {
      assert a + b == b;
    } else {
      var n := SequenceLength(a[0]);
      AcceptedAppends(a[n..], b);
      assert (a + b)[n..] == a[n..] + b;
      assert forall k :: 1 <= k < n ==> (a + b)[k] == a[k];
    }
  }

  /** Where no sequence starts, nothing longer is accepted. */
  lemma StopsHere(data: seq<byte>, start: nat, m: nat)
    requires start < m <= |data| && Accepted(data[..start]) && !StartsWithSequence(data[start..])
    ensures !Accepted(data[..m])
  {
    var tail := data[start..m];
    assert data[..m] == data[..start] + tail;
    AcceptedAppends(data[..start], tail);
    var whole := data[start..];
    assert forall k :: 0 <= k < |tail| ==> tail[k] == whole[k];
  }

  lemma SequenceExtends(data: seq<byte>, start: nat, n: nat)
    requires start < |data| && Accepted(data[..start]) && StartsWithSequence(data[start..])
    requires n == SequenceLength(data[start])
    ensures start + n <= |data| && Accepted(data[..start + n])
  {
    var seqn := data[start..start + n];
    var whole := data[start..];
    assert forall k :: 0 <= k < n ==> seqn[k] == whole[k];
    assert Accepted(seqn[n..]);
    assert data[..start + n] == data[..start] + seqn;
    AcceptedAppends(data[..start], seqn);
  }

  /** Just past the end means accepted; otherwise where the check stopped. */
  method IsValidUtf8(data: seq<byte>) returns (offset: nat)
    ensures offset == |data| + 1 || offset < |data|
    ensures offset == |data| + 1 <==> Accepted(data)
    ensures offset < |data| ==> exists start :: RejectedAt(data, start, offset)
  {
    hide Accepted;
    AcceptedEmpty(data);
    var i := 0;
    while i < |data|
      invariant i <= |data| && Accepted(data[..i])
    {
      ghost var start := i;
      ghost var rest := data[start..];
      if data[i] >= 0x80 {
        if data[i] / 64 != 3 {
          Rejected(data, start, start);
          return i;
        }
        var chunkLen := ChunkLength(data[i]);
        if chunkLen == 0 || i + chunkLen > |data| {
          Rejected(data, start, start);
          return i;
        }
        while chunkLen > 1
          invariant 1 <= chunkLen && i + chunkLen == start + SequenceLength(data[start]) <= |data|
          invariant start <= i && forall k :: start < k <= i ==> Continuation(data[k])
        {
          i := i + 1;
          if !Continuation(data[i]) {
            Rejected(data, start, i);
            return i;
          }
          chunkLen := chunkLen - 1;
        }
      }
      assert StartsWithSequence(rest);
      SequenceExtends(data, start, i + 1 - start);
      i := i + 1;
    }
    assert data[..i] == data;
    return |data| + 1;
  }

  lemma AcceptedEmpty(data: seq<byte>)
    ensures Accepted(data[..0])
  {
  }

  lemma Rejected(data: seq<byte>, start: nat, at: nat)
    requires start <= at < |data| && Accepted(data[..start])
    requires forall k :: start < k < at ==> Continuation(data[k])
    requires at > start ==> !Continuation(data[at]) && at < start + SequenceLength(data[start])
    requires at == start ==> SequenceLength(data[start]) == 0 || start + SequenceLength(data[start]) > |data|
    ensures RejectedAt(data, start, at) && !Accepted(data)
  {
    var whole := data[start..];
    assert at > start ==> whole[at - start] == data[at];
    assert !StartsWithSequence(whole);
    forall m | start < m <= |data|
      ensures !Accepted(data[..m])
    {
      StopsHere(data, start, m);
    }
    assert data[..|data|] == data;
  }

  // ----- truncateUtf8 -----

  /** Of accepted text, the accepted prefixes are those not followed by a continuation. */
  lemma {:induction false} AcceptedPrefixes(s: seq<byte>, m: nat)
    requires Accepted(s) && m <= |s|
    ensures Accepted(s[..m]) <==> m == |s| || !Continuation(s[m])
  {
    if m == 0 {
    } else {
      var n := SequenceLength(s[0]);
      if m >= n {
        AcceptedPrefixes(s[n..], m - n);
        assert s[..m] == s[..n] + s[n..][..m - n];
        SequenceExtends(s, 0, n);
        AcceptedAppends(s[..n], s[n..][..m - n]);
      } else {
        assert s[..m][0] == s[0];
      }
    }
  }

  /** The shortest accepted prefix of at least n bytes. */
  ghost predicate ShortestAccepted(s: seq<byte>, n: nat, m: nat) {
    && n <= m <= |s| && Accepted(s[..m])
    && forall j :: n <= j < m ==> !Accepted(s[..j])
  }

  method TruncateUtf8(message: seq<byte>, abbrevLen: nat) returns (ret: seq<byte>)
    requires abbrevLen <= |message|
    ensures abbrevLen <= |ret| && ret <= message
    ensures Accepted(message) ==> ShortestAccepted(message, abbrevLen, |ret|)
    ensures forall k :: abbrevLen <= k < |ret| ==> Continuation(message[k])
    ensures |ret| < |message| ==> !Continuation(message[|ret|])
  {
    ret := message[..abbrevLen];
    var i := abbrevLen;
    while i < |message| && Continuation(message[i])
      invariant abbrevLen <= i <= |message| && ret == message[..i]
      invariant forall k :: abbrevLen <= k < i ==> Continuation(message[k])
    {
      ret := ret + [message[i]];
      i := i + 1;
    }
    if Accepted(message) {
      forall j | abbrevLen <= j <= i
        ensures Accepted(message[..j]) <==> j == i
      {
        AcceptedPrefixes(message, j);
      }
    }
  }

  // ----- Well-formed text -----

  /** The further limits of the syntax in section 4 of RFC 3629: no overlong forms,
      no surrogates, nothing above U+10FFFF. */
  predicate StartsWithCharacter(s: seq<byte>) {
    && StartsWithSequence(s)
    && s[0] != 0xC0 && s[0] != 0xC1 && s[0] <= 0xF4
    && (s[0] == 0xE0 ==> s[1] >= 0xA0) && (s[0] == 0xED ==> s[1] <= 0x9F)
    && (s[0] == 0xF0 ==> s[1] >= 0x90) && (s[0] == 0xF4 ==> s[1] <= 0x8F)
  }

  predicate WellFormed(s: seq<byte>) {
    s == [] || (StartsWithCharacter(s) && WellFormed(s[SequenceLength(s[0])..]))
  }

  /** The check accepts well-formed text, and then cutting where it accepts keeps
      the text well-formed. */
  lemma {:induction false} WellFormedPrefixes(s: seq<byte>, m: nat)
    requires WellFormed(s) && m <= |s|
    ensures Accepted(s)
    ensures WellFormed(s[..m]) <==> Accepted(s[..m])
  {
    if s != [] {
      var n := SequenceLength(s[0]);
      var head := s[..m];
      if m >= n {
        WellFormedPrefixes(s[n..], m - n);
        assert head[n..] == s[n..][..m - n];
      } else {
        WellFormedPrefixes(s[n..], 0);
      }
    }
  }

  /** What a caller would have to look for besides: bytes that start overlong forms
      or lie beyond the last character, and second bytes out of range. */
  predicate GoodAt(s: seq<byte>, i: nat)
    requires i < |s|
  {
    && s[i] != 0xC0 && s[i] != 0xC1 && s[i] <= 0xF4
    && (i + 1 < |s| ==>
        && (s[i] == 0xE0 ==> s[i + 1] >= 0xA0) && (s[i] == 0xED ==> s[i + 1] <= 0x9F)
        && (s[i] == 0xF0 ==> s[i + 1] >= 0x90) && (s[i] == 0xF4 ==> s[i + 1] <= 0x8F))
  }

  ghost predicate AllGood(s: seq<byte>) {
    forall i :: 0 <= i < |s| ==> GoodAt(s, i)
  }

  /** Accepted text is well-formed if and only if every byte is good. */
  lemma {:induction false} WellFormedIff(s: seq<byte>)
    requires Accepted(s)
    ensures WellFormed(s) <==> AllGood(s)
  {
    if s != [] {
      var n := SequenceLength(s[0]);
      var rest := s[n..];
      WellFormedIff(rest);
      SequenceIsGood(s, n);
      GoodSplits(s, n);
    }
  }

  /** In a sequence only the lead byte can be bad. */
  lemma SequenceIsGood(s: seq<byte>, n: nat)
    requires StartsWithSequence(s) && n == SequenceLength(s[0])
    ensures StartsWithCharacter(s) <==> forall i :: 0 <= i < n ==> GoodAt(s, i)
  {
    assert GoodAt(s, 0) <==> StartsWithCharacter(s);
    forall i | 1 <= i < n
      ensures GoodAt(s, i)
    {
      assert Continuation(s[i]);
    }
  }

  lemma GoodSplits(s: seq<byte>, n: nat)
    requires 0 < n <= |s|
    ensures AllGood(s) <==> AllGood(s[n..]) && forall i :: 0 <= i < n ==> GoodAt(s, i)
  {
    var rest := s[n..];
    assert forall i :: 0 <= i < |rest| ==> rest[i] == s[n + i];
    assert forall i :: 0 <= i < |rest| ==> GoodAt(rest, i) == GoodAt(s, n + i);
    assert forall i :: n <= i < |s| ==> GoodAt(s, i) == GoodAt(rest, i - n);
  }

  /** The check lets an overlong form, a surrogate, a five-byte form and a code
      beyond the last character through. */
  lemma IllFormedAccepted()
    ensures Accepted([0xC0, 0x80]) && !WellFormed([0xC0, 0x80])
    ensures Accepted([0xED, 0xA0, 0x80]) && !WellFormed([0xED, 0xA0, 0x80])
    ensures Accepted([0xF8, 0x80, 0x80, 0x80, 0x80]) && !WellFormed([0xF8, 0x80, 0x80, 0x80, 0x80])
    ensures Accepted([0xF5, 0x80, 0x80, 0x80]) && !WellFormed([0xF5, 0x80, 0x80, 0x80])
  {
    OneSequence([0xC0, 0x80]);
    OneSequence([0xED, 0xA0, 0x80]);
    OneSequence([0xF8, 0x80, 0x80, 0x80, 0x80]);
    OneSequence([0xF5, 0x80, 0x80, 0x80]);
  }

  lemma OneSequence(s: seq<byte>)
    requires StartsWithSequence(s) && |s| == SequenceLength(s[0])
    ensures Accepted(s) && (WellFormed(s) <==> StartsWithCharacter(s))
  {
    assert s[|s|..] == [];
  }

  // ----- Code points -----

  /** Every code point but the surrogates. */
  predicate Scalar(v: nat) {
    v <= 0x10FFFF && !(0xD800 <= v <= 0xDFFF)
  }

  /** The encoding of section 3 of RFC 3629. */
  function Encoded(v: nat): (s: seq<byte>)
    requires Scalar(v)
  {
    if v < 0x80 then [v as byte]
    else if v < 0x800 then [(0xC0 + v / 64) as byte, (0x80 + v % 64) as byte]
    else if v < 0x10000 then [(0xE0 + v / 4096) as byte, (0x80 + v / 64 % 64) as byte, (0x80 + v % 64) as byte]
    else [(0xF0 + v / 262144) as byte, (0x80 + v / 4096 % 64) as byte, (0x80 + v / 64 % 64) as byte, (0x80 + v % 64) as byte]
  }

  predicate Scalars(vs: seq<nat>) {
    forall i :: 0 <= i < |vs| ==> Scalar(vs[i])
  }

  function EncodedAll(vs: seq<nat>): seq<byte>
    requires Scalars(vs)
  {
    if vs == [] then [] else Encoded(vs[0]) + EncodedAll(vs[1..])
  }

  /** The code point of the first character. */
  function Decoded(s: seq<byte>): nat
    requires StartsWithCharacter(s)
  {
    var n := SequenceLength(s[0]);
    if n == 1 then s[0] as int
    else if n == 2 then (s[0] as int - 0xC0) * 64 + (s[1] as int - 0x80)
    else if n == 3 then (s[0] as int - 0xE0) * 4096 + (s[1] as int - 0x80) * 64 + (s[2] as int - 0x80)
    else (s[0] as int - 0xF0) * 262144 + (s[1] as int - 0x80) * 4096 + (s[2] as int - 0x80) * 64 + (s[3] as int - 0x80)
  }

  lemma LastDigit(q: nat, d: nat)
    requires d < 64
    ensures (q * 64 + d) / 64 == q && (q * 64 + d) % 64 == d
  {
  }

  lemma LastTwoDigits(q: nat, r: nat)
    requires r < 4096
    ensures (q * 4096 + r) / 4096 == q
  {
  }

  lemma LastThreeDigits(q: nat, r: nat)
    requires r < 262144
    ensures (q * 262144 + r) / 262144 == q
  {
  }

  /** Digits to the base 64. */
  lemma Digits(a: nat, b: nat, c: nat, d: nat)
    requires b < 64 && c < 64 && d < 64
    ensures var v := a * 262144 + b * 4096 + c * 64 + d;
      && v / 262144 == a && v / 4096 % 64 == b && v / 64 % 64 == c && v % 64 == d
      && v / 4096 == a * 64 + b && v / 64 == (a * 64 + b) * 64 + c
  {
    LastThreeDigits(a, b * 4096 + c * 64 + d);
    LastTwoDigits(a * 64 + b, c * 64 + d);
    LastDigit((a * 64 + b) * 64 + c, d);
    LastDigit(a * 64 + b, c);
    LastDigit(a, b);
  }

  /** A character is the encoding of its code point. */
  lemma CharacterIsEncoded(s: seq<byte>)
    requires StartsWithCharacter(s)
    ensures Scalar(Decoded(s)) && Encoded(Decoded(s)) == s[..SequenceLength(s[0])]
  {
    var n := SequenceLength(s[0]);
    if n > 1 {
      hide Encoded, Decoded, Scalar;
      if n == 2 {
        TwoBytes(s);
      } else if n == 3 {
        ThreeBytes(s);
      } else {
        FourBytes(s);
      }
    }
  }

  lemma TwoBytes(s: seq<byte>)
    requires StartsWithCharacter(s) && SequenceLength(s[0]) == 2
    ensures Scalar(Decoded(s)) && Encoded(Decoded(s)) == s[..2]
  {
    assert Continuation(s[1]);
    Digits(0, 0, s[0] as int - 0xC0, s[1] as int - 0x80);
  }

  lemma ThreeBytes(s: seq<byte>)
    requires StartsWithCharacter(s) && SequenceLength(s[0]) == 3
    ensures Scalar(Decoded(s)) && Encoded(Decoded(s)) == s[..3]
  {
    assert Continuation(s[1]) && Continuation(s[2]);
    Digits(0, s[0] as int - 0xE0, s[1] as int - 0x80, s[2] as int - 0x80);
  }

  lemma FourBytes(s: seq<byte>)
    requires StartsWithCharacter(s) && SequenceLength(s[0]) == 4
    ensures Scalar(Decoded(s)) && Encoded(Decoded(s)) == s[..4]
  {
    assert Continuation(s[1]) && Continuation(s[2]) && Continuation(s[3]);
    Digits(s[0] as int - 0xF0, s[1] as int - 0x80, s[2] as int - 0x80, s[3] as int - 0x80);
  }

  /** And an encoding is a character. */
  lemma EncodedIsCharacter(v: nat, rest: seq<byte>)
    requires Scalar(v)
    ensures var s := Encoded(v) + rest;
      StartsWithCharacter(s) && SequenceLength(s[0]) == |Encoded(v)| && s[|Encoded(v)|..] == rest
  {
    var e := Encoded(v);
    var s := e + rest;
    EncodedShape(v);
    hide Encoded;
    assert forall k :: 0 <= k < |e| ==> s[k] == e[k];
  }

  lemma EncodedShape(v: nat)
    requires Scalar(v)
    ensures StartsWithCharacter(Encoded(v)) && SequenceLength(Encoded(v)[0]) == |Encoded(v)|
  {
  }

  lemma {:induction false} EncodedIsWellFormed(vs: seq<nat>)
    requires Scalars(vs)
    ensures WellFormed(EncodedAll(vs))
  {
    hide StartsWithCharacter, Encoded;
    if vs != [] {
      EncodedIsWellFormed(vs[1..]);
      EncodedIsCharacter(vs[0], EncodedAll(vs[1..]));
    }
  }

  lemma {:induction false} WellFormedIsEncoded(s: seq<byte>) returns (vs: seq<nat>)
    requires WellFormed(s)
    ensures Scalars(vs) && EncodedAll(vs) == s
  {
    hide *;
    if s == [] {
      vs := [];
      NothingEncoded();
    } else {
      var n := FirstCharacter(s);
      var rest := WellFormedIsEncoded(s[n..]);
      CharacterIsEncoded(s);
      vs := [Decoded(s)] + rest;
      EncodedCons(Decoded(s), rest);
    }
  }

  lemma NothingEncoded()
    ensures Scalars([]) && EncodedAll([]) == []
  {
  }

  lemma FirstCharacter(s: seq<byte>) returns (n: nat)
    requires WellFormed(s) && s != []
    ensures StartsWithCharacter(s) && n == SequenceLength(s[0]) && 0 < n <= |s|
    ensures WellFormed(s[n..]) && s[..n] + s[n..] == s
  {
    n := SequenceLength(s[0]);
  }

  lemma EncodedCons(v: nat, rest: seq<nat>)
    requires Scalar(v) && Scalars(rest)
    ensures Scalars([v] + rest) && EncodedAll([v] + rest) == Encoded(v) + EncodedAll(rest)
  {
    hide Encoded, Scalar;
    assert ([v] + rest)[1..] == rest;
  }

  /** Text is well-formed if and only if it is the encoding of some code points. */
  lemma WellFormedIffEncoded(s: seq<byte>)
    ensures WellFormed(s) <==> exists vs :: Scalars(vs) && EncodedAll(vs) == s
  {
    hide WellFormed, EncodedAll;
    if WellFormed(s) {
      var vs := WellFormedIsEncoded(s);
    }
    forall vs | Scalars(vs) && EncodedAll(vs) == s
      ensures WellFormed(s)
    {
      EncodedIsWellFormed(vs);
    }
  }

  // ----- getAbbreviatedMessage -----

  const NEWLINE: byte := 10
  const ELLIPSIS: seq<byte> := [46, 46, 46]
  const MAX_NON_ABBREVIATED := 500

  /** The first line, as far as the limit. */
  ghost predicate IsSpan(message: seq<byte>, n: nat) {
    && n <= |message| && n <= MAX_NON_ABBREVIATED
    && NEWLINE !in message[..n]
    && (n < |message| && n < MAX_NON_ABBREVIATED ==> message[n] == NEWLINE)
  }

  method GetDelimiterPosition(message: seq<byte>, length: nat, delim: byte) returns (n: nat)
    requires length <= |message|
    ensures n <= length && delim !in message[..n] && (n < length ==> message[n] == delim)
  {
    n := 0;
    while n < length && message[n] != delim
      invariant n <= length && delim !in message[..n]
    {
      assert message[..n + 1] == message[..n] + [message[n]];
      n := n + 1;
    }
  }

  /** Nothing but perhaps a final newline follows the span. */
  predicate NothingMore(message: seq<byte>, n: nat) {
    n == |message| || (n == |message| - 1 && message[n] == NEWLINE)
  }

  method ShouldEllipse(message: seq<byte>, spanLen: nat) returns (yes: bool)
    requires spanLen <= |message|
    ensures yes == !NothingMore(message, spanLen)
  {
    if spanLen == |message| {
      return false;
    }
    if spanLen < |message| - 1 {
      return true;
    }
    return message[|message| - 1] != NEWLINE;
  }

  /** The ellipsis follows the shortest prefix that holds the span and splits no
      sequence, so accepted messages have accepted abbreviations. */
  method GetAbbreviatedMessage(message: seq<byte>) returns (ret: seq<byte>, ghost span: nat, ghost shown: nat)
    ensures IsSpan(message, span) && span <= shown <= |message|
    ensures NothingMore(message, span) ==> ret == message[..span]
    ensures !NothingMore(message, span) ==> ret == message[..shown] + [46, 46, 46]
    ensures !NothingMore(message, span) && Accepted(message) ==> ShortestAccepted(message, span, shown)
    ensures Accepted(message) ==> Accepted(ret) && |ret| <= MAX_NON_ABBREVIATED + 7
  {
    hide Accepted;
    var limit := if |message| < MAX_NON_ABBREVIATED then |message| else MAX_NON_ABBREVIATED;
    var spanLen := GetDelimiterPosition(message, limit, NEWLINE);
    span, shown := spanLen, spanLen;
    var ellipse := ShouldEllipse(message, spanLen);
    if ellipse {
      var cut := TruncateUtf8(message, spanLen);
      shown := |cut|;
      ret := cut + ELLIPSIS;
      assert cut == message[..shown];
      if Accepted(message) {
        AsciiAppends(cut);
        var near := CutNear(message, span);
      }
    } else {
      ret := message[..spanLen];
      if Accepted(message) {
        AcceptedPrefixes(message, spanLen);
        assert spanLen < |message| ==> !Continuation(message[spanLen]);
      }
    }
  }

  lemma AsciiAppends(s: seq<byte>)
    requires Accepted(s)
    ensures Accepted(s + ELLIPSIS)
  {
    AcceptedAppends(s, ELLIPSIS);
    assert ELLIPSIS[1..] == [46, 46] && ELLIPSIS[1..][1..] == [46] && ELLIPSIS[1..][1..][1..] == [];
  }

  /** Within four bytes a sequence ends. */
  lemma {:induction false} CutNear(s: seq<byte>, n: nat) returns (j: nat)
    requires Accepted(s) && n <= |s|
    ensures n <= j <= n + 4 && j <= |s| && Accepted(s[..j])
    decreases |s|
  {
    if n == 0 {
      return 0;
    }
    var k := SequenceLength(s[0]);
    SequenceExtends(s, 0, k);
    if n <= k {
      return k;
    }
    var rest := s[k..];
    var i := CutNear(rest, n - k);
    assert s[..k + i] == s[..k] + rest[..i];
    AcceptedAppends(s[..k], rest[..i]);
    return k + i;
  }

  /** The ellipsis stands for something left out unless the limit falls inside
      the message's last sequence. */
  lemma EllipsisOmits(message: seq<byte>, span: nat, shown: nat)
    requires Accepted(message) && IsSpan(message, span) && !NothingMore(message, span)
    requires ShortestAccepted(message, span, shown)
    ensures shown == |message| <==> forall k :: span <= k < |message| ==> Continuation(message[k])
  {
    forall j | span <= j <= |message|
      ensures Accepted(message[..j]) <==> j == |message| || !Continuation(message[j])
    {
      AcceptedPrefixes(message, j);
    }
  }

  /** 499 letters and a two-byte character: all of it is shown, and then an ellipsis. */
  lemma EllipsisOfNothing(message: seq<byte>)
    requires |message| == 501 && (forall i :: 0 <= i < 499 ==> message[i] == 97) && message[499..] == [0xC3, 0xA9]
    ensures Accepted(message) && IsSpan(message, 500) && !NothingMore(message, 500)
    ensures ShortestAccepted(message, 500, |message|)
  {
    LettersAccepted(message[..499]);
    var last := message[499..];
    assert message == message[..499] + last;
    AcceptedAppends(message[..499], last);
    assert last[2..] == [];
    assert message[499] == last[0] && message[500] == last[1];
    AcceptedPrefixes(message, 500);
    assert message[..501] == message;
  }

  lemma {:induction false} LettersAccepted(s: seq<byte>)
    requires forall i :: 0 <= i < |s| ==> s[i] == 97
    ensures Accepted(s)
  {
    if s != [] {
      LettersAccepted(s[1..]);
    }
  }
}
