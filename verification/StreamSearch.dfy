/** Copying a stream up to a search string, window by window
    (`processToMatch`, `copyToMatch`, `seekToMatch`). */
module StreamSearch {
  import opened Options
  import opened Pixels

  // ----- Occurrences -----

  predicate OccursAt(s: seq<byte>, search: seq<byte>, k: nat) {
    k + |search| <= |s| && s[k..k + |search|] == search
  }

  /** The search string starts at k and nowhere before. */
  ghost predicate FirstAt(s: seq<byte>, search: seq<byte>, k: nat) {
    OccursAt(s, search, k) && forall j :: 0 <= j < k ==> !OccursAt(s, search, j)
  }

  ghost predicate Nowhere(s: seq<byte>, search: seq<byte>) {
    forall k: nat :: !OccursAt(s, search, k)
  }

  /** `string_view::find`. */
  method Find(view: seq<byte>, search: seq<byte>) returns (found: Option<nat>)
    ensures found.Some? ==> FirstAt(view, search, found.value)
    ensures found.None? ==> Nowhere(view, search)
  {
    var k := 0;
    while k + |search| <= |view|
      invariant forall j :: 0 <= j < k ==> !OccursAt(view, search, j)
    {
      if OccursAt(view, search, k) {
        return Some(k);
      }
      k := k + 1;
    }
    return None;
  }

  /** An input stream: reading short of the request ends it. */
  class InStream {
    const content: seq<byte>
    var pos: nat
    var good: bool

    ghost predicate Valid()
      reads this
    {
      pos <= |content|
    }

    constructor (content: seq<byte>)
      ensures Valid() && this.content == content && pos == 0 && good
    {
      this.content := content;
      pos, good := 0, true;
    }

    method Read(count: nat) returns (bytes: seq<byte>)
      requires Valid()
      modifies this
      ensures Valid() && old(pos) <= pos && bytes == content[old(pos)..pos]
      ensures if |content| - old(pos) >= count then |bytes| == count && good == old(good)
              else pos == |content| && !good
    {
      if |content| - pos >= count {
        bytes := content[pos..pos + count];
        pos := pos + count;
      } else {
        bytes := content[pos..];
        pos, good := |content|, false;
      }
    }

    /** Clear the end-of-file state and step back. */
    method ClearAndSeekBack(count: nat)
      requires Valid() && count <= pos
      modifies this
      ensures Valid() && good && pos == old(pos) - count
    {
      good := true;
      pos := pos - count;
    }
  }

  /** What a copying caller gets when n bytes have been passed on. */
  function Copied(copy: bool, rest: seq<byte>, n: nat): seq<byte> {
    if copy && n <= |rest| then rest[..n] else []
  }

  /** With a match, the search stopped at its first occurrence; without one, at the
      end of the stream. Everything before has been copied, and no more. */
  ghost predicate Outcome(rest: seq<byte>, search: seq<byte>, copy: bool, found: bool, stop: nat, out: seq<byte>) {
    && stop <= |rest| && out == Copied(copy, rest, stop)
    && if found then FirstAt(rest, search, stop) else stop == |rest| && Nowhere(rest, search)
  }

  /** What has been seen so far: `seen` bytes of the rest of the stream hold no
      match, all but the last `carry` of them are written, and the carry is long
      enough for a match to start in it. */
  ghost predicate Window(rest: seq<byte>, search: seq<byte>, seen: nat, carry: seq<byte>) {
    && seen <= |rest| && |carry| <= seen
    && carry == rest[seen - |carry|..seen]
    && (|carry| == |search| - 1 || |carry| == seen < |search| - 1)
    && Nowhere(rest[..seen], search)
  }

  /** A window, and everything before its carry written out. */
  ghost predicate Progress(rest: seq<byte>, search: seq<byte>, copy: bool, seen: nat, carry: seq<byte>, out: seq<byte>) {
    Window(rest, search, seen, carry) && out == Copied(copy, rest, seen - |carry|)
  }

  lemma SliceOf(s: seq<byte>, a: nat, b: nat, j: nat, n: nat)
    requires a <= j && j + n <= b <= |s|
    ensures s[a..b][j - a..j - a + n] == s[j..j + n]
  {
    var p, q := s[a..b][j - a..j - a + n], s[j..j + n];
    forall k | 0 <= k < n
      ensures p[k] == q[k]
    {
      assert p[k] == s[a..b][j - a + k] == s[j + k];
    }
  }

  lemma ExtendPrefix(s: seq<byte>, a: nat, b: nat, n: nat)
    requires a + n <= b <= |s|
    ensures s[..a] + s[a..b][..n] == s[..a + n]
  {
    SliceOf(s, a, b, a, n);
    assert s[a..b][..n] == s[a..a + n];
  }

  lemma OccursInSlice(s: seq<byte>, search: seq<byte>, a: nat, b: nat, j: nat)
    requires a <= j && j + |search| <= b <= |s|
    ensures OccursAt(s[a..b], search, j - a) <==> OccursAt(s, search, j)
  {
    SliceOf(s, a, b, j, |search|);
  }

  lemma OccursInPrefix(s: seq<byte>, search: seq<byte>, b: nat, j: nat)
    requires j + |search| <= b <= |s|
    ensures OccursAt(s[..b], search, j) <==> OccursAt(s, search, j)
  {
    assert s[0..b] == s[..b];
    OccursInSlice(s, search, 0, b, j);
  }

  /** A match in carry and new bytes together is the first of the whole stream. */
  lemma MatchInWindow(rest: seq<byte>, search: seq<byte>, seen: nat, carry: seq<byte>, more: nat, m: nat)
    requires |search| > 0 && Window(rest, search, seen, carry) && seen + more <= |rest|
    requires FirstAt(rest[seen - |carry|..seen + more], search, m)
    ensures FirstAt(rest, search, seen - |carry| + m)
  {
    hide OccursAt;
    var at := seen - |carry|;
    MatchFits(rest[at..seen + more], search, m);
    OccursInSlice(rest, search, at, seen + more, at + m);
    forall j | 0 <= j < at + m
      ensures !OccursAt(rest, search, j)
    {
      if j + |search| <= seen {
        OccursInPrefix(rest, search, seen, j);
      } else {
        OccursInSlice(rest, search, at, seen + more, j);
      }
    }
  }

  lemma MatchFits(view: seq<byte>, search: seq<byte>, k: nat)
    requires FirstAt(view, search, k)
    ensures k + |search| <= |view|
  {
  }

  /** Without a match the window moves on, keeping just enough. */
  lemma WindowMoves(rest: seq<byte>, search: seq<byte>, seen: nat, carry: seq<byte>, more: nat, keep: nat)
    requires |search| > 0 && Window(rest, search, seen, carry) && seen + more <= |rest|
    requires Nowhere(rest[seen - |carry|..seen + more], search)
    requires keep == if |search| - 1 < |carry| + more then |search| - 1 else |carry| + more
    ensures Window(rest, search, seen + more, rest[seen + more - keep..seen + more])
  {
    var next := rest[..seen + more];
    forall k: nat
      ensures !OccursAt(next, search, k)
    {
      NotInWindow(rest, search, seen, carry, more, k);
    }
  }

  lemma NotInWindow(rest: seq<byte>, search: seq<byte>, seen: nat, carry: seq<byte>, more: nat, k: nat)
    requires |search| > 0 && Window(rest, search, seen, carry) && seen + more <= |rest|
    requires Nowhere(rest[seen - |carry|..seen + more], search)
    ensures !OccursAt(rest[..seen + more], search, k)
  {
    if k + |search| <= seen + more {
      hide OccursAt;
      OccursInPrefix(rest, search, seen + more, k);
      if k + |search| <= seen {
        OccursInPrefix(rest, search, seen, k);
      } else {
        OccursInSlice(rest, search, seen - |carry|, seen + more, k);
      }
    }
  }

  /** The buffer holds the carry and the new bytes, and it continues what is written. */
  lemma BufferShape(rest: seq<byte>, search: seq<byte>, copy: bool, seen: nat, carry: seq<byte>, out: seq<byte>, bytes: seq<byte>)
    requires Progress(rest, search, copy, seen, carry, out)
    requires seen + |bytes| <= |rest| && bytes == rest[seen..seen + |bytes|]
    ensures |carry| <= seen && carry + bytes == rest[seen - |carry|..seen + |bytes|]
    ensures Window(rest, search, seen, carry) && out == Copied(copy, rest, seen - |carry|)
  {
  }

  lemma CopiedMore(copy: bool, rest: seq<byte>, a: nat, b: nat, n: nat, out: seq<byte>)
    requires a + n <= b <= |rest| && out == Copied(copy, rest, a)
    ensures Copied(copy, rest, a + n) == if copy then out + rest[a..b][..n] else out
  {
    ExtendPrefix(rest, a, b, n);
  }

  /** One window: look for a match in the carry and the new bytes; write out what
      comes before it, or what cannot be part of a later one. */
  method ScanWindow(ghost rest: seq<byte>, search: seq<byte>, ghost seen: nat, carry: seq<byte>,
                    bytes: seq<byte>, copy: bool, out: seq<byte>)
    returns (match': Option<nat>, out': seq<byte>, carry': seq<byte>)
    requires |search| > 0 && Progress(rest, search, copy, seen, carry, out)
    requires seen + |bytes| <= |rest| && bytes == rest[seen..seen + |bytes|]
    ensures match'.Some? ==>
      && 0 <= seen - |carry| + match'.value <= seen + |bytes|
      && Outcome(rest, search, copy, true, seen - |carry| + match'.value, out')
    ensures match'.None? ==> Progress(rest, search, copy, seen + |bytes|, carry', out')
  {
    hide FirstAt, Nowhere, Window, Copied;
    var overlap := |search| - 1;
    var buffer := carry + bytes;
    BufferShape(rest, search, copy, seen, carry, out, bytes);
    ghost var at, end := seen - |carry|, seen + |bytes|;
    match' := Find(buffer, search);
    out', carry' := out, carry;
    if match'.Some? {
      MatchFits(buffer, search, match'.value);
      CopiedMore(copy, rest, at, end, match'.value, out);
      if copy {
        out' := out + buffer[..match'.value];
      }
      MatchInWindow(rest, search, seen, carry, |bytes|, match'.value);
    } else {
      ghost var written := if |buffer| > overlap then |buffer| - overlap else 0;
      CopiedMore(copy, rest, at, end, written, out);
      if copy {
        var toWrite := if |buffer| > overlap then |buffer| - overlap else 0;
        out' := out + buffer[..toWrite];
      }
      var keep := if overlap < |buffer| then overlap else |buffer|;
      WindowMoves(rest, search, seen, carry, |bytes|, keep);
      carry' := buffer[|buffer| - keep..|buffer|];
      SliceOf(rest, at, end, end - keep, keep);
    }
  }

  /** Windows of any size give the same outcome, and the stream stands where the
      search stopped. */
  method ProcessToMatch(input: InStream, copy: bool, search: seq<byte>, readSize: nat)
    returns (found: bool, out: seq<byte>)
    requires input.Valid() && |search| > 0 && readSize > 0
    modifies input
    ensures input.Valid() && input.pos >= old(input.pos)
    ensures !old(input.good) ==> !found && out == [] && input.pos == old(input.pos)
    ensures old(input.good) ==>
      Outcome(input.content[old(input.pos)..], search, copy, found, input.pos - old(input.pos), out)
    ensures found ==> input.good
  {
    hide Progress, Outcome;
    ghost var rest := input.content[input.pos..];
    ghost var seen := 0;
    var carry: seq<byte> := [];
    out := [];
    EmptyWindow(rest, search, copy);
    while input.good
      invariant input.Valid() && input.pos == old(input.pos) + seen
      invariant Progress(rest, search, copy, seen, carry, out)
      invariant !input.good && old(input.good) ==> seen == |rest|
      invariant !old(input.good) ==> seen == 0 && !input.good
      decreases |input.content| - input.pos, input.good
    {
      var bytes := input.Read(readSize);
      if |bytes| == 0 {
        break;
      }
      RestSlice(input.content, old(input.pos), seen, |bytes|);
      var inBuffer := |carry| + |bytes|;
      var match';
      match', out, carry := ScanWindow(rest, search, seen, carry, bytes, copy, out);
      if match'.Some? {
        input.ClearAndSeekBack(inBuffer - match'.value);
        return true, out;
      }
      seen := seen + |bytes|;
    }
    out := WriteLeftOver(rest, search, seen, carry, copy, out);
    found := false;
  }

  /** Write what was carried for a match that never came. */
  method WriteLeftOver(ghost rest: seq<byte>, ghost search: seq<byte>, ghost seen: nat, carry: seq<byte>,
                       copy: bool, out: seq<byte>) returns (out': seq<byte>)
    requires Progress(rest, search, copy, seen, carry, out)
    ensures seen == 0 ==> out' == []
    ensures seen == |rest| ==> Outcome(rest, search, copy, false, seen, out')
  {
    hide Nowhere;
    out' := out;
    if |carry| > 0 && copy {
      assert rest[..seen - |carry|] + carry == rest[..seen];
      out' := out + carry;
    }
    assert seen == |rest| ==> rest[..seen] == rest;
  }

  lemma EmptyWindow(rest: seq<byte>, search: seq<byte>, copy: bool)
    requires |search| > 0
    ensures Progress(rest, search, copy, 0, [], [])
  {
    assert rest[..0] == [];
  }

  lemma RestSlice(content: seq<byte>, start: nat, seen: nat, n: nat)
    requires start + seen + n <= |content|
    ensures content[start..][seen..seen + n] == content[start + seen..start + seen + n]
  {
  }
}
