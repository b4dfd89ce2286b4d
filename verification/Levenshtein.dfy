/** Edit distance (`getLevenshteinDist`). */
module Levenshtein {

  function Min(a: nat, b: nat): nat {
    if a < b then a else b
  }

  function Init(s: string): string
    requires s != []
  {
    s[..|s| - 1]
  }

  function Last(s: string): char
    requires s != []
  {
    s[|s| - 1]
  }

  /** The recurrence of the table: equal last characters skip the minimum. */
  function Dist(a: string, b: string): nat
    decreases |a| + |b|
  {
    if a == [] then |b|
    else if b == [] then |a|
    else if Last(a) == Last(b) then Dist(Init(a), Init(b))
    else 1 + Min(Min(Dist(a, Init(b)), Dist(Init(a), b)), Dist(Init(a), Init(b)))
  }

  method GetLevenshteinDist(string1: string, string2: string) returns (dist: nat)
    ensures dist == Dist(string1, string2)
  {
    hide *;
    var matrix := new nat[|string1| + 1, |string2| + 1];
    for i := 0 to |string1| + 1
      invariant forall k, l :: 0 <= k < i && 0 <= l <= |string2| ==> matrix[k, l] == PrefixDist(string1, string2, k, l)
    {
      for j := 0 to |string2| + 1
        invariant forall k, l :: 0 <= k < i && 0 <= l <= |string2| ==> matrix[k, l] == PrefixDist(string1, string2, k, l)
        invariant forall l :: 0 <= l < j ==> matrix[i, l] == PrefixDist(string1, string2, i, l)
      {
        CellValue(string1, string2, i, j);
        if i == 0 {
          matrix[i, j] := j;
        } else if j == 0 {
          matrix[i, j] := i;
        } else {
          if string1[i - 1] == string2[j - 1] {
            matrix[i, j] := matrix[i - 1, j - 1];
          } else {
            matrix[i, j] := 1 + Min(Min(matrix[i, j - 1], matrix[i - 1, j]), matrix[i - 1, j - 1]);
          }
        }
      }
    }
    WholeDist(string1, string2);
    dist := matrix[|string1|, |string2|];
  }

  function PrefixDist(a: string, b: string, i: nat, j: nat): nat
    requires i <= |a| && j <= |b|
  {
    Dist(a[..i], b[..j])
  }

  lemma CellValue(a: string, b: string, i: nat, j: nat)
    requires i <= |a| && j <= |b|
    ensures PrefixDist(a, b, i, j)
      == if i == 0 then j
         else if j == 0 then i
         else if a[i - 1] == b[j - 1] then PrefixDist(a, b, i - 1, j - 1)
         else 1 + Min(Min(PrefixDist(a, b, i, j - 1), PrefixDist(a, b, i - 1, j)), PrefixDist(a, b, i - 1, j - 1))
  {
    if i > 0 && j > 0 {
      Prefixes(a, b, i, j);
    }
  }

  lemma WholeDist(a: string, b: string)
    ensures PrefixDist(a, b, |a|, |b|) == Dist(a, b)
  {
    assert a[..|a|] == a && b[..|b|] == b;
  }

  lemma Prefixes(a: string, b: string, i: nat, j: nat)
    requires 0 < i <= |a| && 0 < j <= |b|
    ensures Init(a[..i]) == a[..i - 1] && Last(a[..i]) == a[i - 1]
    ensures Init(b[..j]) == b[..j - 1] && Last(b[..j]) == b[j - 1]
  {
  }

  // ----- The recurrence takes the minimum after all -----

  function Cost(a: string, b: string): nat
    requires a != [] && b != []
  {
    if Last(a) == Last(b) then 0 else 1
  }

  /** Dropping the last character of one string changes the distance by at most
      one. */
  lemma {:induction false} DropOne(a: string, b: string)
    ensures a != [] ==> Dist(a, b) <= Dist(Init(a), b) + 1 && Dist(Init(a), b) <= Dist(a, b) + 1
    ensures b != [] ==> Dist(a, b) <= Dist(a, Init(b)) + 1 && Dist(a, Init(b)) <= Dist(a, b) + 1
    decreases |a| + |b|
  {
    if a != [] && b != [] {
      DropOne(Init(a), b);
      DropOne(a, Init(b));
      DropOne(Init(a), Init(b));
    }
  }

  /** Skipping the minimum on equal characters never misses a better choice. */
  lemma IsMinimum(a: string, b: string)
    requires a != [] && b != []
    ensures Dist(a, b) == Min(Min(1 + Dist(a, Init(b)), 1 + Dist(Init(a), b)), Cost(a, b) + Dist(Init(a), Init(b)))
  {
    hide Dist, Init, Last;
    DropOne(a, Init(b));
    DropOne(Init(a), b);
    Recurrence(a, b);
  }

  lemma Recurrence(a: string, b: string)
    requires a != [] && b != []
    ensures Last(a) == Last(b) ==> Dist(a, b) == Dist(Init(a), Init(b))
    ensures Last(a) != Last(b) ==>
      Dist(a, b) == 1 + Min(Min(Dist(a, Init(b)), Dist(Init(a), b)), Dist(Init(a), Init(b)))
  {
  }

  // ----- A metric -----

  lemma {:induction false} ZeroIffEqual(a: string, b: string)
    ensures Dist(a, b) == 0 <==> a == b
    decreases |a| + |b|
  {
    if a != [] && b != [] {
      assert a == Init(a) + [Last(a)] && b == Init(b) + [Last(b)];
      ZeroIffEqual(Init(a), Init(b));
    }
  }

  lemma {:induction false} Symmetric(a: string, b: string)
    ensures Dist(a, b) == Dist(b, a)
    decreases |a| + |b|
  {
    if a != [] && b != [] {
      Symmetric(a, Init(b));
      Symmetric(Init(a), b);
      Symmetric(Init(a), Init(b));
    }
  }

  lemma {:induction false} LengthBound(a: string, b: string)
    ensures |a| <= |b| + Dist(a, b) && |b| <= |a| + Dist(a, b) && Dist(a, b) <= |a| + |b|
    decreases |a| + |b|
  {
    if a != [] && b != [] {
      LengthBound(a, Init(b));
      LengthBound(Init(a), b);
      LengthBound(Init(a), Init(b));
    }
  }

  lemma {:induction false} Triangle(a: string, b: string, c: string)
    ensures Dist(a, c) <= Dist(a, b) + Dist(b, c)
    decreases |a| + |b| + |c|
  {
    hide Dist;
    LengthBound(a, b);
    LengthBound(b, c);
    LengthBound(a, c);
    if a != [] && b != [] && c != [] {
      IsMinimum(a, b);
      IsMinimum(b, c);
      IsMinimum(a, c);
      Triangle(Init(a), b, c);
      Triangle(a, b, Init(c));
      Triangle(a, Init(b), c);
      Triangle(a, Init(b), Init(c));
      Triangle(Init(a), Init(b), c);
      Triangle(Init(a), Init(b), Init(c));
    }
  }

  // ----- The minimum over all edit scripts -----

  /** One insertion, deletion or substitution anywhere. */
  ghost predicate OneEdit(s: string, t: string) {
    || (exists i, c :: 0 <= i <= |s| && t == Inserted(s, i, c))
    || (exists i :: 0 <= i < |s| && t == Deleted(s, i))
    || (exists i, c :: 0 <= i < |s| && t == Substituted(s, i, c))
  }

  function Inserted(s: string, i: nat, c: char): string
    requires i <= |s|
  {
    s[..i] + [c] + s[i..]
  }

  function Deleted(s: string, i: nat): string
    requires i < |s|
  {
    s[..i] + s[i + 1..]
  }

  function Substituted(s: string, i: nat, c: char): string
    requires i < |s|
  {
    s[i := c]
  }

  /** A script: the strings on the way from s to t, one edit apart. */
  ghost predicate IsScript(p: seq<string>, s: string, t: string) {
    && |p| > 0 && p[0] == s && p[|p| - 1] == t
    && forall i :: 0 <= i < |p| - 1 ==> OneEdit(p[i], p[i + 1])
  }

  /** Appending the same suffix changes no distance. */
  lemma {:induction false} SameSuffix(a: string, b: string, w: string)
    ensures Dist(a + w, b + w) == Dist(a, b)
    decreases |w|
  {
    if w == [] {
      assert a + w == a && b + w == b;
    } else {
      assert Init(a + w) == a + Init(w) && Init(b + w) == b + Init(w);
      SameSuffix(a, b, Init(w));
    }
  }

  lemma OneLetter(x: string, c: char, d: char)
    ensures Dist(x, x + [c]) <= 1 && Dist(x + [c], x) <= 1 && Dist(x + [c], x + [d]) <= 1
  {
    hide Dist;
    assert Init(x + [c]) == x && Init(x + [d]) == x;
    ZeroIffEqual(x, x);
    DropOne(x, x + [c]);
    DropOne(x + [c], x);
    IsMinimum(x + [c], x + [d]);
  }

  lemma OneEditCostsOne(s: string, t: string)
    requires OneEdit(s, t)
    ensures Dist(s, t) <= 1
  {
    hide Dist;
    if i, c :| 0 <= i <= |s| && t == Inserted(s, i, c) {
      assert s == s[..i] + s[i..];
      SameSuffix(s[..i], s[..i] + [c], s[i..]);
      OneLetter(s[..i], c, c);
    } else if i :| 0 <= i < |s| && t == Deleted(s, i) {
      assert s == (s[..i] + [s[i]]) + s[i + 1..];
      SameSuffix(s[..i] + [s[i]], s[..i], s[i + 1..]);
      OneLetter(s[..i], s[i], s[i]);
    } else {
      var i, c :| 0 <= i < |s| && t == Substituted(s, i, c);
      var x, y := s[..i] + [s[i]], s[..i] + [c];
      assert s == x + s[i + 1..] && t == y + s[i + 1..];
      SameSuffix(x, y, s[i + 1..]);
      OneLetter(s[..i], s[i], c);
    }
  }

  /** No script is shorter than the distance. */
  lemma {:induction false} NoShorterScript(p: seq<string>, s: string, t: string)
    requires IsScript(p, s, t)
    ensures |p| - 1 >= Dist(s, t)
  {
    if |p| == 1 {
      ZeroIffEqual(s, t);
    } else {
      var n := |p| - 1;
      NoShorterScript(p[..n], s, p[n - 1]);
      OneEditCostsOne(p[n - 1], p[n]);
      Triangle(s, p[n - 1], t);
    }
  }

  lemma EditUnderSuffix(s: string, t: string, c: char)
    requires OneEdit(s, t)
    ensures OneEdit(s + [c], t + [c])
  {
    if i, x :| 0 <= i <= |s| && t == Inserted(s, i, x) {
      assert t + [c] == Inserted(s + [c], i, x);
    } else if i :| 0 <= i < |s| && t == Deleted(s, i) {
      assert t + [c] == Deleted(s + [c], i);
    } else {
      var i, x :| 0 <= i < |s| && t == Substituted(s, i, x);
      assert t + [c] == Substituted(s + [c], i, x);
    }
  }

  lemma ScriptUnderSuffix(p: seq<string>, s: string, t: string, c: char) returns (q: seq<string>)
    requires IsScript(p, s, t)
    ensures IsScript(q, s + [c], t + [c]) && |q| == |p|
  {
    q := seq(|p|, i requires 0 <= i < |p| => p[i] + [c]);
    forall i | 0 <= i < |q| - 1
      ensures OneEdit(q[i], q[i + 1])
    {
      EditUnderSuffix(p[i], p[i + 1], c);
    }
  }

  lemma ThenEdit(p: seq<string>, s: string, t: string, u: string)
    requires IsScript(p, s, t) && OneEdit(t, u)
    ensures IsScript(p + [u], s, u)
  {
    hide OneEdit;
  }

  lemma EditThen(p: seq<string>, s: string, t: string, u: string)
    requires IsScript(p, t, u) && OneEdit(s, t)
    ensures IsScript([s] + p, s, u)
  {
    hide OneEdit;
    var q := [s] + p;
    forall i | 0 <= i < |q| - 1
      ensures OneEdit(q[i], q[i + 1])
    {
      if i > 0 {
        assert q[i] == p[i - 1] && q[i + 1] == p[i];
      }
    }
  }

  lemma InsertLast(t: string)
    requires t != []
    ensures OneEdit(Init(t), t) && OneEdit(t, Init(t))
  {
    assert t == Inserted(Init(t), |t| - 1, Last(t));
    assert Init(t) == Deleted(t, |t| - 1);
  }

  lemma SubstituteLast(t: string, c: char)
    requires t != []
    ensures OneEdit(Init(t) + [c], t)
  {
    assert t == Substituted(Init(t) + [c], |t| - 1, Last(t));
  }

  lemma AgainstEmpty(s: string)
    ensures Dist(s, []) == |s| == Dist([], s)
  {
  }

  /** Some script has exactly that length. */
  lemma {:induction false} ShortestScript(s: string, t: string) returns (p: seq<string>)
    ensures IsScript(p, s, t) && |p| - 1 == Dist(s, t)
    decreases |s| + |t|
  {
    hide Dist, OneEdit, IsScript;
    AgainstEmpty(s);
    AgainstEmpty(t);
    if s != [] && t != [] {
      Recurrence(s, t);
    }
    if s == [] && t == [] {
      p := OnlyStep(s);
    } else if s == [] || (t != [] && Last(s) != Last(t) && Dist(s, t) == 1 + Dist(s, Init(t))) {
      p := ShortestScript(s, Init(t));
      AgainstEmpty(Init(t));
      InsertLast(t);
      ThenEdit(p, s, Init(t), t);
      p := p + [t];
    } else if t == [] || (Last(s) != Last(t) && Dist(s, t) == 1 + Dist(Init(s), t)) {
      p := ShortestScript(Init(s), t);
      AgainstEmpty(Init(s));
      InsertLast(s);
      EditThen(p, s, Init(s), t);
      p := [s] + p;
    } else {
      p := ShortestScript(Init(s), Init(t));
      p := ScriptUnderSuffix(p, Init(s), Init(t), Last(s));
      assert s == Init(s) + [Last(s)] && t == Init(t) + [Last(t)];
      if Last(s) != Last(t) {
        SubstituteLast(t, Last(s));
        ThenEdit(p, s, Init(t) + [Last(s)], t);
        p := p + [t];
      }
    }
  }

  lemma OnlyStep(s: string) returns (p: seq<string>)
    ensures p == [s] && IsScript(p, s, s)
  {
    p := [s];
  }
}
