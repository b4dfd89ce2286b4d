/** Splitting protocol text into tokens and joining it again (`StringVector`,
    `splitStringToVector`). */
module Tokens {
  import opened Sequences

  /** Offset and length of a piece of the text. */
  datatype StringToken = StringToken(index: nat, length: nat)

  datatype StringVector = StringVector(text: string, tokens: seq<StringToken>)

  // ----- The runs between delimiters -----

  /** A maximal stretch without delimiters. */
  ghost predicate IsRun(s: string, d: char, t: StringToken) {
    && t.length > 0 && t.index + t.length <= |s|
    && d !in s[t.index..t.index + t.length]
    && (t.index > 0 ==> s[t.index - 1] == d)
    && (t.index + t.length < |s| ==> s[t.index + t.length] == d)
  }

  ghost predicate InOrder(tokens: seq<StringToken>) {
    forall i, j :: 0 <= i < j < |tokens| ==> tokens[i].index < tokens[j].index
  }

  /** All the maximal runs, each once, from left to right. */
  ghost predicate AllRuns(s: string, d: char, tokens: seq<StringToken>) {
    InOrder(tokens) && forall t :: t in tokens <==> IsRun(s, d, t)
  }

  /** Where the delimiter first occurs from `at` on, or the end. */
  function FirstOf(s: string, d: char, at: nat): (e: nat)
    requires at <= |s|
    ensures at <= e <= |s| && d !in s[at..e] && (e < |s| ==> s[e] == d)
    decreases |s| - at
  {
    if at == |s| || s[at] == d then at else
      var e := FirstOf(s, d, at + 1);
      assert s[at..e] == [s[at]] + s[at + 1..e];
      e
  }

  function RunsFrom(s: string, d: char, at: nat): seq<StringToken>
    requires at <= |s|
    decreases |s| - at
  {
    if at == |s| then []
    else if s[at] == d then RunsFrom(s, d, at + 1)
    else
      var e := FirstOf(s, d, at);
      [StringToken(at, e - at)] + RunsFrom(s, d, e)
  }

  predicate Inside(tokens: seq<StringToken>, at: nat, n: nat) {
    forall i :: 0 <= i < |tokens| ==> at <= tokens[i].index && tokens[i].index + tokens[i].length <= n
  }

  lemma {:induction false} RunsInside(s: string, d: char, at: nat)
    requires at <= |s|
    ensures Inside(RunsFrom(s, d, at), at, |s|)
    decreases |s| - at
  {
    if at < |s| {
      if s[at] == d {
        RunsInside(s, d, at + 1);
      } else {
        var e := FirstOf(s, d, at);
        RunsInside(s, d, e);
        assert Inside([StringToken(at, e - at)] + RunsFrom(s, d, e), at, |s|);
      }
    }
  }

  function Runs(s: string, d: char): seq<StringToken> {
    RunsFrom(s, d, 0)
  }

  lemma FirstOfUnique(s: string, d: char, at: nat, e: nat)
    requires at <= e <= |s| && d !in s[at..e] && (e < |s| ==> s[e] == d)
    ensures FirstOf(s, d, at) == e
  {
    var _ := FirstOf(s, d, at);
  }

  lemma RunEnds(s: string, d: char, t: StringToken)
    requires IsRun(s, d, t)
    ensures FirstOf(s, d, t.index) == t.index + t.length && s[t.index] != d
  {
    FirstOfUnique(s, d, t.index, t.index + t.length);
    assert s[t.index..t.index + t.length][0] == s[t.index];
  }

  /** `RunsFrom` lists exactly the maximal runs at or after a place where one can start. */
  lemma {:induction false} RunsFromAreAll(s: string, d: char, at: nat)
    requires at <= |s| && (0 < at < |s| ==> s[at - 1] == d || s[at] == d)
    ensures InOrder(RunsFrom(s, d, at))
    ensures forall t :: t in RunsFrom(s, d, at) <==> IsRun(s, d, t) && t.index >= at
    decreases |s| - at
  {
    if at < |s| {
      if s[at] == d {
        RunsFromAreAll(s, d, at + 1);
        forall t | IsRun(s, d, t) && t.index >= at
          ensures t.index >= at + 1
        {
          RunEnds(s, d, t);
        }
      } else {
        RunFirst(s, d, at);
      }
    }
  }

  lemma {:induction false} RunFirst(s: string, d: char, at: nat)
    requires at < |s| && (0 < at ==> s[at - 1] == d) && s[at] != d
    ensures InOrder(RunsFrom(s, d, at))
    ensures forall t :: t in RunsFrom(s, d, at) <==> IsRun(s, d, t) && t.index >= at
    decreases |s| - at, 0
  {
    hide IsRun;
    var e := FirstOf(s, d, at);
    var first := StringToken(at, e - at);
    var others := RunsFrom(s, d, e);
    assert s[at] in s[at..at + 1];
    assert e > at;
    RunsFromAreAll(s, d, e);
    assert RunsFrom(s, d, at) == [first] + others;
    OrderedCons(first, others);
    hide InOrder, RunsFrom, FirstOf;
    forall t
      ensures t in RunsFrom(s, d, at) <==> IsRun(s, d, t) && t.index >= at
    {
      NextRun(s, d, at, e, t);
    }
  }

  lemma OrderedCons(first: StringToken, others: seq<StringToken>)
    requires InOrder(others) && forall i :: 0 <= i < |others| ==> first.index < others[i].index
    ensures InOrder([first] + others)
  {
  }

  lemma NextRun(s: string, d: char, at: nat, e: nat, t: StringToken)
    requires at < e <= |s| && (0 < at ==> s[at - 1] == d) && e == FirstOf(s, d, at)
    ensures IsRun(s, d, t) && t.index >= at <==> t == StringToken(at, e - at) || (IsRun(s, d, t) && t.index >= e)
  {
    if IsRun(s, d, t) && t.index >= at {
      RunEnds(s, d, t);
    }
  }

  /** There is just one such list. */
  lemma {:induction false} OneList(a: seq<StringToken>, b: seq<StringToken>)
    requires InOrder(a) && InOrder(b) && forall t :: t in a <==> t in b
    ensures a == b
  {
    NotEmpty(a, b);
    NotEmpty(b, a);
    if a != [] {
      assert a[0] in b && b[0] in a;
      Least(a, b[0]);
      Least(b, a[0]);
      SameHead(a, b);
      SameHead(b, a);
      OneList(a[1..], b[1..]);
    }
  }

  lemma NotEmpty(a: seq<StringToken>, b: seq<StringToken>)
    requires forall t :: t in a ==> t in b
    ensures a != [] ==> b != []
  {
    if a != [] {
      assert a[0] in b;
    }
  }

  lemma Least(a: seq<StringToken>, t: StringToken)
    requires InOrder(a) && t in a
    ensures a[0] == t || a[0].index < t.index
  {
  }

  lemma SameHead(a: seq<StringToken>, b: seq<StringToken>)
    requires InOrder(a) && InOrder(b) && a != [] && b != [] && a[0] == b[0]
    requires forall t :: t in a ==> t in b
    ensures forall t :: t in a[1..] ==> t in b[1..]
  {
    forall t | t in a[1..]
      ensures t in b[1..]
    {
      var i :| 0 <= i < |a| - 1 && a[1..][i] == t;
      assert a[0].index < a[i + 1].index;
      assert t in a;
      var j :| 0 <= j < |b| && b[j] == t;
      assert b[1..][j - 1] == t;
    }
  }

  lemma RunsAreExactly(s: string, d: char, tokens: seq<StringToken>)
    ensures AllRuns(s, d, tokens) <==> tokens == Runs(s, d)
  {
    RunsFromAreAll(s, d, 0);
    if AllRuns(s, d, tokens) {
      OneList(tokens, Runs(s, d));
    }
  }

  // ----- tokenize -----

  /** The text before the first newline. */
  function Line(text: string): string {
    text[..FirstOf(text, '\n', 0)]
  }

  lemma LineBefore(text: string)
    ensures |Line(text)| <= |text| && Line(text) == text[..|Line(text)|] && '\n' !in Line(text)
    ensures |Line(text)| < |text| ==> text[|Line(text)|] == '\n'
  {
    var e := FirstOf(text, '\n', 0);
    assert text[0..e] == text[..e];
  }

  /** A loop that stops at the first newline walks the line. */
  lemma InLine(text: string, start: nat, i: nat)
    requires start <= i <= |Line(text)|
    ensures i <= |text|
    ensures i < |Line(text)| <==> i < |text| && text[i] != '\n'
    ensures i < |Line(text)| ==> Line(text)[i] == text[i]
    ensures start < |Line(text)| ==> start < |text| && Line(text)[start] == text[start] && text[start] != '\n'
  {
    LineBefore(text);
    assert start < |Line(text)| ==> Line(text)[start] in Line(text);
    assert i < |Line(text)| ==> Line(text)[i] in Line(text);
  }

  /** What tokenizing gives: nothing for text starting with NUL, else the runs of
      the first line. */
  function Tokenized(text: string, d: char): seq<StringToken>
  {
    if text == "" || text[0] == '\0' then [] else Runs(Line(text), d)
  }

  /** What the two tokenizing loops keep: `start` is on a run, or on the delimiter before i. */
  ghost predicate Scanning(line: string, d: char, start: nat, i: nat) {
    && start <= i <= |line|
    && (start == i ==> i == 0)
    && (start < i && line[start] != d ==> d !in line[start..i])
    && (start < i && line[start] == d ==> start == i - 1)
  }

  lemma ScanStart(line: string, d: char)
    ensures Scanning(line, d, 0, 0)
  {
  }

  /** On a delimiter the scan moves `start` there, past the run if it stood on one. */
  lemma ScanDelimiter(line: string, d: char, start: nat, i: nat)
    requires Scanning(line, d, start, i) && i < |line| && line[i] == d
    ensures Scanning(line, d, i, i + 1)
    ensures RunsFrom(line, d, start)
      == (if start != i && line[start] != d then [StringToken(start, i - start)] else []) + RunsFrom(line, d, i)
  {
    if start != i && line[start] != d {
      FirstOfUnique(line, d, start, i);
    }
  }

  /** Elsewhere it steps over a delimiter, if it stood on one. */
  lemma ScanOther(line: string, d: char, start: nat, i: nat)
    requires Scanning(line, d, start, i) && i < |line| && line[i] != d
    ensures line[start] == d ==> Scanning(line, d, start + 1, i + 1) && RunsFrom(line, d, start) == RunsFrom(line, d, start + 1)
    ensures line[start] != d ==> Scanning(line, d, start, i + 1)
  {
    if line[start] != d {
      assert line[start..i + 1] == line[start..i] + [line[i]];
    } else {
      assert line[start + 1..i + 1] == [line[i]];
    }
  }

  lemma ScanEnd(line: string, d: char, start: nat)
    requires Scanning(line, d, start, |line|)
    ensures RunsFrom(line, d, start)
      == if start != |line| && line[start] != d then [StringToken(start, |line| - start)] else []
  {
    if start != |line| {
      if line[start] != d {
        FirstOfUnique(line, d, start, |line|);
        assert RunsFrom(line, d, |line|) == [];
      } else {
        assert RunsFrom(line, d, start + 1) == [];
      }
    }
  }

  method Tokenize(data: string, delimiter: char) returns (tokens: seq<StringToken>)
    ensures tokens == Tokenized(data, delimiter)
  {
    hide Scanning, RunsFrom, Line;
    tokens := [];
    if |data| == 0 || data[0] == '\0' {
      return;
    }
    ghost var line := Line(data);
    var start, i := 0, 0;
    ScanStart(line, delimiter);
    while i < |data| && data[i] != '\n'
      invariant start <= i <= |line| && Scanning(line, delimiter, start, i)
      invariant tokens + RunsFrom(line, delimiter, start) == Runs(line, delimiter)
    {
      InLine(data, start, i);
      if data[i] == delimiter {
        ScanDelimiter(line, delimiter, start, i);
        if start != i && data[start] != delimiter {
          tokens := tokens + [StringToken(start, i - start)];
        }
        start := i;
      } else {
        ScanOther(line, delimiter, start, i);
        if data[start] == delimiter {
          start := start + 1;
        }
      }
      i := i + 1;
    }
    InLine(data, start, i);
    ScanEnd(line, delimiter, start);
    if start != i && data[start] != delimiter && data[start] != '\n' {
      tokens := tokens + [StringToken(start, i - start)];
    }
  }

  // ----- tokenize_foreach -----

  function Text(text: string, t: StringToken): string {
    if t.index + t.length <= |text| then text[t.index..t.index + t.length] else ""
  }

  function Texts(text: string, tokens: seq<StringToken>): (words: seq<string>)
    ensures |words| == |tokens|
  {
    seq(|tokens|, i requires 0 <= i < |tokens| => Text(text, tokens[i]))
  }

  /** The calls that are made when the first accepted word ends the walk. */
  function Calls(words: seq<string>, index: nat, func: (nat, string) -> bool): seq<string> {
    if words == [] then []
    else if func(index, words[0]) then [words[0]]
    else [words[0]] + Calls(words[1..], index + 1, func)
  }

  /** The calls that remain to be made from `start` on. */
  ghost function CallsFrom(data: string, d: char, start: nat, index: nat, func: (nat, string) -> bool): seq<string>
    requires start <= |Line(data)|
  {
    Calls(Texts(data, RunsFrom(Line(data), d, start)), index, func)
  }

  /** The words `func` is called on, in order. */
  method TokenizeForeach(func: (nat, string) -> bool, data: string, delimiter: char) returns (calls: seq<string>)
    ensures calls == Calls(Texts(data, Tokenized(data, delimiter)), 0, func)
  {
    hide *;
    calls := [];
    CallsFromStart(data, delimiter, func);
    if |data| == 0 || data[0] == '\0' {
      return;
    }
    var start, i := 0, 0;
    ScanStart(Line(data), delimiter);
    ghost var all := CallsFrom(data, delimiter, 0, 0, func);
    while i < |data| && data[i] != '\n'
      invariant start <= i <= |Line(data)| && Scanning(Line(data), delimiter, start, i)
      invariant all == calls + CallsFrom(data, delimiter, start, |calls|, func)
    {
      InLine(data, start, i);
      if data[i] == delimiter {
        CallsDelimiter(data, delimiter, start, i, |calls|, func);
        if start != i && data[start] != delimiter {
          ghost var more := if func(|calls|, data[start..i]) then [] else CallsFrom(data, delimiter, i, |calls| + 1, func);
          ConcatAssoc(calls, [data[start..i]], more);
          calls := calls + [data[start..i]];
          if func(|calls| - 1, data[start..i]) {
            return;
          }
        }
        start := i;
      } else {
        CallsOther(data, delimiter, start, i, |calls|, func);
        if data[start] == delimiter {
          start := start + 1;
        }
      }
      i := i + 1;
    }
    InLine(data, start, i);
    CallsEnd(data, delimiter, start, |calls|, func);
    if start != i && data[start] != delimiter && data[start] != '\n' {
      calls := calls + [data[start..i]];
    }
  }

  lemma CallsFromStart(data: string, d: char, func: (nat, string) -> bool)
    ensures Calls(Texts(data, Tokenized(data, d)), 0, func)
      == if data == "" || data[0] == '\0' then [] else CallsFrom(data, d, 0, 0, func)
  {
  }

  lemma CallsDelimiter(data: string, d: char, start: nat, i: nat, index: nat, func: (nat, string) -> bool)
    requires start <= i < |Line(data)| && Scanning(Line(data), d, start, i) && Line(data)[i] == d
    ensures Scanning(Line(data), d, i, i + 1) && i <= |data|
    ensures CallsFrom(data, d, start, index, func)
      == if start == i || Line(data)[start] == d then CallsFrom(data, d, i, index, func)
         else [data[start..i]] + if func(index, data[start..i]) then [] else CallsFrom(data, d, i, index + 1, func)
  {
    hide Line, Scanning, RunsFrom;
    InLine(data, start, i);
    ScanDelimiter(Line(data), d, start, i);
    if start == i || Line(data)[start] == d {
      assert RunsFrom(Line(data), d, start) == RunsFrom(Line(data), d, i);
    } else {
      var runs := RunsFrom(Line(data), d, start);
      assert runs[0] == StringToken(start, i - start) && runs[1..] == RunsFrom(Line(data), d, i);
      assert Text(data, runs[0]) == data[start..i];
      NextWord(data, runs, index, func);
    }
  }

  lemma CallsOther(data: string, d: char, start: nat, i: nat, index: nat, func: (nat, string) -> bool)
    requires start <= i < |Line(data)| && Scanning(Line(data), d, start, i) && Line(data)[i] != d
    ensures Line(data)[start] == d ==> start < i && Scanning(Line(data), d, start + 1, i + 1)
    ensures Line(data)[start] == d ==> CallsFrom(data, d, start, index, func) == CallsFrom(data, d, start + 1, index, func)
    ensures Line(data)[start] != d ==> Scanning(Line(data), d, start, i + 1)
  {
    hide Line, Scanning, RunsFrom;
    ScanOther(Line(data), d, start, i);
  }

  lemma CallsEnd(data: string, d: char, start: nat, index: nat, func: (nat, string) -> bool)
    requires start <= |Line(data)| && Scanning(Line(data), d, start, |Line(data)|)
    ensures |Line(data)| <= |data|
    ensures CallsFrom(data, d, start, index, func)
      == if start != |Line(data)| && Line(data)[start] != d then [data[start..|Line(data)|]] else []
  {
    hide Line, Scanning, RunsFrom;
    InLine(data, start, |Line(data)|);
    ScanEnd(Line(data), d, start);
    if start != |Line(data)| && Line(data)[start] != d {
      NextWord(data, RunsFrom(Line(data), d, start), index, func);
    }
  }

  lemma NextWord(data: string, rest: seq<StringToken>, index: nat, func: (nat, string) -> bool)
    requires rest != []
    ensures var word := Text(data, rest[0]);
      Calls(Texts(data, rest), index, func)
        == [word] + if func(index, word) then [] else Calls(Texts(data, rest[1..]), index + 1, func)
  {
    assert Texts(data, rest)[1..] == Texts(data, rest[1..]);
  }

  lemma {:induction false} AllCalls(words: seq<string>, index: nat, func: (nat, string) -> bool)
    requires forall i :: 0 <= i < |words| - 1 ==> !func(index + i, words[i])
    ensures Calls(words, index, func) == words
  {
    if |words| > 1 {
      var tail := words[1..];
      forall i | 0 <= i < |tail| - 1
        ensures !func(index + 1 + i, tail[i])
      {
        assert tail[i] == words[i + 1];
      }
      AllCalls(tail, index + 1, func);
    }
  }

  /** Otherwise the walk ends with the first accepted token. */
  lemma {:induction false} CallsUntil(words: seq<string>, index: nat, func: (nat, string) -> bool, n: nat)
    requires n < |words| && func(index + n, words[n])
    requires forall i :: 0 <= i < n ==> !func(index + i, words[i])
    ensures Calls(words, index, func) == words[..n + 1]
  {
    if n > 0 {
      var tail := words[1..];
      assert tail[n - 1] == words[n];
      forall i | 0 <= i < n - 1
        ensures !func(index + 1 + i, tail[i])
      {
        assert tail[i] == words[i + 1];
      }
      CallsUntil(tail, index + 1, func, n - 1);
      assert words[..n + 1] == [words[0]] + tail[..n];
    }
  }

  // ----- splitStringToVector -----

  method FindFirstNotOf(s: string, d: char, from: nat) returns (at: nat)
    requires from <= |s|
    ensures from <= at <= |s| && (at < |s| ==> s[at] != d) && RunsFrom(s, d, from) == RunsFrom(s, d, at)
  {
    at := from;
    while at < |s| && s[at] == d
      invariant from <= at <= |s| && RunsFrom(s, d, from) == RunsFrom(s, d, at)
    {
      at := at + 1;
    }
  }

  method SplitStringToVector(str: string, delim: char) returns (result: seq<string>)
    ensures result == Texts(str, Runs(str, delim))
  {
    hide RunsFrom, Texts;
    result := [];
    var start := FindFirstNotOf(str, delim, 0);
    while start < |str|
      invariant start <= |str| && (start < |str| ==> str[start] != delim)
      invariant Texts(str, Runs(str, delim)) == result + Texts(str, RunsFrom(str, delim, start))
      decreases |str| - start
    {
      var end := FirstOf(str, delim, start);
      FirstWord(str, delim, start, end);
      ghost var more := Texts(str, RunsFrom(str, delim, end));
      ConcatAssoc(result, [str[start..end]], more);
      result := result + [str[start..end]];
      start := FindFirstNotOf(str, delim, end);
    }
    NoMoreWords(str, delim);
  }

  lemma FirstWord(s: string, d: char, at: nat, e: nat)
    requires at < |s| && s[at] != d && e == FirstOf(s, d, at)
    ensures at < e && Texts(s, RunsFrom(s, d, at)) == [s[at..e]] + Texts(s, RunsFrom(s, d, e))
  {
    hide Texts;
    TextsCons(s, StringToken(at, e - at), RunsFrom(s, d, e));
    assert Text(s, StringToken(at, e - at)) == s[at..e];
  }

  lemma NoMoreWords(s: string, d: char)
    ensures Texts(s, RunsFrom(s, d, |s|)) == []
  {
  }

  // ----- Two tokenizers -----

  lemma LineWhole(text: string)
    ensures Line(text) == text <==> '\n' !in text
  {
    LineBefore(text);
  }

  /** Tokens of the first line have the same text in the whole. */
  lemma TextsOfLine(text: string, d: char)
    ensures Texts(text, Runs(Line(text), d)) == Texts(Line(text), Runs(Line(text), d))
  {
    var line := Line(text);
    var tokens := Runs(line, d);
    LineBefore(text);
    RunsInside(line, d, 0);
    var a, b := Texts(text, tokens), Texts(line, tokens);
    forall i | 0 <= i < |tokens|
      ensures a[i] == b[i]
    {
      SameText(text, |line|, tokens[i]);
    }
  }

  lemma SameText(text: string, n: nat, t: StringToken)
    requires t.index + t.length <= n <= |text|
    ensures Text(text, t) == Text(text[..n], t)
  {
  }

  /** Every other character is inside some run. */
  lemma RunAround(s: string, d: char, k: nat)
    requires k < |s| && s[k] != d
    ensures exists t :: t in Runs(s, d) && s[k] in Text(s, t)
  {
    var a := k;
    while a > 0 && s[a - 1] != d
      invariant 0 <= a <= k && d !in s[a..k + 1]
    {
      a := a - 1;
      assert s[a..k + 1] == [s[a]] + s[a + 1..k + 1];
    }
    var e := FirstOf(s, d, k);
    RunHolds(s, d, a, k, e);
    hide IsRun, RunsFrom, InOrder;
    RunsFromAreAll(s, d, 0);
    assert StringToken(a, e - a) in Runs(s, d);
  }

  lemma RunHolds(s: string, d: char, a: nat, k: nat, e: nat)
    requires a <= k < e <= |s| && d !in s[a..k + 1] && d !in s[k..e]
    requires (a > 0 ==> s[a - 1] == d) && (e < |s| ==> s[e] == d)
    ensures IsRun(s, d, StringToken(a, e - a)) && s[k] in Text(s, StringToken(a, e - a))
  {
    assert s[a..e] == s[a..k + 1] + s[k + 1..e];
    assert s[k..e] == [s[k]] + s[k + 1..e];
    assert s[a..e][k - a] == s[k];
  }

  /** On text that does not start with NUL, splitting and tokenizing agree exactly
      when there is no newline. */
  lemma SplitAgrees(text: string, d: char)
    requires text != "" && text[0] != '\0' && d != '\n'
    ensures Texts(text, Tokenized(text, d)) == Texts(text, Runs(text, d)) <==> '\n' !in text
  {
    LineWhole(text);
    if '\n' in text {
      hide Line, RunsFrom, Texts;
      LineBefore(text);
      NewlineSplit(text, d);
      TokenWordsProper(text, d);
    }
  }

  lemma NewlineSplit(text: string, d: char)
    requires '\n' in text && d != '\n'
    ensures exists w :: w in Texts(text, Runs(text, d)) && '\n' in w
  {
    hide RunsFrom;
    var tokens := Runs(text, d);
    var k :| 0 <= k < |text| && text[k] == '\n';
    RunAround(text, d, k);
    var t :| t in tokens && '\n' in Text(text, t);
    var i :| 0 <= i < |tokens| && tokens[i] == t;
    assert Texts(text, tokens)[i] == Text(text, t);
  }

  // ----- cat -----

  /** Words with one separator between each two. */
  function Join(words: seq<string>, separator: string): string {
    if words == [] then ""
    else if |words| == 1 then words[0]
    else words[0] + separator + Join(words[1..], separator)
  }

  lemma {:induction false} JoinSnoc(words: seq<string>, word: string, separator: string)
    requires words != []
    ensures Join(words + [word], separator) == Join(words, separator) + separator + word
  {
    var all := words + [word];
    assert all[1..] == words[1..] + [word];
    if |words| > 1 {
      JoinSnoc(words[1..], word, separator);
    } else {
      assert all[1..] == [word];
    }
  }

  method Cat(v: StringVector, separator: string, firstOffset: nat, lastOffset: nat) returns (ret: string)
    ensures ret == if firstOffset >= |v.tokens| || firstOffset > lastOffset then ""
                   else Join(Texts(v.text, v.tokens)[firstOffset..(if lastOffset < |v.tokens| then lastOffset + 1 else |v.tokens|)], separator)
  {
    hide Join;
    if firstOffset >= |v.tokens| || firstOffset > lastOffset {
      return "";
    }
    ghost var words := Texts(v.text, v.tokens);
    var i := firstOffset;
    var end := if lastOffset < |v.tokens| - 1 then lastOffset else |v.tokens| - 1;
    ret := Text(v.text, v.tokens[i]);
    JoinOne(words, i, separator);
    i := i + 1;
    while i <= end
      invariant firstOffset < i <= end + 1
      invariant ret == Join(words[firstOffset..i], separator)
    {
      JoinMore(words, firstOffset, i, separator);
      ret := ret + separator;
      ret := ret + Text(v.text, v.tokens[i]);
      i := i + 1;
    }
  }

  lemma JoinOne(words: seq<string>, i: nat, separator: string)
    requires i < |words|
    ensures Join(words[i..i + 1], separator) == words[i]
  {
  }

  lemma JoinMore(words: seq<string>, a: nat, i: nat, separator: string)
    requires a < i < |words|
    ensures Join(words[a..i + 1], separator) == Join(words[a..i], separator) + separator + words[i]
  {
    JoinSnoc(words[a..i], words[i], separator);
    assert words[a..i + 1] == words[a..i] + [words[i]];
  }

  ghost predicate ProperWords(words: seq<string>, d: char) {
    forall w :: w in words ==> w != "" && d !in w && '\n' !in w
  }

  /** A word followed by the end or by a delimiter is a run. */
  lemma WordIsRun(s: string, at: nat, w: string, d: char)
    requires at + |w| <= |s| && s[at..at + |w|] == w && w != "" && d !in w
    requires at + |w| < |s| ==> s[at + |w|] == d
    ensures RunsFrom(s, d, at) == [StringToken(at, |w|)]
      + if at + |w| == |s| then [] else RunsFrom(s, d, at + |w| + 1)
  {
    assert s[at] == w[0];
    FirstOfUnique(s, d, at, at + |w|);
  }

  lemma TextsCons(s: string, t: StringToken, tokens: seq<StringToken>)
    ensures Texts(s, [t] + tokens) == [Text(s, t)] + Texts(s, tokens)
  {
    var a, b := Texts(s, [t] + tokens), [Text(s, t)] + Texts(s, tokens);
    assert |a| == |b| && forall i :: 0 <= i < |a| ==> a[i] == b[i];
  }

  /** The first run of joined words is the first word. */
  lemma FirstOfJoin(s: string, at: nat, words: seq<string>, d: char)
    requires at <= |s| && s[at..] == Join(words, [d]) && ProperWords(words, d) && words != []
    ensures var e := at + |words[0]|;
      && e <= |s| && (e == |s| <==> |words| == 1)
      && Texts(s, RunsFrom(s, d, at)) == [words[0]] + (if e == |s| then [] else Texts(s, RunsFrom(s, d, e + 1)))
      && (|words| > 1 ==> s[e + 1..] == Join(words[1..], [d]) && ProperWords(words[1..], d))
  {
    hide *;
    JoinSplits(s, at, words, d);
    ProperSplits(words, d);
    var w := words[0];
    var e := at + |w|;
    WordIsRun(s, at, w, d);
    TextsCons(s, StringToken(at, |w|), if e == |s| then [] else RunsFrom(s, d, e + 1));
    NoTexts(s);
    TextOf(s, at, |w|);
  }

  /** The runs of joined words are the words. */
  lemma {:induction false} RunsOfJoin(s: string, at: nat, words: seq<string>, d: char)
    requires at <= |s| && s[at..] == Join(words, [d]) && ProperWords(words, d)
    ensures Texts(s, RunsFrom(s, d, at)) == words
    decreases |s| - at
  {
    hide *;
    if words == [] {
      NothingJoined(s, at, d);
      NoMoreWords(s, d);
    } else {
      FirstOfJoin(s, at, words, d);
      HeadAndTail(words);
      if |words| > 1 {
        RunsOfJoin(s, at + |words[0]| + 1, words[1..], d);
      }
    }
  }

  lemma NothingJoined(s: string, at: nat, d: char)
    requires at <= |s| && s[at..] == Join([], [d])
    ensures at == |s|
  {
  }

  lemma HeadAndTail(words: seq<string>)
    requires words != []
    ensures [words[0]] + words[1..] == words && (|words| == 1 ==> words[1..] == [])
  {
  }

  lemma NoTexts(s: string)
    ensures Texts(s, []) == []
  {
  }

  lemma TextOf(s: string, at: nat, n: nat)
    requires at + n <= |s|
    ensures Text(s, StringToken(at, n)) == s[at..at + n]
  {
  }

  lemma ProperSplits(words: seq<string>, d: char)
    requires ProperWords(words, d) && words != []
    ensures words[0] != "" && d !in words[0] && ProperWords(words[1..], d)
  {
    assert words[0] in words;
    assert forall w :: w in words[1..] ==> w in words;
  }

  lemma JoinSplits(s: string, at: nat, words: seq<string>, d: char)
    requires at <= |s| && s[at..] == Join(words, [d]) && words != []
    ensures var e := at + |words[0]|;
      && e <= |s| && s[at..e] == words[0]
      && if |words| == 1 then e == |s| else e < |s| && s[e] == d && s[e + 1..] == Join(words[1..], [d])
  {
    var w := words[0];
    if |words| > 1 {
      var tail := Join(words[1..], [d]);
      assert s[at..] == w + ([d] + tail);
      assert s[at..][..|w|] == w;
      assert s[at..][|w|..] == [d] + tail;
      assert s[at..][|w| + 1..] == tail;
    }
  }

  lemma {:induction false} NoNewlineInJoin(words: seq<string>, d: char)
    requires ProperWords(words, d) && (|words| > 1 ==> d != '\n')
    ensures '\n' !in Join(words, [d])
  {
    if |words| > 1 {
      assert words[0] in words;
      assert forall w :: w in words[1..] ==> w in words;
      NoNewlineInJoin(words[1..], d);
    }
  }

  lemma TokenWordsProper(text: string, d: char)
    ensures ProperWords(Texts(text, Tokenized(text, d)), d)
    ensures d == '\n' ==> |Tokenized(text, d)| <= 1
  {
    hide IsRun, InOrder;
    var line := Line(text);
    var tokens := Runs(line, d);
    RunsFromAreAll(line, d, 0);
    TextsOfLine(text, d);
    LineBefore(text);
    if d == '\n' && line != "" {
      WordIsRun(line, 0, line, d);
    }
    forall i | 0 <= i < |tokens|
      ensures Text(line, tokens[i]) != "" && d !in Text(line, tokens[i]) && '\n' !in Text(line, tokens[i])
    {
      assert tokens[i] in tokens;
      RunIsProper(line, d, tokens[i]);
    }
  }

  lemma RunIsProper(line: string, d: char, t: StringToken)
    requires IsRun(line, d, t) && '\n' !in line
    ensures Text(line, t) != "" && d !in Text(line, t) && '\n' !in Text(line, t)
  {
  }

  /** Tokenizing what `cat` makes of the tokens with the same delimiter gives the same
      words, unless the first word starts with NUL; then it gives none. */
  lemma RetokenizedCat(text: string, d: char)
    ensures var words := Texts(text, Tokenized(text, d));
      var joined := Join(words, [d]);
      Texts(joined, Tokenized(joined, d)) == words <==> (words == [] || !("\0" <= words[0]))
  {
    var words := Texts(text, Tokenized(text, d));
    var joined := Join(words, [d]);
    TokenWordsProper(text, d);
    NoNewlineInJoin(words, d);
    LineWhole(joined);
    if words != [] {
      assert words[0] in words;
      assert joined[0] == words[0][0];
      assert joined[0..] == joined;
      RunsOfJoin(joined, 0, words, d);
    }
  }

  /** A text whose words are lost: a delimiter and then NUL. */
  lemma NulWordIsLost()
    ensures var words := Texts(" \0", Tokenized(" \0", ' '));
      && words == ["\0"] && Join(words, " ") == "\0" && Tokenized(Join(words, " "), ' ') == []
  {
    var text := " \0";
    FirstOfUnique(text, '\n', 0, 2);
    assert text[0..2] == text && Line(text) == text;
    FirstOfUnique(text, ' ', 1, 2);
    assert text[1..2] == "\0";
    assert RunsFrom(text, ' ', 1) == [StringToken(1, 1)] + RunsFrom(text, ' ', 2);
    assert Tokenized(text, ' ') == [StringToken(1, 1)];
    assert Texts(text, [StringToken(1, 1)]) == ["\0"];
  }
}
