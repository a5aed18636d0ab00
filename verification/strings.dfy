/** The JavaScript string operations the application relies on:
    `indexOf`, `split` with a non-empty string separator, `startsWith` and
    `trim`, together with independent reference definitions (greedy occurrence
    count, delimiter removal, joining) and the lemmas that connect them. */
module Strings {
  import opened Wrappers

  /* ---------------------------------------------------------------------- */
  /* Occurrences                                                             */
  /* ---------------------------------------------------------------------- */

  /** `sep` occurs in `s` starting at index `i`. */
  predicate MatchAt(s: string, sep: string, i: nat) {
    i + |sep| <= |s| && s[i..i + |sep|] == sep
  }

  /** No occurrence of `sep` in `s` starts before index `q`. */
  predicate NoMatchBefore(s: string, sep: string, q: nat) {
    forall i: nat :: i < q ==> !MatchAt(s, sep, i)
  }

  /** `sep` does not occur anywhere in `s`. */
  predicate Free(s: string, sep: string) {
    NoMatchBefore(s, sep, |s|)
  }

  /** JavaScript truthiness of a nullable string: `null`/`undefined` and ""
      are falsy, every other string is truthy. */
  function Truthy(v: Option<string>): (truthy: bool)
    ensures !truthy <==> v == None || v == Some("")
  {
    v.Some? && v.value != ""
  }

  /** `s` begins with `prefix` (`String.prototype.startsWith`): `prefix`
      followed by something is `s`, character by character. */
  function StartsWith(s: string, prefix: string): (r: bool)
    ensures r <==> |prefix| <= |s| && forall i :: 0 <= i < |prefix| ==> s[i] == prefix[i]
    ensures r ==> s == prefix + s[|prefix|..]
  {
    |prefix| <= |s| && s[..|prefix|] == prefix
  }

  /** Occurrences inside a prefix `t` of `s` are exactly the occurrences of `s`
      that end within `t`. */
  lemma MatchAtPrefix(s: string, t: string, sep: string, i: nat)
    requires |t| <= |s| && t == s[..|t|]
    requires i + |sep| <= |t|
    ensures MatchAt(t, sep, i) <==> MatchAt(s, sep, i)
  {
    assert t[i..i + |sep|] == s[i..i + |sep|];
  }

  /** Occurrences in a suffix of `s` are the occurrences of `s`, shifted. */
  lemma MatchAtSuffix(s: string, k: nat, sep: string, i: nat)
    requires k <= |s|
    ensures MatchAt(s[k..], sep, i) <==> MatchAt(s, sep, k + i)
  {
    if i + |sep| <= |s[k..]| {
      assert s[k..][i..i + |sep|] == s[k + i..k + i + |sep|];
    }
  }

  /** Leftmost index at or after `from` where `sep` occurs in `s`
      (`String.prototype.indexOf(sep, from)`), `None` for -1. */
  function IndexOf(s: string, sep: string, from: nat): (r: Option<nat>)
    requires sep != ""
    decreases |s| - from
    ensures r.Some? ==> from <= r.value && MatchAt(s, sep, r.value)
    ensures forall i: nat :: from <= i && (r.None? || i < r.value) ==> !MatchAt(s, sep, i)
  {
    if from + |sep| > |s| then None
    else if MatchAt(s, sep, from) then Some(from)
    else IndexOf(s, sep, from + 1)
  }

  /** Whatever `IndexOf` returns is pinned down by any leftmost occurrence. */
  lemma IndexOfLeftmost(s: string, sep: string, q: nat)
    requires sep != ""
    requires MatchAt(s, sep, q) && NoMatchBefore(s, sep, q)
    ensures IndexOf(s, sep, 0) == Some(q)
  {
  }

  /* ---------------------------------------------------------------------- */
  /* split and its partners                                                  */
  /* ---------------------------------------------------------------------- */

  /** `s.split(sep)` for a non-empty string separator: cut at each leftmost
      occurrence, scanning left to right, and drop the separators. */
  function Split(s: string, sep: string): (parts: seq<string>)
    requires sep != ""
    decreases |s|
    ensures |parts| >= 1
  {
    match IndexOf(s, sep, 0)
    case None => [s]
    case Some(q) => [s[..q]] + Split(s[q + |sep|..], sep)
  }

  /** `parts.join(sep)`. */
  function Join(parts: seq<string>, sep: string): string {
    if |parts| == 0 then ""
    else if |parts| == 1 then parts[0]
    else parts[0] + sep + Join(parts[1..], sep)
  }

  /** Number of non-overlapping occurrences of `sep`, counted greedily from the left. */
  function Count(s: string, sep: string): nat
    requires sep != ""
    decreases |s|
  {
    if |s| < |sep| then 0
    else if MatchAt(s, sep, 0) then 1 + Count(s[|sep|..], sep)
    else Count(s[1..], sep)
  }

  /** `s` with every occurrence of `sep` (greedy, from the left) deleted. */
  function RemoveAll(s: string, sep: string): string
    requires sep != ""
    decreases |s|
  {
    if |s| < |sep| then s
    else if MatchAt(s, sep, 0) then RemoveAll(s[|sep|..], sep)
    else [s[0]] + RemoveAll(s[1..], sep)
  }

  /** A cut of `s` into `parts` around `sep` in which every cut is made at the
      leftmost remaining occurrence: joining gives back `s`, no part contains
      `sep`, and no non-final part followed by `sep` shows `sep` any earlier. */
  ghost predicate LeftmostDecomposition(parts: seq<string>, s: string, sep: string) {
    && |parts| >= 1
    && Join(parts, sep) == s
    && LeftmostCuts(parts, sep)
  }

  /** The cut conditions of a leftmost decomposition, without the join. */
  ghost predicate LeftmostCuts(parts: seq<string>, sep: string)
    requires |parts| >= 1
  {
    && Free(parts[|parts| - 1], sep)
    && forall k :: 0 <= k < |parts| - 1 ==> NoMatchBefore(parts[k] + sep, sep, |parts[k]|)
  }

  /** Leftmost cuts extend by a part in front whose cut is leftmost. */
  lemma LeftmostCutsCons(head: string, tail: seq<string>, sep: string)
    requires |tail| >= 1 && LeftmostCuts(tail, sep)
    requires NoMatchBefore(head + sep, sep, |head|)
    ensures LeftmostCuts([head] + tail, sep)
  {
    var parts := [head] + tail;
    assert parts[|parts| - 1] == tail[|tail| - 1];
    forall k | 0 <= k < |parts| - 1
      ensures NoMatchBefore(parts[k] + sep, sep, |parts[k]|)
    {
      if k > 0 {
        assert parts[k] == tail[k - 1];
      }
    }
  }

  /** Leftmost cuts stay leftmost without their first part. */
  lemma LeftmostCutsTail(parts: seq<string>, sep: string)
    requires |parts| >= 2 && LeftmostCuts(parts, sep)
    ensures LeftmostCuts(parts[1..], sep)
    ensures NoMatchBefore(parts[0] + sep, sep, |parts[0]|)
  {
    var tail := parts[1..];
    assert tail[|tail| - 1] == parts[|parts| - 1];
    forall k | 0 <= k < |tail| - 1
      ensures NoMatchBefore(tail[k] + sep, sep, |tail[k]|)
    {
      assert tail[k] == parts[k + 1];
    }
  }

  /** Cutting at a known leftmost occurrence. */
  lemma SplitAt(s: string, sep: string, q: nat)
    requires sep != ""
    requires MatchAt(s, sep, q) && NoMatchBefore(s, sep, q)
    ensures Split(s, sep) == [s[..q]] + Split(s[q + |sep|..], sep)
  {
    IndexOfLeftmost(s, sep, q);
  }

  /** Splitting `a + sep + b` when the cut after `a` is the leftmost one. */
  lemma SplitAround(a: string, sep: string, b: string)
    requires sep != ""
    requires NoMatchBefore(a + sep, sep, |a|)
    ensures Split(a + sep + b, sep) == [a] + Split(b, sep)
  {
    var s := a + sep + b;
    assert s[..|a| + |sep|] == a + sep;
    forall i: nat | i < |a|
      ensures !MatchAt(s, sep, i)
    {
      MatchAtPrefix(s, a + sep, sep, i);
    }
    assert s[|a|..|a| + |sep|] == sep;
    SplitAt(s, sep, |a|);
    assert s[..|a|] == a;
    assert s[|a| + |sep|..] == b;
  }

  /** A string without the separator splits into itself. */
  lemma SplitFree(s: string, sep: string)
    requires sep != ""
    requires Free(s, sep)
    ensures Split(s, sep) == [s]
  {
  }

  /** Joining a part in front of a non-empty list. */
  lemma JoinCons(head: string, tail: seq<string>, sep: string)
    requires |tail| >= 1
    ensures Join([head] + tail, sep) == head + sep + Join(tail, sep)
  {
    assert ([head] + tail)[1..] == tail;
  }

  /** Round trip: joining the parts of a split with the same separator gives
      back the input. */
  lemma {:induction false} JoinSplit(s: string, sep: string)
    requires sep != ""
    ensures Join(Split(s, sep), sep) == s
    decreases |s|
  {
    match IndexOf(s, sep, 0)
    case None =>
    case Some(q) =>
      var rest := s[q + |sep|..];
      assert Split(s, sep) == [s[..q]] + Split(rest, sep);
      JoinSplit(rest, sep);
      JoinCons(s[..q], Split(rest, sep), sep);
      assert s[q..q + |sep|] == sep;
      assert s == s[..q] + s[q..q + |sep|] + rest;
  }

  /** Every part of a split is separator-free. */
  lemma {:induction false} SplitPartsFree(s: string, sep: string)
    requires sep != ""
    ensures forall k :: 0 <= k < |Split(s, sep)| ==> Free(Split(s, sep)[k], sep)
    decreases |s|
  {
    match IndexOf(s, sep, 0)
    case None =>
    case Some(q) =>
      var rest := s[q + |sep|..];
      SplitPartsFree(rest, sep);
      var head := s[..q];
      forall i: nat
        ensures !MatchAt(head, sep, i)
      {
        if i + |sep| <= |head| {
          MatchAtPrefix(s, head, sep, i);
        }
      }
      assert Split(s, sep) == [head] + Split(rest, sep);
  }

  /** Skipping a stretch with no occurrence does not change the count. */
  lemma {:induction false} CountSkip(s: string, sep: string, q: nat)
    requires sep != ""
    requires q <= |s| && NoMatchBefore(s, sep, q)
    ensures Count(s, sep) == Count(s[q..], sep)
    decreases q
  {
    if q > 0 && |s| >= |sep| {
      assert !MatchAt(s, sep, 0);
      forall i: nat | i < q - 1
        ensures !MatchAt(s[1..], sep, i)
      {
        MatchAtSuffix(s, 1, sep, i);
      }
      CountSkip(s[1..], sep, q - 1);
      assert s[1..][q - 1..] == s[q..];
    }
  }

  /** The number of parts is one more than the number of non-overlapping
      occurrences of the separator. */
  lemma {:induction false} SplitLength(s: string, sep: string)
    requires sep != ""
    ensures |Split(s, sep)| == Count(s, sep) + 1
    decreases |s|
  {
    match IndexOf(s, sep, 0)
    case None =>
      CountSkip(s, sep, |s|);
    case Some(q) =>
      var rest := s[q + |sep|..];
      SplitLength(rest, sep);
      CountSkip(s, sep, q);
      assert MatchAt(s[q..], sep, 0) by { MatchAtSuffix(s, q, sep, 0); }
      assert s[q..][|sep|..] == rest;
      assert Count(s[q..], sep) == 1 + Count(rest, sep);
      assert Split(s, sep) == [s[..q]] + Split(rest, sep);
  }

  /** Skipping a stretch with no occurrence keeps that stretch verbatim. */
  lemma {:induction false} RemoveAllSkip(s: string, sep: string, q: nat)
    requires sep != ""
    requires q <= |s| && NoMatchBefore(s, sep, q)
    ensures RemoveAll(s, sep) == s[..q] + RemoveAll(s[q..], sep)
    decreases q
  {
    if q == 0 {
      assert s[..0] + RemoveAll(s[0..], sep) == RemoveAll(s, sep);
    } else if |s| < |sep| {
      assert RemoveAll(s[q..], sep) == s[q..];
      assert s[..q] + s[q..] == s;
    } else {
      assert !MatchAt(s, sep, 0);
      forall i: nat | i < q - 1
        ensures !MatchAt(s[1..], sep, i)
      {
        MatchAtSuffix(s, 1, sep, i);
      }
      RemoveAllSkip(s[1..], sep, q - 1);
      assert s[1..][q - 1..] == s[q..];
      assert [s[0]] + s[1..][..q - 1] == s[..q];
    }
  }

  /** Concatenating the parts of a split gives the input with every
      separator occurrence removed. */
  lemma {:induction false} ConcatSplit(s: string, sep: string)
    requires sep != ""
    ensures Join(Split(s, sep), "") == RemoveAll(s, sep)
    decreases |s|
  {
    match IndexOf(s, sep, 0)
    case None =>
      RemoveAllSkip(s, sep, |s|);
      assert s[..|s|] == s;
    case Some(q) =>
      var rest := s[q + |sep|..];
      ConcatSplit(rest, sep);
      RemoveAllSkip(s, sep, q);
      assert MatchAt(s[q..], sep, 0) by { MatchAtSuffix(s, q, sep, 0); }
      assert s[q..][|sep|..] == rest;
      var tail := Split(rest, sep);
      assert ([s[..q]] + tail)[1..] == tail;
      assert Join(Split(s, sep), "") == s[..q] + "" + Join(tail, "");
  }

  /** The stretch before a leftmost occurrence, followed by the separator,
      shows the separator first at its end. */
  lemma LeftmostCut(s: string, sep: string, q: nat)
    requires MatchAt(s, sep, q) && NoMatchBefore(s, sep, q)
    ensures NoMatchBefore(s[..q] + sep, sep, q)
  {
    assert s[..q] + sep == s[..q + |sep|];
    forall i: nat | i < q
      ensures !MatchAt(s[..q] + sep, sep, i)
    {
      MatchAtPrefix(s, s[..q] + sep, sep, i);
    }
  }

  /** `Split` produces a leftmost decomposition. */
  lemma {:induction false} SplitIsLeftmost(s: string, sep: string)
    requires sep != ""
    ensures LeftmostDecomposition(Split(s, sep), s, sep)
    decreases |s|
  {
    JoinSplit(s, sep);
    match IndexOf(s, sep, 0)
    case None =>
    case Some(q) =>
      var rest := s[q + |sep|..];
      SplitIsLeftmost(rest, sep);
      var head := s[..q];
      var tail := Split(rest, sep);
      assert Split(s, sep) == [head] + tail;
      LeftmostCut(s, sep, q);
      LeftmostCutsCons(head, tail, sep);
  }

  /** A leftmost decomposition is the split: `Split` is the only one. */
  lemma {:induction false} LeftmostIsSplit(parts: seq<string>, s: string, sep: string)
    requires sep != ""
    requires LeftmostDecomposition(parts, s, sep)
    ensures parts == Split(s, sep)
    decreases |parts|
  {
    if |parts| == 1 {
      SplitFree(s, sep);
    } else {
      var head := parts[0];
      var tail := parts[1..];
      var rest := Join(tail, sep);
      assert s == head + sep + rest;
      LeftmostCutsTail(parts, sep);
      SplitAround(head, sep, rest);
      LeftmostIsSplit(tail, rest, sep);
      assert Split(s, sep) == [head] + Split(rest, sep);
      assert parts == [head] + tail;
    }
  }

  /** For a one-character separator, a part followed by the separator is
      leftmost exactly when the part does not contain that character. */
  lemma SingleCharMatch(s: string, c: char, i: nat)
    ensures MatchAt(s, [c], i) <==> i < |s| && s[i] == c
  {
    if i < |s| {
      assert s[i..i + 1] == [s[i]];
    }
  }

  /** Splitting `a + [c] + rest` on a character `c` absent from `a`. */
  lemma SplitHeadChar(a: string, c: char, rest: string)
    requires c !in a
    ensures Split(a + [c] + rest, [c]) == [a] + Split(rest, [c])
  {
    var s := a + [c] + rest;
    forall i: nat | i < |a|
      ensures !MatchAt(s, [c], i)
    {
      SingleCharMatch(s, c, i);
      assert s[i] == a[i];
    }
    SingleCharMatch(s, c, |a|);
    SplitAt(s, [c], |a|);
    assert s[..|a|] == a;
    assert s[|a| + 1..] == rest;
  }

  /** A string without the character `c` splits on it into itself. */
  lemma SplitNoChar(s: string, c: char)
    requires c !in s
    ensures Split(s, [c]) == [s]
  {
    forall i: nat
      ensures !MatchAt(s, [c], i)
    {
      SingleCharMatch(s, c, i);
    }
    SplitFree(s, [c]);
  }

  /* ---------------------------------------------------------------------- */
  /* trim                                                                    */
  /* ---------------------------------------------------------------------- */

  /** The code points `String.prototype.trim` strips: the ECMAScript
      WhiteSpace set (tab, vertical tab, form feed, zero-width no-break
      space and every space separator of category Zs) and the LineTerminator
      set (line feed, carriage return, line and paragraph separators). */
  predicate IsWhitespace(c: char) {
    var n := c as int;
    || n == 0x09 || n == 0x0B || n == 0x0C || n == 0xFEFF
    || n == 0x20 || n == 0xA0 || n == 0x1680 || (0x2000 <= n <= 0x200A)
    || n == 0x202F || n == 0x205F || n == 0x3000
    || n == 0x0A || n == 0x0D || n == 0x2028 || n == 0x2029
  }

  /** Where the whitespace set sits: the ASCII blanks are in it, no printable
      ASCII character is, and above U+3000 only the byte-order mark is. */
  lemma WhitespaceBounds(c: char)
    ensures c == ' ' || c == '\t' || c == '\n' || c == '\r' ==> IsWhitespace(c)
    ensures '!' <= c <= '~' ==> !IsWhitespace(c)
    ensures c as int >= 0x3001 && c as int != 0xFEFF ==> !IsWhitespace(c)
  {
  }

  /** Every character of `s` is whitespace (vacuously so for ""). */
  predicate AllWhitespace(s: string) {
    forall i :: 0 <= i < |s| ==> IsWhitespace(s[i])
  }

  /** `r` is the rest of `s` after a run of whitespace at its start, and `r`
      does not start with whitespace. */
  predicate StrippedStart(s: string, r: string) {
    && |r| <= |s| && r == s[|s| - |r|..]
    && AllWhitespace(s[..|s| - |r|])
    && (r == "" || !IsWhitespace(r[0]))
  }

  /** `r` is the rest of `s` before a run of whitespace at its end, and `r`
      does not end with whitespace. */
  predicate StrippedEnd(s: string, r: string) {
    && |r| <= |s| && r == s[..|r|]
    && AllWhitespace(s[|r|..])
    && (r == "" || !IsWhitespace(r[|r| - 1]))
  }

  /** `s` with its leading whitespace removed. */
  function TrimStart(s: string): (r: string)
    ensures StrippedStart(s, r)
  {
    if |s| > 0 && IsWhitespace(s[0]) then
      var r := TrimStart(s[1..]);
      TrimStartStep(s, r);
      r
    else s
  }

  /** `s` with its trailing whitespace removed. */
  function TrimEnd(s: string): (r: string)
    ensures StrippedEnd(s, r)
  {
    if |s| > 0 && IsWhitespace(s[|s| - 1]) then
      var r := TrimEnd(s[..|s| - 1]);
      TrimEndStep(s, r);
      r
    else s
  }

  /** Whitespace followed by whitespace is whitespace. */
  lemma AllWhitespaceConcat(a: string, b: string)
    requires AllWhitespace(a) && AllWhitespace(b)
    ensures AllWhitespace(a + b)
  {
    forall i | 0 <= i < |a + b|
      ensures IsWhitespace((a + b)[i])
    {
      if i >= |a| {
        assert (a + b)[i] == b[i - |a|];
      }
    }
  }

  /** Neither end of `r` is whitespace (vacuously so for ""). */
  predicate BlankFreeEnds(r: string) {
    r == "" || (!IsWhitespace(r[0]) && !IsWhitespace(r[|r| - 1]))
  }

  /** `s` is `r` with the whitespace run `s[..k]` before it and whitespace
      after it. */
  predicate TrimmedAt(s: string, r: string, k: nat) {
    k + |r| <= |s| && r == s[k..k + |r|] && AllWhitespace(s[..k]) && AllWhitespace(s[k + |r|..])
  }

  /** `s.trim()`: `s` with whitespace removed at both ends, so that nothing but
      whitespace was removed and neither end of the result is whitespace; the
      result is empty exactly when `s` is all whitespace. */
  function Trim(s: string): (r: string)
    ensures exists k: nat :: TrimmedAt(s, r, k)
    ensures r == "" <==> AllWhitespace(s)
    ensures BlankFreeEnds(r)
  {
    var t := TrimStart(s);
    var r := TrimEnd(t);
    TrimBothEnds(s, t, r);
    r
  }

  /** A cut at a known place is a cut somewhere. */
  lemma TrimmedSomewhere(s: string, r: string, k: nat)
    requires TrimmedAt(s, r, k)
    ensures exists j: nat :: TrimmedAt(s, r, j)
  {
  }

  /** One step of `TrimStart`: a leading whitespace character joins the
      stripped run. */
  lemma TrimStartStep(s: string, r: string)
    requires |s| > 0 && IsWhitespace(s[0])
    requires StrippedStart(s[1..], r)
    ensures StrippedStart(s, r)
  {
    assert s[..|s| - |r|] == [s[0]] + s[1..][..|s| - 1 - |r|];
    AllWhitespaceConcat([s[0]], s[1..][..|s| - 1 - |r|]);
  }

  /** One step of `TrimEnd`: a trailing whitespace character joins the
      stripped run. */
  lemma TrimEndStep(s: string, r: string)
    requires |s| > 0 && IsWhitespace(s[|s| - 1])
    requires StrippedEnd(s[..|s| - 1], r)
    ensures StrippedEnd(s, r)
  {
    assert s[|r|..] == s[..|s| - 1][|r|..] + [s[|s| - 1]];
    AllWhitespaceConcat(s[..|s| - 1][|r|..], [s[|s| - 1]]);
  }

  /** Stripping the start (leaving `t`) and then the end (leaving `r`) cuts
      `s` at `|s| - |t|`; nothing is left exactly when `s` is all whitespace,
      and otherwise neither end of what is left is whitespace. */
  lemma TrimBothEnds(s: string, t: string, r: string)
    requires StrippedStart(s, t) && StrippedEnd(t, r)
    ensures TrimmedAt(s, r, |s| - |t|)
    ensures exists k: nat :: TrimmedAt(s, r, k)
    ensures r == "" <==> AllWhitespace(s)
    ensures BlankFreeEnds(r)
  {
    var k := |s| - |t|;
    assert s[k..] == t;
    assert s[k..k + |r|] == t[..|r|];
    assert s[k + |r|..] == t[|r|..];
    if r == "" {
      assert t[|r|..] == t;
      assert s == s[..k] + t;
      AllWhitespaceConcat(s[..k], t);
    } else {
      assert r[0] == t[0] == s[k];
    }
    TrimmedSomewhere(s, r, k);
  }
}
