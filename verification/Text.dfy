/** Strings as the C library and Python treat them: searching, splitting and the order of `strcmp`. */
module Text {

  /** `needle` occurs somewhere in `s`; Python's `s.find(needle) >= 0` and C's `strstr`. */
  predicate Contains(s: string, needle: string) {
    exists i | 0 <= i <= |s| - |needle| :: OccursAt(s, needle, i)
  }

  predicate OccursAt(s: string, needle: string, i: nat) {
    i + |needle| <= |s| && s[i..i + |needle|] == needle
  }

  lemma ContainsPrefix(p: string, s: string, needle: string)
    requires p <= s && Contains(p, needle)
    ensures Contains(s, needle)
  {
    var i :| 0 <= i <= |p| - |needle| && OccursAt(p, needle, i);
    assert s[i..i + |needle|] == p[i..i + |needle|];
    assert OccursAt(s, needle, i);
  }

  /** The part of `s` before the first `c`, or all of `s`. */
  function Before(s: string, c: char): (r: string)
    ensures r <= s && c !in r
    ensures |r| < |s| ==> s[|r|] == c
  {
    if s == [] || s[0] == c then [] else [s[0]] + Before(s[1..], c)
  }

  lemma BeforeIsUnique(s: string, c: char, p: string)
    requires p <= s && c !in p
    requires |p| == |s| || s[|p|] == c
    ensures Before(s, c) == p
  {
    var b := Before(s, c);
    assert |p| <= |b| by {
      assert |b| < |s| ==> s[|b|] == c;
    }
    assert b[..|p|] == p;
  }

  lemma {:induction false} BeforeReaches(s: string, c: char, p: string)
    requires p <= s && c !in p
    ensures p <= Before(s, c)
  {
    if p != "" {
      assert p[0] == s[0] && p[1..] <= s[1..];
      BeforeReaches(s[1..], c, p[1..]);
    }
  }

  /** The tokens `strtok` finds in a string: cut at `c`, without empty parts. */
  function Tokens(s: string, c: char): (tokens: seq<string>)
    ensures forall i :: 0 <= i < |tokens| ==> tokens[i] != "" && c !in tokens[i]
    decreases |s|
  {
    if s == "" then []
    else if s[0] == c then Tokens(s[1..], c)
    else
      var token := Before(s, c);
      [token] + Tokens(s[|token|..], c)
  }

  function Skip(s: string, c: char): (r: string)
    ensures r == "" || r[0] != c
    ensures Tokens(r, c) == Tokens(s, c)
    ensures |r| <= |s|
  {
    if s != "" && s[0] == c then Skip(s[1..], c) else s
  }

  lemma {:induction false} TokensLast(s: string, sep: char, token: string)
    requires token != "" && sep !in token
    ensures Tokens(s + [sep] + token, sep) == Tokens(s, sep) + [token]
    decreases |s|
  {
    var all := s + [sep] + token;
    if s == "" {
      assert all[1..] == token;
      BeforeIsUnique(token, sep, token);
      assert token[|token|..] == "";
    } else if s[0] == sep {
      assert all[1..] == s[1..] + [sep] + token;
      TokensLast(s[1..], sep, token);
    } else {
      var first := Before(s, sep);
      assert first <= all && (|first| < |s| ==> s[|first|] == sep) && all[|first|] == sep;
      BeforeIsUnique(all, sep, first);
      assert all[|first|..] == s[|first|..] + [sep] + token;
      TokensLast(s[|first|..], sep, token);
    }
  }

  lemma NoTokens(s: string, c: char)
    ensures Skip(s, c) == "" <==> Tokens(s, c) == []
  {
  }

  /** One call of `strtok_r` on a string that still has a token: the token, and the string left for the next call. */
  function NextToken(s: string, c: char): (r: (string, string))
    requires Skip(s, c) != ""
    ensures |r.1| < |s|
    ensures Tokens(s, c) == [r.0] + Tokens(r.1, c)
  {
    var t := Skip(s, c);
    var token := Before(t, c);
    var rest := if |token| < |t| then t[|token| + 1..] else "";
    assert Tokens(t[|token|..], c) == Tokens(rest, c) by {
      assert t[|token|..] != "" ==> t[|token|..][1..] == rest;
    }
    (token, rest)
  }

  /* strcasecmp */

  function Lower(c: char): char {
    if 'A' <= c <= 'Z' then c - 'A' + 'a' else c
  }

  predicate EqualIgnoringCase(a: string, b: string) {
    |a| == |b| && forall i :: 0 <= i < |a| ==> Lower(a[i]) == Lower(b[i])
  }

  /** Letters are the same 32 apart; all other characters only if they are the same. */
  lemma CaseExact(a: string, b: string)
    ensures EqualIgnoringCase(a, b) <==>
            |a| == |b| && forall i :: 0 <= i < |a| ==>
              || a[i] == b[i]
              || ('A' <= a[i] <= 'Z' && b[i] as int == a[i] as int + 32)
              || ('A' <= b[i] <= 'Z' && a[i] as int == b[i] as int + 32)
  {
    assert |a| == |b| ==> forall i :: 0 <= i < |a| ==>
      (Lower(a[i]) == Lower(b[i]) <==>
        || a[i] == b[i]
        || ('A' <= a[i] <= 'Z' && b[i] as int == a[i] as int + 32)
        || ('A' <= b[i] <= 'Z' && a[i] as int == b[i] as int + 32));
  }

  /* Joining and cutting. */

  /** Python's `sep.join(parts)` for one separating character. */
  function Join(parts: seq<string>, sep: char): string {
    if parts == [] then ""
    else if |parts| == 1 then parts[0]
    else parts[0] + [sep] + Join(parts[1..], sep)
  }

  predicate IsToken(s: string, sep: char) {
    s != "" && sep !in s
  }

  lemma TokensStep(token: string, sep: char, rest: string)
    requires IsToken(token, sep)
    ensures Tokens(token + [sep] + rest, sep) == [token] + Tokens(rest, sep)
  {
    var s := token + [sep] + rest;
    assert s[0] == token[0] && s[|token|] == sep && token <= s;
    BeforeIsUnique(s, sep, token);
    assert s[|token|..] == [sep] + rest && ([sep] + rest)[1..] == rest;
  }

  /** A list without empty and separating parts survives joining and cutting. */
  lemma {:induction false} TokensOfJoin(parts: seq<string>, sep: char)
    requires forall i :: 0 <= i < |parts| ==> IsToken(parts[i], sep)
    ensures Tokens(Join(parts, sep), sep) == parts
  {
    if |parts| == 1 {
      BeforeIsUnique(parts[0], sep, parts[0]);
    } else if |parts| > 1 {
      TokensStep(parts[0], sep, Join(parts[1..], sep));
      TokensOfJoin(parts[1..], sep);
    }
  }

  /** The same with a separator after every part, also the last. */
  function Terminated(parts: seq<string>, sep: char): string {
    if parts == [] then "" else parts[0] + [sep] + Terminated(parts[1..], sep)
  }

  lemma {:induction false} TokensOfTerminated(parts: seq<string>, sep: char)
    requires forall i :: 0 <= i < |parts| ==> IsToken(parts[i], sep)
    ensures Tokens(Terminated(parts, sep), sep) == parts
  {
    if parts != [] {
      TokensStep(parts[0], sep, Terminated(parts[1..], sep));
      TokensOfTerminated(parts[1..], sep);
    }
  }

  /* shifter_trim */

  predicate IsSpace(c: char) {
    c == ' ' || '\t' <= c <= '\r'
  }

  function TrimLeft(s: string): string {
    if s != [] && IsSpace(s[0]) then TrimLeft(s[1..]) else s
  }

  function TrimRight(s: string): string {
    if s != [] && IsSpace(s[|s| - 1]) then TrimRight(s[..|s| - 1]) else s
  }

  function Trim(s: string): string {
    TrimRight(TrimLeft(s))
  }

  lemma TrimTight(s: string)
    requires s != "" ==> !IsSpace(s[0]) && !IsSpace(s[|s| - 1])
    ensures Trim(s) == s
  {
  }

  /** Blanks and the control characters from tab to carriage return. */
  predicate AllBlank(s: string) {
    forall i :: 0 <= i < |s| ==> s[i] in " \t\n\r" || s[i] as int == 11 || s[i] as int == 12
  }

  /** What is around a text that neither begins nor ends with a blank is cut off, and nothing else. */
  lemma TrimExact(before: string, core: string, after: string)
    requires AllBlank(before) && AllBlank(after)
    requires core != "" ==> !AllBlank(core[..1]) && !AllBlank(core[|core| - 1..])
    ensures Trim(before + core + after) == core
  {
    LeftTrimmed(before, core + after);
    assert before + core + after == before + (core + after);
    if core == "" {
      LeftTrimmed(after, "");
      assert core + after == after + "";
      assert TrimLeft("") == "" && TrimRight("") == "";
    } else {
      assert core[..1] == [core[0]] && core[|core| - 1..] == [core[|core| - 1]];
      assert !IsSpace(core[0]) && !IsSpace(core[|core| - 1]);
      assert TrimLeft(core + after) == core + after;
      RightTrimmed(core, after);
    }
  }

  lemma {:induction false} LeftTrimmed(before: string, s: string)
    requires AllBlank(before)
    ensures TrimLeft(before + s) == TrimLeft(s)
  {
    if before == "" {
      assert before + s == s;
    } else {
      assert IsSpace(before[0]) && (before + s)[1..] == before[1..] + s;
      LeftTrimmed(before[1..], s);
    }
  }

  lemma {:induction false} RightTrimmed(s: string, after: string)
    requires AllBlank(after) && s != "" && !IsSpace(s[|s| - 1])
    ensures TrimRight(s + after) == s
  {
    if after == "" {
      assert s + after == s;
    } else {
      var n := |after| - 1;
      assert IsSpace(after[n]) && (s + after)[..|s| + n] == s + after[..n];
      RightTrimmed(s, after[..n]);
    }
  }

  lemma Regroup<T>(a: seq<T>, b: seq<T>, c: seq<T>)
    ensures a + (b + c) == (a + b) + c
  {
  }

  /* Python list comprehensions. */

  /** The elements of `s` that satisfy `p`, in order. */
  function Filter<T(!new)>(s: seq<T>, p: T -> bool): (r: seq<T>)
    ensures forall x :: x in r <==> x in s && p(x)
  {
    if s == [] then []
    else
      var rest := Filter(s[..|s| - 1], p);
      if p(s[|s| - 1]) then rest + [s[|s| - 1]] else rest
  }

  lemma FilterOne<T(!new)>(x: T, p: T -> bool)
    ensures Filter([x], p) == if p(x) then [x] else []
  {
    assert [x][..0] == [];
  }

  lemma {:induction false} FilterTwice<T(!new)>(s: seq<T>, p: T -> bool, q: T -> bool, both: T -> bool)
    requires forall x :: both(x) <==> p(x) && q(x)
    ensures Filter(Filter(s, p), q) == Filter(s, both)
  {
    if s != [] {
      var last := s[|s| - 1];
      FilterTwice(s[..|s| - 1], p, q, both);
      if p(last) {
        var f := Filter(s[..|s| - 1], p);
        assert (f + [last])[..|f|] == f;
      }
    }
  }

  lemma {:induction false} FilterSame<T(!new)>(s: seq<T>, p: T -> bool, q: T -> bool)
    requires forall x :: x in s ==> (p(x) <==> q(x))
    ensures Filter(s, p) == Filter(s, q)
  {
    if s != [] {
      assert s[|s| - 1] in s;
      forall x | x in s[..|s| - 1] ensures x in s {}
      FilterSame(s[..|s| - 1], p, q);
    }
  }

  lemma {:induction false} FilterAll<T(!new)>(s: seq<T>, p: T -> bool)
    requires forall x :: x in s ==> p(x)
    ensures Filter(s, p) == s
  {
    if s != [] {
      assert s[|s| - 1] in s;
      forall x | x in s[..|s| - 1] ensures x in s {}
      FilterAll(s[..|s| - 1], p);
    }
  }

  lemma {:induction false} FilterConcat<T(!new)>(a: seq<T>, b: seq<T>, p: T -> bool)
    ensures Filter(a + b, p) == Filter(a, p) + Filter(b, p)
  {
    if b == [] {
      assert a + b == a;
    } else {
      assert (a + b)[..|a + b| - 1] == a + b[..|b| - 1];
      FilterConcat(a, b[..|b| - 1], p);
    }
  }
}
