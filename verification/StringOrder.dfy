/** The order of `strcmp`, and sorting strings by it. */
module StringOrder {

  /** The sign of `strcmp(a, b)`. */
  function Compare(a: string, b: string): (c: int)
    ensures -1 <= c <= 1
    ensures c == 0 <==> a == b
  {
    if a == [] then (if b == [] then 0 else -1)
    else if b == [] then 1
    else if a[0] < b[0] then -1
    else if a[0] > b[0] then 1
    else
      assert a == [a[0]] + a[1..] && b == [b[0]] + b[1..];
      Compare(a[1..], b[1..])
  }

  /** Less: a proper prefix, or the smaller character at the first difference. */
  lemma {:induction false} CompareExact(a: string, b: string)
    ensures Compare(a, b) < 0 <==>
            a < b || exists i | 0 <= i < |a| && i < |b| :: a[..i] == b[..i] && a[i] < b[i]
  {
    if a != [] && b != [] && a[0] == b[0] {
      var x, y := a[1..], b[1..];
      CompareExact(x, y);
      assert a == [a[0]] + x && b == [b[0]] + y;
      if i :| 0 <= i < |x| && i < |y| && x[..i] == y[..i] && x[i] < y[i] {
        assert a[..i + 1] == [a[0]] + x[..i] == [b[0]] + y[..i] == b[..i + 1] && a[i + 1] < b[i + 1];
      }
      if i :| 0 <= i < |a| && i < |b| && a[..i] == b[..i] && a[i] < b[i] {
        assert i > 0 && x[..i - 1] == a[..i][1..] == b[..i][1..] == y[..i - 1] && x[i - 1] < y[i - 1];
      }
    } else if a != [] && b != [] {
      assert a[..0] == b[..0];
    }
  }

  lemma {:induction false} CompareFlips(a: string, b: string)
    ensures Compare(a, b) == -Compare(b, a)
  {
    if a != [] && b != [] && a[0] == b[0] {
      CompareFlips(a[1..], b[1..]);
    }
  }

  lemma {:induction false} CompareIsTransitive(a: string, b: string, c: string)
    requires Compare(a, b) <= 0 && Compare(b, c) <= 0
    ensures Compare(a, c) <= 0
    ensures Compare(a, b) < 0 || Compare(b, c) < 0 ==> Compare(a, c) < 0
  {
    if a != [] && b != [] && c != [] && a[0] == b[0] && b[0] == c[0] {
      CompareIsTransitive(a[1..], b[1..], c[1..]);
    }
  }

  /** A proper prefix comes first. */
  lemma {:induction false} PrefixIsLess(p: string, s: string)
    requires p < s
    ensures Compare(p, s) < 0
  {
    if p != [] {
      assert p[0] == s[0];
      PrefixIsLess(p[1..], s[1..]);
    }
  }

  ghost predicate Ascending(s: seq<string>) {
    forall i, j :: 0 <= i < j < |s| ==> Compare(s[i], s[j]) <= 0
  }

  /** Put `x` before the first element that is greater. */
  function Insert(s: seq<string>, x: string): (r: seq<string>)
    ensures |r| == |s| + 1
    ensures multiset(r) == multiset(s) + multiset{x}
  {
    if s == [] then [x]
    else if Compare(s[|s| - 1], x) > 0 then
      assert s == s[..|s| - 1] + [s[|s| - 1]];
      Insert(s[..|s| - 1], x) + [s[|s| - 1]]
    else s + [x]
  }

  /** What `qsort` with `strcmp` leaves: an ascending permutation. */
  function Sort(s: seq<string>): (r: seq<string>)
    ensures |r| == |s|
    ensures multiset(r) == multiset(s)
  {
    if s == [] then []
    else
      assert s == s[..|s| - 1] + [s[|s| - 1]];
      Insert(Sort(s[..|s| - 1]), s[|s| - 1])
  }

  lemma {:induction false} InsertKeepsAscending(s: seq<string>, x: string)
    requires Ascending(s)
    ensures Ascending(Insert(s, x))
  {
    if s != [] {
      var last := s[|s| - 1];
      CompareFlips(last, x);
      if Compare(last, x) > 0 {
        InsertKeepsAscending(s[..|s| - 1], x);
        var r := Insert(s[..|s| - 1], x);
        forall i | 0 <= i < |r| ensures Compare(r[i], last) <= 0 {
          assert r[i] in multiset(r);
          assert r[i] in s[..|s| - 1] || r[i] == x;
        }
      } else {
        forall i | 0 <= i < |s| ensures Compare(s[i], x) <= 0 {
          CompareIsTransitive(s[i], last, x);
        }
      }
    }
  }

  lemma {:induction false} SortIsAscending(s: seq<string>)
    ensures Ascending(Sort(s))
  {
    if s != [] {
      SortIsAscending(s[..|s| - 1]);
      InsertKeepsAscending(Sort(s[..|s| - 1]), s[|s| - 1]);
    }
  }

  lemma LastIsGreatest(s: seq<string>, x: string)
    requires Ascending(s) && x in multiset(s)
    ensures Compare(x, s[|s| - 1]) <= 0
  {
    var i :| 0 <= i < |s| && s[i] == x;
  }

  lemma WithoutLast(s: seq<string>)
    requires s != []
    ensures multiset(s[..|s| - 1]) == multiset(s) - multiset{s[|s| - 1]} && s[|s| - 1] in multiset(s)
  {
    assert s == s[..|s| - 1] + [s[|s| - 1]];
  }

  lemma SameLast(a: seq<string>, b: seq<string>)
    requires Ascending(a) && Ascending(b) && multiset(a) == multiset(b) && a != [] && b != []
    ensures a[|a| - 1] == b[|b| - 1]
  {
    WithoutLast(a);
    WithoutLast(b);
    LastIsGreatest(a, b[|b| - 1]);
    LastIsGreatest(b, a[|a| - 1]);
    CompareFlips(a[|a| - 1], b[|b| - 1]);
  }

  lemma AscendingPrefix(s: seq<string>, n: nat)
    requires Ascending(s) && n <= |s|
    ensures Ascending(s[..n])
  {
  }

  lemma SameLength(a: seq<string>, b: seq<string>)
    requires multiset(a) == multiset(b)
    ensures |a| == |b|
  {
    assert |a| == |multiset(a)| == |multiset(b)| == |b|;
  }

  lemma SameRest(a: seq<string>, b: seq<string>)
    requires multiset(a) == multiset(b) && a != [] && b != [] && a[|a| - 1] == b[|b| - 1]
    ensures multiset(a[..|a| - 1]) == multiset(b[..|b| - 1])
  {
    WithoutLast(a);
    WithoutLast(b);
  }

  /** There is only one ascending sequence of the same strings. */
  lemma {:induction false} AscendingIsUnique(a: seq<string>, b: seq<string>)
    requires Ascending(a) && Ascending(b) && multiset(a) == multiset(b)
    ensures a == b
  {
    hide *;
    SameLength(a, b);
    if a != [] {
      var n := |a| - 1;
      SameLast(a, b);
      SameRest(a, b);
      AscendingPrefix(a, n);
      AscendingPrefix(b, n);
      AscendingIsUnique(a[..n], b[..n]);
      assert a == a[..n] + [a[n]] && b == b[..n] + [b[n]];
    }
  }

  /** Sorting forgets the order and nothing else. */
  lemma SortIsCanonical(a: seq<string>, b: seq<string>)
    ensures Sort(a) == Sort(b) <==> multiset(a) == multiset(b)
  {
    SortIsAscending(a);
    SortIsAscending(b);
    if multiset(a) == multiset(b) {
      AscendingIsUnique(Sort(a), Sort(b));
    }
  }
}
