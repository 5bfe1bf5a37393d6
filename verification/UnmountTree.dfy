/** Unmounting everything at or below a path (shifter_core.c, unmountTree). */
module Unmounting {
  import opened Wrappers
  import opened Text
  import opened StringOrder
  import opened Mounts

  /** The code's test: the base is a prefix and the next slash, if any, comes right behind it. */
  predicate Selected(m: string, base: string) {
    base <= m &&
    var tail := m[|base|..];
    var slash := |Before(tail, '/')|;
    !(slash < |tail| && slash > 0) && !(slash == |tail| && |tail| > 0)
  }

  /** The mount point itself, or a path below it. */
  predicate InTree(m: string, base: string) {
    m == base || base + "/" <= m
  }

  lemma SelectedIsInTree(m: string, base: string)
    ensures Selected(m, base) <==> InTree(m, base)
  {
    if base <= m {
      var tail := m[|base|..];
      assert m == base + tail;
      assert tail != [] ==> (Before(tail, '/') == [] <==> tail[0] == '/');
      if base + "/" <= m { assert m[|base|] == '/'; }
      if tail != [] && tail[0] == '/' { assert m[..|base| + 1] == base + "/"; }
    }
  }

  function TreeTest(base: string): string -> bool {
    m => InTree(m, base)
  }

  function Targets(mounts: seq<string>, base: string): seq<string> {
    Filter(mounts, TreeTest(base))
  }

  /** The mounts that go before the first failure. */
  function Done(targets: seq<string>, umount: string -> bool): (r: seq<string>)
    ensures r <= targets
  {
    if targets == [] || !umount(targets[0]) then [] else [targets[0]] + Done(targets[1..], umount)
  }

  function Kept(gone: set<string>): string -> bool {
    m => m !in gone
  }

  function Without(s: seq<string>, gone: set<string>): seq<string> {
    Filter(s, Kept(gone))
  }

  // ---------- order of the teardown ----------

  /** In a descending list nothing comes after a path that lies above it. */
  lemma DescendantsFirst(s: seq<string>, i: nat, j: nat)
    requires InOrder(s, Reverse) && i < j < |s|
    ensures !(s[i] + "/" <= s[j])
  {
    assert Precedes(s[i], s[j], Reverse);
    if s[i] + "/" <= s[j] {
      PrefixIsLess(s[i], s[j]);
    }
  }

  lemma {:induction false} FilterInOrder(s: seq<string>, order: SortOrder, p: string -> bool)
    requires InOrder(s, order)
    ensures InOrder(Filter(s, p), order)
  {
    if s != [] {
      var n := |s| - 1;
      FilterInOrder(s[..n], order, p);
      forall x | x in Filter(s[..n], p) ensures Precedes(x, s[n], order) {
        var i :| 0 <= i < n && s[..n][i] == x;
        assert Precedes(s[i], s[n], order);
      }
    }
  }

  // ---------- removing the unmounted ones ----------

  lemma WithoutConcat(a: seq<string>, b: seq<string>, gone: set<string>)
    ensures Without(a + b, gone) == Without(a, gone) + Without(b, gone)
  {
    FilterConcat(a, b, Kept(gone));
  }

  lemma WithoutUnlisted(s: seq<string>, gone: set<string>)
    requires forall x :: x in s ==> x !in gone
    ensures Without(s, gone) == s
  {
    FilterAll(s, Kept(gone));
  }

  lemma WithoutOne(x: string, gone: set<string>)
    ensures Without([x], gone) == if x in gone then [] else [x]
  {
    assert [x][..0] == [] && Filter([x][..0], Kept(gone)) == [];
  }

  lemma RemovedIsWithout(s: seq<string>, x: string)
    requires NoDuplicates(s)
    ensures Removed(s, x) == Without(s, {x})
  {
    hide Without, Removed;
    if x in s {
      var i :| 0 <= i < |s| && s[i] == x;
      RemovedIs(s, x, i);
      assert s == s[..i] + [x] + s[i + 1..];
      WithoutConcat(s[..i] + [x], s[i + 1..], {x});
      WithoutConcat(s[..i], [x], {x});
      WithoutOne(x, {x});
      WithoutUnlisted(s[..i], {x});
      WithoutUnlisted(s[i + 1..], {x});
    } else {
      RemovedNothing(s, x);
      WithoutUnlisted(s, {x});
    }
  }

  lemma WithoutTwice(s: seq<string>, a: set<string>, x: string)
    ensures Without(Without(s, a), {x}) == Without(s, a + {x})
  {
    FilterTwice(s, Kept(a), Kept({x}), Kept(a + {x}));
  }

  lemma {:induction false} WithoutReversed(s: seq<string>, gone: set<string>)
    ensures Without(Reversed(s), gone) == Reversed(Without(s, gone))
  {
    hide Without;
    if s == [] {
      assert Reversed(s) == [];
      WithoutUnlisted([], gone);
    } else {
      var n := |s| - 1;
      assert Reversed(s) == [s[n]] + Reversed(s[..n]);
      assert s == s[..n] + [s[n]];
      WithoutConcat([s[n]], Reversed(s[..n]), gone);
      WithoutConcat(s[..n], [s[n]], gone);
      WithoutOne(s[n], gone);
      WithoutReversed(s[..n], gone);
      assert Reversed(Without(s[..n], gone) + [s[n]]) == [s[n]] + Reversed(Without(s[..n], gone));
    }
  }

  lemma ReversedTwice(s: seq<string>)
    ensures Reversed(Reversed(s)) == s
  {
  }

  // ---------- the code ----------

  lemma {:induction false} DoneAll(a: seq<string>, umount: string -> bool)
    requires forall x :: x in a ==> umount(x)
    ensures Done(a, umount) == a
  {
    if a != [] {
      assert a[0] in a;
      DoneAll(a[1..], umount);
    }
  }

  lemma {:induction false} DoneStops(a: seq<string>, x: string, b: seq<string>, umount: string -> bool)
    requires (forall y :: y in a ==> umount(y)) && !umount(x)
    ensures Done(a + [x] + b, umount) == a
  {
    var all := a + [x] + b;
    if a != [] {
      assert a[0] in a;
      assert all[1..] == a[1..] + [x] + b;
      DoneStops(a[1..], x, b, umount);
    }
  }

  lemma TargetsStep(s: seq<string>, i: nat, base: string)
    requires i < |s|
    ensures Targets(s[..i + 1], base) == Targets(s[..i], base) + (if InTree(s[i], base) then [s[i]] else [])
  {
    assert s[..i + 1][..i] == s[..i];
  }

  lemma TargetsSplit(s: seq<string>, i: nat, base: string)
    requires i < |s| && InTree(s[i], base)
    ensures Targets(s, base) == Targets(s[..i], base) + [s[i]] + Targets(s[i + 1..], base)
  {
    assert s == s[..i + 1] + s[i + 1..];
    FilterConcat(s[..i + 1], s[i + 1..], TreeTest(base));
    TargetsStep(s, i, base);
  }

  /** Unmount the selected mounts in the order of the list until one fails, and note what is gone. */
  method UnmountSelected(mounts: MountList, base: string, umount: string -> bool)
    returns (rc: int, mountCache: MountList, log: seq<string>)
    requires mounts.Valid() && mounts.Ordered()
    ensures fresh(mountCache) && fresh(mountCache.cells) && mountCache.Valid() && mountCache.Ordered()
    ensures log == Done(Targets(mounts.Contents(), base), umount)
    ensures Elements(mountCache.Contents()) == Elements(log)
    ensures rc == if log == Targets(mounts.Contents(), base) then 0 else -1
  {
    hide InOrder, NoDuplicates, InTree, Done, Filter;
    mountCache := new MountList();
    log := [];
    ghost var s := mounts.Contents();
    var i := 0;
    assert s[..0] == [];
    NoTargets(base);
    while i < mounts.cells.Length && mounts.cells[i].Some?
      invariant i <= mounts.count
      invariant fresh(mountCache.cells) && mountCache.Valid() && mountCache.Ordered() && mountCache.sorted != Reverse
      invariant log == Targets(s[..i], base) && (forall x :: x in log ==> umount(x))
      invariant Elements(mountCache.Contents()) == Elements(log)
    {
      var m := mounts.cells[i].value;
      assert m == s[i];
      SelectedIsInTree(m, base);
      TargetsStep(s, i, base);
      if Selected(m, base) {
        if !umount(m) {
          TargetsSplit(s, i, base);
          DoneStops(log, m, Targets(s[i + 1..], base), umount);
          return -1, mountCache, log;
        }
        NoteUnmounted(mountCache, m);
        assert Elements(log + [m]) == Elements(log) + {m};
        log := log + [m];
      }
      i := i + 1;
    }
    assert s[..i] == s;
    DoneAll(log, umount);
    rc := 0;
  }

  lemma NoTargets(base: string)
    ensures Targets([], base) == []
  {
  }

  method NoteUnmounted(mountCache: MountList, m: string)
    requires mountCache.Valid() && mountCache.Ordered() && mountCache.sorted != Reverse
    modifies mountCache, mountCache.cells
    ensures mountCache.Valid() && mountCache.Ordered() && mountCache.sorted != Reverse
    ensures mountCache.cells == old(mountCache.cells) || fresh(mountCache.cells)
    ensures Elements(mountCache.Contents()) == Elements(old(mountCache.Contents())) + {m}
  {
    ghost var s, order := mountCache.Contents(), mountCache.sorted;
    if m !in s { InsertedMeaning(s, order, m); }
    var rc := mountCache.InsertKey(m);
  }

  /** Remove every mount noted in the cache from the list. */
  method Forget(mounts: MountList, mountCache: MountList)
    requires mounts.Valid() && mounts.Ordered() && mountCache.Valid()
    requires mounts != mountCache && mounts.cells != mountCache.cells
    modifies mounts`count, mounts.cells
    ensures mounts.Valid() && mounts.Ordered()
    ensures mounts.Contents() == Without(old(mounts.Contents()), Elements(mountCache.Contents()))
  {
    hide InOrder, NoDuplicates, Without;
    ghost var s, c := mounts.Contents(), mountCache.Contents();
    var i := 0;
    assert Elements(c[..0]) == {};
    WithoutUnlisted(s, Elements(c[..0]));
    while i < mountCache.cells.Length && mountCache.cells[i].Some?
      invariant i <= mountCache.count && mountCache.Valid() && mountCache.Contents() == c
      invariant mounts.Valid() && mounts.Ordered() && mounts.Contents() == Without(s, Elements(c[..i]))
    {
      var m := mountCache.cells[i].value;
      assert m == c[i];
      RemovedIsWithout(mounts.Contents(), m);
      WithoutTwice(s, Elements(c[..i]), m);
      assert Elements(c[..i + 1]) == Elements(c[..i]) + {m};
      mounts.Remove(m);
      i := i + 1;
    }
    assert c[..i] == c;
  }

  /** What a teardown unmounts: on success exactly the mounts in the tree; otherwise a first part of them.
      Nothing is unmounted after a path that lies above it. */
  lemma TeardownOrder(s: seq<string>, base: string, umount: string -> bool)
    requires InOrder(s, Reverse)
    ensures var log := Done(Targets(s, base), umount);
            && (forall m :: m in log ==> m in s && InTree(m, base) && umount(m))
            && (log == Targets(s, base) <==> forall m :: m in s && InTree(m, base) ==> umount(m))
            && (log == Targets(s, base) ==> forall m :: m in log <==> m in s && InTree(m, base))
            && forall i, j :: 0 <= i < j < |log| ==> !(log[i] + "/" <= log[j])
  {
    var targets := Targets(s, base);
    var log := Done(targets, umount);
    FilterInOrder(s, Reverse, TreeTest(base));
    DoneSucceeds(targets, umount);
    forall i, j | 0 <= i < j < |log| ensures !(log[i] + "/" <= log[j]) {
      DescendantsFirst(targets, i, j);
      assert log[i] == targets[i] && log[j] == targets[j];
    }
    forall m | m in log ensures m in targets {
      var i :| 0 <= i < |log| && log[i] == m;
      assert targets[i] == m;
    }
  }

  lemma {:induction false} DoneSucceeds(targets: seq<string>, umount: string -> bool)
    ensures forall m :: m in Done(targets, umount) ==> umount(m)
    ensures Done(targets, umount) == targets <==> forall m :: m in targets ==> umount(m)
  {
    if targets != [] && umount(targets[0]) {
      DoneSucceeds(targets[1..], umount);
      forall m ensures m in targets <==> m == targets[0] || m in targets[1..] {
        assert targets == [targets[0]] + targets[1..];
      }
    }
  }

  /** The first mount, from the last in the order to the first, that cannot be unmounted stops the teardown. */
  ghost predicate StopsAt(s: seq<string>, base: string, log: seq<string>, umount: string -> bool, m: string) {
    && m in s && (m == base || base + "/" <= m) && !umount(m)
    && forall x :: x in s && (x == base || base + "/" <= x) ==> (x in log <==> Compare(x, m) > 0)
  }

  lemma TeardownStops(s: seq<string>, base: string, umount: string -> bool)
    requires InOrder(s, Reverse)
    ensures var log := Done(Targets(s, base), umount);
            log != Targets(s, base) ==> exists m :: StopsAt(s, base, log, umount, m)
  {
    var targets := Targets(s, base);
    var log := Done(targets, umount);
    FilterInOrder(s, Reverse, TreeTest(base));
    if log != targets {
      DoneEnds(targets, umount);
      var m := targets[|log|];
      assert m in targets && TreeTest(base)(m) && InTree(m, base);
      forall x | x in s && (x == base || base + "/" <= x) ensures x in log <==> Compare(x, m) > 0 {
        assert x in targets;
        var k :| 0 <= k < |targets| && targets[k] == x;
        InLog(targets, log, k);
      }
      assert StopsAt(s, base, log, umount, m);
    }
  }

  /** In a strictly descending list, a first part has exactly the members greater than what comes behind it. */
  lemma InLog(targets: seq<string>, log: seq<string>, k: nat)
    requires InOrder(targets, Reverse) && log < targets && k < |targets|
    ensures targets[k] in log <==> Compare(targets[k], targets[|log|]) > 0
  {
    var m := targets[|log|];
    if k < |log| {
      assert Precedes(targets[k], m, Reverse) && log[k] == targets[k];
    } else {
      if k > |log| { assert Precedes(m, targets[k], Reverse); }
      CompareFlips(m, targets[k]);
      forall i | 0 <= i < |log| ensures log[i] != targets[k] {
        assert Precedes(targets[i], targets[k], Reverse) && log[i] == targets[i];
      }
    }
  }

  lemma {:induction false} DoneEnds(targets: seq<string>, umount: string -> bool)
    requires Done(targets, umount) != targets
    ensures var n := |Done(targets, umount)|; n < |targets| && !umount(targets[n])
  {
    if umount(targets[0]) {
      assert targets == [targets[0]] + targets[1..];
      DoneEnds(targets[1..], umount);
    }
  }

  /** What a teardown has done: to the mounts, in which order, and where it stopped. */
  ghost predicate TornDown(s: seq<string>, after: seq<string>, base: string, umount: string -> bool, log: seq<string>,
                           rc: int)
  {
    && (forall m :: m in after <==> m in s && m !in log)
    && (forall m :: m in log ==> m in s && (m == base || base + "/" <= m) && umount(m))
    && (forall i, j :: 0 <= i < j < |log| ==> !(log[i] + "/" <= log[j]))
    && if base == "" then rc == 1 && log == []
       else if rc == 0 then forall m :: m in log <==> m in s && (m == base || base + "/" <= m)
       else rc == -1 && exists m :: StopsAt(s, base, log, umount, m)
  }

  lemma NothingTornDown(s: seq<string>, base: string, umount: string -> bool)
    requires base == ""
    ensures TornDown(s, s, base, umount, [], 1)
  {
  }

  ghost predicate SameElements(a: seq<string>, b: seq<string>) {
    forall m :: m in a <==> m in b
  }

  lemma SortingKeeps(s: seq<string>, from: SortOrder, to: SortOrder)
    ensures SameElements(s, SetSorted(s, from, to)) && SameElements(s, Reversed(s))
    ensures SameElements(s, Reversed(Sort(s)))
  {
    hide SameElements, Sort, Reversed;
    SameAsItself(s);
    PermutationKeeps(s, Sort(s));
    ReversalKeeps(s);
    ReversalKeeps(Sort(s));
    SameThrough(s, Sort(s), Reversed(Sort(s)));
  }

  lemma SameAsItself(s: seq<string>)
    ensures SameElements(s, s)
  {
  }

  lemma SameThrough(a: seq<string>, b: seq<string>, c: seq<string>)
    requires SameElements(a, b) && SameElements(b, c)
    ensures SameElements(a, c)
  {
  }

  lemma PermutationKeeps(a: seq<string>, b: seq<string>)
    requires multiset(a) == multiset(b)
    ensures SameElements(a, b)
  {
    forall m ensures m in a <==> m in b {
      assert m in a <==> m in multiset(a);
      assert m in b <==> m in multiset(b);
    }
  }

  lemma ReversalKeeps(s: seq<string>)
    ensures SameElements(s, Reversed(s))
  {
    forall m | m in s ensures m in Reversed(s) {
      var i :| 0 <= i < |s| && s[i] == m;
      assert Reversed(s)[|s| - 1 - i] == m;
    }
  }

  lemma TeardownMeans(s: seq<string>, down: seq<string>, left: seq<string>, base: string, umount: string -> bool,
                      log: seq<string>)
    requires base != "" && InOrder(down, Reverse) && SameElements(s, down) && SameElements(s, left)
    requires log == Done(Targets(down, base), umount)
    ensures TornDown(s, Without(left, Elements(log)), base, umount, log, if log == Targets(down, base) then 0 else -1)
  {
    hide InOrder, Done, Compare;
    TeardownOrder(down, base, umount);
    TeardownStops(down, base, umount);
    if log != Targets(down, base) {
      var m :| StopsAt(down, base, log, umount, m);
      assert StopsAt(s, base, log, umount, m);
    }
  }

  /** unmountTree: with a base, `log` is what was unmounted, in that order. */
  method UnmountTree(mounts: MountList, base: string, umount: string -> bool) returns (rc: int, log: seq<string>)
    requires mounts.Valid() && mounts.Ordered()
    modifies mounts, mounts.cells
    ensures mounts.Valid() && mounts.Ordered()
    ensures base == "" ==> rc == 1 && log == []
    ensures base != "" ==>
              var targets := Targets(SetSorted(old(mounts.Contents()), old(mounts.sorted), Reverse), base);
              log == Done(targets, umount) && rc == if log == targets then 0 else -1
    ensures mounts.sorted == if base == "" || old(mounts.sorted) != Unsorted then old(mounts.sorted) else Reverse
    ensures var s := old(mounts.Contents());
            mounts.Contents() ==
              Without(if base != "" && old(mounts.sorted) == Unsorted then Reversed(Sort(s)) else s, Elements(log))
    ensures TornDown(old(mounts.Contents()), mounts.Contents(), base, umount, log, rc)
  {
    hide InOrder, NoDuplicates, Without, Done, Targets, TornDown, SameElements, Sort, Compare, Insert;
    ghost var s := mounts.Contents();
    log := [];
    if base == "" {
      assert Elements(log) == {};
      WithoutUnlisted(s, {});
      NothingTornDown(s, base, umount);
      return 1, log;
    }
    var origSorted := mounts.sorted;
    mounts.SetSort(Reverse);
    ghost var down := mounts.Contents();
    var mountCache;
    rc, mountCache, log := UnmountSelected(mounts, base, umount);
    Forget(mounts, mountCache);
    mounts.SetSort(origSorted);
    if origSorted == Forward {
      WithoutReversed(down, Elements(log));
      ReversedTwice(s);
    }
    SortingKeeps(s, origSorted, Reverse);
    SameAsItself(s);
    TeardownMeans(s, down, if origSorted == Unsorted then Reversed(Sort(s)) else s, base, umount, log);
  }
}
