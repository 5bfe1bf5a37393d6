/** The list of mount points (MountList.c) and the teardown of a tree of mounts (shifter_core.c, unmountTree). */
module Mounts {
  import opened Wrappers
  import opened StringOrder

  const MOUNT_ALLOC_BLOCK: nat := 10

  datatype SortOrder = Unsorted | Forward | Reverse

  /** Strictly ordered in a direction; nothing is asked of an unsorted list. */
  ghost predicate InOrder(s: seq<string>, order: SortOrder) {
    forall i, j :: 0 <= i < j < |s| ==> Precedes(s[i], s[j], order)
  }

  predicate Precedes(a: string, b: string, order: SortOrder) {
    match order
    case Unsorted => true
    case Forward => Compare(a, b) < 0
    case Reverse => Compare(a, b) > 0
  }

  ghost predicate NoDuplicates(s: seq<string>) {
    forall i, j :: 0 <= i < j < |s| ==> s[i] != s[j]
  }

  function Reversed(s: seq<string>): (r: seq<string>)
    ensures |r| == |s|
    ensures forall i {:trigger r[i]} :: 0 <= i < |r| ==> r[i] == s[|s| - 1 - i]
  {
    seq(|s|, i requires 0 <= i < |s| => s[|s| - 1 - i])
  }

  function Opposite(order: SortOrder): SortOrder {
    match order
    case Unsorted => Unsorted
    case Forward => Reverse
    case Reverse => Forward
  }

  lemma ReversedOrder(s: seq<string>, order: SortOrder)
    requires InOrder(s, order)
    ensures InOrder(Reversed(s), Opposite(order))
  {
    var r := Reversed(s);
    forall i, j | 0 <= i < j < |r| ensures Precedes(r[i], r[j], Opposite(order)) {
      CompareFlips(r[i], r[j]);
      assert Precedes(s[|s| - 1 - j], s[|s| - 1 - i], order);
    }
  }

  lemma StrictIsDuplicateFree(s: seq<string>, order: SortOrder)
    requires InOrder(s, order) && order != Unsorted
    ensures NoDuplicates(s)
  {
    forall i, j | 0 <= i < j < |s| ensures s[i] != s[j] {
      assert Precedes(s[i], s[j], order);
    }
  }

  /** Sorting a list without duplicates gives a strictly ascending one. */
  lemma SortedIsStrict(s: seq<string>)
    requires NoDuplicates(s)
    ensures InOrder(Sort(s), Forward)
  {
    SortIsAscending(s);
    var r := Sort(s);
    forall i, j | 0 <= i < j < |r| ensures Compare(r[i], r[j]) < 0 {
      if r[i] == r[j] {
        TwiceInSequence(r, i, j);
        OnceInSequence(s, r[i]);
        assert false;
      }
    }
  }

  lemma TwiceInSequence(s: seq<string>, i: nat, j: nat)
    requires i < j < |s| && s[i] == s[j]
    ensures multiset(s)[s[i]] >= 2
  {
    assert s == s[..j] + [s[j]] + s[j + 1..];
    assert s[i] in s[..j];
  }

  lemma {:induction false} OnceInSequence(s: seq<string>, x: string)
    requires NoDuplicates(s)
    ensures multiset(s)[x] <= 1
  {
    if s != [] {
      var n := |s| - 1;
      assert s == s[..n] + [s[n]];
      OnceInSequence(s[..n], x);
      if s[n] == x {
        assert x !in s[..n];
      }
    }
  }

  class MountList {
    var cells: array<Option<string>>
    var count: nat
    var sorted: SortOrder

    /** A terminated array without duplicates; the capacity is the length of the array. */
    ghost predicate Valid()
      reads this, cells
    {
      && (cells.Length == 0 ==> count == 0) && (cells.Length > 0 ==> count < cells.Length && cells[count].None?)
      && (forall i :: 0 <= i < count ==> cells[i].Some?)
      && NoDuplicates(Contents())
    }

    ghost function Contents(): (s: seq<string>)
      reads this, cells
    {
      seq(if count <= cells.Length then count else 0,
          i requires 0 <= i < cells.Length reads this, cells => if cells[i].Some? then cells[i].value else "")
    }

    /** The sort label tells the truth. */
    ghost predicate Ordered()
      reads this, cells
    {
      InOrder(Contents(), sorted)
    }

    constructor ()
      ensures Valid() && Ordered() && Contents() == [] && sorted == Unsorted && fresh(cells)
    {
      cells := new Option<string>[0];
      count, sorted := 0, Unsorted;
    }

    /** Reverse the cells in place. */
    method ReverseCells()
      requires Valid()
      modifies cells
      ensures Valid() && Contents() == Reversed(old(Contents()))
    {
      var left, right := 0, count - 1;
      while left < right
        invariant 0 <= left <= right + 1 && left + right == count - 1
        invariant forall i :: 0 <= i < left || right < i < count ==> cells[i] == old(cells[count - 1 - i])
        invariant forall i :: left <= i <= right ==> cells[i] == old(cells[i])
        invariant forall i :: count <= i < cells.Length ==> cells[i] == old(cells[i])
      {
        cells[left], cells[right] := cells[right], cells[left];
        left, right := left + 1, right - 1;
      }
      assert Contents() == Reversed(old(Contents()));
    }

    /** setSort_MountList: `qsort` for an unsorted list, reversal for a sorted one. */
    method SetSort(sorting: SortOrder)
      requires Valid()
      modifies this`sorted, cells
      ensures Valid() && (old(Ordered()) ==> Ordered())
      ensures sorted == if sorting == Unsorted then old(sorted) else sorting
      ensures Contents() == SetSorted(old(Contents()), old(sorted), sorting)
    {
      hide InOrder, NoDuplicates, Compare;
      if sorting == Unsorted || sorted == sorting { return; }
      ghost var was := Contents();
      if sorted == Unsorted {
        QSort(sorting);
      } else {
        ReverseCells();
        if InOrder(was, sorted) { ReversedOrder(was, sorted); }
      }
      sorted := sorting;
      assert Contents() == SetSorted(was, old(sorted), sorting);
    }

    /** The library's `qsort`, by its result. */
    method QSort(sorting: SortOrder)
      requires Valid() && sorting != Unsorted
      modifies cells
      ensures Valid() && Contents() == SetSorted(old(Contents()), Unsorted, sorting) && InOrder(Contents(), sorting)
    {
      var texts := seq(count, i requires 0 <= i < count && count <= cells.Length reads this, cells =>
                         if cells[i].Some? then cells[i].value else "");
      assert texts == Contents();
      var result := SetSorted(texts, Unsorted, sorting);
      SortedIsStrict(texts);
      ReversedOrder(Sort(texts), Forward);
      StrictIsDuplicateFree(result, sorting);
      forall i | 0 <= i < count {
        cells[i] := Some(result[i]);
      }
      assert Contents() == result;
    }

    /** find_MountList: binary search in a sorted list, a linear scan in an unsorted one. */
    method Find(mountPoint: string) returns (found: bool, at: nat)
      requires Valid() && Ordered()
      ensures found <==> mountPoint in Contents()
      ensures found ==> at < count && Contents()[at] == mountPoint
    {
      at := 0;
      if sorted != Unsorted {
        var hi := count;
        while at < hi
          invariant 0 <= at <= hi <= count
          invariant forall i :: 0 <= i < count && !(at <= i < hi) ==> Contents()[i] != mountPoint
        {
          var mid := (at + hi) / 2;
          var cell := cells[mid].value;
          var c := Compare(mountPoint, cell);
          SearchSide(Contents(), sorted, mid, mountPoint);
          if c == 0 { return true, mid; }
          if (c < 0) == (sorted == Forward) {
            hi := mid;
          } else {
            at := mid + 1;
          }
        }
        return false, 0;
      }
      while at < cells.Length && cells[at].Some?
        invariant at <= count
        invariant mountPoint !in Contents()[..at]
      {
        if cells[at].value == mountPoint {
          assert Contents()[at] == mountPoint;
          return true, at;
        }
        assert Contents()[..at + 1] == Contents()[..at] + [cells[at].value];
        at := at + 1;
      }
      assert at == count && Contents()[..at] == Contents();
      return false, 0;
    }

    /** strncpy_StringArray: append a string and its terminator, growing the array by blocks. */
    method AppendCell(text: string)
      requires Valid() && text !in Contents()
      modifies this`cells, this`count, cells
      ensures Valid() && Contents() == old(Contents()) + [text]
      ensures count == old(count) + 1 && cells[count - 1] == Some(text)
      ensures (cells == old(cells) || fresh(cells)) && cells.Length - old(cells.Length) <= 2 * MOUNT_ALLOC_BLOCK
    {
      ghost var was := Contents();
      if cells.Length - count < 2 {
        var bigger := new Option<string>[cells.Length + MOUNT_ALLOC_BLOCK](i => None);
        forall i | 0 <= i < count {
          bigger[i] := cells[i];
        }
        cells := bigger;
      }
      cells[count] := Some(text);
      count := count + 1;
      cells[count] := None;
      assert Contents() == was + [text];
    }

    /** Move the last cell, which is out of order, up to its place. */
    method SiftUp(ghost s: seq<string>, x: string)
      requires cells.Length > 0 && count < cells.Length && cells[count].None? && count == |s| + 1
      requires forall i :: 0 <= i < count ==> cells[i] == Some((s + [x])[i])
      modifies cells
      ensures cells[count].None? && forall i :: 0 <= i < count ==> cells[i] == Some(Insert(s, x)[i])
    {
      hide Insert, Compare;
      var p := count - 1;
      assert s[..p] == s && Insert(s, x) == Insert(s[..p], x) + s[p..];
      while p > 0
        invariant 0 <= p < count && cells[count].None? && cells[p] == Some(x)
        invariant forall i :: 0 <= i < p ==> cells[i] == Some(s[i])
        invariant forall i :: p < i < count ==> cells[i] == Some(s[i - 1])
        invariant Insert(s, x) == Insert(s[..p], x) + s[p..]
      {
        if Compare(cells[p - 1].value, x) <= 0 {
          InsertStep(s, x, p);
          return;
        }
        InsertStep(s, x, p);
        cells[p], cells[p - 1] := cells[p - 1], cells[p];
        p := p - 1;
      }
      InsertFirst(x);
    }

    /** insert_MountList; 1 when the key is there already. Into a REVERSE list the code appends, reverses and
        calls the result FORWARD. */
    method InsertKey(mountPoint: string) returns (rc: int)
      requires Valid() && Ordered()
      modifies this, cells
      ensures Valid() && (cells == old(cells) || fresh(cells))
      ensures rc == if mountPoint in old(Contents()) then 1 else 0
      ensures rc == 1 ==> Contents() == old(Contents()) && sorted == old(sorted)
      ensures rc == 0 ==> Contents() == Inserted(old(Contents()), old(sorted), mountPoint)
                          && sorted == InsertedOrder(old(Contents()), old(sorted))
      ensures old(Contents()) == [] || old(sorted) != Reverse ==> Ordered()
    {
      hide InOrder, Insert, Sort, Compare, Precedes;
      EmptyInOrder();
      if count == 0 && sorted == Unsorted {
        sorted := Forward;
      }
      var found, at := Find(mountPoint);
      if found { return 1; }
      ghost var s, from := Contents(), old(sorted);
      InsertedMeaning(s, from, mountPoint);
      AppendCell(mountPoint);
      if count <= 1 { return 0; }
      if sorted == Forward {
        SiftUp(s, mountPoint);
        assert Contents() == Insert(s, mountPoint);
        InsertedIsDuplicateFree(s, mountPoint);
      } else {
        SetSort(Forward);
      }
      rc := 0;
    }

    /** Shift the cells behind `at`, and the terminator, down by one. */
    method CloseGap(at: nat, ghost s: seq<string>)
      requires at < count == |s| < cells.Length && cells[count].None?
      requires forall i :: 0 <= i < count ==> cells[i] == Some(s[i])
      modifies this`count, cells
      ensures count == old(count) - 1 && cells[count].None?
      ensures forall i :: 0 <= i < count ==> cells[i] == Some((s[..at] + s[at + 1..])[i])
    {
      var it := at;
      while it < count
        invariant at <= it <= count == |s| < cells.Length
        invariant forall i :: 0 <= i < at ==> cells[i] == Some(s[i])
        invariant forall i :: at <= i < it && i < count - 1 ==> cells[i] == Some(s[i + 1])
        invariant forall i :: it <= i < count ==> cells[i] == Some(s[i])
        invariant cells[count].None? && (it == count ==> cells[count - 1].None?)
      {
        cells[it] := cells[it + 1];
        it := it + 1;
      }
      count := count - 1;
    }

    /** remove_MountList */
    method Remove(mountPoint: string)
      requires Valid() && Ordered()
      modifies this`count, cells
      ensures Valid() && Ordered() && Contents() == Removed(old(Contents()), mountPoint)
    {
      hide InOrder, NoDuplicates, Removed;
      ghost var s := Contents();
      var found, at := Find(mountPoint);
      RemovedAt(s, mountPoint, at);
      RemovedInOrder(s, sorted, mountPoint);
      if !found { return; }
      assert forall i :: 0 <= i < count ==> cells[i] == Some(s[i]);
      CloseGap(at, s);
      assert Contents() == s[..at] + s[at + 1..];
    }
  }

  /** What setSort does to the contents. */
  function SetSorted(s: seq<string>, from: SortOrder, to: SortOrder): (r: seq<string>)
    ensures |r| == |s|
  {
    if to == Unsorted || from == to then s
    else if from == Unsorted then (if to == Forward then Sort(s) else Reversed(Sort(s)))
    else Reversed(s)
  }

  /** In a sorted list, everything on the far side of a cell compares like the cell does. */
  lemma SearchSide(s: seq<string>, order: SortOrder, mid: nat, x: string)
    requires InOrder(s, order) && order != Unsorted && mid < |s|
    ensures var c := Compare(x, s[mid]);
            && ((c < 0) == (order == Forward) && c != 0 ==> forall i :: mid <= i < |s| ==> s[i] != x)
            && ((c < 0) != (order == Forward) && c != 0 ==> forall i :: 0 <= i <= mid ==> s[i] != x)
  {
    CompareFlips(x, s[mid]);
    forall i | mid < i < |s| ensures Precedes(s[mid], s[i], order) {}
    forall i | 0 <= i < mid ensures Precedes(s[i], s[mid], order) {}
    forall i | 0 <= i < |s| ensures Compare(s[mid], s[i]) == -Compare(s[i], s[mid]) {
      CompareFlips(s[mid], s[i]);
    }
  }

  // ---------- what insertion and removal mean ----------

  function Inserted(s: seq<string>, order: SortOrder, x: string): seq<string> {
    if s == [] then [x]
    else if order == Forward then Insert(s, x)
    else SetSorted(s + [x], order, Forward)
  }

  function InsertedOrder(s: seq<string>, order: SortOrder): SortOrder {
    if s == [] && order != Unsorted then order else Forward
  }

  function Removed(s: seq<string>, x: string): seq<string> {
    if s == [] then []
    else if s[0] == x then s[1..]
    else [s[0]] + Removed(s[1..], x)
  }

  lemma RemovedAt(s: seq<string>, x: string, at: nat)
    requires NoDuplicates(s)
    ensures x !in s ==> Removed(s, x) == s
    ensures at < |s| && s[at] == x ==> Removed(s, x) == s[..at] + s[at + 1..]
    ensures NoDuplicates(Removed(s, x)) && x !in Removed(s, x)
  {
    if x in s {
      var i :| 0 <= i < |s| && s[i] == x;
      RemovedIs(s, x, i);
    } else {
      RemovedNothing(s, x);
    }
  }

  lemma RemovedInOrder(s: seq<string>, order: SortOrder, x: string)
    requires NoDuplicates(s) && InOrder(s, order)
    ensures InOrder(Removed(s, x), order)
  {
    if x in s {
      var i :| 0 <= i < |s| && s[i] == x;
      RemovedIs(s, x, i);
    } else {
      RemovedNothing(s, x);
    }
  }

  lemma {:induction false} RemovedIs(s: seq<string>, x: string, i: nat)
    requires NoDuplicates(s) && i < |s| && s[i] == x
    ensures Removed(s, x) == s[..i] + s[i + 1..]
  {
    if i > 0 {
      RemovedIs(s[1..], x, i - 1);
      assert s[..i] == [s[0]] + s[1..][..i - 1];
    }
  }

  lemma {:induction false} RemovedNothing(s: seq<string>, x: string)
    requires x !in s
    ensures Removed(s, x) == s
  {
    if s != [] {
      RemovedNothing(s[1..], x);
    }
  }

  lemma InsertFirst(x: string)
    ensures Insert([], x) == [x]
  {
  }

  lemma InsertStep(s: seq<string>, x: string, p: nat)
    requires 0 < p <= |s|
    ensures Compare(s[p - 1], x) <= 0 ==> Insert(s[..p], x) + s[p..] == s[..p] + [x] + s[p..]
    ensures Compare(s[p - 1], x) > 0 ==> Insert(s[..p], x) + s[p..] == Insert(s[..p - 1], x) + s[p - 1..]
  {
    assert s[..p][..p - 1] == s[..p - 1] && s[..p][p - 1] == s[p - 1] && s[p - 1..] == [s[p - 1]] + s[p..];
  }

  lemma InsertedIsDuplicateFree(s: seq<string>, x: string)
    requires InOrder(s, Forward) && x !in s
    ensures InOrder(Insert(s, x), Forward) && NoDuplicates(Insert(s, x))
  {
    StrictIsDuplicateFree(s, Forward);
    InsertKeepsAscending(s, x);
    var r := Insert(s, x);
    forall y ensures multiset(r)[y] <= 1 {
      OnceInSequence(s, y);
      if y == x { assert x !in multiset(s); }
    }
    forall i, j | 0 <= i < j < |r| ensures r[i] != r[j] {
      if r[i] == r[j] { TwiceInSequence(r, i, j); }
    }
  }

  function Elements(s: seq<string>): set<string> {
    set x | x in s
  }

  lemma EmptyInOrder()
    ensures InOrder([], Forward)
  {
  }

  /** Insertion adds the key. The order survives, except that inserting into a REVERSE list gives a list in
      order exactly when the new key comes before all the others. */
  lemma InsertedMeaning(s: seq<string>, order: SortOrder, x: string)
    requires NoDuplicates(s) && InOrder(s, order) && x !in s
    ensures Elements(Inserted(s, order, x)) == Elements(s) + {x}
    ensures s == [] || order != Reverse ==> InOrder(Inserted(s, order, x), InsertedOrder(s, order))
    ensures s != [] && order == Reverse ==>
              (InOrder(Inserted(s, order, x), Forward) <==> forall i :: 0 <= i < |s| ==> Compare(x, s[i]) < 0)
  {
    hide Sort, Insert, Reversed, NoDuplicates;
    if s != [] {
      match order
      case Forward => InsertedForward(s, x);
      case Unsorted => InsertedUnsorted(s, x);
      case Reverse => ReverseInsert(s, x);
    }
  }

  lemma InsertedForward(s: seq<string>, x: string)
    requires InOrder(s, Forward) && x !in s
    ensures Elements(Insert(s, x)) == Elements(s) + {x} && InOrder(Insert(s, x), Forward)
  {
    InsertedIsDuplicateFree(s, x);
    SameElements(Insert(s, x), s + [x]);
  }

  lemma InsertedUnsorted(s: seq<string>, x: string)
    requires NoDuplicates(s) && x !in s
    ensures Elements(Sort(s + [x])) == Elements(s) + {x} && InOrder(Sort(s + [x]), Forward)
  {
    assert NoDuplicates(s + [x]);
    SortedIsStrict(s + [x]);
    SameElements(Sort(s + [x]), s + [x]);
  }

  lemma SameElements(a: seq<string>, b: seq<string>)
    requires multiset(a) == multiset(b)
    ensures Elements(a) == Elements(b)
  {
    forall x ensures x in a <==> x in b {
      assert x in a <==> x in multiset(a);
      assert x in b <==> x in multiset(b);
    }
  }

  lemma ReverseInsert(s: seq<string>, x: string)
    requires InOrder(s, Reverse) && s != []
    ensures Elements(Reversed(s + [x])) == Elements(s) + {x}
    ensures InOrder(Reversed(s + [x]), Forward) <==> forall i :: 0 <= i < |s| ==> Compare(x, s[i]) < 0
  {
    var r := Reversed(s + [x]);
    ReversedOrder(s, Reverse);
    assert r == [x] + Reversed(s);
    forall y ensures y in r <==> y in s || y == x {
      if y in s {
        var i :| 0 <= i < |s| && s[i] == y;
        assert Reversed(s)[|s| - 1 - i] == y;
      }
      if y in Reversed(s) {
        var i :| 0 <= i < |s| && Reversed(s)[i] == y;
      }
    }
    if InOrder(r, Forward) {
      forall i | 0 <= i < |s| ensures Compare(x, s[i]) < 0 {
        assert Precedes(r[0], r[|s| - i], Forward);
      }
    }
    if forall i :: 0 <= i < |s| ==> Compare(x, s[i]) < 0 {
      forall i, j | 0 <= i < j < |r| ensures Precedes(r[i], r[j], Forward) {
        if i > 0 { assert Precedes(Reversed(s)[i - 1], Reversed(s)[j - 1], Forward); }
      }
    }
  }

  // ---------- runs ----------

  datatype Operation = Add(key: string) | Drop(key: string)

  /** The list after a run of insertions and removals that starts empty. */
  function RunList(ops: seq<Operation>): (seq<string>, SortOrder) {
    if ops == [] then ([], Unsorted)
    else
      var (s, order) := RunList(ops[..|ops| - 1]);
      match ops[|ops| - 1]
      case Add(x) => if x in s then (s, order) else (Inserted(s, order, x), InsertedOrder(s, order))
      case Drop(x) => (Removed(s, x), order)
  }

  function RunSet(ops: seq<Operation>): set<string> {
    if ops == [] then {}
    else
      match ops[|ops| - 1]
      case Add(x) => RunSet(ops[..|ops| - 1]) + {x}
      case Drop(x) => RunSet(ops[..|ops| - 1]) - {x}
  }

  /** Whatever is inserted and removed, the list is strictly ascending and holds the set it should. */
  lemma {:induction false} RunRefinesSet(ops: seq<Operation>)
    ensures var (s, order) := RunList(ops);
            && Elements(s) == RunSet(ops) && InOrder(s, Forward) && NoDuplicates(s)
            && order != Reverse && (order == Unsorted ==> s == [])
  {
    if ops != [] {
      RunRefinesSet(ops[..|ops| - 1]);
      var (s, order) := RunList(ops[..|ops| - 1]);
      var x := ops[|ops| - 1].key;
      if ops[|ops| - 1].Add? {
        if x !in s {
          InsertedMeaning(s, order, x);
          StrictIsDuplicateFree(Inserted(s, order, x), Forward);
        }
      } else {
        RemovedAt(s, x, 0);
        RemovedInOrder(s, Forward, x);
        RemovedElements(s, x);
      }
    }
  }

  lemma RemovedElements(s: seq<string>, x: string)
    requires NoDuplicates(s)
    ensures Elements(Removed(s, x)) == Elements(s) - {x}
  {
    if x in s {
      var i :| 0 <= i < |s| && s[i] == x;
      RemovedIs(s, x, i);
      var r := s[..i] + s[i + 1..];
      forall y ensures y in r <==> y in s && y != x {
        if y in s && y != x {
          var j :| 0 <= j < |s| && s[j] == y;
          assert y in s[..i] || y in s[i + 1..] by {
            if j < i { assert s[..i][j] == y; } else { assert s[i + 1..][j - i - 1] == y; }
          }
        }
      }
    } else {
      RemovedNothing(s, x);
    }
  }
}
