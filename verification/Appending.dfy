/** What appending to a rooted path computes (PathList.c), and when it stays above the root. */
module Appending {
  import opened PathItems

  /** A list as appending sees it. `linked` says that `terminal` is set, which an append without components undoes. */
  datatype Appended = Appended(items: seq<string>, floor: nat, linked: bool)

  /** The items after an append to a linked list: an absolute argument was normalised on its own, and then the
      whole path is, with the root as floor. */
  function AppendItems(items: seq<string>, floor: nat, absolute: bool, path: string): seq<string> {
    if absolute then Normalize(items + InitItems(path), floor) else items + InitItems(path)
  }

  /** One append. A list without `terminal` is replaced, and its root marker is left behind. */
  function AppendTo(base: Appended, absolute: bool, path: string): Appended {
    if path == "" then base
    else
      var kept := if base.linked then base else Appended([], 0, false);
      var items := AppendItems(kept.items, kept.floor, absolute, path);
      Appended(items, kept.floor, InitItems(path) != [] && items != [])
  }

  /** Any number of appends to an absolute list. */
  function AppendAll(base: Appended, paths: seq<string>): Appended {
    if paths == [] then base
    else AppendTo(AppendAll(base, paths[..|paths| - 1]), true, paths[|paths| - 1])
  }

  function AllItems(paths: seq<string>): seq<string> {
    if paths == [] then [] else AllItems(paths[..|paths| - 1]) + InitItems(paths[|paths| - 1])
  }

  lemma {:induction false} AllItemsFrom(paths: seq<string>, n: nat)
    requires n <= |paths|
    ensures AllItems(paths) == AllItems(paths[..n]) + AllItems(paths[n..])
  {
    hide InitItems;
    if n == |paths| {
      assert paths[..n] == paths;
    } else {
      var k := |paths| - 1;
      AllItemsFrom(paths[..k], n);
      assert paths[..k][..n] == paths[..n] && paths[..k][n..] == paths[n..][..k - n];
      assert paths[n..][k - n] == paths[k];
    }
  }

  // ---------- where the list starts anew ----------

  /** A path like "." or "/.." has no component; the empty path is refused. */
  predicate Hollow(path: string) {
    path != "" && InitItems(path) == []
  }

  /** A path without components is followed by another one that is not empty. */
  predicate CutsOff(paths: seq<string>) {
    exists i, j | 0 <= i < j < |paths| :: Hollow(paths[i]) && paths[j] != ""
  }

  /** The last path that was not refused has no component. */
  predicate EndsHollow(paths: seq<string>) {
    if paths == [] then false
    else if paths[|paths| - 1] == "" then EndsHollow(paths[..|paths| - 1])
    else Hollow(paths[|paths| - 1])
  }

  /** The last append that starts the list anew; 0 when there is none. */
  function Restart(paths: seq<string>): (n: nat)
    ensures n <= |paths|
  {
    if paths == [] then 0
    else
      var n := |paths| - 1;
      if paths[n] != "" && EndsHollow(paths[..n]) then n else Restart(paths[..n])
  }

  lemma {:induction false} HollowStaysLast(paths: seq<string>)
    requires !CutsOff(paths)
    ensures EndsHollow(paths) <==> exists i :: 0 <= i < |paths| && Hollow(paths[i])
  {
    hide InitItems;
    if paths != [] {
      var n := |paths| - 1;
      assert forall i :: 0 <= i < n ==> paths[..n][i] == paths[i];
      assert !CutsOff(paths[..n]);
      HollowStaysLast(paths[..n]);
    }
  }

  lemma {:induction false} RestartExact(paths: seq<string>)
    ensures Restart(paths) > 0 <==> CutsOff(paths)
  {
    hide Hollow;
    if paths != [] {
      var n := |paths| - 1;
      RestartExact(paths[..n]);
      assert forall i :: 0 <= i < n ==> paths[..n][i] == paths[i];
      if !CutsOff(paths[..n]) {
        HollowStaysLast(paths[..n]);
      }
    }
  }

  // ---------- what is left ----------

  /** One normalisation of everything, or of what was appended since the list was last started anew. */
  function Remaining(items: seq<string>, floor: nat, paths: seq<string>): Appended {
    var n := Restart(paths);
    var root := if n == 0 then floor else 0;
    var all := Normalize((if n == 0 then items else []) + AllItems(paths[n..]), root);
    Appended(all, root, all != [] && !EndsHollow(paths))
  }

  /** What any number of appends to a well-linked absolute list leaves. */
  lemma {:induction false} AppendsAre(items: seq<string>, floor: nat, paths: seq<string>)
    requires floor <= |items| && NoUp(items)
    ensures AppendAll(Appended(items, floor, items != []), paths) == Remaining(items, floor, paths)
  {
    hide Normalize, InitItems;
    if paths == [] {
      NormalizePlain(items, floor);
      NoItems();
      assert items + [] == items;
    } else {
      AppendsAre(items, floor, paths[..|paths| - 1]);
      RemainingStep(items, floor, paths);
    }
  }

  lemma RemainingStep(items: seq<string>, floor: nat, paths: seq<string>)
    requires floor <= |items| && NoUp(items) && paths != []
    ensures var k := |paths| - 1;
            AppendTo(Remaining(items, floor, paths[..k]), true, paths[k]) == Remaining(items, floor, paths)
  {
    hide Normalize, InitItems, AllItems;
    var k := |paths| - 1;
    var n, path := Restart(paths[..k]), paths[k];
    var was := AllItems(paths[..k][n..]);
    AllItemsLast(paths, n);
    if path == "" {
      EmptyHasNone();
      assert was + [] == was;
    } else if EndsHollow(paths[..k]) {
      AllItemsLast(paths, k);
      NoItems();
      assert paths[..k][k..] == [] && [] + InitItems(path) == InitItems(path);
    } else {
      var start := if n == 0 then items else [];
      KeepsGoing(start, if n == 0 then floor else 0, was, InitItems(path));
      assert start + was + InitItems(path) == start + (was + InitItems(path));
    }
  }

  lemma AllItemsLast(paths: seq<string>, n: nat)
    requires n < |paths|
    ensures AllItems(paths[n..]) == AllItems(paths[..|paths| - 1][n..]) + InitItems(paths[|paths| - 1])
  {
    hide InitItems;
    var k := |paths| - 1;
    assert paths[n..][..k - n] == paths[..k][n..] && paths[n..][k - n] == paths[k];
  }

  lemma NoItems()
    ensures AllItems([]) == []
  {
  }

  lemma EmptyHasNone()
    ensures InitItems("") == []
  {
  }

  lemma KeepsGoing(items: seq<string>, floor: nat, was: seq<string>, added: seq<string>)
    requires floor <= |items| && NoUp(items)
    ensures Normalize(items + was + added, floor) == Normalize(Normalize(items + was, floor) + added, floor)
    ensures Normalize(items + was, floor) == [] ==> floor == 0
  {
    NormalizeInStages(items + was, added, floor);
    assert (items + was)[..floor] == items[..floor];
    NormalizeKeepsRoot(items + was, floor);
  }

  // ---------- when that is above the root ----------

  /** How many ".." of a list lead out of where it starts. */
  function Climb(items: seq<string>): nat {
    if items == [] then 0
    else
      var init, last := items[..|items| - 1], items[|items| - 1];
      Climb(init) + if last == ".." && Normalize(init, 0) == [] then 1 else 0
  }

  /** A list appended to a stack takes as many components off it as it climbs, but none below the floor. */
  lemma {:induction false} RunClimbs(stack: seq<string>, items: seq<string>, floor: nat)
    requires floor <= |stack|
    ensures var kept := if |stack| - Climb(items) > floor then |stack| - Climb(items) else floor;
            Run(stack, items, floor) == stack[..kept] + Normalize(items, 0)
  {
    if items == [] {
      assert stack[..|stack|] + [] == stack;
    } else {
      var init, last := items[..|items| - 1], items[|items| - 1];
      assert items == init + [last];
      RunClimbs(stack, init, floor);
      RunInStages(stack, init, [last], floor);
      RunInStages([], init, [last], 0);
    }
  }

  /** Appending gives the one normalisation of everything, with the root as floor, exactly when the list is not
      cut off; or when the root is "/" and what was appended later climbs over all that was cut off. */
  lemma AppendsExact(items: seq<string>, floor: nat, paths: seq<string>)
    requires floor <= |items| && NoUp(items)
    ensures var n := Restart(paths);
            var lost := Normalize(items + AllItems(paths[..n]), floor);
            AppendAll(Appended(items, floor, items != []), paths).items == Normalize(items + AllItems(paths), floor)
            <==> !CutsOff(paths) || (floor == 0 && |lost| <= Climb(AllItems(paths[n..])))
  {
    hide Normalize, InitItems, AppendAll;
    AppendsAre(items, floor, paths);
    RestartExact(paths);
    var n := Restart(paths);
    assert paths[0..] == paths;
    if n > 0 {
      var before, after := AllItems(paths[..n]), AllItems(paths[n..]);
      AllItemsFrom(paths, n);
      assert items + (before + after) == items + before + after && [] + after == after;
      Overwritten(items, floor, before, after);
    }
  }

  /** What comes last is all there is exactly when it climbs over everything before it. */
  lemma Overwritten(items: seq<string>, floor: nat, before: seq<string>, after: seq<string>)
    requires floor <= |items| && NoUp(items)
    ensures Normalize(after, 0) == Normalize(items + before + after, floor) <==>
            floor == 0 && |Normalize(items + before, floor)| <= Climb(after)
  {
    hide Climb;
    var lost := Normalize(items + before, floor);
    RunInStages([], items + before, after, floor);
    assert (items + before)[..floor] == items[..floor];
    NormalizeKeepsRoot(items + before, floor);
    RunClimbs(lost, after, floor);
  }

  /** Appending to a rooted list leaves one normalisation of everything above an unchanged root, which stays marked,
      if and only if no path without components is followed by another one that is not empty. */
  lemma AppendsStayInside(items: seq<string>, floor: nat, paths: seq<string>)
    requires 0 < floor <= |items| && NoUp(items)
    ensures var whole := Normalize(items + AllItems(paths), floor);
            && floor <= |whole| && whole[..floor] == items[..floor]
            && (AppendAll(Appended(items, floor, true), paths).items == whole <==> !CutsOff(paths))
            && (AppendAll(Appended(items, floor, true), paths).floor == floor <==> !CutsOff(paths))
  {
    hide Normalize, InitItems, AppendAll;
    AppendsExact(items, floor, paths);
    AppendsAre(items, floor, paths);
    RestartExact(paths);
    assert paths[0..] == paths;
    assert (items + AllItems(paths))[..floor] == items[..floor];
    NormalizeKeepsRoot(items + AllItems(paths), floor);
  }

  /** Appending "." and then any name loses the root and everything else. */
  lemma DotLosesRoot(root: seq<string>, name: string)
    requires root != [] && NoUp(root) && ProperItem(name) && name != ".."
    ensures AppendAll(Appended(root, |root|, true), [".", name]) == Appended([name], 0, true)
  {
    hide AppendAll, InitItems, Normalize;
    var paths := [".", name];
    OneComponent(name);
    DotIsHollow();
    AppendsAre(root, |root|, paths);
    NormalizePlain([name], 0);
    assert paths[..1] == ["."] && paths[1..] == [name];
    assert EndsHollow(["."]) && !EndsHollow(paths) && Restart(paths) == 1;
    assert [name][..0] == [] && AllItems([name]) == [] + [name] == [name];
  }

  lemma OneComponent(name: string)
    requires ProperItem(name)
    ensures InitItems(name) == [name]
  {
    assert [name][..0] == [] && Render([name]) == "/" + name;
    ComponentsOfRender([name]);
    assert ("/" + name)[1..] == name;
  }

  lemma DotIsHollow()
    ensures Hollow(".")
  {
  }
}
