/** Operations on rooted path lists (PathList.c): rooting, appending and following one link. */
module PathOps {
  import opened Appending
  import opened PathItems
  import opened PathLists

  /** pathList_setRoot */
  method SetRoot(path: PathList, relroot: string) returns (failed: bool)
    requires path.Valid() && path.knot == 0
    modifies path
    ensures path.Valid() && path.nodes == old(path.nodes)
    ensures path.items == old(path.items) && path.repr == old(path.repr)
    ensures path.knot == 0 && path.absolute == old(path.absolute)
    ensures var root := InitItems(relroot);
            !failed <==> Absolute(relroot) && (root == [] || (path.absolute && root <= path.items))
    ensures path.floor == if failed then old(path.floor) else |InitItems(relroot)|
    ensures if failed then path.relroot == old(path.relroot) else path.Rooted()
  {
    var root := PathListInit(relroot);
    if root == null || !root.absolute { return true; }
    if root.path == null {
      path.relroot, path.floor := null, 0;
    } else {
      var rootptr, n := MatchPartial(path, root);
      if rootptr == null { return true; }
      path.relroot, path.floor := rootptr, n;
    }
    failed := false;
  }

  /** Linking the head of `b` behind the last of `a` joins two chains. At `knot`, if that is the joint, the
      head of `b` is its own parent instead. */
  lemma JoinIsChain(a: seq<PathComponent>, b: seq<PathComponent>, knot: nat)
    requires Distinct(a) && Distinct(b) && forall i, j :: 0 <= i < |a| && 0 <= j < |b| ==> a[i] != b[j]
    requires a != [] && b != [] && Chain(b, 0) && (knot == 0 || knot == |a|)
    requires forall i {:trigger a[i].child} :: 0 <= i < |a| - 1 ==> a[i].child == a[i + 1]
    requires forall i {:trigger a[i].parent} :: 0 < i < |a| ==> a[i].parent == a[i - 1]
    requires a[|a| - 1].child == b[0] && b[0].parent == (if knot == |a| then b[0] else a[|a| - 1])
    ensures Distinct(a + b) && Chain(a + b, knot)
  {
    var nodes := a + b;
    forall i | 0 <= i < |nodes| - 1 ensures nodes[i].child == nodes[i + 1] {
      if i >= |a| { assert b[i - |a|].child == b[i - |a| + 1]; }
    }
    forall i | 0 < i < |nodes| && i != knot ensures nodes[i].parent == nodes[i - 1] {
      if i > |a| { assert b[i - |a|].parent == b[i - |a| - 1]; }
    }
  }

  /** Link the components of `other` behind the first `k` components of `dest`. With
      `knotted`, the first of them becomes its own parent. */
  method LinkBehind(dest: PathList, other: PathList, parent: PathComponent, knotted: bool, ghost k: nat)
    requires dest.Valid() && dest.knot == 0 && other.Valid() && other.knot == 0 && other.nodes != []
    requires dest != other && dest.repr !! other.repr
    requires 0 < k <= |dest.nodes| && parent == dest.nodes[k - 1] && dest.floor <= k
    modifies dest, parent`child, other.path`parent
    ensures dest.Shape() && dest.TerminalIsLast()
    ensures dest.nodes == old(dest.nodes[..k] + other.nodes)
    ensures dest.items == old(dest.items[..k] + other.items) && dest.repr == old(dest.repr + other.repr)
    ensures dest.floor == old(dest.floor) && dest.relroot == old(dest.relroot) && dest.absolute == old(dest.absolute)
    ensures dest.knot == if knotted then k else 0
  {
    hide Chain, Distinct, Marked, Spelled;
    ghost var a, b := dest.nodes[..k], other.nodes;
    LinkChains(dest, other, parent, knotted, k);
    JoinIsMarked(dest.nodes, dest.items, dest.relroot, dest.floor, dest.repr, k, b, other.items, other.repr);
    dest.terminal := other.terminal;
    dest.nodes, dest.items, dest.repr := a + b, dest.items[..k] + other.items, dest.repr + other.repr;
    dest.knot := if knotted then k else 0;
  }

  /** The two links at the joint. */
  method LinkChains(dest: PathList, other: PathList, parent: PathComponent, knotted: bool, ghost k: nat)
    requires dest.Valid() && dest.knot == 0 && other.Valid() && other.knot == 0 && other.nodes != []
    requires dest != other && dest.repr !! other.repr
    requires 0 < k <= |dest.nodes| && parent == dest.nodes[k - 1]
    modifies parent`child, other.path`parent
    ensures Distinct(dest.nodes[..k] + other.nodes)
    ensures Chain(dest.nodes[..k] + other.nodes, if knotted then k else 0)
  {
    ghost var a, b := dest.nodes[..k], other.nodes;
    assert forall i :: 0 <= i < k ==> a[i] in dest.repr;
    assert forall i :: 0 <= i < |b| ==> b[i] in other.repr;
    var first := other.path;
    parent.child := first;
    first.parent := if knotted then first else parent;
    JoinIsChain(a, b, if knotted then k else 0);
  }

  /** Replace what follows the first `k` components of `dest` by the components of `other`, which is freed. */
  method Graft(dest: PathList, other: PathList, parent: PathComponent, knotted: bool, ghost k: nat)
    requires dest.Valid() && dest.knot == 0 && other.Valid() && other.knot == 0 && other.nodes != []
    requires dest != other && dest.repr !! other.repr
    requires 0 < k <= |dest.nodes| && parent == dest.nodes[k - 1] && dest.floor <= k
    modifies dest, dest.repr, other.repr
    ensures dest.Valid() && dest.nodes == old(dest.nodes[..k] + other.nodes)
    ensures dest.items == old(dest.items[..k] + other.items) && dest.repr == old(dest.repr + other.repr)
    ensures dest.floor == old(dest.floor) && dest.relroot == old(dest.relroot) && dest.absolute == old(dest.absolute)
    ensures dest.knot == if knotted then k else 0
  {
    LinkBehind(dest, other, parent, knotted, k);
    dest.Adopt();
  }

  /** A list gets the components of another one in place of its own; its root marker, if any, is left behind. */
  method TakeOver(dest: PathList, other: PathList)
    requires dest.Linked() && other.Valid() && other.knot == 0
    requires dest != other && dest.repr !! other.repr
    modifies dest, dest.repr, other.repr
    ensures dest.Valid() && dest.nodes == old(other.nodes) && dest.items == old(other.items)
    ensures dest.repr == old(dest.repr + other.repr) && dest.relroot == old(dest.relroot)
    ensures dest.floor == 0 && dest.absolute == old(dest.absolute) && dest.knot == 0
  {
    hide Chain, Distinct;
    dest.path, dest.terminal := other.path, other.terminal;
    dest.nodes, dest.items, dest.repr := other.nodes, other.items, dest.repr + other.repr;
    dest.floor, dest.knot := 0, 0;
    dest.Adopt();
  }

  /** The linking half of pathList_append: behind the last component when `terminal` is set, and in place of the
      whole list when it is not. */
  method Concatenate(base: PathList, newpath: PathList)
    requires base.Appendable() && newpath.Valid() && newpath.knot == 0
    requires base != newpath && base.repr !! newpath.repr
    modifies base, base.repr, newpath.repr
    ensures base.Appendable() && base.absolute == old(base.absolute) && base.relroot == old(base.relroot)
    ensures base.repr == old(base.repr + newpath.repr)
    ensures base.items == old((if base.terminal == null then [] else base.items) + newpath.items)
    ensures base.floor == old(if base.terminal == null then 0 else base.floor)
    ensures base.terminal == null <==> old(newpath.nodes) == []
  {
    if base.terminal == null {
      TakeOver(base, newpath);
    } else if newpath.path == null {
      base.terminal, base.repr := null, base.repr + newpath.repr;
    } else {
      Graft(base, newpath, base.terminal, false, |base.nodes|);
    }
  }

  ghost function StateOf(path: PathList): Appended
    reads path
  {
    Appended(path.items, path.floor, path.terminal != null)
  }

  /** pathList_append, also on a list whose `terminal` an earlier append has cleared. */
  method Append(base: PathList, path: string) returns (failed: bool)
    requires base.Appendable() && (base.absolute ==> NoUp(base.items))
    modifies base, base.repr
    ensures failed <==> path == ""
    ensures base.Appendable() && base.absolute == old(base.absolute) && base.relroot == old(base.relroot)
    ensures StateOf(base) == AppendTo(old(StateOf(base)), base.absolute, path)
    ensures base.absolute ==> NoUp(base.items)
    ensures fresh(base.repr - old(base.repr))
  {
    hide Normalize, InitItems, NoUp, Chain, Distinct;
    var newpath := PathListInit(path);
    if newpath == null { return true; }
    ghost var kept := if base.terminal == null then [] else base.items;
    KeptIsPlain(kept, if base.terminal == null then 0 else base.floor, base.absolute, path);
    Concatenate(base, newpath);
    base.Resolve();
    failed := false;
  }

  /** What was kept is in normal form, and so is the whole when nothing is added. */
  lemma KeptIsPlain(kept: seq<string>, floor: nat, absolute: bool, path: string)
    requires floor <= |kept| && (absolute && kept != [] ==> NoUp(kept))
    ensures absolute ==> NoUp((kept + InitItems(path))[..floor]) && NoUp(AppendItems(kept, floor, absolute, path))
    ensures InitItems(path) == [] ==> kept + InitItems(path) == kept
    ensures absolute && InitItems(path) == [] ==> NoUp(kept + InitItems(path))
  {
    hide Normalize, InitItems;
    assert (kept + InitItems(path))[..floor] == kept[..floor];
  }

  /** pathList_duplicatePartial: the copy up to a component, none when the list does not have it. A root marker behind
      that component is left outside. */
  method DuplicatePartial(origpath: PathList, tohere: PathComponent?, ghost k: nat) returns (ret: PathList?)
    requires origpath.Linked() && k <= |origpath.nodes|
    requires if k < |origpath.nodes| then tohere == origpath.nodes[k]
             else forall i {:trigger origpath.nodes[i]} :: 0 <= i < |origpath.nodes| ==> tohere != origpath.nodes[i]
    ensures ret == null <==> k == |origpath.nodes| && tohere != null
    ensures ret != null ==> fresh(ret) && fresh(ret.repr) && ret.Valid() && ret.knot == 0
    ensures ret != null ==> ret.items == (if tohere == null then [] else origpath.items[..k + 1])
    ensures ret != null ==> ret.floor == (if origpath.floor <= |ret.items| then origpath.floor else 0)
    ensures ret != null ==> ret.absolute == origpath.absolute
    ensures ret != null && origpath.floor <= |ret.items| ==> ret.Rooted()
  {
    ret := Duplicate(origpath);
    var lptr, rptr := origpath.path, ret.path;
    ghost var i := 0;
    while lptr != null && rptr != null && lptr != tohere
      invariant 0 <= i <= k && (lptr == null <==> i == |origpath.nodes|) && (lptr != null ==> lptr == origpath.nodes[i])
      invariant (rptr == null <==> i == |ret.nodes|) && (rptr != null ==> rptr == ret.nodes[i])
      decreases k - i
      modifies {}
    {
      origpath.Step(i);
      ret.Step(i);
      lptr, rptr, i := lptr.child, rptr.child, i + 1;
    }
    if lptr != tohere { return null; }
    assert i == k;
    if rptr != null {
      TrimAfter(ret, rptr, k);
    } else {
      Clear(ret);
    }
  }

  /** Cut off everything behind a component; a root marker there is left outside. */
  method TrimAfter(path: PathList, last: PathComponent, ghost k: nat)
    requires path.Valid() && path.knot == 0 && k < |path.nodes| && last == path.nodes[k]
    modifies path, last`child
    ensures path.Valid() && path.knot == 0 && path.relroot == old(path.relroot) && path.absolute == old(path.absolute)
    ensures path.nodes == old(path.nodes)[..k + 1]
    ensures path.items == old(path.items)[..k + 1] && path.repr == old(path.repr)
    ensures path.floor == if old(path.floor) <= k + 1 then old(path.floor) else 0
  {
    path.terminal := last;
    last.child := null;
    path.nodes, path.items := path.nodes[..k + 1], path.items[..k + 1];
    path.floor := if path.floor <= k + 1 then path.floor else 0;
  }

  /** Drop all components; a root marker is left outside. */
  method Clear(path: PathList)
    requires path.Valid()
    modifies path
    ensures path.Valid() && path.nodes == [] && path.items == [] && path.floor == 0 && path.knot == 0
    ensures path.relroot == old(path.relroot) && path.absolute == old(path.absolute) && path.repr == old(path.repr)
  {
    path.path, path.terminal := null, null;
    path.nodes, path.items, path.floor, path.knot := [], [], 0, 0;
  }

  /** pathList_trimLast; an only component must not have a stale parent. Without the component it marks, the root marker
      is outside. */
  method TrimLast(path: PathList)
    requires path.Valid() && path.knot == 0
    requires |path.nodes| == 1 ==> path.path.parent == null
    modifies path, path.repr
    ensures path.Valid() && path.knot == 0 && path.relroot == old(path.relroot) && path.absolute == old(path.absolute)
    ensures var n := |old(path.items)|;
            && path.items == (if n == 0 then [] else old(path.items)[..n - 1])
            && path.floor == (if n > 0 && old(path.floor) == n then 0 else old(path.floor))
    ensures path.repr == old(path.repr)
  {
    if path.terminal == null { return; }
    ghost var n := |path.nodes| - 1;
    assert n > 0 ==> path.nodes[n].parent == path.nodes[n - 1];
    var ptr := path.terminal.parent;
    if ptr != null {
      TrimAfter(path, ptr, n - 1);
    } else {
      Clear(path);
    }
  }

  /** pathList_commonPath: none when the root markers sit at different places of the common prefix. */
  method CommonPath(a: PathList, b: PathList) returns (ret: PathList?)
    requires a.Linked() && b.Linked()
    ensures ret == null <==> a.absolute != b.absolute || (a.relroot == null) != (b.relroot == null)
                             || (a.floor != b.floor
                                 && (0 < a.floor <= CommonLength(a.items, b.items)
                                     || 0 < b.floor <= CommonLength(a.items, b.items)))
    ensures ret != null ==> fresh(ret) && fresh(ret.repr) && ret.Valid() && ret.Rooted() && ret.knot == 0
    ensures ret != null ==> ret.absolute == a.absolute && ret.items == a.items[..CommonLength(a.items, b.items)]
    ensures ret != null ==> ret.floor == if a.floor <= CommonLength(a.items, b.items) then a.floor else 0
  {
    hide CommonLength, Copied, Chain, Distinct;
    if a.absolute != b.absolute
      || (a.relroot != null && b.relroot == null) || (a.relroot == null && b.relroot != null) {
      return null;
    }
    ret := new PathList(a.absolute);
    var aptr, bptr := a.path, b.path;
    ghost var i := 0;
    NothingCopied(a, b, ret);
    while aptr != null && bptr != null
      invariant Copied(a, b, ret, aptr, bptr, i) && fresh(ret) && fresh(ret.repr)
      decreases |a.nodes| - i
    {
      CopiedSoFar(a, b, ret, aptr, bptr, i);
      if aptr.item != bptr.item {
        CommonLengthIs(a.items, b.items, i);
        return ret;
      }
      var clash;
      clash, aptr, bptr := CopyShared(a, b, ret, aptr, bptr, i);
      i := i + 1;
      if clash {
        CommonLengthAtLeast(a.items, b.items, i);
        return null;
      }
    }
    CopiedSoFar(a, b, ret, aptr, bptr, i);
    CommonLengthIs(a.items, b.items, i);
  }

  /** The first `i` components agree and are copied; the pointers stand behind them. */
  ghost predicate Copied(a: PathList, b: PathList, ret: PathList, aptr: PathComponent?, bptr: PathComponent?, i: nat)
    reads a, a.repr, b, b.repr, ret, ret.repr
  {
    && a.Linked() && b.Linked() && ret.Valid() && ret.Rooted() && ret.knot == 0 && ret.absolute == a.absolute
    && i <= |a.nodes| && (aptr == null <==> i == |a.nodes|) && (aptr != null ==> aptr == a.nodes[i])
    && i <= |b.nodes| && (bptr == null <==> i == |b.nodes|) && (bptr != null ==> bptr == b.nodes[i])
    && ret.items == a.items[..i] == b.items[..i]
    && (0 < a.floor <= i || 0 < b.floor <= i ==> a.floor == b.floor)
    && ret.floor == (if a.floor <= i then a.floor else 0)
  }

  lemma NothingCopied(a: PathList, b: PathList, ret: PathList)
    requires a.Linked() && b.Linked()
    requires ret.Valid() && ret.Rooted() && ret.items == [] && ret.floor == 0 && ret.knot == 0
    requires ret.absolute == a.absolute
    ensures Copied(a, b, ret, a.path, b.path, 0)
  {
  }

  lemma CopiedSoFar(a: PathList, b: PathList, ret: PathList, aptr: PathComponent?, bptr: PathComponent?, i: nat)
    requires Copied(a, b, ret, aptr, bptr, i)
    ensures i <= |a.items| == |a.nodes| && i <= |b.items| && a.items[..i] == b.items[..i]
    ensures (aptr == null <==> i == |a.items|) && (bptr == null <==> i == |b.items|)
    ensures aptr != null ==> aptr.item == a.items[i]
    ensures bptr != null ==> bptr.item == b.items[i]
    ensures a.Linked() && b.Linked()
    ensures ret.Valid() && ret.Rooted() && ret.knot == 0 && ret.absolute == a.absolute && ret.items == a.items[..i]
    ensures 0 < a.floor <= i || 0 < b.floor <= i ==> a.floor == b.floor
    ensures ret.floor == if a.floor <= i then a.floor else 0
  {
    if aptr != null { a.Step(i); }
    if bptr != null { b.Step(i); }
  }

  /** One round of the loop: copy a component that both lists have, unless it is the root of one only. */
  method CopyShared(a: PathList, b: PathList, ret: PathList, aptr: PathComponent, bptr: PathComponent, ghost i: nat)
    returns (clash: bool, anext: PathComponent?, bnext: PathComponent?)
    requires Copied(a, b, ret, aptr, bptr, i) && aptr.item == bptr.item
    requires ret != a && ret != b && ret.repr !! a.repr && ret.repr !! b.repr
    modifies ret, ret.repr
    ensures fresh(ret.repr - old(ret.repr))
    ensures i < |a.items| && i < |b.items| && a.items[..i + 1] == b.items[..i + 1]
    ensures clash <==> (i + 1 == a.floor) != (i + 1 == b.floor)
    ensures !clash ==> Copied(a, b, ret, anext, bnext, i + 1)
  {
    hide CommonLength, Chain, Distinct;
    a.Step(i);
    b.Step(i);
    var aIsRoot, bIsRoot, item := aptr == a.relroot, bptr == b.relroot, aptr.item;
    anext, bnext := aptr.child, bptr.child;
    assert a.items[..i + 1] == a.items[..i] + [item] && b.items[..i + 1] == b.items[..i] + [item];
    ret.PushCopy(item, aIsRoot && bIsRoot);
    clash := aIsRoot != bIsRoot;
  }

  /** pathList_appendComponents. (The code sets `terminal` once, after the loop.) */
  method AppendComponents(dest: PathList, src: PathList, comp: PathComponent?, ghost j: nat)
    returns (ret: PathComponent?)
    requires dest.Valid() && dest.knot == 0 && src.Linked() && dest != src && dest.repr !! src.repr
    requires comp != null && comp.list == src ==> j < |src.nodes| && comp == src.nodes[j]
    modifies dest, dest.repr
    ensures dest.Valid() && dest.knot == 0 && dest.floor == old(dest.floor) && dest.absolute == old(dest.absolute)
    ensures fresh(dest.repr - old(dest.repr))
    ensures ret == null <==> comp == null || comp.list != src
    ensures ret == null ==> dest.nodes == old(dest.nodes) && dest.items == old(dest.items)
    ensures ret != null ==> j < |src.items| && dest.items == old(dest.items) + src.items[j..]
                            && |old(dest.nodes)| < |dest.nodes| && ret == dest.nodes[|old(dest.nodes)|]
    ensures dest.nodes[..|old(dest.nodes)|] == old(dest.nodes)
  {
    if comp == null || comp.list != src { return null; }
    hide TailCopied, Chain, Distinct;
    var compPtr := comp;
    ret := null;
    ghost var i, was, nodes := j, dest.items, dest.nodes;
    NoTailYet(dest, src, compPtr, j);
    while compPtr != null
      invariant TailCopied(dest, src, was, nodes, compPtr, j, i)
      invariant dest.floor == old(dest.floor) && dest.absolute == old(dest.absolute)
      invariant fresh(dest.repr - old(dest.repr)) && dest.repr !! src.repr
      invariant j <= i && (ret == null <==> i == j)
      invariant ret != null ==> |nodes| < |dest.nodes| && ret == dest.nodes[|nodes|]
      decreases |src.nodes| - i
    {
      var next := CopyTail(dest, src, compPtr, was, nodes, j, i);
      if ret == null {
        ret := dest.terminal;
      }
      compPtr, i := next, i + 1;
    }
    TailIsCopied(dest, src, was, nodes, compPtr, j, i);
  }

  /** The components from `j` to `i` are copied behind what `dest` had; the pointer stands behind them. */
  ghost predicate TailCopied(dest: PathList, src: PathList, was: seq<string>, nodes: seq<PathComponent>,
      compPtr: PathComponent?, j: nat, i: nat)
    reads dest, dest.repr, src, src.repr
  {
    && src.Linked() && dest.Valid() && dest.knot == 0
    && j <= i <= |src.nodes| && (compPtr == null <==> i == |src.nodes|) && (compPtr != null ==> compPtr == src.nodes[i])
    && |dest.nodes| == |nodes| + i - j && dest.nodes[..|nodes|] == nodes
    && |src.items| == |src.nodes| && dest.items == was + src.items[j..i]
  }

  lemma NoTailYet(dest: PathList, src: PathList, comp: PathComponent, j: nat)
    requires dest.Valid() && dest.knot == 0 && src.Linked() && j < |src.nodes| && comp == src.nodes[j]
    ensures TailCopied(dest, src, dest.items, dest.nodes, comp, j, j)
  {
    assert src.items[j..j] == [] && dest.items + [] == dest.items;
    assert dest.nodes[..|dest.nodes|] == dest.nodes;
  }

  lemma TailIsCopied(dest: PathList, src: PathList, was: seq<string>, nodes: seq<PathComponent>,
      compPtr: PathComponent?, j: nat, i: nat)
    requires TailCopied(dest, src, was, nodes, compPtr, j, i)
    ensures src.Linked() && dest.Valid() && dest.knot == 0 && i <= |src.nodes| && dest.nodes[..|nodes|] == nodes
    ensures compPtr == null ==> j <= |src.items| && dest.items == was + src.items[j..]
  {
    assert src.items[j..|src.items|] == src.items[j..];
  }

  /** One round of the loop: copy a component and go on. */
  method CopyTail(dest: PathList, src: PathList, compPtr: PathComponent, ghost was: seq<string>,
      ghost nodes: seq<PathComponent>, ghost j: nat, ghost i: nat)
    returns (next: PathComponent?)
    requires TailCopied(dest, src, was, nodes, compPtr, j, i) && dest != src && dest.repr !! src.repr
    modifies dest, dest.repr
    ensures TailCopied(dest, src, was, nodes, next, j, i + 1) && i < |src.nodes|
    ensures dest.floor == old(dest.floor) && dest.absolute == old(dest.absolute) && fresh(dest.repr - old(dest.repr))
    ensures i == j ==> |nodes| < |dest.nodes| && dest.terminal == dest.nodes[|nodes|]
    ensures i > j ==> |nodes| < |dest.nodes| && |nodes| < |old(dest.nodes)|
    ensures i > j ==> dest.nodes[|nodes|] == old(dest.nodes)[|nodes|]
  {
    hide Chain, Distinct;
    src.Step(i);
    next := compPtr.child;
    ghost var before := dest.nodes;
    dest.Push(compPtr.item);
    assert dest.nodes[..|nodes|] == dest.nodes[..|before|][..|nodes|];
    assert i > j ==> dest.nodes[|nodes|] == dest.nodes[..|before|][|nodes|];
    assert src.items[j..i + 1] == src.items[j..i] + [src.items[i]];
  }

  /** pathList_symlinkResolve. Without a root marker, an absolute target replaces the whole list, and so does any
      target of an empty list. */
  method SymlinkResolve(base: PathList, symlink: string) returns (ret: PathList?)
    requires base.Valid() && NoUp(base.items)
    requires symlink != "" ==> Placeable(base.items, base.floor, symlink)
    ensures ret == null <==> symlink == "" || !base.absolute
    ensures ret != null ==> fresh(ret) && fresh(ret.repr) && ret.Valid() && ret.Rooted() && ret.absolute
    ensures ret != null ==> ret.items == LinkTarget(base.items, base.floor, symlink) && ret.floor == base.floor
    ensures ret != null ==> ret.knot == if AtRoot(base.items, base.floor, symlink) then base.floor else 0
  {
    hide Chain, Distinct, Run, Normalize, InitItems;
    var link := PathListInit(symlink);
    var newpath := Duplicate(base);
    if link == null || !newpath.absolute { return null; }
    PlaceTarget(newpath, link);
    TargetKeepsRoot(base.items, base.floor, symlink);
    newpath.Resolve();
    ret := newpath;
  }

  /** There is a component to hang the value behind, and the value can be hung there; or the value takes the place
      of the list. */
  predicate Placeable(dir: seq<string>, floor: nat, value: string) {
    (floor == 0 && AtRoot(dir, floor, value)) || Followable(dir, floor, value)
  }

  /** Put a link's components behind the root or behind the last component; or, when there is none, in place of
      the list. */
  method PlaceTarget(newpath: PathList, link: PathList)
    requires newpath.Valid() && newpath.Rooted() && newpath.knot == 0
    requires link.Valid() && link.knot == 0
    requires link.nodes != [] || (newpath.floor == 0 && (link.absolute || newpath.nodes == []))
    requires newpath != link && newpath.repr !! link.repr
    modifies newpath, newpath.repr, link.repr
    ensures newpath.Valid() && newpath.Rooted() && newpath.floor == old(newpath.floor)
    ensures newpath.absolute == old(newpath.absolute)
    ensures newpath.items == old((if link.absolute then newpath.items[..newpath.floor] else newpath.items) + link.items)
    ensures newpath.repr == old(newpath.repr + link.repr)
    ensures newpath.knot == if link.absolute || old(|newpath.items|) == newpath.floor then newpath.floor else 0
  {
    hide Chain, Distinct;
    assert newpath.items[..|newpath.items|] == newpath.items;
    ghost var k := if link.absolute then newpath.floor else |newpath.items|;
    assert k == 0 ==> newpath.items[..k] + link.items == link.items;
    var parent := if link.absolute then newpath.relroot else newpath.terminal;
    if parent == null {
      newpath.relroot := null;
      TakeOver(newpath, link);
    } else {
      newpath.Step(k - 1);
      Graft(newpath, link, parent, parent == newpath.relroot, k);
    }
  }

  /** Give `path` the components of `other`, which is freed. */
  method ReplaceComponents(path: PathList, other: PathList)
    requires other.Valid() && other.knot == 0 && path != other && path.repr !! other.repr
    modifies path, other.repr
    ensures path.Valid() && path.knot == 0 && path.nodes == old(other.nodes) && path.items == old(other.items)
    ensures path.floor == old(other.floor) && path.repr == old(other.repr) && path.absolute == old(path.absolute)
  {
    path.path, path.terminal, path.relroot := other.path, other.terminal, other.relroot;
    path.nodes, path.items, path.repr := other.nodes, other.items, other.repr;
    path.floor, path.knot := other.floor, 0;
    path.Adopt();
  }

  /** The target of a link, as a list of its own, together with the path up to and including the link. */
  method ResolveLink(path: PathList, link: PathComponent, linkVal: string, ghost k: nat)
    returns (origLinkPath: PathList, linkPath: PathList?)
    requires path.Valid() && path.knot == 0 && path.absolute && NoUp(path.items)
    requires 0 < path.floor <= k < |path.nodes| && link == path.nodes[k]
    requires linkVal != "" ==> Followable(path.items[..k], path.floor, linkVal)
    ensures fresh(origLinkPath) && fresh(origLinkPath.repr) && origLinkPath.Valid() && origLinkPath.absolute
    ensures origLinkPath.items == path.items[..k + 1] && origLinkPath.floor == path.floor
    ensures linkPath == null <==> linkVal == ""
    ensures linkPath != null ==> linkPath != origLinkPath && fresh(linkPath) && fresh(linkPath.repr)
                                 && linkPath.Valid() && linkPath.absolute
    ensures linkPath != null ==> linkPath.items == LinkTarget(path.items[..k], path.floor, linkVal)
                                 && linkPath.floor == path.floor
    ensures linkPath != null ==>
              linkPath.knot == if AtRoot(path.items[..k], path.floor, linkVal) then path.floor else 0
  {
    var copy := DuplicatePartial(path, link, k);
    origLinkPath := copy;
    var linkParent := Duplicate(origLinkPath);
    TrimLast(linkParent);
    assert linkParent.items == path.items[..k];
    linkPath := SymlinkResolve(linkParent, linkVal);
  }

  /** The part of the target that the path up to the link does not share, appended to what they share.
      Returns the first appended component, or the last shared one when nothing is left. */
  method AppendUnseen(commonPath: PathList, linkPath: PathList, ghost c: nat)
    returns (unchecked: PathComponent, perfectMatch: bool)
    requires commonPath.Valid() && commonPath.knot == 0 && linkPath.Valid() && commonPath != linkPath
    requires commonPath.repr !! linkPath.repr && commonPath.absolute && linkPath.absolute
    requires 0 < c == |commonPath.items| <= |linkPath.items| && commonPath.items == linkPath.items[..c]
    modifies commonPath, commonPath.repr
    ensures commonPath.Valid() && commonPath.knot == 0 && commonPath.floor == old(commonPath.floor)
    ensures fresh(commonPath.repr - old(commonPath.repr)) && commonPath.absolute
    ensures var from := if c == linkPath.knot && c < |linkPath.items| then c + 1 else c;
            && commonPath.items == linkPath.items[..c] + linkPath.items[from..]
            && (perfectMatch <==> from == |linkPath.items|)
            && unchecked == commonPath.nodes[if perfectMatch then c - 1 else c]
  {
    var last, n := MatchPartial(linkPath, commonPath);
    ghost var at := if c == linkPath.knot && c < |linkPath.nodes| then c else c - 1;
    linkPath.Step(at);
    perfectMatch := last.child == null;
    if perfectMatch {
      unchecked := commonPath.terminal;
      assert linkPath.items[..c] + [] == commonPath.items;
    } else {
      var appended := AppendComponents(commonPath, linkPath, last.child, at + 1);
      unchecked := appended;
    }
  }

  /** What follows the link, appended; and the first component not looked at yet. */
  method AppendRest(commonPath: PathList, path: PathList, link: PathComponent, first: PathComponent, perfectMatch: bool,
                    ghost k: nat, ghost c: nat)
    returns (unchecked: PathComponent)
    requires commonPath.Valid() && commonPath.knot == 0 && path.Valid() && path.knot == 0 && commonPath != path
    requires commonPath.repr !! path.repr && k < |path.nodes| && link == path.nodes[k]
    requires 0 < c <= |commonPath.nodes| && (perfectMatch <==> c == |commonPath.nodes|)
    requires first == commonPath.nodes[if perfectMatch then c - 1 else c]
    modifies commonPath, commonPath.repr
    ensures commonPath.Valid() && commonPath.knot == 0 && commonPath.floor == old(commonPath.floor)
    ensures fresh(commonPath.repr - old(commonPath.repr)) && commonPath.absolute == old(commonPath.absolute)
    ensures commonPath.items == old(commonPath.items) + path.items[k + 1..]
    ensures var n := if c < |commonPath.nodes| then c else c - 1;
            unchecked == commonPath.nodes[n]
  {
    unchecked := first;
    ghost var at := if perfectMatch then c - 1 else c;
    ghost var nodes := commonPath.nodes;
    path.Step(k);
    if link.child != null {
      var appended := AppendComponents(commonPath, path, link.child, k + 1);
      assert commonPath.nodes[at] == commonPath.nodes[..|nodes|][at] == nodes[at];
    }
    if perfectMatch {
      commonPath.Step(c - 1);
      if unchecked.child != null {
        unchecked := unchecked.child;
      }
    }
  }

  /** The rest of the target and the rest of the path, behind what link and target share. */
  method AppendBoth(commonPath: PathList, linkPath: PathList, path: PathList, link: PathComponent,
                    ghost k: nat, ghost c: nat)
    returns (unchecked: PathComponent)
    requires commonPath.Valid() && commonPath.knot == 0 && commonPath.absolute
    requires linkPath.Valid() && commonPath != linkPath && commonPath.repr !! linkPath.repr && linkPath.absolute
    requires path.Valid() && path.knot == 0 && commonPath != path && commonPath.repr !! path.repr
    requires 0 < c == |commonPath.items| <= |linkPath.items| && commonPath.items == linkPath.items[..c]
    requires k < |path.nodes| && link == path.nodes[k]
    modifies commonPath, commonPath.repr
    ensures commonPath.Valid() && commonPath.knot == 0 && commonPath.floor == old(commonPath.floor)
    ensures commonPath.absolute && fresh(commonPath.repr - old(commonPath.repr))
    ensures var from := if c == linkPath.knot && c < |linkPath.items| then c + 1 else c;
            var unseen, rest := linkPath.items[from..], path.items[k + 1..];
            var n := if unseen != [] || rest != [] then c else c - 1;
            && commonPath.items == linkPath.items[..c] + unseen + rest
            && n < |commonPath.nodes| && unchecked == commonPath.nodes[n]
  {
    hide Chain, Distinct;
    var first, perfectMatch := AppendUnseen(commonPath, linkPath, c);
    unchecked := AppendRest(commonPath, path, link, first, perfectMatch, k, c);
  }

  /** What the link's path and its target have in common, followed by the rest of both. */
  method MergeTarget(path: PathList, link: PathComponent, origLinkPath: PathList,
      linkPath: PathList, linkVal: string, ghost k: nat)
    returns (commonPath: PathList, unchecked: PathComponent)
    requires path.Valid() && path.knot == 0 && path.absolute && NoUp(path.items)
    requires 0 < path.floor <= k < |path.nodes| && link == path.nodes[k]
    requires Followable(path.items[..k], path.floor, linkVal)
    requires origLinkPath.Valid() && origLinkPath.absolute
    requires origLinkPath.items == path.items[..k + 1] && origLinkPath.floor == path.floor
    requires linkPath.Valid() && linkPath.absolute
    requires linkPath.items == LinkTarget(path.items[..k], path.floor, linkVal) && linkPath.floor == path.floor
    requires linkPath.knot == if AtRoot(path.items[..k], path.floor, linkVal) then path.floor else 0
    ensures fresh(commonPath) && fresh(commonPath.repr) && commonPath.Valid() && commonPath.knot == 0
    ensures commonPath.absolute && commonPath.floor == path.floor
    ensures var (r, n) := Substitute(path.items, path.floor, k, linkVal);
            commonPath.items == r && 0 <= n < |commonPath.nodes| && unchecked == commonPath.nodes[n]
  {
    hide LinkTarget, CommonLength, Followable, LosesComponent, AtRoot, Chain, Distinct, NoUp, Substitute;
    ghost var items, floor := path.items, path.floor;
    CommonBeyondRoot(items, floor, k, linkVal);
    commonPath := CommonPath(origLinkPath, linkPath);
    ghost var c := |commonPath.items|;
    ghost var target := LinkTarget(items[..k], floor, linkVal);
    ghost var lost := c == floor && AtRoot(items[..k], floor, linkVal) && c < |target|;
    SubstituteIs(items, floor, k, linkVal, c, if lost then target[c + 1..] else target[c..]);
    unchecked := AppendBoth(commonPath, linkPath, path, link, k, c);
  }

  /** pathList_symlinkSubstitute, on a rooted path and a link below the root. */
  method SymlinkSubstitute(path: PathList, link: PathComponent, linkVal: string, ghost k: nat)
    returns (ret: PathComponent?)
    requires path.Valid() && path.knot == 0 && path.absolute && NoUp(path.items)
    requires 0 < path.floor <= k < |path.nodes| && link == path.nodes[k]
    requires linkVal != "" ==> Followable(path.items[..k], path.floor, linkVal)
    modifies path
    ensures path.Valid() && path.knot == 0 && path.absolute && path.floor == old(path.floor)
    ensures ret == null <==> linkVal == ""
    ensures ret == null ==>
              path.nodes == old(path.nodes) && path.items == old(path.items) && path.repr == old(path.repr)
    ensures ret != null ==>
              var (r, n) := Substitute(old(path.items), path.floor, k, linkVal);
              && path.items == r && 0 <= n < |path.nodes| && ret == path.nodes[n] && fresh(path.repr)
  {
    hide LinkTarget, Substitute, Followable, AtRoot, Chain, Distinct, NoUp;
    var origLinkPath, linkPath := ResolveLink(path, link, linkVal, k);
    if linkPath == null { return null; }
    ghost var items, floor := path.items, path.floor;
    var commonPath, unchecked := MergeTarget(path, link, origLinkPath, linkPath, linkVal, k);
    SubstituteKeepsPrefix(items, floor, k, linkVal);
    ReplaceComponents(path, commonPath);
    ret := unchecked;
  }
}
