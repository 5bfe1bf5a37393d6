/** The doubly linked path with a root marker (PathList.c). */
module PathLists {
  import opened Text
  import opened PathItems

  class PathComponent {
    const item: string
    var parent: PathComponent?
    var child: PathComponent?
    var list: PathList?

    constructor (item: string, parent: PathComponent?, list: PathList?)
      ensures this.item == item && this.parent == parent && this.list == list && child == null
    {
      this.item, this.parent, this.child, this.list := item, parent, null, list;
    }
  }

  ghost predicate Distinct(nodes: seq<PathComponent>) {
    forall i, j :: 0 <= i < j < |nodes| ==> nodes[i] != nodes[j]
  }

  /** Siblings are linked both ways. The head's `parent` is unconstrained: dropping a leading ".." leaves
      a stale one. At `knot`, if that is not 0, a component is its own parent. */
  ghost predicate Chain(nodes: seq<PathComponent>, knot: nat)
    reads nodes
  {
    && (forall i {:trigger nodes[i].child} :: 0 <= i < |nodes| - 1 ==> nodes[i].child == nodes[i + 1])
    && (nodes != [] ==> nodes[|nodes| - 1].child == null)
    && (forall i {:trigger nodes[i].parent} :: 0 < i < |nodes| && i != knot ==> nodes[i].parent == nodes[i - 1])
    && (0 < knot < |nodes| ==> nodes[knot].parent == nodes[knot])
  }

  ghost function Children(nodes: seq<PathComponent>): (r: seq<PathComponent?>)
    reads nodes
    ensures |r| == |nodes| && forall i {:trigger r[i]} :: 0 <= i < |r| ==> r[i] == nodes[i].child
  {
    seq(|nodes|, i requires 0 <= i < |nodes| reads nodes => nodes[i].child)
  }

  ghost function Parents(nodes: seq<PathComponent>): (r: seq<PathComponent?>)
    reads nodes
    ensures |r| == |nodes| && forall i {:trigger r[i]} :: 0 <= i < |r| ==> r[i] == nodes[i].parent
  {
    seq(|nodes|, i requires 0 <= i < |nodes| reads nodes => nodes[i].parent)
  }

  /** The links of a chain without a knot, as values. */
  ghost predicate LinksOf(nodes: seq<PathComponent>, children: seq<PathComponent?>, parents: seq<PathComponent?>) {
    && Distinct(nodes) && |children| == |nodes| == |parents|
    && (forall i {:trigger children[i]} :: 0 <= i < |nodes| - 1 ==> children[i] == nodes[i + 1])
    && (nodes != [] ==> children[|nodes| - 1] == null)
    && (forall i {:trigger parents[i]} :: 0 < i < |nodes| ==> parents[i] == nodes[i - 1])
  }

  /** Relinking the components around a cut, and nothing else, gives a chain again. */
  lemma CutIsChain(was: seq<PathComponent>, children: seq<PathComponent?>, parents: seq<PathComponent?>, a: nat, b: nat)
    requires LinksOf(was, children, parents) && a <= b <= |was|
    requires forall i {:trigger children[i]} :: 0 <= i < |was| && i != a - 1 ==> was[i].child == children[i]
    requires forall i {:trigger parents[i]} :: 0 <= i < |was| && i != b ==> was[i].parent == parents[i]
    requires 0 < a && b < |was| ==> was[a - 1].child == was[b] && was[b].parent == was[a - 1]
    requires 0 < a && b == |was| ==> was[a - 1].child == null
    ensures Distinct(Cut(was, a, b)) && Chain(Cut(was, a, b), 0)
  {
    var nodes := Cut(was, a, b);
    forall i | 0 <= i < |nodes| - 1 ensures nodes[i].child == nodes[i + 1] {
      var j := if i < a then i else i + (b - a);
      assert nodes[i] == was[j];
      assert j < |was| - 1 ==> children[j] == was[j + 1];
    }
    forall i | 0 < i < |nodes| ensures nodes[i].parent == nodes[i - 1] {
      var j := if i < a then i else i + (b - a);
      assert nodes[i] == was[j] && parents[j] == was[j - 1];
    }
    if nodes != [] {
      assert children[|was| - 1] == null;
    }
  }

  function Cut<T>(s: seq<T>, a: nat, b: nat): (r: seq<T>)
    requires a <= b <= |s|
    ensures |r| == |s| - (b - a)
    ensures forall i {:trigger r[i]} :: 0 <= i < |r| ==> r[i] == s[if i < a then i else i + (b - a)]
  {
    s[..a] + s[b..]
  }

  /** The items of the components. */
  ghost predicate Spelled(nodes: seq<PathComponent>, items: seq<string>) {
    && |items| == |nodes|
    && (forall i {:trigger nodes[i].item} :: 0 <= i < |nodes| ==> nodes[i].item == items[i])
  }

  /** Among the components of `repr`, the root marker is the one up to which `floor` counts, or outside the list. */
  ghost predicate Marked(nodes: seq<PathComponent>, relroot: PathComponent?, floor: nat, repr: set<PathComponent>)
    requires floor <= |nodes|
  {
    && (floor > 0 ==> relroot == nodes[floor - 1])
    && (floor == 0 ==> forall i {:trigger nodes[i]} :: 0 <= i < |nodes| ==> nodes[i] != relroot)
    && (relroot != null ==> relroot in repr)
  }

  /** What comes behind the marker does not move it. */
  lemma JoinIsMarked(nodes: seq<PathComponent>, items: seq<string>, relroot: PathComponent?, floor: nat,
      repr: set<PathComponent>, k: nat, b: seq<PathComponent>, added: seq<string>, more: set<PathComponent>)
    requires floor <= k <= |nodes| && Marked(nodes, relroot, floor, repr) && Spelled(nodes, items)
    requires forall i {:trigger nodes[i]} :: 0 <= i < |nodes| ==> nodes[i] in repr
    requires Spelled(b, added) && repr !! more && forall i {:trigger b[i]} :: 0 <= i < |b| ==> b[i] in more
    ensures Marked(nodes[..k] + b, relroot, floor, repr + more) && Spelled(nodes[..k] + b, items[..k] + added)
  {
  }

  lemma OneIsSpelled(comp: PathComponent)
    ensures Spelled([comp], [comp.item])
  {
  }

  class PathList {
    var path: PathComponent?
    var relroot: PathComponent?
    var terminal: PathComponent?
    var absolute: bool
    ghost var nodes: seq<PathComponent>
    ghost var items: seq<string>
    /** The components this list may change: at least its nodes. */
    ghost var repr: set<PathComponent>
    /** How many components lead to `relroot`; 0 when there is none, or when it is no longer in the list. */
    ghost var floor: nat
    ghost var knot: nat

    /** A root that was marked has not been lost. */
    ghost predicate Rooted()
      reads this
    {
      relroot == null <==> floor == 0
    }

    /** The chain, its head and its root marker. */
    ghost predicate Shape()
      reads this, repr
    {
      && (forall i {:trigger nodes[i]} :: 0 <= i < |nodes| ==> nodes[i] in repr)
      && Distinct(nodes) && Chain(nodes, knot)
      && (path == null <==> nodes == []) && (path != null ==> path == nodes[0])
      && floor <= |nodes| && Marked(nodes, relroot, floor, repr) && |items| == |nodes| && Spelled(nodes, items)
    }

    /** A list that components can be appended to: an append without components leaves `terminal` null. */
    ghost predicate Appendable()
      reads this, repr
    {
      Linked() && knot == 0 && (terminal == null || TerminalIsLast())
    }

    /** Everything but `terminal`. */
    ghost predicate Linked()
      reads this, repr
    {
      Shape() && forall i {:trigger nodes[i].list} :: 0 <= i < |nodes| ==> nodes[i].list == this
    }

    ghost predicate TerminalIsLast()
      reads this
    {
      && (terminal == null <==> nodes == []) && (terminal != null ==> terminal == nodes[|nodes| - 1])
    }

    ghost predicate Valid()
      reads this, repr
    {
      Linked() && TerminalIsLast()
    }

    constructor (absolute: bool)
      ensures Valid() && Rooted() && nodes == [] && items == [] && floor == 0 && knot == 0 && repr == {}
      ensures this.absolute == absolute
    {
      path, relroot, terminal, this.absolute := null, null, null, absolute;
      nodes, items, repr, floor, knot := [], [], {}, 0, 0;
    }

    lemma Step(i: nat)
      requires Linked() && i < |nodes|
      ensures nodes[i].item == items[i]
      ensures nodes[i].child == null <==> i + 1 == |nodes|
      ensures i + 1 < |nodes| ==> nodes[i].child == nodes[i + 1]
      ensures relroot == nodes[i] <==> i + 1 == floor
    {
    }

    /** Make the last component the root. */
    method MarkRoot()
      requires Valid() && nodes != []
      modifies this
      ensures Valid() && Rooted() && floor == |nodes|
      ensures nodes == old(nodes) && items == old(items)
      ensures repr == old(repr) && absolute == old(absolute) && knot == old(knot)
    {
      relroot, floor := terminal, |nodes|;
    }

    /** Link a new last component. */
    method Push(item: string)
      requires Valid() && knot == 0
      modifies this, repr
      ensures Valid() && knot == 0 && floor == old(floor) && relroot == old(relroot) && absolute == old(absolute)
      ensures fresh(repr - old(repr)) && |nodes| == |old(nodes)| + 1 && nodes[..|old(nodes)|] == old(nodes)
      ensures items == old(items) + [item]
    {
      hide Chain, Distinct, Marked, Spelled;
      var comp := new PathComponent(item, terminal, this);
      LinkLast(comp);
      terminal := comp;
      assert nodes[..|nodes|] == nodes && items[..|nodes|] == items;
      OneIsSpelled(comp);
      JoinIsMarked(nodes, items, relroot, floor, repr, |nodes|, [comp], [item], {comp});
      nodes, items, repr := nodes + [comp], items + [item], repr + {comp};
    }

    /** The link to a new last component. */
    method LinkLast(comp: PathComponent)
      requires Valid() && knot == 0 && comp !in repr && comp.parent == terminal && comp.child == null
      modifies this`path, (if terminal == null then {} else {terminal})`child
      ensures Distinct(nodes + [comp]) && Chain(nodes + [comp], 0)
      ensures path == if terminal == null then comp else old(path)
    {
      assert forall i :: 0 <= i < |nodes| ==> nodes[i] in repr;
      if terminal == null {
        path := comp;
      } else {
        terminal.child := comp;
      }
    }

    /** Link a new last component, and mark it as the root if it is a copy of one. */
    method PushCopy(item: string, isRoot: bool)
      requires Valid() && knot == 0
      modifies this, repr
      ensures Valid() && knot == 0 && floor == (if isRoot then |nodes| else old(floor)) && absolute == old(absolute)
      ensures old(Rooted()) ==> Rooted()
      ensures fresh(repr - old(repr)) && |nodes| == |old(nodes)| + 1 && items == old(items) + [item]
    {
      Push(item);
      if isRoot {
        MarkRoot();
      }
    }

    /** Make this the list of every component in the chain. */
    method Adopt()
      requires Shape()
      modifies repr`list
      ensures Linked()
    {
      var ptr := path;
      ghost var i := 0;
      while ptr != null
        invariant 0 <= i <= |nodes| && (ptr == null <==> i == |nodes|) && (ptr != null ==> ptr == nodes[i])
        invariant Shape()
        invariant forall j :: 0 <= j < i ==> nodes[j].list == this
        decreases |nodes| - i
      {
        assert i + 1 < |nodes| ==> ptr.child == nodes[i + 1];
        ptr.list := this;
        ptr, i := ptr.child, i + 1;
      }
    }

    // ---------- pathList_resolve ----------

    /** What cutting leaves alone. */
    twostate predicate KeepsRoot()
      reads this
    {
      knot == old(knot) && floor == old(floor) && relroot == old(relroot)
        && absolute == old(absolute) && repr == old(repr)
    }

    /** ".." at the head: the path starts at the next component. */
    method DropHead(curr: PathComponent) returns (target: PathComponent?)
      requires Valid() && knot == 0 && floor == 0 && nodes != [] && curr == nodes[0]
      modifies this
      ensures Valid() && KeepsRoot()
      ensures nodes == Cut(old(nodes), 0, 1) && items == Cut(old(items), 0, 1)
      ensures (target == null <==> |nodes| == 0) && (target != null ==> target == nodes[0])
    {
      path := curr.child;
      if terminal == curr {
        terminal := curr.child;
      }
      target := curr.child;
      nodes, items := Cut(nodes, 0, 1), Cut(items, 0, 1);
    }

    /** Make `before` and `target`, if there is one, neighbours; the components between them drop out of the links. */
    method Relink(before: PathComponent, target: PathComponent?, ghost a: nat, ghost b: nat)
      returns (ghost children: seq<PathComponent?>, ghost parents: seq<PathComponent?>)
      requires Valid() && knot == 0 && 0 < a < b <= |nodes| && before == nodes[a - 1]
      requires (target == null <==> b == |nodes|) && (target != null ==> target == nodes[b])
      modifies this`terminal, before`child, (if target == null then {} else {target})`parent
      ensures LinksOf(nodes, children, parents)
      ensures forall i {:trigger children[i]} :: 0 <= i < |nodes| && i != a - 1 ==> nodes[i].child == children[i]
      ensures forall i {:trigger parents[i]} :: 0 <= i < |nodes| && i != b ==> nodes[i].parent == parents[i]
      ensures before.child == target && (target != null ==> target.parent == before)
      ensures terminal == if target == null then before else old(terminal)
    {
      children, parents := Children(nodes), Parents(nodes);
      before.child := target;
      if target != null {
        target.parent := before;
      } else {
        terminal := before;
      }
      forall i {:trigger children[i]} | 0 <= i < |nodes| && i != a - 1 ensures nodes[i].child == children[i] {
        assert nodes[i] != nodes[a - 1];
      }
      forall i {:trigger parents[i]} | 0 <= i < |nodes| && i != b ensures nodes[i].parent == parents[i] {
        assert b < |nodes| ==> nodes[i] != nodes[b];
      }
    }

    /** Put `target`, if there is one, right behind `before`, cutting out what was between them. */
    method Splice(before: PathComponent, target: PathComponent?, ghost a: nat, ghost b: nat)
      requires Valid() && knot == 0 && floor <= a && 0 < a < b <= |nodes| && before == nodes[a - 1]
      requires (target == null <==> b == |nodes|) && (target != null ==> target == nodes[b])
      modifies this, repr
      ensures Valid() && KeepsRoot()
      ensures nodes == Cut(old(nodes), a, b) && items == Cut(old(items), a, b)
    {
      hide Cut, Chain, Distinct, LinksOf;
      ghost var children, parents := Relink(before, target, a, b);
      CutIsChain(nodes, children, parents, a, b);
      nodes, items := Cut(nodes, a, b), Cut(items, a, b);
    }

    /** ".." right below the root: only this component goes. */
    method DropOne(curr: PathComponent, ghost p: nat) returns (target: PathComponent?)
      requires Valid() && knot == 0 && 0 < p == floor < |nodes| && curr == nodes[p]
      modifies this, repr
      ensures Valid() && KeepsRoot()
      ensures nodes == Cut(old(nodes), p, p + 1) && items == Cut(old(items), p, p + 1)
      ensures (target == null <==> p == |nodes|) && (target != null ==> p < |nodes| && target == nodes[p])
    {
      Step(p);
      assert curr.parent == nodes[p - 1];
      target := curr.child;
      Splice(curr.parent, target, p, p + 1);
    }

    /** ".." after the head, with no root marked: both go, and the path starts at the next component. */
    method DropFirstTwo(curr: PathComponent) returns (target: PathComponent?)
      requires Valid() && knot == 0 && floor == 0 && |nodes| > 1 && curr == nodes[1]
      modifies this, repr
      ensures Valid() && KeepsRoot()
      ensures nodes == Cut(old(nodes), 0, 2) && items == Cut(old(items), 0, 2)
      ensures (target == null <==> |nodes| == 0) && (target != null ==> target == nodes[0])
    {
      ghost var was, children, parents := nodes, Children(nodes), Parents(nodes);
      ghost var next := curr.child;
      assert |nodes| > 2 ==> next == nodes[2];
      path := curr.child;
      if curr.child != null {
        curr.child.parent := null;
      } else {
        terminal := null;
      }
      target := curr.child;
      nodes, items := Cut(nodes, 0, 2), Cut(items, 0, 2);
      forall i {:trigger parents[i]} | 0 <= i < |was| && i != 2 ensures was[i].parent == parents[i] {
        assert 2 < |was| ==> was[i] != was[2];
      }
      CutIsChain(was, children, parents, 0, 2);
    }

    /** ".." further down: it goes together with its parent. */
    method DropTwo(curr: PathComponent, ghost p: nat) returns (target: PathComponent?)
      requires Valid() && knot == 0 && floor < p < |nodes| && p > 1 && curr == nodes[p]
      modifies this, repr
      ensures Valid() && KeepsRoot()
      ensures nodes == Cut(old(nodes), p - 1, p + 1) && items == Cut(old(items), p - 1, p + 1)
      ensures (target == null <==> p - 1 == |nodes|) && (target != null ==> p - 1 < |nodes| && target == nodes[p - 1])
    {
      Step(p);
      assert curr.parent == nodes[p - 1] && curr.parent.parent == nodes[p - 2];
      target := curr.child;
      Splice(curr.parent.parent, target, p - 1, p + 1);
    }

    /** One ".." of the loop: cut it out, with its parent unless the root or the head is in the way. */
    method DropUp(curr: PathComponent, ghost p: nat) returns (target: PathComponent?, ghost q: nat)
      requires Valid() && knot == 0 && floor <= p < |nodes| && curr == nodes[p]
      requires NoUp(items[..p]) && curr.item == ".."
      modifies this, repr
      ensures Valid() && KeepsRoot()
      ensures Normalize(items, floor) == Normalize(old(items), floor)
      ensures floor <= q <= p && q <= |nodes| && |nodes| - q < |old(nodes)| - p && items[..q] == old(items)[..q]
      ensures (target == null <==> q == |nodes|) && (target != null ==> target == nodes[q])
    {
      assert p > 0 ==> nodes[p].parent == nodes[p - 1];
      assert p > 1 ==> nodes[p - 1].parent == nodes[p - 2];
      if curr.parent == null || path == curr {
        DropAtFloor(items, 0, floor);
        target := DropHead(curr);
        q := 0;
        return;
      }
      if curr.parent == relroot {
        DropAtFloor(items, p, floor);
        target := DropOne(curr, p);
        q := p;
        return;
      }
      DropWithParent(items, p, floor);
      if curr.parent.parent == null || path == curr.parent {
        target := DropFirstTwo(curr);
        q := 0;
        return;
      }
      target := DropTwo(curr, p);
      q := p - 1;
    }

    /** Remove every ".." in place. */
    method Resolve()
      requires Linked()
      requires absolute ==> NoUp(items[..floor]) && (NoUp(items) || (knot == 0 && TerminalIsLast()))
      modifies this, repr
      ensures Linked() && TerminalIsLast() == old(TerminalIsLast()) && KeepsRoot()
      ensures items == if absolute then Normalize(old(items), floor) else old(items)
      ensures !absolute || NoUp(old(items)) ==> nodes == old(nodes) && terminal == old(terminal)
    {
      if !absolute { return; }
      var curr := path;
      ghost var p := 0;
      while curr != null
        invariant 0 <= p <= |nodes| && (curr == null <==> p == |nodes|) && (curr != null ==> curr == nodes[p])
        invariant Linked() && TerminalIsLast() == old(TerminalIsLast()) && KeepsRoot()
        invariant NoUp(items[..p]) && floor <= |items| && NoUp(items[..floor])
        invariant Normalize(items, floor) == Normalize(old(items), floor)
        invariant NoUp(old(items)) ==> nodes == old(nodes) && items == old(items) && terminal == old(terminal)
        invariant NoUp(old(items)) || (knot == 0 && TerminalIsLast())
        decreases |nodes| - p
      {
        assert p < floor ==> items[..floor][p] != "..";
        if curr.item != ".." {
          assert p + 1 < |nodes| ==> curr.child == nodes[p + 1];
          assert items[..p + 1] == items[..p] + [curr.item];
          curr, p := curr.child, p + 1;
        } else {
          ghost var before := items;
          curr, p := DropUp(curr, p);
          assert items[..floor] == before[..floor] by {
            assert items[..floor] == items[..p][..floor] == before[..p][..floor];
          }
          assert items[..p] == before[..p];
        }
      }
      assert items[..p] == items;
      NormalizePlain(items, floor);
    }
  }

  /** pathList_init */
  method PathListInit(path: string) returns (ret: PathList?)
    ensures ret == null <==> path == ""
    ensures ret != null ==> fresh(ret) && fresh(ret.repr) && ret.Valid() && ret.Rooted() && ret.floor == 0
    ensures ret != null ==> ret.knot == 0
    ensures ret != null ==> ret.absolute == Absolute(path) && ret.items == InitItems(path)
  {
    if path == "" { return null; }
    ret := new PathList(path[0] == '/');
    var search := path;
    while Skip(search, '/') != ""
      invariant ret.Valid() && ret.Rooted() && ret.floor == 0 && ret.knot == 0 && ret.absolute == Absolute(path)
      invariant fresh(ret.repr) && ret.items + Components(search) == Components(path)
      decreases |search|
    {
      var (token, rest) := NextToken(search, '/');
      TokenStep(ret.items, search, token, rest);
      if token != "." {
        ret.Push(token);
      }
      search := rest;
    }
    assert Tokens(Skip(search, '/'), '/') == [];
    assert ret.items + [] == ret.items;
    ret.Resolve();
  }

  /** pathList_duplicate */
  method Duplicate(src: PathList) returns (ret: PathList)
    requires src.Linked()
    ensures fresh(ret) && fresh(ret.repr) && ret.Valid() && ret.Rooted() && ret.knot == 0
    ensures ret.items == src.items && ret.floor == src.floor && ret.absolute == src.absolute
  {
    hide Chain, Distinct, Marked, Spelled;
    ret := new PathList(src.absolute);
    var rptr := src.path;
    ghost var i := 0;
    while rptr != null
      invariant 0 <= i <= |src.nodes| && (rptr == null <==> i == |src.nodes|) && (rptr != null ==> rptr == src.nodes[i])
      invariant src.Linked() && ret.Valid() && ret.Rooted() && ret.knot == 0
      invariant ret.absolute == src.absolute && fresh(ret.repr)
      invariant ret.items == src.items[..i] && ret.floor == (if src.floor <= i then src.floor else 0)
      decreases |src.nodes| - i
    {
      src.Step(i);
      var isRoot, next := src.relroot == rptr, rptr.child;
      ret.PushCopy(rptr.item, isRoot);
      rptr, i := next, i + 1;
    }
  }

  /** pathList_matchPartial: the last component of `fullpath` that `partial` covers. A `partial` without
      components gives the head's parent, of which nothing is promised. */
  method MatchPartial(fullpath: PathList, partial: PathList) returns (ret: PathComponent?, ghost n: nat)
    requires fullpath.Valid() && partial.Linked()
    ensures n == |partial.items|
    ensures partial.items == [] ==>
              ret == if fullpath.absolute != partial.absolute then null
                     else if fullpath.path == null then fullpath.terminal else fullpath.path.parent
    ensures partial.items != [] ==>
              (ret != null <==> fullpath.absolute == partial.absolute && partial.items <= fullpath.items)
    ensures ret != null && partial.items != [] ==>
              var last := |partial.items| - 1;
              ret == fullpath.nodes[if last + 1 == fullpath.knot && last + 1 < |fullpath.nodes| then last + 1 else last]
  {
    n := |partial.items|;
    if fullpath.absolute != partial.absolute { return null, n; }
    var retptr, partialptr := fullpath.path, partial.path;
    ghost var i := 0;
    while retptr != null && partialptr != null
      invariant 0 <= i <= |fullpath.nodes| && (retptr == null <==> i == |fullpath.nodes|)
      invariant retptr != null ==> retptr == fullpath.nodes[i]
      invariant i <= |partial.nodes| && (partialptr == null <==> i == |partial.nodes|)
      invariant partialptr != null ==> partialptr == partial.nodes[i]
      invariant fullpath.items[..i] == partial.items[..i]
      decreases |partial.nodes| - i
    {
      assert i + 1 < |fullpath.nodes| ==> retptr.child == fullpath.nodes[i + 1];
      assert i + 1 < |partial.nodes| ==> partialptr.child == partial.nodes[i + 1];
      assert retptr.item == fullpath.items[i] && partialptr.item == partial.items[i];
      if retptr.item != partialptr.item { return null, n; }
      retptr, partialptr, i := retptr.child, partialptr.child, i + 1;
    }
    if partialptr == null && retptr == null {
      return fullpath.terminal, n;
    }
    if partialptr != null {
      return null, n;
    }
    assert i > 0 && i != fullpath.knot ==> retptr.parent == fullpath.nodes[i - 1];
    return retptr.parent, n;
  }
}
