/** Paths as lists of components: cutting, normalising with a floor, and following one link (PathList.c). */
module PathItems {
  import opened Text

  const PATH_MAX: nat := 4096

  /** The components of a path: cut at slashes, without empty parts and ".". */
  function Components(path: string): (items: seq<string>)
    ensures Proper(items)
  {
    WithoutDots(Tokens(path, '/'))
  }

  function WithoutDots(tokens: seq<string>): (items: seq<string>)
    ensures forall i :: 0 <= i < |items| ==> items[i] in tokens && items[i] != "."
  {
    if tokens == [] then []
    else (if tokens[0] == "." then [] else [tokens[0]]) + WithoutDots(tokens[1..])
  }

  /** Taking one token off the search string, and recording it, keeps the total. */
  lemma TokenStep(done: seq<string>, s: string, token: string, rest: string)
    requires Skip(s, '/') != "" && NextToken(s, '/') == (token, rest)
    ensures (if token == "." then done else done + [token]) + Components(rest) == done + Components(s)
  {
    assert Tokens(s, '/')[1..] == Tokens(rest, '/');
    var taken := if token == "." then [] else [token];
    Regroup(done, taken, Components(rest));
    assert done + [] == done;
  }

  /** The components of a freshly parsed path: an absolute one is normalised at once. */
  function InitItems(path: string): (items: seq<string>) {
    if Absolute(path) then Normalize(Components(path), 0) else Components(path)
  }

  predicate ProperItem(item: string) {
    item != "" && item != "." && '/' !in item
  }

  predicate Proper(items: seq<string>) {
    forall i :: 0 <= i < |items| ==> ProperItem(items[i])
  }

  predicate Absolute(path: string) {
    path != "" && path[0] == '/'
  }

  /** The text of an absolute path. */
  function Render(items: seq<string>): string {
    if items == [] then "" else Render(items[..|items| - 1]) + "/" + items[|items| - 1]
  }

  // ---------- normalising ----------

  predicate NoUp(items: seq<string>) {
    forall i :: 0 <= i < |items| ==> items[i] != ".."
  }

  /** A stack machine: ".." pops, but never below `floor`; anything else is pushed. */
  function Run(stack: seq<string>, items: seq<string>, floor: nat): (r: seq<string>)
    ensures NoUp(stack) ==> NoUp(r)
    decreases |items|
  {
    if items == [] then stack
    else if items[0] != ".." then Run(stack + [items[0]], items[1..], floor)
    else if |stack| > floor then Run(stack[..|stack| - 1], items[1..], floor)
    else Run(stack, items[1..], floor)
  }

  function Normalize(items: seq<string>, floor: nat): (r: seq<string>)
    ensures NoUp(r)
  {
    Run([], items, floor)
  }

  /** Pushing a list without ".." just appends it. */
  lemma {:induction false} RunPlain(stack: seq<string>, plain: seq<string>, items: seq<string>, floor: nat)
    requires NoUp(plain)
    ensures Run(stack, plain + items, floor) == Run(stack + plain, items, floor)
    decreases |plain|
  {
    if plain == [] {
      assert plain + items == items && stack + plain == stack;
    } else {
      assert (plain + items)[1..] == plain[1..] + items;
      RunPlain(stack + [plain[0]], plain[1..], items, floor);
      assert stack + [plain[0]] + plain[1..] == stack + plain;
    }
  }

  /** Normalising does not touch a list that has no "..". */
  lemma NormalizePlain(items: seq<string>, floor: nat)
    requires NoUp(items)
    ensures Normalize(items, floor) == items
  {
    RunPlain([], items, [], floor);
    assert items + [] == items && [] + items == items;
  }

  /** What is at or below the floor stays. */
  lemma {:induction false} RunKeepsFloor(stack: seq<string>, items: seq<string>, floor: nat)
    requires |stack| >= floor
    ensures |Run(stack, items, floor)| >= floor && Run(stack, items, floor)[..floor] == stack[..floor]
    decreases |items|
  {
    if items != [] {
      if items[0] != ".." {
        RunKeepsFloor(stack + [items[0]], items[1..], floor);
      } else if |stack| > floor {
        RunKeepsFloor(stack[..|stack| - 1], items[1..], floor);
      } else {
        RunKeepsFloor(stack, items[1..], floor);
      }
    }
  }

  lemma {:induction false} RunKeepsProper(stack: seq<string>, items: seq<string>, floor: nat)
    requires Proper(stack) && Proper(items)
    ensures Proper(Run(stack, items, floor))
    decreases |items|
  {
    if items != [] {
      if items[0] != ".." {
        RunKeepsProper(stack + [items[0]], items[1..], floor);
      } else if |stack| > floor {
        RunKeepsProper(stack[..|stack| - 1], items[1..], floor);
      } else {
        RunKeepsProper(stack, items[1..], floor);
      }
    }
  }

  lemma InitIsProper(path: string)
    ensures Proper(InitItems(path))
  {
    RunKeepsProper([], Components(path), 0);
  }

  /** The text of proper components is cut into the same components. */
  lemma ComponentsOfRender(items: seq<string>)
    requires Proper(items)
    ensures Tokens(Render(items), '/') == items && Components(Render(items)) == items
  {
    TokensOfRender(items);
    NoDotsLeft(items);
  }

  lemma {:induction false} TokensOfRender(items: seq<string>)
    requires Proper(items)
    ensures Tokens(Render(items), '/') == items
  {
    if items != [] {
      var n := |items| - 1;
      TokensOfRender(items[..n]);
      TokensLast(Render(items[..n]), '/', items[n]);
      assert items == items[..n] + [items[n]];
    }
  }

  lemma {:induction false} NoDotsLeft(items: seq<string>)
    requires Proper(items)
    ensures WithoutDots(items) == items
  {
    if items != [] {
      assert ProperItem(items[0]);
      NoDotsLeft(items[1..]);
    }
  }

  /** No list of appended components climbs out of its root. */
  lemma NormalizeKeepsRoot(items: seq<string>, floor: nat)
    requires floor <= |items| && NoUp(items[..floor])
    ensures floor <= |Normalize(items, floor)| && Normalize(items, floor)[..floor] == items[..floor]
  {
    RunPlain([], items[..floor], items[floor..], floor);
    assert items[..floor] + items[floor..] == items && [] + items[..floor] == items[..floor];
    RunKeepsFloor(items[..floor], items[floor..], floor);
  }

  /** Normalising in stages is normalising at once: a prefix may be normalised first. */
  lemma {:induction false} RunInStages(stack: seq<string>, a: seq<string>, b: seq<string>, floor: nat)
    ensures Run(stack, a + b, floor) == Run(Run(stack, a, floor), b, floor)
    decreases |a|
  {
    if a == [] {
      assert a + b == b;
    } else {
      assert (a + b)[1..] == a[1..] + b;
      if a[0] != ".." {
        RunInStages(stack + [a[0]], a[1..], b, floor);
      } else if |stack| > floor {
        RunInStages(stack[..|stack| - 1], a[1..], b, floor);
      } else {
        RunInStages(stack, a[1..], b, floor);
      }
    }
  }

  lemma NormalizeInStages(a: seq<string>, b: seq<string>, floor: nat)
    ensures Normalize(a + b, floor) == Normalize(Normalize(a, floor) + b, floor)
  {
    RunInStages([], a, b, floor);
    var n := Normalize(a, floor);
    RunPlain([], n, b, floor);
    assert [] + n == n;
  }

  // ---------- one step of the in-place loop ----------

  /** Dropping the component at `p` when it is a ".." that the floor absorbs. */
  lemma DropAtFloor(items: seq<string>, p: nat, floor: nat)
    requires p < |items| && p == floor && NoUp(items[..p]) && items[p] == ".."
    ensures Normalize(items, floor) == Normalize(items[..p] + items[p + 1..], floor)
  {
    RunAt(items, p, floor);
    RunPlain([], items[..p], items[p + 1..], floor);
    assert [] + items[..p] == items[..p];
  }

  /** Dropping a ".." together with the component before it. */
  lemma DropWithParent(items: seq<string>, p: nat, floor: nat)
    requires floor < p < |items| && NoUp(items[..p]) && items[p] == ".."
    ensures Normalize(items, floor) == Normalize(items[..p - 1] + items[p + 1..], floor)
  {
    RunAt(items, p, floor);
    RunPlain([], items[..p - 1], items[p + 1..], floor);
    assert [] + items[..p - 1] == items[..p - 1] == items[..p][..p - 1];
  }

  lemma RunAt(items: seq<string>, p: nat, floor: nat)
    requires p < |items| && NoUp(items[..p]) && items[p] == ".."
    ensures Normalize(items, floor)
         == if p > floor then Run(items[..p][..p - 1], items[p + 1..], floor)
           else Run(items[..p], items[p + 1..], floor)
  {
    RunPlain([], items[..p], items[p..], floor);
    assert items[..p] + items[p..] == items && [] + items[..p] == items[..p];
    assert items[p..][1..] == items[p + 1..];
  }

  // ---------- following a link ----------

  /** The length of the longest common prefix. */
  function CommonLength(a: seq<string>, b: seq<string>): (n: nat)
    ensures n <= |a| && n <= |b| && a[..n] == b[..n]
    ensures n < |a| && n < |b| ==> a[n] != b[n]
  {
    if a == [] || b == [] || a[0] != b[0] then 0 else 1 + CommonLength(a[1..], b[1..])
  }

  lemma {:induction false} CommonLengthAtLeast(a: seq<string>, b: seq<string>, n: nat)
    requires n <= |a| && n <= |b| && a[..n] == b[..n]
    ensures CommonLength(a, b) >= n
  {
    if n > 0 {
      assert a[0] == a[..n][0] == b[..n][0] == b[0];
      assert a[1..][..n - 1] == a[..n][1..] == b[..n][1..] == b[1..][..n - 1];
      CommonLengthAtLeast(a[1..], b[1..], n - 1);
    }
  }

  lemma {:induction false} CommonLengthIs(a: seq<string>, b: seq<string>, n: nat)
    requires n <= |a| && n <= |b| && a[..n] == b[..n] && (n < |a| && n < |b| ==> a[n] != b[n])
    ensures CommonLength(a, b) == n
  {
    if n > 0 {
      assert a[0] == a[..n][0] == b[..n][0] == b[0];
      assert a[1..][..n - 1] == a[..n][1..] == b[..n][1..] == b[1..][..n - 1];
      CommonLengthIs(a[1..], b[1..], n - 1);
    }
  }

  /** The components that a link below `dir` with this value stands for: absolute values start at the root. */
  function LinkTarget(dir: seq<string>, floor: nat, value: string): (target: seq<string>)
    requires floor <= |dir|
    ensures NoUp(target)
  {
    Normalize((if Absolute(value) then dir[..floor] else dir) + InitItems(value), floor)
  }

  /** The first component of the value goes directly under the root. */
  predicate AtRoot(dir: seq<string>, floor: nat, value: string) {
    Absolute(value) || |dir| == floor
  }

  /** The value has a component, and a relative value directly under the root has no "..": otherwise the
      code dereferences null, or frees a component twice. */
  predicate Followable(dir: seq<string>, floor: nat, value: string) {
    InitItems(value) != [] && (!Absolute(value) && |dir| == floor ==> NoUp(InitItems(value)))
  }

  lemma TargetIsProper(dir: seq<string>, floor: nat, value: string)
    requires floor <= |dir| && Proper(dir)
    ensures Proper(LinkTarget(dir, floor, value))
  {
    InitIsProper(value);
    RunKeepsProper([], (if Absolute(value) then dir[..floor] else dir) + InitItems(value), floor);
  }

  lemma TargetKeepsRoot(dir: seq<string>, floor: nat, value: string)
    requires floor <= |dir| && NoUp(dir)
    ensures var items := (if Absolute(value) then dir[..floor] else dir) + InitItems(value);
            && NoUp(items[..floor]) && items[..floor] == dir[..floor]
            && (AtRoot(dir, floor, value) && Followable(dir, floor, value) ==> NoUp(items))
  {
    assert ((if Absolute(value) then dir[..floor] else dir) + InitItems(value))[..floor] == dir[..floor];
  }

  /** What the code makes of a path whose component `k` is a link: the new items, and the place from which
      they have not been looked at yet. When the target only shares the root with the link's path and hangs
      directly under it, the code loses the target's first component. */
  function Substitute(items: seq<string>, floor: nat, k: nat, value: string): (r: (seq<string>, int))
    requires floor <= k < |items|
  {
    var target := LinkTarget(items[..k], floor, value);
    var c := CommonLength(items[..k + 1], target);
    var lost := c == floor && AtRoot(items[..k], floor, value) && c < |target|;
    var unseen := if lost then target[c + 1..] else target[c..];
    var rest := items[k + 1..];
    (target[..c] + unseen + rest, if unseen != [] || rest != [] then c else c - 1)
  }

  /** What following the link should give: the link and everything before it replaced by its target. */
  function Followed(items: seq<string>, floor: nat, k: nat, value: string): seq<string>
    requires floor <= k < |items|
  {
    LinkTarget(items[..k], floor, value) + items[k + 1..]
  }

  /** The target hangs directly under the root and starts with another name than the link's path does. */
  predicate LosesComponent(items: seq<string>, floor: nat, k: nat, value: string)
    requires floor <= k < |items|
  {
    AtRoot(items[..k], floor, value) && InitItems(value) != [] && InitItems(value)[0] != items[floor]
  }

  /** Where a followable link leads: below the root, with the value's items right under it if it hangs there. */
  lemma TargetShape(dir: seq<string>, floor: nat, value: string)
    requires floor <= |dir| && NoUp(dir) && Followable(dir, floor, value)
    ensures floor <= |LinkTarget(dir, floor, value)| && LinkTarget(dir, floor, value)[..floor] == dir[..floor]
    ensures AtRoot(dir, floor, value) ==> LinkTarget(dir, floor, value) == dir[..floor] + InitItems(value)
  {
    var items := (if Absolute(value) then dir[..floor] else dir) + InitItems(value);
    TargetKeepsRoot(dir, floor, value);
    NormalizeKeepsRoot(items, floor);
    if AtRoot(dir, floor, value) {
      assert dir[..|dir|] == dir;
      assert NoUp(items);
      NormalizePlain(items, floor);
    }
  }

  /** The common prefix reaches beyond the root exactly when no component is lost. */
  lemma CommonBeyondRoot(items: seq<string>, floor: nat, k: nat, value: string)
    requires floor <= k < |items| && NoUp(items) && Followable(items[..k], floor, value)
    ensures var target := LinkTarget(items[..k], floor, value);
            var c := CommonLength(items[..k + 1], target);
            && floor <= c <= k + 1 && c <= |target| && target[..c] == items[..c]
            && (AtRoot(items[..k], floor, value) ==> floor < |target|)
            && (LosesComponent(items, floor, k, value) <==> c == floor && AtRoot(items[..k], floor, value))
  {
    var target := LinkTarget(items[..k], floor, value);
    TargetShape(items[..k], floor, value);
    assert items[..k + 1][..floor] == items[..floor] == items[..k][..floor];
    CommonLengthAtLeast(items[..k + 1], target, floor);
    var c := CommonLength(items[..k + 1], target);
    assert items[..k + 1][..c] == items[..c];
    if AtRoot(items[..k], floor, value) {
      assert target[floor] == InitItems(value)[0];
      if c > floor {
        assert items[..c][floor] == target[..c][floor];
      }
    }
  }

  /** Following a link gives the normalised target followed by the rest of the path exactly when the target
      does not hang directly under the root with another first name than the link's path. */
  lemma SubstituteExact(items: seq<string>, floor: nat, k: nat, value: string)
    requires floor <= k < |items| && NoUp(items) && Followable(items[..k], floor, value)
    ensures Substitute(items, floor, k, value).0 == Followed(items, floor, k, value)
       <==> !LosesComponent(items, floor, k, value)
  {
    hide LinkTarget, CommonLength, Followable, LosesComponent, AtRoot;
    var target := LinkTarget(items[..k], floor, value);
    var c := CommonLength(items[..k + 1], target);
    CommonBeyondRoot(items, floor, k, value);
    OneShorter(target, c, items[k + 1..]);
    assert target[..c] + target[c..] == target;
  }

  lemma OneShorter(target: seq<string>, c: nat, rest: seq<string>)
    requires c <= |target|
    ensures c < |target| ==> target[..c] + target[c + 1..] + rest != target + rest
  {
    assert c < |target| ==> |target[..c] + target[c + 1..] + rest| < |target + rest|;
  }

  lemma PrefixOfPrefix(r: seq<string>, items: seq<string>, c: nat, n: nat)
    requires n <= c <= |r| && c <= |items| && r[..c] == items[..c]
    ensures r[..n] == items[..n]
  {
    assert r[..n] == r[..c][..n];
  }

  /** Whatever the link, what is not looked at again is a prefix of the old path up to and including the
      link, it includes the link only when the target runs through the link itself, and the root stays. */
  lemma SubstituteKeepsPrefix(items: seq<string>, floor: nat, k: nat, value: string)
    requires 0 < floor <= k < |items| && NoUp(items) && Followable(items[..k], floor, value)
    ensures var (r, n) := Substitute(items, floor, k, value);
            && 0 <= n < |r| && n <= k + 1 && r[..n] == items[..n]
            && floor <= |r| && r[..floor] == items[..floor] && NoUp(r)
            && (n == k + 1 ==> items[..k + 1] <= LinkTarget(items[..k], floor, value))
  {
    hide LinkTarget, CommonLength, Followable, LosesComponent, AtRoot;
    var target := LinkTarget(items[..k], floor, value);
    var c := CommonLength(items[..k + 1], target);
    CommonBeyondRoot(items, floor, k, value);
    var (r, n) := Substitute(items, floor, k, value);
    assert r[..c] == target[..c] == items[..c];
    PrefixOfPrefix(r, items, c, floor);
    PrefixOfPrefix(r, items, c, n);
  }

  /** The parts of a substituted path. */
  lemma SubstituteIs(items: seq<string>, floor: nat, k: nat, value: string, c: nat, unseen: seq<string>)
    requires floor <= k < |items| && c == CommonLength(items[..k + 1], LinkTarget(items[..k], floor, value))
    requires var target := LinkTarget(items[..k], floor, value);
             var lost := c == floor && AtRoot(items[..k], floor, value) && c < |target|;
             unseen == if lost then target[c + 1..] else target[c..]
    ensures var target, rest := LinkTarget(items[..k], floor, value), items[k + 1..];
            Substitute(items, floor, k, value) ==
              (target[..c] + unseen + rest, if unseen != [] || rest != [] then c else c - 1)
  {
  }

  lemma SubstituteIsProper(items: seq<string>, floor: nat, k: nat, value: string)
    requires floor <= k < |items| && Proper(items)
    ensures Proper(Substitute(items, floor, k, value).0)
  {
    hide LinkTarget, AtRoot;
    TargetIsProper(items[..k], floor, value);
  }

  /** An absolute link under the root loses its first component: "/r/a" with value "/b/c" becomes "/r/c". */
  lemma AbsoluteLinkLosesComponent()
    ensures var items, value := ["r", "a"], "/b/c";
            NoUp(items) && Followable(items[..1], 1, value)
            && Substitute(items, 1, 1, value).0 != Followed(items, 1, 1, value)
  {
    hide Components, Tokens;
    var items, value := ["r", "a"], "/b/c";
    assert ["b", "c"][..1] == ["b"] && ["b"][..0] == [];
    assert Render(["b"]) == "/b" && Render(["b", "c"]) == "/b/c";
    ComponentsOfRender(["b", "c"]);
    NormalizePlain(["b", "c"], 0);
    SubstituteExact(items, 1, 1, value);
  }
}
