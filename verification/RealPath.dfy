/** Resolving a path below the mount point (shifter_core.c, shifter_realpath). */
module RealPath {
  import opened Wrappers
  import opened Text
  import opened Appending
  import opened PathItems
  import opened PathLists
  import opened PathOps

  /** What `lstat` and `readlink` say about a path that exists. */
  datatype Entry = Link(value: string) | Other

  type FileSystem = map<string, Entry>

  /** `OutOfFuel` stands for the runs that follow more links than the fuel allows. */
  datatype Outcome = Resolved(path: string) | Failed | OutOfFuel

  /** pathList_string for an absolute path: nothing when it does not fit a buffer of PATH_MAX bytes. */
  function TextOf(items: seq<string>): Option<string> {
    if items == [] then Some("/")
    else if |Render(items)| + 1 < PATH_MAX then Some(Render(items))
    else None
  }

  // ---------- specification: always look from the start ----------

  /** A prefix that exists and is not a link. */
  predicate Plain(fs: FileSystem, items: seq<string>) {
    TextOf(items).Some? && TextOf(items).value in fs && fs[TextOf(items).value].Other?
  }

  predicate PlainAt(fs: FileSystem, items: seq<string>, n: nat) {
    n <= |items| && Plain(fs, items[..n])
  }

  /** The first component from `k` on whose path is missing or is a link. */
  function Scan(fs: FileSystem, items: seq<string>, k: nat): (j: nat)
    requires k <= |items|
    ensures k <= j <= |items|
    ensures forall i :: k < i <= j ==> PlainAt(fs, items, i)
    ensures j < |items| ==> !PlainAt(fs, items, j + 1)
    decreases |items| - k
  {
    if k < |items| && PlainAt(fs, items, k + 1) then Scan(fs, items, k + 1) else k
  }

  /** The value of the link at a path that is not plain; none when the path is missing or the link cannot
      be read or followed. */
  function LinkValue(fs: FileSystem, items: seq<string>): Option<string> {
    var text := TextOf(items);
    if text.None? || text.value !in fs || fs[text.value].Other? then None
    else if fs[text.value].value == "" || |fs[text.value].value| >= PATH_MAX then None
    else Some(fs[text.value].value)
  }

  /** The first component that is not plain is a link below the root that can be followed. */
  predicate CanStep(fs: FileSystem, items: seq<string>, floor: nat) {
    var j := Scan(fs, items, 0);
    floor <= j < |items| && LinkValue(fs, items[..j + 1]).Some?
  }

  function Step(fs: FileSystem, items: seq<string>, floor: nat): seq<string>
    requires CanStep(fs, items, floor)
  {
    var j := Scan(fs, items, 0);
    Substitute(items, floor, j, LinkValue(fs, items[..j + 1]).value).0
  }

  function StepFollowing(fs: FileSystem, items: seq<string>, floor: nat): seq<string>
    requires CanStep(fs, items, floor)
  {
    var j := Scan(fs, items, 0);
    Followed(items, floor, j, LinkValue(fs, items[..j + 1]).value)
  }

  /** Where the walk ends when it takes no step. */
  function Stop(fs: FileSystem, items: seq<string>): Outcome {
    if Scan(fs, items, 0) < |items| || TextOf(items).None? then Failed else Resolved(TextOf(items).value)
  }

  /** Replace the first link until there is none, looking at the whole path every time. */
  function Walk(fs: FileSystem, items: seq<string>, floor: nat, fuel: nat): Outcome
    decreases fuel
  {
    if !CanStep(fs, items, floor) then Stop(fs, items)
    else if fuel == 0 then OutOfFuel
    else Walk(fs, Step(fs, items, floor), floor, fuel - 1)
  }

  /** The same with every link replaced by what it stands for. */
  function WalkFollowing(fs: FileSystem, items: seq<string>, floor: nat, fuel: nat): Outcome
    decreases fuel
  {
    if !CanStep(fs, items, floor) then Stop(fs, items)
    else if fuel == 0 then OutOfFuel
    else WalkFollowing(fs, StepFollowing(fs, items, floor), floor, fuel - 1)
  }

  function Search(fs: FileSystem, mount: string, src: string, fuel: nat): Outcome {
    var root := InitItems(mount);
    if !Absolute(mount) || root == [] || InitItems(src) == [] then Failed
    else Walk(fs, AppendItems(root, |root|, true, src), |root|, fuel)
  }

  function SearchFollowing(fs: FileSystem, mount: string, src: string, fuel: nat): Outcome {
    var root := InitItems(mount);
    if !Absolute(mount) || root == [] || InitItems(src) == [] then Failed
    else WalkFollowing(fs, AppendItems(root, |root|, true, src), |root|, fuel)
  }

  // ---------- the side conditions on the file system ----------

  /** No component of the mount point is a link. */
  ghost predicate PlainMount(fs: FileSystem, root: seq<string>) {
    forall i {:trigger root[..i]} :: 0 < i <= |root| ==> !IsLink(fs, root[..i])
  }

  predicate IsLink(fs: FileSystem, items: seq<string>) {
    TextOf(items).Some? && TextOf(items).value in fs && fs[TextOf(items).value].Link?
  }

  /** A link at this path can be followed, and does not lead through itself. */
  ghost predicate GoodLink(fs: FileSystem, floor: nat, path: seq<string>)
    requires floor < |path|
  {
    LinkValue(fs, path).Some? ==>
      var dir, value := path[..|path| - 1], LinkValue(fs, path).value;
      Followable(dir, floor, value) && !(path <= LinkTarget(dir, floor, value))
  }

  ghost predicate GoodLinks(fs: FileSystem, root: seq<string>) {
    forall path {:trigger GoodLink(fs, |root|, path)} | IsBelow(root, path) :: GoodLink(fs, |root|, path)
  }

  /** A path of at least one component more than the root, written as the path lists write it. */
  predicate IsBelow(root: seq<string>, path: seq<string>) {
    |root| < |path| && root <= path && NoUp(path) && Proper(path)
  }

  /** No link hangs its target directly under the root under another name than its own path starts with. */
  ghost predicate NoLostComponent(fs: FileSystem, root: seq<string>) {
    forall path {:trigger LinkValue(fs, path)} | IsBelow(root, path) && LinkValue(fs, path).Some? ::
      !LosesComponent(path, |root|, |path| - 1, LinkValue(fs, path).value)
  }

  /** A link whose value has a component, is relative at least two levels below the root or absolute with the
      first component of its own path below the root, and does not lead through the link. */
  predicate OrdinaryLink(floor: nat, path: seq<string>, value: string)
    requires floor < |path|
  {
    && InitItems(value) != []
    && (if Absolute(value) then InitItems(value)[0] == path[floor] else floor + 2 <= |path|)
    && !(path <= LinkTarget(path[..|path| - 1], floor, value))
  }

  ghost predicate OrdinaryLinks(fs: FileSystem, root: seq<string>) {
    forall path {:trigger LinkValue(fs, path)} | IsBelow(root, path) && LinkValue(fs, path).Some? ::
      OrdinaryLink(|root|, path, LinkValue(fs, path).value)
  }

  /** The conditions on the links below the root, taken together, are that each of them is ordinary. */
  lemma OrdinaryLinksExact(fs: FileSystem, root: seq<string>)
    ensures GoodLinks(fs, root) && NoLostComponent(fs, root) <==> OrdinaryLinks(fs, root)
  {
    hide LinkTarget, InitItems, LinkValue;
    forall path | IsBelow(root, path) && LinkValue(fs, path).Some?
      ensures OrdinaryLink(|root|, path, LinkValue(fs, path).value) <==>
              GoodLink(fs, |root|, path) && !LosesComponent(path, |root|, |path| - 1, LinkValue(fs, path).value)
    {
      LinkConditions(fs, root, path);
    }
    if GoodLinks(fs, root) && NoLostComponent(fs, root) {
      forall path | IsBelow(root, path) && LinkValue(fs, path).Some?
        ensures OrdinaryLink(|root|, path, LinkValue(fs, path).value)
      {
        assert GoodLink(fs, |root|, path);
      }
    }
  }

  lemma LinkConditions(fs: FileSystem, root: seq<string>, path: seq<string>)
    requires IsBelow(root, path) && LinkValue(fs, path).Some?
    ensures OrdinaryLink(|root|, path, LinkValue(fs, path).value) <==>
            GoodLink(fs, |root|, path) && !LosesComponent(path, |root|, |path| - 1, LinkValue(fs, path).value)
  {
    hide LinkTarget, InitItems, LinkValue;
    var floor, dir, value := |root|, path[..|path| - 1], LinkValue(fs, path).value;
    if Followable(dir, floor, value) && !Absolute(value) && |dir| == floor && InitItems(value)[0] == path[floor] {
      TargetShape(dir, floor, value);
      assert dir[..floor] == dir && path == dir + [path[floor]];
      assert LinkTarget(dir, floor, value)[..|path|] == path;
    }
  }

  // ---------- what a resolved path is ----------

  /** Below the mount point, without "..", and without a link on the way. */
  ghost predicate CleanPath(fs: FileSystem, root: seq<string>, path: string) {
    exists items {:trigger CleanItems(fs, root, items)} :: CleanItems(fs, root, items) && TextOf(items) == Some(path)
  }

  ghost predicate CleanItems(fs: FileSystem, root: seq<string>, items: seq<string>) {
    root <= items && NoUp(items) && Proper(items) && forall i :: 0 < i <= |items| ==> PlainAt(fs, items, i)
  }

  lemma UpToHere(items: seq<string>, n: nat)
    requires NoUp(items) && Proper(items) && n <= |items|
    ensures NoUp(items[..n]) && Proper(items[..n])
  {
  }

  lemma LinkStaysBelow(fs: FileSystem, root: seq<string>, items: seq<string>, j: nat, value: string)
    requires GoodLinks(fs, root) && root != [] && root <= items && NoUp(items) && Proper(items)
    requires |root| <= j < |items| && LinkValue(fs, items[..j + 1]) == Some(value)
    ensures Followable(items[..j], |root|, value)
    ensures var (r, n) := Substitute(items, |root|, j, value);
            root <= r && NoUp(r) && Proper(r) && 0 <= n <= j && n < |r| && r[..n] == items[..n]
  {
    hide Substitute, LinkTarget, Followable, NoUp, Proper;
    var path := items[..j + 1];
    UpToHere(items, j + 1);
    assert GoodLink(fs, |root|, path);
    assert path[..j] == items[..j];
    SubstituteKeepsPrefix(items, |root|, j, value);
    SubstituteIsProper(items, |root|, j, value);
    var (r, n) := Substitute(items, |root|, j, value);
    assert r[..|root|] == items[..|root|] == root;
  }

  /** A step is taken at the first component that is not plain. */
  lemma StepAt(fs: FileSystem, items: seq<string>, floor: nat, j: nat, value: string, fuel: nat)
    requires Scan(fs, items, 0) == j && floor <= j < |items| && LinkValue(fs, items[..j + 1]) == Some(value)
    ensures CanStep(fs, items, floor)
    ensures Step(fs, items, floor) == Substitute(items, floor, j, value).0
    ensures StepFollowing(fs, items, floor) == Followed(items, floor, j, value)
    ensures fuel > 0 ==> Walk(fs, items, floor, fuel) == Walk(fs, Step(fs, items, floor), floor, fuel - 1)
    ensures fuel > 0 ==>
              WalkFollowing(fs, items, floor, fuel) ==
                WalkFollowing(fs, StepFollowing(fs, items, floor), floor, fuel - 1)
  {
    hide Scan, LinkValue, Substitute, Followed, Stop, PlainAt, TextOf;
  }

  lemma StepExists(fs: FileSystem, items: seq<string>, floor: nat) returns (j: nat, value: string)
    requires CanStep(fs, items, floor)
    ensures Scan(fs, items, 0) == j && floor <= j < |items| && LinkValue(fs, items[..j + 1]) == Some(value)
  {
    hide Scan, LinkValue;
    j := Scan(fs, items, 0);
    value := LinkValue(fs, items[..j + 1]).value;
  }

  lemma LinkFollows(fs: FileSystem, root: seq<string>, items: seq<string>, j: nat, value: string)
    requires NoLostComponent(fs, root) && root <= items && NoUp(items) && Proper(items)
    requires |root| <= j < |items| && LinkValue(fs, items[..j + 1]) == Some(value)
    requires Followable(items[..j], |root|, value)
    ensures Substitute(items, |root|, j, value).0 == Followed(items, |root|, j, value)
  {
    var path := items[..j + 1];
    UpToHere(items, j + 1);
    assert IsBelow(root, path);
    assert !LosesComponent(path, |root|, j, value);
    assert path[..j] == items[..j] && path[|root|] == items[|root|];
    SubstituteExact(items, |root|, j, value);
  }

  /** A step of the walk, forgetting how it is computed. */
  lemma TakeStep(fs: FileSystem, root: seq<string>, items: seq<string>, fuel: nat) returns (next: seq<string>)
    requires GoodLinks(fs, root) && root != [] && root <= items && NoUp(items) && Proper(items)
    requires CanStep(fs, items, |root|) && fuel > 0
    ensures root <= next && NoUp(next) && Proper(next)
    ensures Walk(fs, items, |root|, fuel) == Walk(fs, next, |root|, fuel - 1)
    ensures NoLostComponent(fs, root) ==>
              WalkFollowing(fs, items, |root|, fuel) == WalkFollowing(fs, next, |root|, fuel - 1)
  {
    hide *;
    var j, value := StepExists(fs, items, |root|);
    StepAt(fs, items, |root|, j, value, fuel);
    LinkStaysBelow(fs, root, items, j, value);
    next := Step(fs, items, |root|);
    if NoLostComponent(fs, root) {
      LinkFollows(fs, root, items, j, value);
    }
  }

  lemma WalkStops(fs: FileSystem, items: seq<string>, floor: nat, fuel: nat)
    requires !CanStep(fs, items, floor) || fuel == 0
    ensures var stop := if CanStep(fs, items, floor) then OutOfFuel else Stop(fs, items);
            Walk(fs, items, floor, fuel) == stop && WalkFollowing(fs, items, floor, fuel) == stop
  {
  }

  lemma StopIsClean(fs: FileSystem, root: seq<string>, items: seq<string>)
    requires root <= items && NoUp(items) && Proper(items) && Stop(fs, items).Resolved?
    ensures CleanPath(fs, root, Stop(fs, items).path)
  {
    assert CleanItems(fs, root, items);
  }

  /** Every path the walk resolves starts with the mount point's components and has no link among its prefixes. */
  lemma WalkResolvesToCleanPath(fs: FileSystem, root: seq<string>, items: seq<string>, fuel: nat)
    requires GoodLinks(fs, root) && root != [] && root <= items && NoUp(items) && Proper(items)
    ensures Walk(fs, items, |root|, fuel).Resolved? ==> CleanPath(fs, root, Walk(fs, items, |root|, fuel).path)
  {
    hide *;
    var curr, left := items, fuel;
    while CanStep(fs, curr, |root|) && left > 0
      invariant root <= curr && NoUp(curr) && Proper(curr)
      invariant Walk(fs, items, |root|, fuel) == Walk(fs, curr, |root|, left)
      decreases left
    {
      curr := TakeStep(fs, root, curr, left);
      left := left - 1;
    }
    WalkStops(fs, curr, |root|, left);
    if !CanStep(fs, curr, |root|) && Stop(fs, curr).Resolved? {
      StopIsClean(fs, root, curr);
    }
  }

  /** When no link loses a component, the walk follows every link to what it stands for. */
  lemma WalkFollowsLinks(fs: FileSystem, root: seq<string>, items: seq<string>, fuel: nat)
    requires GoodLinks(fs, root) && NoLostComponent(fs, root)
    requires root != [] && root <= items && NoUp(items) && Proper(items)
    ensures Walk(fs, items, |root|, fuel) == WalkFollowing(fs, items, |root|, fuel)
  {
    hide *;
    var curr, left := items, fuel;
    while CanStep(fs, curr, |root|) && left > 0
      invariant root <= curr && NoUp(curr) && Proper(curr)
      invariant Walk(fs, items, |root|, fuel) == Walk(fs, curr, |root|, left)
      invariant WalkFollowing(fs, items, |root|, fuel) == WalkFollowing(fs, curr, |root|, left)
      decreases left
    {
      curr := TakeStep(fs, root, curr, left);
      left := left - 1;
    }
    WalkStops(fs, curr, |root|, left);
  }

  /** A scan may be resumed behind a prefix that is known to be plain. */
  lemma {:induction false} ScanResumes(fs: FileSystem, items: seq<string>, k: nat, p: nat)
    requires k <= p <= |items| && forall i :: k < i <= p ==> PlainAt(fs, items, i)
    ensures Scan(fs, items, k) == Scan(fs, items, p)
    decreases p - k
  {
    if k < p {
      ScanResumes(fs, items, k + 1, p);
    }
  }

  // ---------- the code ----------

  /** The components one after the other, without separators. */
  function Joined(items: seq<string>): string {
    if items == [] then "" else Joined(items[..|items| - 1]) + items[|items| - 1]
  }

  /** pathList_string for a relative path. */
  function BareText(items: seq<string>): Option<string> {
    if items == [] || |Joined(items)| + 2 < PATH_MAX then Some(Joined(items)) else None
  }

  function Printed(items: seq<string>, absolute: bool): string {
    if absolute then Render(items) else Joined(items)
  }

  function TextUpTo(items: seq<string>, absolute: bool): Option<string> {
    if absolute then TextOf(items) else BareText(items)
  }

  /** pathList_stringPartial: the text of the components up to `pos`. A relative path has no slashes at all. */
  method StringPartial(path: PathList, pos: PathComponent?, ghost n: nat) returns (text: Option<string>)
    requires path.Linked()
    requires if pos == null then n == 0 else 0 < n <= |path.nodes| && pos == path.nodes[n - 1]
    ensures text == if pos == null && path.nodes != [] then None else TextUpTo(path.items[..n], path.absolute)
  {
    hide Render, Joined, TextOf, BareText, Printed, Chain, TextUpTo;
    PrintedNothing(path.absolute);
    if pos == null {
      return if path.path != null then None else Some(if path.absolute then "/" else "");
    }
    var ptr, done, s := path.path, false, "";
    ghost var i := 0;
    while !done
      invariant 0 <= i <= n && (done <==> i == n) && (!done ==> ptr == path.nodes[i])
      invariant s == Printed(path.items[..i], path.absolute)
      invariant i > 0 ==> |s| + (if path.absolute then 1 else 2) < PATH_MAX
      decreases n - i
    {
      path.Step(i);
      PrintedStep(path.items, path.absolute, i);
      if |s| + |ptr.item| + 2 >= PATH_MAX {
        DoesNotFit(path.items, path.absolute, n, i);
        return None;
      }
      s := s + (if path.absolute then "/" else "") + ptr.item;
      done := ptr == pos;
      ptr, i := if done then null else ptr.child, i + 1;
    }
    JustFits(path.items[..n], path.absolute);
    text := Some(s);
  }

  lemma PrintedNothing(absolute: bool)
    ensures Printed([], absolute) == "" && TextUpTo([], absolute) == Some(if absolute then "/" else "")
  {
  }

  lemma PrintedStep(items: seq<string>, absolute: bool, i: nat)
    requires i < |items|
    ensures Printed(items[..i + 1], absolute) ==
              Printed(items[..i], absolute) + (if absolute then "/" else "") + items[i]
  {
    assert items[..i + 1][..i] == items[..i];
    assert Joined(items[..i]) + "" == Joined(items[..i]);
  }

  lemma DoesNotFit(items: seq<string>, absolute: bool, n: nat, i: nat)
    requires i < n <= |items| && |Printed(items[..i], absolute)| + |items[i]| + 2 >= PATH_MAX
    ensures TextUpTo(items[..n], absolute).None?
  {
    PrintedStep(items, absolute, i);
    PrintedGrows(items[..n], absolute, i + 1);
    assert items[..n][..i + 1] == items[..i + 1];
  }

  lemma JustFits(items: seq<string>, absolute: bool)
    requires items != [] && |Printed(items, absolute)| + (if absolute then 1 else 2) < PATH_MAX
    ensures TextUpTo(items, absolute) == Some(Printed(items, absolute))
  {
  }

  lemma {:induction false} PrintedGrows(items: seq<string>, absolute: bool, n: nat)
    requires n <= |items|
    ensures |Printed(items[..n], absolute)| <= |Printed(items, absolute)|
    decreases |items|
  {
    if n < |items| {
      assert items[..|items| - 1][..n] == items[..n];
      PrintedGrows(items[..|items| - 1], absolute, n);
    } else {
      assert items[..n] == items;
    }
  }

  /** Two components of a relative path print as one. */
  lemma RelativeTextsCollide(x: string, y: string)
    ensures BareText([x, y]) == BareText([x + y])
  {
    assert [x, y][..1] == [x] && [x][..0] == [] && [x + y][..0] == [];
    assert Joined([x]) == "" + x == x && Joined([x + y]) == "" + (x + y) == x + y;
    assert Joined([x, y]) == x + y;
  }

  /** Behind a plain prefix, a component that is not plain is where the walk stops or steps. */
  lemma FirstNotPlain(fs: FileSystem, items: seq<string>, p: nat)
    requires p < |items| && !PlainAt(fs, items, p + 1)
    requires forall i :: 0 < i <= p ==> PlainAt(fs, items, i)
    ensures Scan(fs, items, 0) == p
  {
    ScanResumes(fs, items, 0, p);
  }

  lemma WalkEnds(fs: FileSystem, items: seq<string>, floor: nat, fuel: nat)
    requires forall i :: 0 < i <= |items| ==> PlainAt(fs, items, i)
    ensures Walk(fs, items, floor, fuel) == if TextOf(items).Some? then Resolved(TextOf(items).value) else Failed
  {
    ScanResumes(fs, items, 0, |items|);
  }

  /** Looking on from the first changed component is looking again from the start. */
  lemma StepResumes(fs: FileSystem, root: seq<string>, items: seq<string>, p: nat, value: string, fuel: nat)
    requires GoodLinks(fs, root) && root != [] && root <= items && NoUp(items) && Proper(items) && fuel > 0
    requires |root| <= p < |items| && LinkValue(fs, items[..p + 1]) == Some(value)
    requires forall i :: 0 < i <= p ==> PlainAt(fs, items, i)
    ensures var (r, n) := Substitute(items, |root|, p, value);
            && root <= r && NoUp(r) && Proper(r) && 0 <= n < |r|
            && (forall i :: 0 < i <= n ==> PlainAt(fs, r, i))
            && Walk(fs, items, |root|, fuel) == Walk(fs, r, |root|, fuel - 1)
  {
    hide *;
    var (r, n) := Substitute(items, |root|, p, value);
    LinkStaysBelow(fs, root, items, p, value);
    LinkIsNotPlain(fs, items, p, value);
    FirstNotPlain(fs, items, p);
    StepAt(fs, items, |root|, p, value, fuel);
    PlainPrefix(fs, items, r, n);
  }

  // ---------- an example ----------

  const TREE: FileSystem := map[
    "/r" := Other, "/r/a" := Other, "/r/a/b" := Link("../c"), "/r/a/d" := Link("/a/e"),
    "/r/a/e" := Other, "/r/c" := Other]

  lemma TreePaths()
    ensures Render(["r"]) == "/r" && Render(["r", "a"]) == "/r/a" && Render(["r", "c"]) == "/r/c"
    ensures Render(["r", "a", "b"]) == "/r/a/b"
    ensures Render(["r", "a", "d"]) == "/r/a/d" && Render(["r", "a", "e"]) == "/r/a/e"
  {
    assert ["r"][..0] == [];
    assert ["r", "a"][..1] == ["r"] == ["r", "c"][..1];
    assert ["r", "a", "b"][..2] == ["r", "a"] == ["r", "a", "d"][..2] == ["r", "a", "e"][..2];
  }

  lemma TreeValues()
    ensures InitItems("../c") == ["..", "c"] && InitItems("/a/e") == ["a", "e"]
    ensures LinkTarget(["r", "a"], 1, "../c") == ["r", "c"]
    ensures LinkTarget(["r", "a"], 1, "/a/e") == ["r", "a", "e"]
  {
    hide Components, Tokens, Normalize;
    assert ".." + "/" + "c" == "../c" && "/" + "a" + "/" + "e" == "/a/e";
    RelativeText("..", "c");
    AbsoluteText("a", "e");
    NormalizePlain(["a", "e"], 0);
    UpAndDown();
    assert ["r", "a"][..1] + ["a", "e"] == ["r", "a", "e"];
    NormalizePlain(["r", "a", "e"], 1);
  }

  lemma AbsoluteText(x: string, y: string)
    requires ProperItem(x) && ProperItem(y)
    ensures Components("/" + x + "/" + y) == [x, y]
  {
    hide Components;
    assert [x, y][..1] == [x] && [x][..0] == [];
    assert Render([x]) == "/" + x && Render([x, y]) == "/" + x + "/" + y;
    ComponentsOfRender([x, y]);
  }

  lemma RelativeText(x: string, y: string)
    requires ProperItem(x) && ProperItem(y)
    ensures Components(x + "/" + y) == [x, y]
  {
    var s := "/" + x + "/" + y;
    AbsoluteText(x, y);
    assert s[0] == '/' && s[1..] == x + "/" + y;
  }

  lemma UpAndDown()
    ensures Normalize(["r", "a"] + ["..", "c"], 1) == ["r", "c"]
  {
    RunPlain([], ["r", "a"], ["..", "c"], 1);
    assert [] + ["r", "a"] == ["r", "a"];
    assert ["..", "c"][1..] == ["c"] && ["r", "a"][..1] == ["r"];
    assert Run(["r", "a"], ["..", "c"], 1) == Run(["r"], ["c"], 1) == ["r"] + ["c"];
  }

  /** The only links are those two. */
  lemma TreeLinks(path: seq<string>)
    requires Proper(path) && path != [] && LinkValue(TREE, path).Some?
    ensures || (path == ["r", "a", "b"] && LinkValue(TREE, path) == Some("../c"))
            || (path == ["r", "a", "d"] && LinkValue(TREE, path) == Some("/a/e"))
  {
    hide Components, Tokens, Render;
    TreePaths();
    var text := TextOf(path).value;
    assert text == "/r/a/b" || text == "/r/a/d";
    ComponentsOfRender(path);
    ComponentsOfRender(["r", "a", "b"]);
    ComponentsOfRender(["r", "a", "d"]);
  }

  /** Both links are ordinary, and the walk follows them: one up out of its directory, one from the root. */
  lemma TreeIsFollowed()
    ensures PlainMount(TREE, ["r"]) && GoodLinks(TREE, ["r"]) && NoLostComponent(TREE, ["r"])
    ensures CanStep(TREE, ["r", "a", "b"], 1) && Walk(TREE, ["r", "a", "b"], 1, 1) == Resolved("/r/c")
    ensures CanStep(TREE, ["r", "a", "d"], 1) && Walk(TREE, ["r", "a", "d"], 1, 1) == Resolved("/r/a/e")
  {
    hide *;
    TreeIsOrdinary();
    OrdinaryLinksExact(TREE, ["r"]);
    BothLinks();
    TreeSteps("b", "../c", ["r", "c"]);
    TreeSteps("d", "/a/e", ["r", "a", "e"]);
    TreePaths();
  }

  lemma TreeIsOrdinary()
    ensures OrdinaryLinks(TREE, ["r"]) && PlainMount(TREE, ["r"])
  {
    hide LinkTarget, InitItems;
    TreeValues();
    TreePaths();
    forall path | IsBelow(["r"], path) && LinkValue(TREE, path).Some?
      ensures OrdinaryLink(1, path, LinkValue(TREE, path).value)
    {
      TreeLinks(path);
      assert ["r", "a", "b"][..2] == ["r", "a"] == ["r", "a", "d"][..2];
    }
    assert ["r"][..1] == ["r"];
  }

  predicate TreeLink(name: string, value: string, target: seq<string>) {
    || (name == "b" && value == "../c" && target == ["r", "c"])
    || (name == "d" && value == "/a/e" && target == ["r", "a", "e"])
  }

  lemma BothLinks()
    ensures TreeLink("b", "../c", ["r", "c"]) && TreeLink("d", "/a/e", ["r", "a", "e"])
  {
  }

  lemma TreeLooks(name: string, value: string, target: seq<string>)
    requires TreeLink(name, value, target)
    ensures PlainAt(TREE, ["r", "a", name], 1)
    ensures PlainAt(TREE, ["r", "a", name], 2) && !PlainAt(TREE, ["r", "a", name], 3)
    ensures LinkValue(TREE, ["r", "a", name][..3]) == Some(value)
  {
    hide Render;
    TreePaths();
    var items := ["r", "a", name];
    assert items[..1] == ["r"] && items[..2] == ["r", "a"] && items[..3] == items;
  }

  lemma TreeEnds(name: string, value: string, target: seq<string>)
    requires TreeLink(name, value, target)
    ensures Walk(TREE, target, 1, 0) == Resolved(Render(target))
  {
    hide Render, Walk;
    TreePaths();
    assert target[..1] == ["r"] && target[..|target|] == target && (|target| == 3 ==> target[..2] == ["r", "a"]);
    WalkEnds(TREE, target, 1, 0);
  }

  lemma TreeTarget(name: string, value: string, target: seq<string>)
    requires TreeLink(name, value, target)
    ensures Substitute(["r", "a", name], 1, 2, value).0 == target
  {
    hide LinkTarget, InitItems, Substitute;
    TreeValues();
    var items := ["r", "a", name];
    assert items[..2] == ["r", "a"] && items[3..] == [] && target + [] == target;
    SubstituteExact(items, 1, 2, value);
  }

  lemma TreeSteps(name: string, value: string, target: seq<string>)
    requires TreeLink(name, value, target)
    ensures CanStep(TREE, ["r", "a", name], 1)
    ensures Walk(TREE, ["r", "a", name], 1, 1) == Resolved(Render(target))
  {
    hide *;
    var items := ["r", "a", name];
    TreeLooks(name, value, target);
    FirstNotPlain(TREE, items, 2);
    StepAt(TREE, items, 1, 2, value, 1);
    TreeTarget(name, value, target);
    TreeEnds(name, value, target);
  }

  // ---------- what the code looks at ----------

  lemma LinkIsNotPlain(fs: FileSystem, items: seq<string>, p: nat, value: string)
    requires p < |items| && LinkValue(fs, items[..p + 1]) == Some(value)
    ensures !PlainAt(fs, items, p + 1)
  {
  }

  lemma PlainPrefix(fs: FileSystem, items: seq<string>, r: seq<string>, n: nat)
    requires n <= |items| && n <= |r| && r[..n] == items[..n]
    requires forall i :: 0 < i <= n ==> PlainAt(fs, items, i)
    ensures forall i :: 0 < i <= n ==> PlainAt(fs, r, i)
  {
    forall i | 0 < i <= n ensures PlainAt(fs, r, i) {
      PrefixOfPrefix(r, items, n, i);
      assert PlainAt(fs, items, i);
    }
  }

  lemma LinkIsBelowRoot(fs: FileSystem, root: seq<string>, items: seq<string>, p: nat)
    requires PlainMount(fs, root) && root <= items && p < |items| && IsLink(fs, items[..p + 1])
    ensures |root| <= p
  {
    if p < |root| {
      PrefixOfPrefix(items, root, |root|, p + 1);
    }
  }

  /** What `lstat` and `readlink` say about the path up to component `p`, as the walk sees it. */
  lemma LooksLike(fs: FileSystem, items: seq<string>, p: nat)
    requires p < |items|
    ensures var text := TextOf(items[..p + 1]);
            if text.None? || text.value !in fs then !PlainAt(fs, items, p + 1) && LinkValue(fs, items[..p + 1]).None?
            else if fs[text.value].Other? then PlainAt(fs, items, p + 1)
            else
              var value := fs[text.value].value;
              && !PlainAt(fs, items, p + 1) && IsLink(fs, items[..p + 1])
              && LinkValue(fs, items[..p + 1]) == if value == "" || |value| >= PATH_MAX then None else Some(value)
  {
  }

  /** The search has come to component `p`, behind a plain prefix. */
  ghost predicate Looking(fs: FileSystem, searchPath: PathList, root: seq<string>, pathPtr: PathComponent?, p: nat)
    reads searchPath, searchPath.repr
  {
    && searchPath.Linked() && searchPath.knot == 0 && searchPath.absolute
    && NoUp(searchPath.items) && Proper(searchPath.items)
    && root != [] && root <= searchPath.items && searchPath.floor == |root|
    && p <= |searchPath.nodes| && (pathPtr == null <==> p == |searchPath.nodes|)
    && (pathPtr != null ==> pathPtr == searchPath.nodes[p])
    && (forall i :: 0 < i <= p ==> PlainAt(fs, searchPath.items, i))
  }

  /** Replace the link at `pathPtr` in the search path. */
  method FollowLink(fs: FileSystem, searchPath: PathList, pathPtr: PathComponent, value: string, left: nat,
                    ghost p: nat, ghost root: seq<string>)
    returns (next: PathComponent?, ghost n: nat)
    requires GoodLinks(fs, root) && Looking(fs, searchPath, root, pathPtr, p) && searchPath.TerminalIsLast()
    requires |root| <= p && LinkValue(fs, searchPath.items[..p + 1]) == Some(value) && left > 0
    modifies searchPath
    ensures Looking(fs, searchPath, root, next, n) && searchPath.TerminalIsLast() && fresh(searchPath.repr)
    ensures Walk(fs, old(searchPath.items), |root|, left) == Walk(fs, searchPath.items, |root|, left - 1)
  {
    ghost var items := searchPath.items;
    LinkStaysBelow(fs, root, items, p, value);
    StepResumes(fs, root, items, p, value, left);
    n := Substitute(items, |root|, p, value).1;
    next := SymlinkSubstitute(searchPath, pathPtr, value, p);
  }

  /** One turn of the loop: an outcome, or the component to look at next. */
  method LookAt(fs: FileSystem, searchPath: PathList, pathPtr: PathComponent,
      fuel: nat, ghost p: nat, ghost root: seq<string>)
    returns (out: Option<Outcome>, next: PathComponent?, left: nat, ghost n: nat)
    requires PlainMount(fs, root) && GoodLinks(fs, root) && Looking(fs, searchPath, root, pathPtr, p)
    requires p < |root| || searchPath.TerminalIsLast()
    modifies searchPath
    ensures out.Some? ==> out.value == Walk(fs, old(searchPath.items), |root|, fuel)
    ensures out.Some? && p < |root| ==> out.value == Failed
    ensures out.None? ==>
              && Looking(fs, searchPath, root, next, n)
              && Walk(fs, old(searchPath.items), |root|, fuel) == Walk(fs, searchPath.items, |root|, left)
              && (left < fuel || (left == fuel && n == p + 1 && searchPath.nodes == old(searchPath.nodes)
                                  && searchPath.items == old(searchPath.items)
                                  && searchPath.terminal == old(searchPath.terminal)
                                  && searchPath.repr == old(searchPath.repr)))
              && (left < fuel ==> |root| <= p && searchPath.TerminalIsLast() && fresh(searchPath.repr))
  {
    hide Walk, PlainAt, LinkValue, TextOf, IsLink, PlainMount, GoodLinks;
    searchPath.Step(p);
    ghost var items := searchPath.items;
    LooksLike(fs, items, p);
    out, next, left, n := None, pathPtr.child, fuel, p + 1;
    var currPath := StringPartial(searchPath, pathPtr, p + 1);
    if currPath.None? || currPath.value !in fs {
      WalkFails(fs, items, |root|, p, fuel);
      out := Some(Failed);
    } else if fs[currPath.value].Link? {
      var value := fs[currPath.value].value;
      LinkIsBelowRoot(fs, root, items, p);
      if |value| >= PATH_MAX || value == "" {
        WalkFails(fs, items, |root|, p, fuel);
        out := Some(Failed);
      } else if fuel == 0 {
        WalkNeedsFuel(fs, items, |root|, p);
        out := Some(OutOfFuel);
      } else {
        next, n := FollowLink(fs, searchPath, pathPtr, value, fuel, p, root);
        left := fuel - 1;
      }
    }
  }

  /** The loop of shifter_realpath: look at each component in turn, and go on from the first changed one
      after following a link. */
  method WalkPath(fs: FileSystem, searchPath: PathList, fuel: nat, ghost root: seq<string>) returns (r: Outcome)
    requires PlainMount(fs, root) && GoodLinks(fs, root) && Looking(fs, searchPath, root, searchPath.path, 0)
    requires searchPath.TerminalIsLast() || (searchPath.terminal == null && searchPath.items == root)
    modifies searchPath
    ensures r == if old(searchPath.TerminalIsLast()) then Walk(fs, old(searchPath.items), |root|, fuel) else Failed
  {
    hide Walk, PlainAt, TextOf, PlainMount, GoodLinks;
    ghost var items0, ok := searchPath.items, searchPath.TerminalIsLast();
    var pathPtr, left := searchPath.path, fuel;
    ghost var p := 0;
    while pathPtr != null
      invariant Looking(fs, searchPath, root, pathPtr, p)
      invariant if ok then searchPath.TerminalIsLast() else searchPath.terminal == null && searchPath.items == root
      invariant Walk(fs, searchPath.items, |root|, left) == Walk(fs, items0, |root|, fuel)
      decreases left, |searchPath.nodes| - p
    {
      var out;
      out, pathPtr, left, p := LookAt(fs, searchPath, pathPtr, left, p, root);
      if out.Some? { return out.value; }
    }
    WalkEnds(fs, searchPath.items, |root|, left);
    var text := StringPartial(searchPath, searchPath.terminal, if ok then |searchPath.nodes| else 0);
    assert searchPath.items[..|searchPath.items|] == searchPath.items;
    r := if text.Some? then Resolved(text.value) else Failed;
  }

  lemma WalkNeedsFuel(fs: FileSystem, items: seq<string>, floor: nat, p: nat)
    requires floor <= p < |items| && !PlainAt(fs, items, p + 1) && LinkValue(fs, items[..p + 1]).Some?
    requires forall i :: 0 < i <= p ==> PlainAt(fs, items, i)
    ensures Walk(fs, items, floor, 0) == OutOfFuel
  {
    FirstNotPlain(fs, items, p);
  }

  lemma WalkFails(fs: FileSystem, items: seq<string>, floor: nat, p: nat, fuel: nat)
    requires p < |items| && !PlainAt(fs, items, p + 1) && LinkValue(fs, items[..p + 1]).None?
    requires forall i :: 0 < i <= p ==> PlainAt(fs, items, i)
    ensures Walk(fs, items, floor, fuel) == Failed
  {
    FirstNotPlain(fs, items, p);
  }

  /** The first `p` components are there and are no links, and the next one is missing. */
  ghost predicate MissingAt(fs: FileSystem, items: seq<string>, p: nat) {
    && p < |items| && (forall i :: 0 < i <= p ==> PlainAt(fs, items, i))
    && (TextOf(items[..p + 1]).None? || TextOf(items[..p + 1]).value !in fs)
  }

  /** What the search comes to when no link is on the way. */
  ghost predicate WithoutLinks(fs: FileSystem, items: seq<string>, r: Outcome) {
    && ((forall i :: 0 < i <= |items| ==> PlainAt(fs, items, i)) ==>
          r == if |Render(items)| + 1 < 4096 then Resolved(Render(items)) else Failed)
    && ((exists p :: MissingAt(fs, items, p)) ==> r == Failed)
  }

  lemma WalkWithoutLinks(fs: FileSystem, items: seq<string>, floor: nat, fuel: nat)
    requires items != []
    ensures WithoutLinks(fs, items, Walk(fs, items, floor, fuel))
  {
    hide Walk, PlainAt, Render;
    if forall i :: 0 < i <= |items| ==> PlainAt(fs, items, i) {
      WalkEnds(fs, items, floor, fuel);
    }
    if p :| MissingAt(fs, items, p) {
      LooksLike(fs, items, p);
      WalkFails(fs, items, floor, p, fuel);
    }
  }

  /** shifter_realpath */
  method ShifterRealPath(fs: FileSystem, srcPath: string, mount: string, fuel: nat) returns (r: Outcome)
    requires PlainMount(fs, InitItems(mount)) && GoodLinks(fs, InitItems(mount))
    ensures r == Search(fs, mount, srcPath, fuel)
    ensures r.Resolved? ==> CleanPath(fs, InitItems(mount), r.path)
    ensures NoLostComponent(fs, InitItems(mount)) ==> r == SearchFollowing(fs, mount, srcPath, fuel)
    ensures var root, src := InitItems(mount), InitItems(srcPath);
            if !("/" <= mount) || root == [] || src == [] then r == Failed
            else WithoutLinks(fs, Normalize(root + src, |root|), r)
  {
    hide WithoutLinks;
    ghost var root := InitItems(mount);
    var udiRootBasePath := PathListInit(mount);
    if udiRootBasePath == null { return Failed; }
    var failed := SetRoot(udiRootBasePath, mount);
    if failed { return Failed; }
    var searchPath := Duplicate(udiRootBasePath);
    failed := Append(searchPath, srcPath);
    if failed || searchPath.relroot == null { return Failed; }
    InitIsProper(mount);
    AppendKeepsRoot(root, srcPath);
    r := WalkPath(fs, searchPath, fuel, root);
    if InitItems(srcPath) != [] {
      var items := AppendItems(root, |root|, true, srcPath);
      WalkResolvesToCleanPath(fs, root, items, fuel);
      WalkWithoutLinks(fs, items, |root|, fuel);
      if NoLostComponent(fs, root) { WalkFollowsLinks(fs, root, items, fuel); }
    }
  }

  lemma AppendKeepsRoot(root: seq<string>, src: string)
    requires NoUp(root) && Proper(root)
    ensures root <= AppendItems(root, |root|, true, src)
    ensures NoUp(AppendItems(root, |root|, true, src)) && Proper(AppendItems(root, |root|, true, src))
    ensures AppendItems(root, |root|, true, src)[..|root|] == root
    ensures InitItems(src) == [] ==> AppendItems(root, |root|, true, src) == root
  {
    assert (root + InitItems(src))[..|root|] == root;
    InitIsProper(src);
    RunKeepsProper([], root + InitItems(src), |root|);
    NormalizeKeepsRoot(root + InitItems(src), |root|);
    if InitItems(src) == [] {
      assert root + [] == root;
      NormalizePlain(root, |root|);
    }
  }
}
