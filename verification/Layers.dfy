/** Flattening the tar members of an image's layers before anything is extracted (dockerv2.py). */
module Layers {
  import opened Text

  /** A tar member: its path, whether it is a directory, and a token for its content. */
  datatype Member = Member(name: string, isDir: bool, datum: int)

  /** What there is below a directory, by path. */
  type FileSystem = map<string, Member>

  // ---------- what the code computes ----------

  /** `filter_layer`: remove members named `toRemove` or starting with it as a directory. */
  function FilterLayer(members: seq<Member>, toRemove: string): seq<Member> {
    var trailing := if |toRemove| > 0 && toRemove[|toRemove| - 1] == '/' then "" else "/";
    Filter(members, (m: Member) => m.name != toRemove && !(toRemove + trailing <= m.name))
  }

  function StripDot(m: Member): Member {
    if "./" <= m.name then m.(name := m.name[2..]) else m
  }

  function Strip(raw: seq<Member>): seq<Member> {
    seq(|raw|, i requires 0 <= i < |raw| => StripDot(raw[i]))
  }

  /** A layer's members without the illegal ones. */
  function Clean(raw: seq<Member>): seq<Member> {
    Filter(FilterLayer(FilterLayer(Strip(raw), "dev/"), "/"), (m: Member) => !Contains(m.name, ".."))
  }

  predicate IsWhiteout(name: string) {
    Contains(name, "/.wh.") || ".wh." <= name
  }

  /** Python's `s.replace('/.wh.', '/')`. */
  function ReplaceMarks(s: string): string {
    if "/.wh." <= s then "/" + ReplaceMarks(s[5..])
    else if s == "" then ""
    else [s[0]] + ReplaceMarks(s[1..])
  }

  function WhiteoutPath(name: string): string {
    var path := ReplaceMarks(name);
    if ".wh." <= path then path[4..] else path
  }

  function Whiteouts(members: seq<Member>): seq<Member> {
    Filter(members, (m: Member) => IsWhiteout(m.name))
  }

  function Regular(members: seq<Member>): seq<Member> {
    Filter(members, (m: Member) => !IsWhiteout(m.name))
  }

  predicate Lists(members: seq<Member>, name: string) {
    exists i | 0 <= i < |members| :: members[i].name == name
  }

  /** One older layer after the whiteouts of a newer one: a target the layer does not list is skipped. */
  function PruneWhiteouts(older: seq<Member>, whiteouts: seq<Member>): seq<Member> {
    if whiteouts == [] then older
    else
      var done := PruneWhiteouts(older, whiteouts[..|whiteouts| - 1]);
      var path := WhiteoutPath(whiteouts[|whiteouts| - 1].name);
      if Lists(done, path) then FilterLayer(done, path) else done
  }

  function NotDirs(members: seq<Member>): (names: set<string>) {
    set m | m in members && !m.isDir :: m.name
  }

  function DropTrees(older: seq<Member>, dirs: seq<Member>): seq<Member> {
    if dirs == [] then older
    else
      var f := dirs[|dirs| - 1].name;
      Filter(DropTrees(older, dirs[..|dirs| - 1]), (m: Member) => m.name != f && !(f + "/" <= m.name))
  }

  /** One older layer after the non-directories of a newer one. */
  function PruneNotDirs(older: seq<Member>, notDirs: set<string>): seq<Member> {
    var dirs := Filter(older, (m: Member) => m.isDir && m.name in notDirs);
    Filter(DropTrees(older, dirs), (m: Member) => m.name !in notDirs)
  }

  function Prune(older: seq<Member>, members: seq<Member>): seq<Member> {
    PruneNotDirs(PruneWhiteouts(older, Whiteouts(members)), NotDirs(Regular(members)))
  }

  function PruneAll(layerPaths: seq<seq<Member>>, members: seq<Member>): (r: seq<seq<Member>>)
    ensures |r| == |layerPaths|
    ensures forall i :: 0 <= i < |r| ==> r[i] == Prune(layerPaths[i], members)
  {
    seq(|layerPaths|, i requires 0 <= i < |layerPaths| => Prune(layerPaths[i], members))
  }

  /** The member lists that are extracted, oldest layer first. */
  function Flatten(layers: seq<seq<Member>>): (r: seq<seq<Member>>)
    ensures |r| == |layers|
  {
    if layers == [] then []
    else
      var members := Clean(layers[|layers| - 1]);
      PruneAll(Flatten(layers[..|layers| - 1]), members) + [Regular(members)]
  }

  /** A member list laid over what is already there: for each path the last word counts. */
  function Overlay(fs: FileSystem, members: seq<Member>): FileSystem {
    if members == [] then fs
    else
      var last := members[|members| - 1];
      Overlay(fs, members[..|members| - 1])[last.name := last]
  }

  function OverlayAll(lists: seq<seq<Member>>): FileSystem {
    if lists == [] then map[]
    else Overlay(OverlayAll(lists[..|lists| - 1]), lists[|lists| - 1])
  }

  // ---------- what a layer means ----------

  /** `name` is `path` or lies in the tree under it. */
  predicate AtOrBelow(name: string, path: string) {
    name == path || path + "/" <= name
  }

  /** The directory part of a path, with its final slash. */
  function DirPart(name: string): (d: string)
    ensures d <= name
    ensures '/' !in name[|d|..]
    ensures d == "" || d[|d| - 1] == '/'
  {
    if name == "" || name[|name| - 1] == '/' then name else DirPart(name[..|name| - 1])
  }

  function BasePart(name: string): string {
    name[|DirPart(name)|..]
  }

  /** A whiteout entry's last component starts with ".wh."; its target is its sibling without the mark. */
  predicate MarksWhiteout(name: string) {
    ".wh." <= BasePart(name)
  }

  function Target(name: string): string
    requires MarksWhiteout(name)
  {
    DirPart(name) + BasePart(name)[4..]
  }

  /** The marker that hides everything older in its directory. */
  predicate MarksOpaque(name: string) {
    BasePart(name) == ".wh..wh..opq"
  }

  /** A whiteout hides its target's tree; a non-directory hides whatever was at or below its path. */
  predicate HidesPlainly(layer: seq<Member>, name: string) {
    exists m | m in layer ::
      if MarksWhiteout(m.name) then !MarksOpaque(m.name) && AtOrBelow(name, Target(m.name))
      else !m.isDir && AtOrBelow(name, m.name)
  }

  /** An opaque marker hides everything strictly below its directory. */
  predicate HidesOpaquely(layer: seq<Member>, name: string) {
    exists m | m in layer :: MarksOpaque(m.name) && DirPart(m.name) < name
  }

  /** Whether a layer hides what older layers put at `name`. */
  predicate Hides(layer: seq<Member>, name: string) {
    HidesPlainly(layer, name) || HidesOpaquely(layer, name)
  }

  /** One layer applied by itself: hide, then add the layer's own members. */
  function ApplyLayer(fs: FileSystem, layer: seq<Member>): FileSystem {
    Overlay(map n | n in fs && !Hides(layer, n) :: fs[n], Filter(layer, (m: Member) => !MarksWhiteout(m.name)))
  }

  function ApplyAll(layers: seq<seq<Member>>): FileSystem {
    if layers == [] then map[]
    else ApplyLayer(ApplyAll(layers[..|layers| - 1]), Clean(layers[|layers| - 1]))
  }

  // ---------- the layers the theorem is about ----------

  /** Every directory on the way to a member is itself a directory member. */
  predicate ParentsListed(members: seq<Member>) {
    forall m, k | m in members && 0 <= k < |m.name| && m.name[k] == '/' ::
      exists d :: d in members && d.isDir && d.name == m.name[..k]
  }

  /** The whiteout mark only starts last components and is followed by a name. */
  predicate PlainMarks(members: seq<Member>) {
    forall m | m in members :: PlainMark(m.name)
  }

  predicate NoOpaque(members: seq<Member>) {
    forall m | m in members :: !MarksOpaque(m.name)
  }

  /** A member list as it is kept between layers: parents listed, no whiteouts left. */
  ghost predicate Settled(members: seq<Member>) {
    ParentsListed(members) && forall m :: m in members ==> !IsWhiteout(m.name)
  }

  predicate PlainMark(name: string) {
    && !Contains(DirPart(name), "/.wh.") && !(".wh." <= DirPart(name))
    && BasePart(name) != ".wh."
  }

  // ---------- the string facts ----------

  lemma {:induction false} ReplaceNothing(s: string)
    requires '/' !in s
    ensures ReplaceMarks(s) == s
  {
    if s != "" {
      assert s[0] in s;
      assert !("/.wh." <= s);
      ReplaceNothing(s[1..]);
    }
  }

  lemma {:induction false} ReplaceUnmarked(s: string)
    requires !Contains(s, "/.wh.")
    ensures ReplaceMarks(s) == s
  {
    if s != "" {
      assert !OccursAt(s, "/.wh.", 0);
      forall i | 0 <= i <= |s[1..]| - 5 ensures !OccursAt(s[1..], "/.wh.", i) {
        assert s[1..][i..i + 5] == s[i + 1..i + 1 + 5];
        assert !OccursAt(s, "/.wh.", i + 1);
      }
      ReplaceUnmarked(s[1..]);
    }
  }

  /** A name is a whiteout when one of its components begins with the mark, ... */
  lemma MarkMakesWhiteout(before: string, after: string)
    requires before == "" || before[|before| - 1] == '/'
    ensures IsWhiteout(before + ".wh." + after)
  {
    var name, k := before + ".wh." + after, |before|;
    if before == "" {
      assert name == ".wh." + after;
    } else {
      assert name[k - 1..k - 1 + 5] == "/.wh.";
      assert OccursAt(name, "/.wh.", k - 1);
    }
  }

  /** ... and only then. */
  lemma WhiteoutHasMark(name: string) returns (before: string, after: string)
    requires IsWhiteout(name)
    ensures name == before + ".wh." + after && (before == "" || before[|before| - 1] == '/')
  {
    if ".wh." <= name {
      before, after := "", name[4..];
    } else {
      var i :| 0 <= i <= |name| - 5 && OccursAt(name, "/.wh.", i);
      before, after := name[..i + 1], name[i + 5..];
      assert name == name[..i] + name[i..i + 5] + name[i + 5..];
      assert name[..i + 1] == name[..i] + "/";
    }
  }

  /** A mark does not start inside a prefix that, with its slash, has none. */
  lemma NoMarkAtStart(d: string, b: string)
    requires d != "" && !Contains(d + "/", "/.wh.")
    ensures !("/.wh." <= d + "/.wh." + b)
    ensures !Contains(d[1..] + "/", "/.wh.")
  {
    var s := d + "/.wh." + b;
    if |d| < 5 {
      assert s[|d|] == '/' && "/.wh."[|d|] != '/';
    } else {
      assert (d + "/")[0..5] == s[0..5];
      assert !OccursAt(d + "/", "/.wh.", 0);
    }
    forall i | 0 <= i <= |d[1..] + "/"| - 5 ensures !OccursAt(d[1..] + "/", "/.wh.", i) {
      assert (d + "/")[i + 1..i + 1 + 5] == (d[1..] + "/")[i..i + 5];
      assert !OccursAt(d + "/", "/.wh.", i + 1);
    }
  }

  lemma ReplaceHead(b: string)
    ensures ReplaceMarks("/.wh." + b) == "/" + ReplaceMarks(b)
  {
    assert ("/.wh." + b)[5..] == b;
  }

  lemma ReplaceSkips(s: string)
    requires s != "" && !("/.wh." <= s)
    ensures ReplaceMarks(s) == [s[0]] + ReplaceMarks(s[1..])
  {
  }

  /** The first mark becomes a slash, and what is behind it is treated likewise. */
  lemma {:induction false} ReplaceOne(d: string, b: string)
    requires !Contains(d + "/", "/.wh.")
    ensures ReplaceMarks(d + "/.wh." + b) == d + "/" + ReplaceMarks(b)
  {
    hide ReplaceMarks, Contains;
    var s := d + "/.wh." + b;
    if d == "" {
      assert s == "/.wh." + b;
      ReplaceHead(b);
    } else {
      NoMarkAtStart(d, b);
      ReplaceSkips(s);
      assert s[1..] == d[1..] + "/.wh." + b;
      ReplaceOne(d[1..], b);
    }
  }

  /** Where the mark can sit in a path made of a directory part and a last component. */
  lemma MarkPosition(d: string, b: string)
    requires '/' !in b && (d == "" || d[|d| - 1] == '/')
    ensures Contains(d + b, "/.wh.") <==> Contains(d, "/.wh.") || (d != "" && ".wh." <= b)
    ensures ".wh." <= d + b <==> ".wh." <= d || (d == "" && ".wh." <= b)
  {
    var s := d + b;
    if Contains(s, "/.wh.") {
      var i :| 0 <= i <= |s| - 5 && OccursAt(s, "/.wh.", i);
      MarkAt(d, b, i);
    }
    if Contains(d, "/.wh.") {
      ContainsPrefix(d, s, "/.wh.");
    } else if d != "" && ".wh." <= b {
      assert OccursAt(s, "/.wh.", |d| - 1);
    }
    assert ".wh." <= s ==> s[0] == '.' && s[1] == 'w' && s[2] == 'h' && s[3] == '.';
    assert d != "" ==> s[|d| - 1] == '/';
    assert ".wh." <= s && |d| >= 4 ==> d[..4] == s[..4];
  }

  lemma MarkAt(d: string, b: string, i: nat)
    requires '/' !in b && (d == "" || d[|d| - 1] == '/')
    requires OccursAt(d + b, "/.wh.", i)
    ensures Contains(d, "/.wh.") || (d != "" && ".wh." <= b)
  {
    var s := d + b;
    var w := s[i..i + 5];
    assert s[i] == w[0] == '/';
    assert i < |d| by {
      assert s[i] == (d + b)[i] == '/';
    }
    if i + 5 <= |d| {
      assert OccursAt(d, "/.wh.", i);
    } else {
      assert s[|d| - 1] == w[|d| - 1 - i];
      assert i == |d| - 1;
      assert b[..4] == w[1..];
    }
  }

  /** On plain names the code's test means what the format says. */
  lemma WhiteoutAgrees(name: string)
    requires PlainMark(name)
    ensures IsWhiteout(name) <==> MarksWhiteout(name)
  {
    var d, b := DirPart(name), BasePart(name);
    assert name == d + b;
    MarkPosition(d, b);
  }

  lemma ReplaceThenStrip(d: string, t: string)
    requires d == "" || d[|d| - 1] == '/'
    requires !Contains(d, "/.wh.") && !(".wh." <= d) && '/' !in t
    ensures WhiteoutPath(d + ".wh." + t) == d + t
  {
    if d == "" {
      assert d + ".wh." + t == ".wh." + t;
      ReplaceNothing(".wh." + t);
    } else {
      var d' := d[..|d| - 1];
      assert d == d' + "/";
      assert d + ".wh." + t == d' + "/.wh." + t;
      ReplaceOne(d', t);
      ReplaceNothing(t);
      MarkPosition(d, t);
    }
  }

  /** On plain names the code computes the target the format names. */
  lemma TargetAgrees(name: string)
    requires PlainMark(name) && MarksWhiteout(name)
    ensures WhiteoutPath(name) == Target(name)
    ensures Target(name) != "" && Target(name)[|Target(name)| - 1] != '/'
  {
    var d, t := DirPart(name), BasePart(name)[4..];
    assert name == d + ".wh." + t;
    ReplaceThenStrip(d, t);
  }

  // ---------- pruning one older layer ----------

  /** A set of hidden names that contains every path under a hidden directory. */
  ghost predicate DownClosed(hidden: string -> bool) {
    forall n: string, k: nat :: k < |n| && n[k] == '/' && hidden(n[..k]) ==> hidden(n)
  }

  function Visible(members: seq<Member>, hidden: string -> bool): (r: seq<Member>)
    ensures forall m :: m in r <==> m in members && !hidden(m.name)
  {
    Filter(members, (m: Member) => !hidden(m.name))
  }

  lemma VisibleKeepsParents(members: seq<Member>, hidden: string -> bool)
    requires ParentsListed(members) && DownClosed(hidden)
    ensures ParentsListed(Visible(members, hidden))
  {
    var r := Visible(members, hidden);
    forall m, k | m in r && 0 <= k < |m.name| && m.name[k] == '/'
      ensures exists d :: d in r && d.isDir && d.name == m.name[..k]
    {
      var d :| d in members && d.isDir && d.name == m.name[..k];
      assert !hidden(m.name[..k]);
    }
  }

  lemma VisibleTwice(members: seq<Member>, h1: string -> bool, h2: string -> bool, both: string -> bool)
    requires forall n :: both(n) <==> h1(n) || h2(n)
    ensures Visible(Visible(members, h1), h2) == Visible(members, both)
  {
    var p, q := (m: Member) => !h1(m.name), (m: Member) => !h2(m.name);
    var b := (m: Member) => !both(m.name);
    assert forall m :: b(m) <==> p(m) && q(m) by {
      forall m: Member ensures b(m) <==> p(m) && q(m) {
        assert both(m.name) <==> h1(m.name) || h2(m.name);
      }
    }
    FilterTwice(members, p, q, b);
  }

  lemma VisibleSame(members: seq<Member>, h1: string -> bool, h2: string -> bool)
    requires forall m :: m in members ==> h1(m.name) == h2(m.name)
    ensures Visible(members, h1) == Visible(members, h2)
  {
    FilterSame(members, (m: Member) => !h1(m.name), (m: Member) => !h2(m.name));
  }

  lemma VisibleNone(members: seq<Member>, hidden: string -> bool)
    requires forall m :: m in members ==> !hidden(m.name)
    ensures Visible(members, hidden) == members
  {
    FilterAll(members, (m: Member) => !hidden(m.name));
  }

  function Under(path: string): string -> bool {
    n => AtOrBelow(n, path)
  }

  lemma UnderIsDownClosed(path: string)
    ensures DownClosed(Under(path))
  {
    forall n: string, k: nat | k < |n| && n[k] == '/' && AtOrBelow(n[..k], path)
      ensures AtOrBelow(n, path)
    {
      if n[..k] == path {
        assert n[..k + 1] == path + "/";
      } else {
        assert n[..|path| + 1] == n[..k][..|path| + 1];
      }
    }
  }

  lemma FilterLayerIsVisible(members: seq<Member>, path: string)
    requires path != "" && path[|path| - 1] != '/'
    ensures FilterLayer(members, path) == Visible(members, Under(path))
  {
    var p := (m: Member) => m.name != path && !(path + "/" <= m.name);
    var q := (m: Member) => !Under(path)(m.name);
    forall m | m in members ensures p(m) <==> q(m) {
      assert Under(path)(m.name) == AtOrBelow(m.name, path);
    }
    FilterSame(members, p, q);
    assert "/" == (if |path| > 0 && path[|path| - 1] == '/' then "" else "/");
  }

  /** The code skips a whiteout whose target an older layer does not list. That equals removing the
      target's tree exactly when the target is listed or nothing lies under it. */
  lemma WhiteoutStepExact(members: seq<Member>, path: string)
    requires path != "" && path[|path| - 1] != '/'
    ensures (if Lists(members, path) then FilterLayer(members, path) else members) == Visible(members, Under(path))
            <==> Lists(members, path) || forall m :: m in members ==> !AtOrBelow(m.name, path)
  {
    FilterLayerIsVisible(members, path);
    if forall m :: m in members ==> !AtOrBelow(m.name, path) {
      VisibleNone(members, Under(path));
    }
  }

  /** With parent directories listed, whatever has something at or under it is listed itself. */
  lemma TreeIsListed(members: seq<Member>, m: Member, path: string)
    requires ParentsListed(members) && m in members && AtOrBelow(m.name, path)
    ensures Lists(members, path)
  {
    var d :| d in members && d.name == path by {
      if m.name != path {
        assert m.name[|path|] == '/' && m.name[..|path|] == path;
      }
    }
    var i :| 0 <= i < |members| && members[i] == d;
  }

  /** The names hidden by the first whiteouts of a layer. */
  function HiddenByWhiteouts(whiteouts: seq<Member>): string -> bool {
    n => exists m | m in whiteouts :: MarksWhiteout(m.name) && AtOrBelow(n, Target(m.name))
  }

  lemma {:induction false} PruneWhiteoutsMeaning(older: seq<Member>, whiteouts: seq<Member>)
    requires ParentsListed(older)
    requires forall m :: m in whiteouts ==> PlainMark(m.name) && MarksWhiteout(m.name)
    ensures PruneWhiteouts(older, whiteouts) == Visible(older, HiddenByWhiteouts(whiteouts))
    ensures ParentsListed(PruneWhiteouts(older, whiteouts))
  {
    hide ParentsListed, PlainMark, MarksWhiteout, Target, AtOrBelow, Lists, FilterLayer, WhiteoutPath, Visible;
    hide DownClosed, Under, HiddenByWhiteouts;
    if whiteouts == [] {
      NoWhiteouts();
      VisibleNone(older, HiddenByWhiteouts(whiteouts));
    } else {
      var rest, w := whiteouts[..|whiteouts| - 1], whiteouts[|whiteouts| - 1];
      var done, path := PruneWhiteouts(older, rest), Target(w.name);
      PruneWhiteoutsMeaning(older, rest);
      TargetAgrees(w.name);
      NothingUnder(done, path);
      WhiteoutStepExact(done, path);
      UnderIsDownClosed(path);
      VisibleKeepsParents(done, Under(path));
      assert whiteouts == rest + [w];
      OneMoreWhiteout(rest, w);
      VisibleTwice(older, HiddenByWhiteouts(rest), Under(path), HiddenByWhiteouts(whiteouts));
    }
  }

  lemma NoWhiteouts()
    ensures forall n :: !HiddenByWhiteouts([])(n)
  {
  }

  lemma OneMoreWhiteout(rest: seq<Member>, w: Member)
    requires MarksWhiteout(w.name)
    ensures forall n ::
              HiddenByWhiteouts(rest + [w])(n) <==> HiddenByWhiteouts(rest)(n) || Under(Target(w.name))(n)
  {
    hide MarksWhiteout, Target, AtOrBelow;
  }

  /** A path that is not listed has nothing under it. */
  lemma NothingUnder(members: seq<Member>, path: string)
    requires ParentsListed(members)
    ensures Lists(members, path) || forall m :: m in members ==> !AtOrBelow(m.name, path)
  {
    hide ParentsListed, AtOrBelow, Lists;
    if !Lists(members, path) {
      forall m | m in members ensures !AtOrBelow(m.name, path) {
        if AtOrBelow(m.name, path) { TreeIsListed(members, m, path); }
      }
    }
  }

  function HiddenByTrees(dirs: seq<Member>): string -> bool {
    n => exists m | m in dirs :: AtOrBelow(n, m.name)
  }

  lemma {:induction false} DropTreesMeaning(older: seq<Member>, dirs: seq<Member>)
    ensures DropTrees(older, dirs) == Visible(older, HiddenByTrees(dirs))
  {
    if dirs == [] {
      VisibleNone(older, HiddenByTrees(dirs));
    } else {
      var rest, f := dirs[..|dirs| - 1], dirs[|dirs| - 1];
      var done := DropTrees(older, rest);
      DropTreesMeaning(older, rest);
      var p, q := (m: Member) => m.name != f.name && !(f.name + "/" <= m.name), (m: Member) => !Under(f.name)(m.name);
      forall m | m in done ensures p(m) <==> q(m) {
        assert Under(f.name)(m.name) == AtOrBelow(m.name, f.name);
      }
      FilterSame(done, p, q);
      var h1, both := HiddenByTrees(rest), HiddenByTrees(dirs);
      forall n ensures both(n) <==> h1(n) || Under(f.name)(n) {
        assert dirs == rest + [f];
      }
      VisibleTwice(older, h1, Under(f.name), both);
    }
  }

  function HiddenByNames(names: set<string>): string -> bool {
    n => exists p | p in names :: AtOrBelow(n, p)
  }

  lemma NamesAreDownClosed(names: set<string>)
    ensures DownClosed(HiddenByNames(names))
  {
    forall n: string, k: nat | k < |n| && n[k] == '/' && HiddenByNames(names)(n[..k])
      ensures HiddenByNames(names)(n)
    {
      var p :| p in names && AtOrBelow(n[..k], p);
      UnderIsDownClosed(p);
      assert Under(p)(n[..k]) && Under(p)(n);
    }
  }

  /** Removing the trees of replaced directories and then the replaced names removes every tree. */
  lemma PruneNotDirsMeaning(older: seq<Member>, names: set<string>)
    requires ParentsListed(older)
    ensures PruneNotDirs(older, names) == Visible(older, HiddenByNames(names))
    ensures ParentsListed(PruneNotDirs(older, names))
  {
    var dirs := Filter(older, (m: Member) => m.isDir && m.name in names);
    var trees, all := HiddenByTrees(dirs), HiddenByNames(names);
    DropTreesMeaning(older, dirs);
    var mine: string -> bool := n => n in names;
    var both: string -> bool := n => trees(n) || mine(n);
    VisibleTwice(older, trees, mine, both);
    forall m | m in older ensures both(m.name) == all(m.name) {
      if mine(m.name) {
        assert AtOrBelow(m.name, m.name);
      } else if all(m.name) {
        var p :| p in names && AtOrBelow(m.name, p);
        assert m.name[|p|] == '/' && m.name[..|p|] == p;
        var d :| d in older && d.isDir && d.name == p;
        assert d in dirs;
      }
    }
    VisibleSame(older, both, all);
    NamesAreDownClosed(names);
    VisibleKeepsParents(older, all);
    var rest := Visible(older, trees);
    FilterSame(rest, (m: Member) => m.name !in names, (m: Member) => !mine(m.name));
  }

  // ---------- a whole layer ----------

  ghost predicate WellFormed(layer: seq<Member>) {
    ParentsListed(layer) && PlainMarks(layer)
  }

  ghost predicate AllWellFormed(layers: seq<seq<Member>>) {
    forall i :: 0 <= i < |layers| ==> WellFormed(Clean(layers[i])) && NoOpaque(Clean(layers[i]))
  }

  function StartingWith(prefix: string): string -> bool {
    n => prefix <= n
  }

  lemma FilterSlashIsVisible(members: seq<Member>, prefix: string)
    requires prefix != "" && prefix[|prefix| - 1] == '/'
    ensures FilterLayer(members, prefix) == Visible(members, StartingWith(prefix))
  {
    var p := (m: Member) => m.name != prefix && !(prefix + "" <= m.name);
    var q := (m: Member) => !StartingWith(prefix)(m.name);
    forall m | m in members ensures p(m) <==> q(m) {
      assert prefix + "" == prefix;
      assert StartingWith(prefix)(m.name) == (prefix <= m.name);
    }
    FilterSame(members, p, q);
    assert "" == (if |prefix| > 0 && prefix[|prefix| - 1] == '/' then "" else "/");
  }

  /** Under "dev/", absolute, or with two dots in a row anywhere in its path. */
  predicate Illegal(name: string) {
    "dev/" <= name || "/" <= name || Contains(name, "..")
  }

  /** A layer loses exactly its illegal members, and its names their leading "./". */
  lemma CleanDropsIllegal(raw: seq<Member>)
    ensures forall m :: m in Clean(raw) <==> m in Strip(raw) && !Illegal(m.name)
    ensures Clean(raw) == Strip(raw) <==> forall m :: m in Strip(raw) ==> !Illegal(m.name)
  {
    var s := Strip(raw);
    var dev := FilterLayer(s, "dev/");
    FilterSlashIsVisible(s, "dev/");
    FilterSlashIsVisible(dev, "/");
    if forall m :: m in s ==> !Illegal(m.name) {
      VisibleNone(s, StartingWith("dev/"));
      VisibleNone(s, StartingWith("/"));
      FilterAll(s, (m: Member) => !Contains(m.name, ".."));
    }
  }

  /** The members of a layer are looked at one by one, in order. */
  lemma CleanConcat(a: seq<Member>, b: seq<Member>)
    ensures Clean(a + b) == Clean(a) + Clean(b)
  {
    var dev, root, up := StartingWith("dev/"), StartingWith("/"), (m: Member) => !Contains(m.name, "..");
    var s, t := Strip(a), Strip(b);
    assert Strip(a + b) == s + t;
    FilterSlashIsVisible(s + t, "dev/");
    FilterSlashIsVisible(s, "dev/");
    FilterSlashIsVisible(t, "dev/");
    FilterConcat(s, t, (m: Member) => !dev(m.name));
    var s1, t1 := FilterLayer(s, "dev/"), FilterLayer(t, "dev/");
    FilterSlashIsVisible(s1 + t1, "/");
    FilterSlashIsVisible(s1, "/");
    FilterSlashIsVisible(t1, "/");
    FilterConcat(s1, t1, (m: Member) => !root(m.name));
    FilterConcat(FilterLayer(s1, "/"), FilterLayer(t1, "/"), up);
  }

  /** One leading "./" of a name is dropped; then the member is, when it is under "dev/", absolute, or has two dots in
      a row in its path. */
  lemma CleanOne(n: string, isDir: bool, datum: int)
    ensures var kept := if "dev/" <= n || "/" <= n || Contains(n, "..") then [] else [Member(n, isDir, datum)];
            && Clean([Member("./" + n, isDir, datum)]) == kept
            && (!("./" <= n) ==> Clean([Member(n, isDir, datum)]) == kept)
  {
    OnlyMember(Member("./" + n, isDir, datum));
    OnlyMember(Member(n, isDir, datum));
  }

  lemma OnlyMember(m: Member)
    ensures Clean([m]) == if Illegal(StripDot(m).name) then [] else [StripDot(m)]
  {
    hide Contains, StripDot;
    var k := StripDot(m);
    var dev, root := (m: Member) => !StartingWith("dev/")(m.name), (m: Member) => !StartingWith("/")(m.name);
    assert Strip([m]) == [k];
    FilterSlashIsVisible([k], "dev/");
    FilterOne(k, dev);
    FilterSlashIsVisible([], "/");
    FilterSlashIsVisible([k], "/");
    FilterOne(k, root);
    FilterOne(k, (m: Member) => !Contains(m.name, ".."));
  }

  /** A member is kept exactly when its name is legal and the layer has it under this name, or behind "./". */
  lemma {:induction false} CleanMembers(raw: seq<Member>, m: Member)
    ensures m in Clean(raw) <==>
            && !("dev/" <= m.name) && !("/" <= m.name) && !Contains(m.name, "..")
            && ((m in raw && !("./" <= m.name)) || m.(name := "./" + m.name) in raw)
  {
    hide Clean, Contains;
    if raw == [] {
      CleanConcat(raw, raw);
      assert raw + raw == raw;
    } else {
      var init, last := raw[..|raw| - 1], raw[|raw| - 1];
      CleanMembers(init, m);
      CleanConcat(init, [last]);
      assert raw == init + [last];
      var n := if "./" <= last.name then last.name[2..] else last.name;
      assert "./" <= last.name ==> last.name == "./" + n;
      CleanOne(n, last.isDir, last.datum);
      assert last == Member(if "./" <= last.name then "./" + n else n, last.isDir, last.datum);
    }
  }

  /** Every directory on the way to this member is listed. */
  ghost predicate HasParents(members: seq<Member>, m: Member) {
    forall k | 0 <= k < |m.name| && m.name[k] == '/' :: exists d :: d in members && d.isDir && d.name == m.name[..k]
  }

  /** Without its illegal members a layer is well-formed exactly when each of the others has plain marks and all its
      parent directories. */
  lemma CleanIsWellFormed(raw: seq<Member>)
    ensures WellFormed(Clean(raw)) <==>
            forall m :: m in Strip(raw) && !Illegal(m.name) ==> PlainMark(m.name) && HasParents(Strip(raw), m)
  {
    hide Clean, Strip, PlainMark, Illegal;
    CleanDropsIllegal(raw);
    forall m | m in Clean(raw) ensures HasParents(Clean(raw), m) <==> HasParents(Strip(raw), m) {
      LegalParents(raw, m);
    }
    assert ParentsListed(Clean(raw)) <==> forall m :: m in Clean(raw) ==> HasParents(Clean(raw), m);
  }

  /** A directory on the way to a legal path is legal. */
  lemma LegalParents(raw: seq<Member>, m: Member)
    requires m in Clean(raw)
    ensures HasParents(Clean(raw), m) <==> HasParents(Strip(raw), m)
  {
    hide Clean, Strip;
    CleanDropsIllegal(raw);
    forall k, d: Member | 0 <= k < |m.name| && m.name[k] == '/' && d.name == m.name[..k] ensures !Illegal(d.name) {
      if Contains(d.name, "..") { ContainsPrefix(d.name, m.name, ".."); }
      assert d.name <= m.name;
    }
  }

  function HiddenBy(layer: seq<Member>): string -> bool {
    n => Hides(layer, n)
  }

  function PlainlyHiddenBy(layer: seq<Member>): string -> bool {
    n => HidesPlainly(layer, n)
  }

  lemma RegularIsUnmarked(layer: seq<Member>)
    requires PlainMarks(layer)
    ensures Regular(layer) == Filter(layer, (m: Member) => !MarksWhiteout(m.name))
    ensures forall m :: m in Whiteouts(layer) <==> m in layer && MarksWhiteout(m.name)
  {
    forall m | m in layer ensures IsWhiteout(m.name) <==> MarksWhiteout(m.name) {
      WhiteoutAgrees(m.name);
    }
    FilterSame(layer, (m: Member) => !IsWhiteout(m.name), (m: Member) => !MarksWhiteout(m.name));
  }

  lemma RegularIsSettled(layer: seq<Member>)
    requires ParentsListed(layer)
    ensures Settled(Regular(layer))
  {
    var hidden: string -> bool := n => IsWhiteout(n);
    forall n: string, k: nat | k < |n| && n[k] == '/' && hidden(n[..k]) ensures hidden(n) {
      if Contains(n[..k], "/.wh.") { ContainsPrefix(n[..k], n, "/.wh."); }
    }
    VisibleKeepsParents(layer, hidden);
    FilterSame(layer, (m: Member) => !IsWhiteout(m.name), (m: Member) => !hidden(m.name));
  }

  /** Pruning an older layer removes exactly what the newer layer's whiteouts and non-directories hide. */
  lemma PruneMeaning(older: seq<Member>, layer: seq<Member>)
    requires Settled(older) && PlainMarks(layer)
    ensures Prune(older, layer) == Visible(older, PlainlyHiddenBy(layer))
    ensures Settled(Prune(older, layer))
  {
    var whiteouts, names := Whiteouts(layer), NotDirs(Regular(layer));
    RegularIsUnmarked(layer);
    PruneWhiteoutsMeaning(older, whiteouts);
    PruneNotDirsMeaning(PruneWhiteouts(older, whiteouts), names);
    var h1, h2 := HiddenByWhiteouts(whiteouts), HiddenByNames(names);
    var both: string -> bool := n => h1(n) || h2(n);
    VisibleTwice(older, h1, h2, both);
    forall m | m in older ensures both(m.name) == PlainlyHiddenBy(layer)(m.name) {
      HidesEitherWay(layer, m.name);
    }
    VisibleSame(older, both, PlainlyHiddenBy(layer));
  }

  /** The code takes an opaque marker for the whiteout of a file that no older layer has. */
  lemma OpaqueTargetIsMarked(m: string, n: string)
    requires MarksOpaque(m) && AtOrBelow(n, Target(m))
    ensures IsWhiteout(n)
  {
    var d := DirPart(m);
    assert Target(m) == d + ".wh..opq" && Target(m) <= n;
    if d != "" {
      assert n[|d| - 1..|d| + 4] == "/.wh.";
      assert OccursAt(n, "/.wh.", |d| - 1);
    }
  }

  lemma HidesEitherWay(layer: seq<Member>, n: string)
    requires PlainMarks(layer) && !IsWhiteout(n)
    ensures HidesPlainly(layer, n) <==>
              HiddenByWhiteouts(Whiteouts(layer))(n) || HiddenByNames(NotDirs(Regular(layer)))(n)
  {
    RegularIsUnmarked(layer);
    if HiddenByWhiteouts(Whiteouts(layer))(n) {
      var m :| m in Whiteouts(layer) && MarksWhiteout(m.name) && AtOrBelow(n, Target(m.name));
      if MarksOpaque(m.name) { OpaqueTargetIsMarked(m.name, n); }
      assert m in layer && !MarksOpaque(m.name);
    }
    if HiddenByNames(NotDirs(Regular(layer)))(n) {
      var p :| p in NotDirs(Regular(layer)) && AtOrBelow(n, p);
      var m :| m in Regular(layer) && !m.isDir && m.name == p;
      assert m in layer && !MarksWhiteout(m.name);
    }
    if HidesPlainly(layer, n) {
      var m :| m in layer && (if MarksWhiteout(m.name) then !MarksOpaque(m.name) && AtOrBelow(n, Target(m.name))
                              else !m.isDir && AtOrBelow(n, m.name));
      if !MarksWhiteout(m.name) {
        assert m in Regular(layer) && m.name in NotDirs(Regular(layer));
      }
    }
  }

  // ---------- member lists as file systems ----------

  function Restrict(fs: FileSystem, hidden: string -> bool): FileSystem {
    map n | n in fs && !hidden(n) :: fs[n]
  }

  lemma OverlayLast(fs: FileSystem, members: seq<Member>, last: Member)
    ensures Overlay(fs, members + [last]) == Overlay(fs, members)[last.name := last]
  {
    assert (members + [last])[..|members|] == members;
  }

  lemma VisibleLast(members: seq<Member>, hidden: string -> bool)
    requires members != []
    ensures var last := members[|members| - 1];
            Visible(members, hidden) == Visible(members[..|members| - 1], hidden)
              + (if hidden(last.name) then [] else [last])
  {
  }

  lemma {:induction false} OverlayVisible(fs: FileSystem, members: seq<Member>, hidden: string -> bool)
    ensures Overlay(Restrict(fs, hidden), Visible(members, hidden)) == Restrict(Overlay(fs, members), hidden)
  {
    if members == [] {
      assert Visible(members, hidden) == [];
    } else {
      var rest, last := members[..|members| - 1], members[|members| - 1];
      OverlayVisible(fs, rest, hidden);
      VisibleLast(members, hidden);
      OverlayLast(Restrict(fs, hidden), Visible(rest, hidden), last);
      RestrictUpdate(Overlay(fs, rest), last, hidden);
    }
  }

  lemma RestrictUpdate(fs: FileSystem, m: Member, hidden: string -> bool)
    ensures Restrict(fs[m.name := m], hidden)
         == if hidden(m.name) then Restrict(fs, hidden) else Restrict(fs, hidden)[m.name := m]
  {
  }

  lemma {:induction false} OverlayAllVisible(lists: seq<seq<Member>>, pruned: seq<seq<Member>>, hidden: string -> bool)
    requires |pruned| == |lists|
    requires forall i :: 0 <= i < |lists| ==> pruned[i] == Visible(lists[i], hidden)
    ensures OverlayAll(pruned) == Restrict(OverlayAll(lists), hidden)
  {
    if lists != [] {
      var n := |lists| - 1;
      OverlayAllVisible(lists[..n], pruned[..n], hidden);
      OverlayVisible(OverlayAll(lists[..n]), lists[n], hidden);
    }
  }

  lemma {:induction false} FlattenIsSettled(layers: seq<seq<Member>>)
    requires AllWellFormed(layers)
    ensures AllSettled(Flatten(layers))
  {
    if layers != [] {
      var n := |layers| - 1;
      FlattenIsSettled(layers[..n]);
      SettledStep(Flatten(layers[..n]), Clean(layers[n]));
    }
  }

  ghost predicate AllSettled(lists: seq<seq<Member>>) {
    forall i :: 0 <= i < |lists| ==> Settled(lists[i])
  }

  lemma SettledStep(older: seq<seq<Member>>, layer: seq<Member>)
    requires AllSettled(older) && WellFormed(layer)
    ensures AllSettled(PruneAll(older, layer) + [Regular(layer)])
  {
    RegularIsSettled(layer);
    forall i | 0 <= i < |older| ensures Settled(Prune(older[i], layer)) {
      PruneMeaning(older[i], layer);
    }
  }

  lemma PruneAllMeaning(older: seq<seq<Member>>, layer: seq<Member>)
    requires AllSettled(older) && PlainMarks(layer)
    ensures OverlayAll(PruneAll(older, layer)) == Restrict(OverlayAll(older), PlainlyHiddenBy(layer))
  {
    var pruned := PruneAll(older, layer);
    forall i | 0 <= i < |older| ensures pruned[i] == Visible(older[i], PlainlyHiddenBy(layer)) {
      PruneMeaning(older[i], layer);
    }
    OverlayAllVisible(older, pruned, PlainlyHiddenBy(layer));
  }

  lemma OverlayAllLast(lists: seq<seq<Member>>, last: seq<Member>)
    ensures OverlayAll(lists + [last]) == Overlay(OverlayAll(lists), last)
  {
    assert (lists + [last])[..|lists|] == lists;
  }

  lemma FlattenStepRestricts(older: seq<seq<Member>>, layer: seq<Member>)
    requires AllSettled(older) && WellFormed(layer)
    ensures OverlayAll(PruneAll(older, layer) + [Regular(layer)])
         == Overlay(Restrict(OverlayAll(older), PlainlyHiddenBy(layer)), Regular(layer))
  {
    PruneAllMeaning(older, layer);
    OverlayAllLast(PruneAll(older, layer), Regular(layer));
  }

  lemma ApplyLayerRestricts(fs: FileSystem, layer: seq<Member>)
    requires PlainMarks(layer)
    ensures ApplyLayer(fs, layer) == Overlay(Restrict(fs, HiddenBy(layer)), Regular(layer))
  {
    RegularIsUnmarked(layer);
    assert Restrict(fs, HiddenBy(layer)) == map n | n in fs && !Hides(layer, n) :: fs[n];
  }

  lemma {:induction false} OverlayKeys(fs: FileSystem, members: seq<Member>)
    ensures forall n :: n in Overlay(fs, members) <==> n in fs || Lists(members, n)
  {
    if members != [] {
      var rest := members[..|members| - 1];
      OverlayKeys(fs, rest);
      forall n ensures Lists(members, n) <==> Lists(rest, n) || n == members[|members| - 1].name {
        if Lists(rest, n) {
          var i :| 0 <= i < |rest| && rest[i].name == n;
          assert members[i].name == n;
        }
        if Lists(members, n) {
          var i :| 0 <= i < |members| && members[i].name == n;
          assert i < |rest| ==> rest[i].name == n;
        }
      }
    }
  }

  lemma {:induction false} OverlayValues(a: FileSystem, b: FileSystem, members: seq<Member>, n: string)
    requires Lists(members, n) || (n in a && n in b && a[n] == b[n])
    ensures n in Overlay(a, members) && n in Overlay(b, members) && Overlay(a, members)[n] == Overlay(b, members)[n]
  {
    if members != [] && n != members[|members| - 1].name {
      var rest := members[..|members| - 1];
      if Lists(members, n) {
        var i :| 0 <= i < |members| && members[i].name == n;
        assert rest[i].name == n;
      }
      OverlayValues(a, b, rest, n);
    }
  }

  /** Overlaying the same members on two restrictions of one file system gives the same result exactly
      when every path on which the restrictions differ is one of the members. */
  lemma OverlaysAgree(fs: FileSystem, members: seq<Member>, h1: string -> bool, h2: string -> bool)
    ensures Overlay(Restrict(fs, h1), members) == Overlay(Restrict(fs, h2), members)
       <==> forall n :: n in fs && h1(n) != h2(n) ==> Lists(members, n)
  {
    var a, b := Restrict(fs, h1), Restrict(fs, h2);
    OverlayKeys(a, members);
    OverlayKeys(b, members);
    if forall n :: n in fs && h1(n) != h2(n) ==> Lists(members, n) {
      forall n | n in Overlay(a, members)
        ensures n in Overlay(b, members) && Overlay(a, members)[n] == Overlay(b, members)[n]
      {
        OverlayValues(a, b, members, n);
      }
      assert Overlay(a, members).Keys == Overlay(b, members).Keys;
    } else {
      var n :| n in fs && h1(n) != h2(n) && !Lists(members, n);
      assert n in Overlay(a, members) <==> !h1(n);
      assert n in Overlay(b, members) <==> !h2(n);
    }
  }

  /** A flattening step means applying the new layer exactly when every older path that only an opaque
      marker of the layer hides is listed again by the layer. */
  lemma OverlayStepExact(older: seq<seq<Member>>, layer: seq<Member>)
    requires AllSettled(older) && WellFormed(layer)
    ensures OverlayAll(PruneAll(older, layer) + [Regular(layer)]) == ApplyLayer(OverlayAll(older), layer)
       <==> forall n :: n in OverlayAll(older) && HidesOpaquely(layer, n) && !HidesPlainly(layer, n)
              ==> Lists(Regular(layer), n)
  {
    FlattenStepRestricts(older, layer);
    ApplyLayerRestricts(OverlayAll(older), layer);
    OverlaysAgree(OverlayAll(older), Regular(layer), PlainlyHiddenBy(layer), HiddenBy(layer));
  }

  /** The flattened lists, laid over each other oldest first, are what applying the layers one by one gives. */
  lemma {:induction false} FlattenIsApplied(layers: seq<seq<Member>>)
    requires AllWellFormed(layers)
    ensures OverlayAll(Flatten(layers)) == ApplyAll(layers)
  {
    if layers != [] {
      var n := |layers| - 1;
      FlattenIsApplied(layers[..n]);
      FlattenIsSettled(layers[..n]);
      OverlayStepExact(Flatten(layers[..n]), Clean(layers[n]));
    }
  }

  /** A non-directory member of a newly flattened layer is clear of everything kept from older ones. */
  lemma PrunedIsClear(older: seq<Member>, layer: seq<Member>, earlier: Member, later: Member)
    requires Settled(older) && PlainMarks(layer)
    requires earlier in Prune(older, layer) && later in Regular(layer) && !later.isDir
    ensures !AtOrBelow(earlier.name, later.name)
  {
    PruneMeaning(older, layer);
    RegularIsUnmarked(layer);
    assert !HidesPlainly(layer, earlier.name);
  }

  lemma PruneShrinks(older: seq<Member>, layer: seq<Member>, m: Member)
    requires Settled(older) && PlainMarks(layer)
    requires m in Prune(older, layer)
    ensures m in older
  {
    PruneMeaning(older, layer);
  }

  /** No non-directory of a later list is at, or above, anything in an earlier one. */
  ghost predicate NoOverwrite(lists: seq<seq<Member>>) {
    forall i, j, earlier: Member, later: Member :: 0 <= i < j < |lists|
      && earlier in lists[i] && later in lists[j] && !later.isDir
      ==> !AtOrBelow(earlier.name, later.name)
  }

  lemma NoOverwriteStep(older: seq<seq<Member>>, layer: seq<Member>)
    requires NoOverwrite(older) && AllSettled(older) && PlainMarks(layer)
    ensures NoOverwrite(PruneAll(older, layer) + [Regular(layer)])
  {
    var lists := PruneAll(older, layer) + [Regular(layer)];
    forall i, j, earlier: Member, later: Member | 0 <= i < j < |lists|
      && earlier in lists[i] && later in lists[j] && !later.isDir
      ensures !AtOrBelow(earlier.name, later.name)
    {
      if j == |older| {
        PrunedIsClear(older[i], layer, earlier, later);
      } else {
        PruneShrinks(older[i], layer, earlier);
        PruneShrinks(older[j], layer, later);
      }
    }
  }

  /** Flattening leaves no non-directory on, or above, anything in the list of an older layer. */
  lemma {:induction false} FlattenNeverOverwrites(layers: seq<seq<Member>>)
    requires AllWellFormed(layers)
    ensures NoOverwrite(Flatten(layers))
  {
    if layers != [] {
      hide Clean, Strip, WellFormed, NoOpaque, NoOverwrite, AllSettled, PruneAll, Regular;
      var n := |layers| - 1;
      FlattenNeverOverwrites(layers[..n]);
      FlattenIsSettled(layers[..n]);
      NoOverwriteStep(Flatten(layers[..n]), Clean(layers[n]));
    }
  }

  // ---------- what goes wrong outside those conditions ----------

  lemma {:induction false} DirPartOf(d: string, b: string)
    requires d != "" && d[|d| - 1] == '/' && '/' !in b
    ensures DirPart(d + b) == d && BasePart(d + b) == b
  {
    if b != "" {
      var s := d + b;
      assert s[..|s| - 1] == d + b[..|b| - 1];
      assert s[|s| - 1] in b;
      DirPartOf(d, b[..|b| - 1]);
    }
  }

  lemma SmallLayerIsWellFormed(dir: Member, inside: Member, base: string)
    requires dir.name == "a" && dir.isDir && inside.name == "a/" + base
    requires '/' !in base && base != ".wh."
    ensures WellFormed([dir, inside])
    ensures DirPart(inside.name) == "a/" && BasePart(inside.name) == base
    ensures DirPart(dir.name) == "" && BasePart(dir.name) == "a"
  {
    var layer := [dir, inside];
    DirPartOf("a/", base);
    assert dir in layer && dir.name == inside.name[..1];
    forall k | 2 <= k < |inside.name| ensures inside.name[k] != '/' {
      assert inside.name[k] == base[k - 2];
    }
  }

  /** An opaque marker does not hide what an older layer put in its directory. */
  lemma OpaqueMarkerIsIgnored()
    ensures var older := [Member("a", true, 0), Member("a/" + "x", false, 1)];
            var layer := [Member("a", true, 2), Member("a/" + ".wh..wh..opq", false, 3)];
            && Settled(older) && WellFormed(layer)
            && OverlayAll(PruneAll([older], layer) + [Regular(layer)]) != ApplyLayer(OverlayAll([older]), layer)
  {
    var a, x := Member("a", true, 0), Member("a/" + "x", false, 1);
    var b, mark := Member("a", true, 2), Member("a/" + ".wh..wh..opq", false, 3);
    SmallLayerIsWellFormed(a, x, "x");
    SmallLayerIsWellFormed(b, mark, ".wh..wh..opq");
    UnmarkedIsSettled([a, x]);
    assert Lists([a, x], x.name) by { assert [a, x][1].name == x.name; }
    OpaqueOnlyHides(b, mark, x.name);
    OpaqueLeaks([a, x], [b, mark], x.name);
  }

  lemma OpaqueOnlyHides(dir: Member, mark: Member, n: string)
    requires dir.isDir && !MarksWhiteout(dir.name) && dir.name != n
    requires MarksOpaque(mark.name) && DirPart(mark.name) < n && PlainMarks([dir, mark])
    ensures HidesOpaquely([dir, mark], n) && !HidesPlainly([dir, mark], n) && !Lists(Regular([dir, mark]), n)
  {
    var layer := [dir, mark];
    assert mark in layer && MarksWhiteout(mark.name);
    RegularIsUnmarked(layer);
    forall i | 0 <= i < |Regular(layer)| ensures Regular(layer)[i] == dir {
      assert Regular(layer)[i] in Regular(layer);
    }
  }

  lemma UnmarkedIsSettled(layer: seq<Member>)
    requires WellFormed(layer) && forall m :: m in layer ==> !MarksWhiteout(m.name)
    ensures Settled(layer)
  {
    forall m | m in layer ensures !IsWhiteout(m.name) {
      WhiteoutAgrees(m.name);
    }
  }

  /** Any older path that only an opaque marker hides, and that the layer does not list again, leaks. */
  lemma OpaqueLeaks(older: seq<Member>, layer: seq<Member>, n: string)
    requires Settled(older) && WellFormed(layer) && Lists(older, n)
    requires HidesOpaquely(layer, n) && !HidesPlainly(layer, n) && !Lists(Regular(layer), n)
    ensures OverlayAll(PruneAll([older], layer) + [Regular(layer)]) != ApplyLayer(OverlayAll([older]), layer)
  {
    OverlayAllLast([], older);
    OverlayKeys(map[], older);
    OverlayStepExact([older], layer);
  }

  /** The whiteout of a directory that an older layer fills but does not list is missed. */
  lemma UnlistedTargetIsMissed(m: Member, path: string)
    requires path != "" && path[|path| - 1] != '/' && path + "/" <= m.name
    ensures !Lists([m], path) && FilterLayer([m], path) != [m]
  {
    var older := [m];
    WhiteoutStepExact(older, path);
    FilterLayerIsVisible(older, path);
    assert older[0] in older && AtOrBelow(m.name, path);
    assert m !in Visible(older, Under(path));
  }
}
