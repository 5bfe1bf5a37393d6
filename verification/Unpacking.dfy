/** Extracting member lists over each other, as `tarfile` does it, and what that makes of flattened layers
    (dockerv2.py). */
module Unpacking {
  import opened Text
  import opened Wrappers
  import opened Layers

  // ---------- extraction ----------

  /** Some directory on the way to `name` is there as something else. */
  predicate BelowFile(fs: FileSystem, name: string) {
    exists k | 0 <= k < |name| :: name[k] == '/' && IsFile(fs, name[..k])
  }

  predicate IsFile(fs: FileSystem, name: string) {
    name in fs && !fs[name].isDir
  }

  /**
   * One member: an existing file stays where a directory should be made, and nothing can be put below it;
   * a file cannot be put where a directory is.
   */
  function PutMember(fs: FileSystem, m: Member): Option<FileSystem> {
    if BelowFile(fs, m.name) then None
    else if m.isDir && IsFile(fs, m.name) then Some(fs)
    else if !m.isDir && m.name in fs && fs[m.name].isDir then None
    else Some(fs[m.name := m])
  }

  /** A member list; None when `extractall` raises an error. */
  function Extract(fs: FileSystem, members: seq<Member>): Option<FileSystem> {
    if members == [] then Some(fs)
    else
      var before := Extract(fs, members[..|members| - 1]);
      if before.None? then None else PutMember(before.value, members[|members| - 1])
  }

  function ExtractAll(lists: seq<seq<Member>>): Option<FileSystem> {
    if lists == [] then Some(map[])
    else
      var before := ExtractAll(lists[..|lists| - 1]);
      if before.None? then None else Extract(before.value, lists[|lists| - 1])
  }

  // ---------- the lists it is used on ----------

  ghost predicate UniqueNames(members: seq<Member>) {
    forall i, j :: 0 <= i < j < |members| ==> members[i].name != members[j].name
  }

  ghost predicate AllUnique(lists: seq<seq<Member>>) {
    forall i :: 0 <= i < |lists| ==> UniqueNames(lists[i])
  }

  /** Lists that extraction can take: parents listed, names unique, and no file on or above anything older. */
  ghost predicate Tidy(lists: seq<seq<Member>>) {
    AllSettled(lists) && AllUnique(lists) && NoOverwrite(lists)
  }

  /** No list has a directory at the path of a file in an older list. */
  ghost predicate NoDirOverFile(lists: seq<seq<Member>>) {
    forall i, j, file, dir :: 0 <= i < j < |lists| && file in lists[i] && dir in lists[j] ==> !Blocks(file, dir)
  }

  predicate Blocks(file: Member, dir: Member) {
    !file.isDir && dir.isDir && file.name == dir.name
  }

  lemma SameName(members: seq<Member>, a: Member, b: Member)
    requires UniqueNames(members) && a in members && b in members && a.name == b.name
    ensures a == b
  {
    var i :| 0 <= i < |members| && members[i] == a;
    var j :| 0 <= j < |members| && members[j] == b;
  }

  lemma {:induction false} FilterKeepsUnique(members: seq<Member>, p: Member -> bool)
    requires UniqueNames(members)
    ensures UniqueNames(Filter(members, p))
  {
    if members != [] {
      var init, last := members[..|members| - 1], members[|members| - 1];
      FilterKeepsUnique(init, p);
      var f := Filter(init, p);
      forall i | 0 <= i < |f| ensures f[i].name != last.name {
        assert f[i] in f && f[i] in init;
      }
    }
  }

  // ---------- one list over a file system ----------

  /** Each path holds the member listed for it, or what was there before. */
  lemma {:induction false} OverlayHolds(fs: FileSystem, members: seq<Member>, n: string)
    requires n in Overlay(fs, members)
    ensures || (Overlay(fs, members)[n] in members && Overlay(fs, members)[n].name == n)
            || (n in fs && Overlay(fs, members)[n] == fs[n] && forall m :: m in members ==> m.name != n)
  {
    if members != [] && n != members[|members| - 1].name {
      OverlayHolds(fs, members[..|members| - 1], n);
      forall m | m in members && m.name == n ensures m in members[..|members| - 1] {
        var i :| 0 <= i < |members| && members[i] == m;
      }
    }
  }

  /** The files of a list are new, and its directories do not meet files. */
  ghost predicate Fits(fs: FileSystem, members: seq<Member>) {
    && (forall m :: m in members && !m.isDir ==> m.name !in fs)
    && (forall m :: m in members && m.isDir ==> !IsFile(fs, m.name))
  }

  lemma {:induction false} FittingExtracts(fs: FileSystem, members: seq<Member>, k: nat)
    requires ParentsListed(members) && UniqueNames(members) && Fits(fs, members) && k <= |members|
    ensures Extract(fs, members[..k]) == Some(Overlay(fs, members[..k]))
  {
    if k > 0 {
      var done, m := members[..k - 1], members[k - 1];
      assert members[..k][..k - 1] == done;
      FittingExtracts(fs, members, k - 1);
      NoFileInTheWay(fs, members, k - 1);
    }
  }

  lemma NoFileInTheWay(fs: FileSystem, members: seq<Member>, k: nat)
    requires ParentsListed(members) && UniqueNames(members) && Fits(fs, members) && k < |members|
    ensures PutMember(Overlay(fs, members[..k]), members[k]) ==
              Some(Overlay(fs, members[..k])[members[k].name := members[k]])
  {
    hide Overlay, ParentsListed, UniqueNames;
    var now, m := Overlay(fs, members[..k]), members[k];
    forall j | 0 <= j < |m.name| && m.name[j] == '/' ensures !IsFile(now, m.name[..j]) {
      var d := ParentOf(members, m, j);
      if d.name in now { HoldsDirectory(fs, members, k, d); }
    }
    if m.name in now {
      OverlayHolds(fs, members[..k], m.name);
      NotYetListed(members, k);
    }
  }

  lemma ParentOf(members: seq<Member>, m: Member, j: nat) returns (d: Member)
    requires ParentsListed(members) && m in members && j < |m.name| && m.name[j] == '/'
    ensures d in members && d.isDir && d.name == m.name[..j]
  {
    d :| d in members && d.isDir && d.name == m.name[..j];
  }

  lemma HoldsDirectory(fs: FileSystem, members: seq<Member>, k: nat, d: Member)
    requires UniqueNames(members) && Fits(fs, members) && k <= |members| && d in members && d.isDir
    requires d.name in Overlay(fs, members[..k])
    ensures Overlay(fs, members[..k])[d.name].isDir
  {
    OverlayHolds(fs, members[..k], d.name);
    var held := Overlay(fs, members[..k])[d.name];
    if held in members[..k] && held.name == d.name {
      SameName(members, held, d);
    }
  }

  lemma NotYetListed(members: seq<Member>, k: nat)
    requires UniqueNames(members) && k < |members|
    ensures forall m :: m in members[..k] ==> m.name != members[k].name
  {
  }

  /** A file stays while only directories are put at its path. */
  lemma {:induction false} FileStays(fs: FileSystem, members: seq<Member>, n: string)
    requires IsFile(fs, n) && forall m :: m in members && m.name == n ==> m.isDir
    requires Extract(fs, members).Some?
    ensures n in Extract(fs, members).value && Extract(fs, members).value[n] == fs[n]
  {
    if members != [] {
      var init := members[..|members| - 1];
      assert forall m :: m in init ==> m in members;
      FileStays(fs, init, n);
    }
  }

  /** A new file is there after its list. */
  lemma {:induction false} FileIsPut(fs: FileSystem, members: seq<Member>, file: Member)
    requires UniqueNames(members) && file in members && !file.isDir && file.name !in fs
    requires Extract(fs, members).Some?
    ensures file.name in Extract(fs, members).value && Extract(fs, members).value[file.name] == file
  {
    var n := |members| - 1;
    var init, last := members[..n], members[n];
    if file == last {
      NotYetListed(members, n);
      if file.name in Extract(fs, init).value { ExtractAdds(fs, init, file.name); }
    } else {
      assert file in init;
      FileIsPut(fs, init, file);
      NotYetListed(members, n);
    }
  }

  /** Extraction adds nothing but the listed paths. */
  lemma {:induction false} ExtractAdds(fs: FileSystem, members: seq<Member>, n: string)
    requires Extract(fs, members).Some? && n in Extract(fs, members).value && n !in fs
    ensures exists m :: m in members && m.name == n
  {
    var last := members[|members| - 1];
    if last.name != n {
      ExtractAdds(fs, members[..|members| - 1], n);
    } else {
      assert last in members;
    }
  }

  lemma {:induction false} ExtractFails(fs: FileSystem, members: seq<Member>, k: nat)
    requires k <= |members| && Extract(fs, members[..k]).None?
    ensures Extract(fs, members).None?
  {
    if k < |members| {
      assert members[..|members| - 1][..k] == members[..k];
      ExtractFails(fs, members[..|members| - 1], k);
    } else {
      assert members[..k] == members;
    }
  }

  // ---------- lists over each other ----------

  lemma TidyPrefix(lists: seq<seq<Member>>, k: nat)
    requires Tidy(lists) && k <= |lists|
    ensures Tidy(lists[..k])
    ensures NoDirOverFile(lists) ==> NoDirOverFile(lists[..k])
  {
  }

  lemma {:induction false} ExtractAllAdds(lists: seq<seq<Member>>, n: string)
    requires ExtractAll(lists).Some? && n in ExtractAll(lists).value
    ensures exists i, m :: 0 <= i < |lists| && m in lists[i] && m.name == n
  {
    var k := |lists| - 1;
    var before := ExtractAll(lists[..k]).value;
    if n in before {
      ExtractAllAdds(lists[..k], n);
      var i, m :| 0 <= i < |lists[..k]| && m in lists[..k][i] && m.name == n;
      assert m in lists[i];
    } else {
      ExtractAdds(before, lists[k], n);
    }
  }

  lemma {:induction false} OverlayAllHolds(lists: seq<seq<Member>>, n: string)
    requires n in OverlayAll(lists)
    ensures exists i :: 0 <= i < |lists| && OverlayAll(lists)[n] in lists[i] && OverlayAll(lists)[n].name == n
  {
    var k := |lists| - 1;
    OverlayHolds(OverlayAll(lists[..k]), lists[k], n);
    if !(OverlayAll(lists)[n] in lists[k] && OverlayAll(lists)[n].name == n) {
      OverlayAllHolds(lists[..k], n);
      var i :| 0 <= i < |lists[..k]| && OverlayAll(lists[..k])[n] in lists[..k][i];
      assert lists[..k][i] == lists[i];
    } else {
      assert OverlayAll(lists)[n].name == n;
    }
  }

  /** No file of a newer list is on or above anything older. */
  lemma Apart(lists: seq<seq<Member>>, i: nat, j: nat, earlier: Member, later: Member)
    requires Tidy(lists) && i < j < |lists| && earlier in lists[i] && later in lists[j] && !later.isDir
    ensures !AtOrBelow(earlier.name, later.name) && earlier.name != later.name
  {
  }

  /** A list fits what the older ones leave, when it has no directory at the path of one of their files. */
  lemma LastFits(lists: seq<seq<Member>>)
    requires lists != [] && Tidy(lists) && NoDirOverFile(lists)
    ensures Fits(OverlayAll(lists[..|lists| - 1]), lists[|lists| - 1])
  {
    hide NoOverwrite, AtOrBelow;
    var k := |lists| - 1;
    var before := OverlayAll(lists[..k]);
    forall m | m in lists[k] && m.name in before ensures m.isDir && before[m.name].isDir {
      OverlayAllHolds(lists[..k], m.name);
      var i :| 0 <= i < |lists[..k]| && before[m.name] in lists[..k][i];
      assert before[m.name] in lists[i] && !Blocks(before[m.name], m);
      if !m.isDir { Apart(lists, i, k, before[m.name], m); }
    }
  }

  lemma {:induction false} FittingListsExtract(lists: seq<seq<Member>>)
    requires Tidy(lists) && NoDirOverFile(lists)
    ensures ExtractAll(lists) == Some(OverlayAll(lists))
  {
    if lists != [] {
      var k := |lists| - 1;
      TidyPrefix(lists, k);
      FittingListsExtract(lists[..k]);
      LastFits(lists);
      FittingExtracts(OverlayAll(lists[..k]), lists[k], |lists[k]|);
      assert lists[k][..|lists[k]|] == lists[k];
    }
  }

  /** Every file of every list is there in the end. */
  lemma {:induction false} FilesStay(lists: seq<seq<Member>>, i: nat, file: Member)
    requires Tidy(lists) && i < |lists| && file in lists[i] && !file.isDir && ExtractAll(lists).Some?
    ensures file.name in ExtractAll(lists).value && ExtractAll(lists).value[file.name] == file
  {
    hide NoOverwrite, AtOrBelow;
    var k := |lists| - 1;
    var before := ExtractAll(lists[..k]).value;
    TidyPrefix(lists, k);
    if i < k {
      FilesStay(lists[..k], i, file);
      forall m | m in lists[k] && m.name == file.name ensures m.isDir {
        if !m.isDir { Apart(lists, i, k, file, m); }
      }
      FileStays(before, lists[k], file.name);
    } else {
      if file.name in before {
        ExtractAllAdds(lists[..k], file.name);
        var j, m :| 0 <= j < |lists[..k]| && m in lists[..k][j] && m.name == file.name;
        Apart(lists, j, k, m, file);
      }
      FileIsPut(before, lists[k], file);
    }
  }

  /** The last word on the path of a listed directory is a directory. */
  lemma {:induction false} DirectoryLast(lists: seq<seq<Member>>, j: nat, dir: Member)
    requires Tidy(lists) && j < |lists| && dir in lists[j] && dir.isDir
    ensures dir.name in OverlayAll(lists) && OverlayAll(lists)[dir.name].isDir
  {
    var k := |lists| - 1;
    TidyPrefix(lists, k);
    if j < k {
      DirectoryLast(lists[..k], j, dir);
    }
    OverlayKeys(OverlayAll(lists[..k]), lists[k]);
    assert dir.name in OverlayAll(lists) by {
      if j == k {
        var i :| 0 <= i < |lists[k]| && lists[k][i] == dir;
      }
    }
    OverlayHolds(OverlayAll(lists[..k]), lists[k], dir.name);
    var held := OverlayAll(lists)[dir.name];
    if held in lists[k] && held.name == dir.name {
      if j == k {
        SameName(lists[k], held, dir);
      } else {
        if !held.isDir { Apart(lists, j, k, dir, held); }
      }
    }
  }

  lemma BlockedDirectory(lists: seq<seq<Member>>) returns (i: nat, j: nat, file: Member, dir: Member)
    requires !NoDirOverFile(lists)
    ensures i < j < |lists| && file in lists[i] && dir in lists[j] && Blocks(file, dir)
  {
    i, j, file, dir :| 0 <= i < j < |lists| && file in lists[i] && dir in lists[j] && Blocks(file, dir);
  }

  /** Extraction leaves the last word on every path exactly when no directory meets an older file. */
  lemma ExtractAllExact(lists: seq<seq<Member>>)
    requires Tidy(lists)
    ensures ExtractAll(lists) == Some(OverlayAll(lists)) <==> NoDirOverFile(lists)
  {
    if NoDirOverFile(lists) {
      FittingListsExtract(lists);
    } else {
      var i, j, file, dir := BlockedDirectory(lists);
      DirectoryLast(lists, j, dir);
      if ExtractAll(lists).Some? { FilesStay(lists, i, file); }
    }
  }

  /** Extraction raises an error exactly when a member lies below a file of an older list. */
  lemma ExtractAllFails(lists: seq<seq<Member>>)
    requires Tidy(lists)
    ensures ExtractAll(lists).None? <==> SomethingInTheWay(lists)
  {
    if i, j, file, m :| 0 <= i < j < |lists| && file in lists[i] && m in lists[j] && InTheWay(file, m) {
      ChildFails(lists, i, j, file, m);
    } else {
      NothingInTheWay(lists);
    }
  }

  predicate InTheWay(file: Member, m: Member) {
    !file.isDir && file.name + "/" <= m.name
  }

  ghost predicate SomethingInTheWay(lists: seq<seq<Member>>) {
    exists i, j, file, m :: 0 <= i < j < |lists| && file in lists[i] && m in lists[j] && InTheWay(file, m)
  }

  lemma {:induction false} ChildFails(lists: seq<seq<Member>>, i: nat, j: nat, file: Member, m: Member)
    requires Tidy(lists) && i < j < |lists| && file in lists[i] && m in lists[j] && InTheWay(file, m)
    ensures ExtractAll(lists).None?
  {
    hide Tidy, NoDirOverFile, Extract;
    var k := |lists| - 1;
    TidyPrefix(lists, k);
    if j < k {
      ChildFails(lists[..k], i, j, file, m);
    } else if ExtractAll(lists[..k]).Some? {
      var before := ExtractAll(lists[..k]).value;
      FilesStay(lists[..k], i, file);
      forall d | d in lists[k] && d.name == file.name ensures d.isDir {
        if !d.isDir { Apart(lists, i, k, file, d); }
      }
      ListFails(before, lists[k], file.name, m);
    }
  }

  /** A list cannot be extracted over a file that it has something below. */
  lemma ListFails(fs: FileSystem, members: seq<Member>, n: string, m: Member)
    requires IsFile(fs, n) && m in members && n + "/" <= m.name
    requires forall d :: d in members && d.name == n ==> d.isDir
    ensures Extract(fs, members).None?
  {
    var p :| 0 <= p < |members| && members[p] == m;
    var init := members[..p];
    assert forall d :: d in init ==> d in members;
    assert members[..p + 1][..p] == init;
    if Extract(fs, init).Some? {
      FileStays(fs, init, n);
      assert m.name[|n|] == '/' && m.name[..|n|] == n;
    }
    ExtractFails(fs, members, p + 1);
  }

  /** The files of a list are new, and none of its members is below a file. */
  ghost predicate Clears(fs: FileSystem, members: seq<Member>) {
    && (forall m :: m in members && !m.isDir ==> m.name !in fs)
    && (forall m, n :: m in members && IsFile(fs, n) ==> !(n + "/" <= m.name))
  }

  /** Such a list can be extracted; the files afterwards are those from before and its own. */
  lemma {:induction false} ClearListExtracts(fs: FileSystem, members: seq<Member>, k: nat)
    requires ParentsListed(members) && UniqueNames(members) && Clears(fs, members) && k <= |members|
    ensures Extract(fs, members[..k]).Some?
    ensures forall n :: IsFile(Extract(fs, members[..k]).value, n) ==>
              FileFrom(fs, members[..k], Extract(fs, members[..k]).value[n], n)
  {
    if k > 0 {
      assert members[..k][..k - 1] == members[..k - 1];
      ClearListExtracts(fs, members, k - 1);
      NothingStopsMember(fs, members, k - 1, Extract(fs, members[..k - 1]).value);
    }
  }

  predicate FileFrom(fs: FileSystem, members: seq<Member>, held: Member, n: string) {
    (held in members && held.name == n) || (n in fs && fs[n] == held)
  }

  lemma NothingStopsMember(fs: FileSystem, members: seq<Member>, k: nat, now: FileSystem)
    requires ParentsListed(members) && UniqueNames(members) && Clears(fs, members) && k < |members|
    requires Extract(fs, members[..k]) == Some(now)
    requires forall n :: IsFile(now, n) ==> FileFrom(fs, members[..k], now[n], n)
    ensures PutMember(now, members[k]).Some?
  {
    hide Extract, ParentsListed, UniqueNames;
    var m := members[k];
    forall j | 0 <= j < |m.name| && m.name[j] == '/' ensures !IsFile(now, m.name[..j]) {
      var d := ParentOf(members, m, j);
      assert m.name[..j + 1] == d.name + "/";
      if IsFile(now, d.name) && !IsFile(fs, d.name) {
        SameName(members, now[d.name], d);
      }
    }
    if !m.isDir && m.name in now {
      ExtractAdds(fs, members[..k], m.name);
      NotYetListed(members, k);
    }
  }

  lemma {:induction false} NothingInTheWay(lists: seq<seq<Member>>)
    requires Tidy(lists)
    requires forall i, j, file, m :: 0 <= i < j < |lists| && file in lists[i] && m in lists[j] ==> !InTheWay(file, m)
    ensures ExtractAll(lists).Some?
    ensures forall n :: IsFile(ExtractAll(lists).value, n) ==> Listed(lists, ExtractAll(lists).value[n], n)
  {
    hide AtOrBelow, Extract;
    if lists != [] {
      var k := |lists| - 1;
      TidyPrefix(lists, k);
      NothingInTheWay(lists[..k]);
      var before := ExtractAll(lists[..k]).value;
      LastClears(lists, before);
      ClearListExtracts(before, lists[k], |lists[k]|);
      assert lists[k][..|lists[k]|] == lists[k];
      var now := ExtractAll(lists).value;
      forall n | IsFile(now, n) ensures Listed(lists, now[n], n) {
        if !(now[n] in lists[k] && now[n].name == n) {
          assert Listed(lists[..k], now[n], n);
          var i :| 0 <= i < |lists[..k]| && now[n] in lists[..k][i];
          assert lists[..k][i] == lists[i];
        }
      }
    }
  }

  ghost predicate Listed(lists: seq<seq<Member>>, held: Member, n: string) {
    exists i :: 0 <= i < |lists| && held in lists[i] && held.name == n
  }

  lemma LastClears(lists: seq<seq<Member>>, before: FileSystem)
    requires lists != [] && Tidy(lists) && ExtractAll(lists[..|lists| - 1]) == Some(before)
    requires forall i, j, file, m :: 0 <= i < j < |lists| && file in lists[i] && m in lists[j] ==> !InTheWay(file, m)
    requires forall n :: IsFile(before, n) ==> Listed(lists[..|lists| - 1], before[n], n)
    ensures Clears(before, lists[|lists| - 1])
  {
    hide AtOrBelow, Extract, ExtractAll;
    var k := |lists| - 1;
    forall m | m in lists[k] && !m.isDir ensures m.name !in before {
      if m.name in before {
        ExtractAllAdds(lists[..k], m.name);
        var i, e :| 0 <= i < |lists[..k]| && e in lists[..k][i] && e.name == m.name;
        Apart(lists, i, k, e, m);
      }
    }
    forall m, n | m in lists[k] && IsFile(before, n) ensures !(n + "/" <= m.name) {
      assert Listed(lists[..k], before[n], n);
      var i :| 0 <= i < |lists[..k]| && before[n] in lists[..k][i];
      assert before[n] in lists[i] && !InTheWay(before[n], m);
    }
  }

  // ---------- flattened layers ----------

  lemma FlattenIsTidy(layers: seq<seq<Member>>)
    requires AllWellFormed(layers) && AllUnique(Cleaned(layers))
    ensures Tidy(Flatten(layers))
  {
    FlattenIsSettled(layers);
    FlattenNeverOverwrites(layers);
    FlattenIsUnique(layers);
  }

  /** The layers without their illegal members. */
  function Cleaned(layers: seq<seq<Member>>): (r: seq<seq<Member>>)
    ensures |r| == |layers|
    ensures forall i {:trigger r[i]} :: 0 <= i < |r| ==> r[i] == Clean(layers[i])
  {
    seq(|layers|, i requires 0 <= i < |layers| => Clean(layers[i]))
  }

  lemma UniqueStep(older: seq<seq<Member>>, layer: seq<Member>)
    requires AllSettled(older) && AllUnique(older) && PlainMarks(layer) && UniqueNames(layer)
    ensures AllUnique(PruneAll(older, layer) + [Regular(layer)])
  {
    FilterKeepsUnique(layer, (m: Member) => !IsWhiteout(m.name));
    forall i | 0 <= i < |older| ensures UniqueNames(Prune(older[i], layer)) {
      PruneMeaning(older[i], layer);
      FilterKeepsUnique(older[i], (m: Member) => !PlainlyHiddenBy(layer)(m.name));
    }
  }

  lemma {:induction false} FlattenIsUnique(layers: seq<seq<Member>>)
    requires AllWellFormed(layers) && AllUnique(Cleaned(layers))
    ensures AllUnique(Flatten(layers))
  {
    if layers != [] {
      var n := |layers| - 1;
      assert Cleaned(layers)[n] == Clean(layers[n]);
      assert Cleaned(layers[..n]) == Cleaned(layers)[..n];
      FlattenIsUnique(layers[..n]);
      FlattenIsSettled(layers[..n]);
      UniqueStep(Flatten(layers[..n]), Clean(layers[n]));
    }
  }

  // ---------- what flattening keeps of a layer ----------

  /** A member of the layer, neither illegal nor a whiteout, whose path no later layer hides. */
  ghost predicate Kept(layers: seq<seq<Member>>, i: nat, m: Member)
    requires i < |layers|
  {
    m in Regular(Clean(layers[i])) && forall k :: i < k < |layers| ==> !HidesPlainly(Clean(layers[k]), m.name)
  }

  lemma {:induction false} FlattenKeeps(layers: seq<seq<Member>>, i: nat, m: Member)
    requires AllWellFormed(layers) && i < |layers|
    ensures m in Flatten(layers)[i] <==> Kept(layers, i, m)
  {
    hide Clean, Regular, Prune, HidesPlainly, Settled, NoOpaque;
    var n := |layers| - 1;
    if i < n {
      FlattenKeeps(layers[..n], i, m);
      FlattenIsSettled(layers[..n]);
      PruneMeaning(Flatten(layers[..n])[i], Clean(layers[n]));
      assert forall k :: 0 <= k < n ==> layers[..n][k] == layers[k];
    }
  }

  /** A layer has a directory where an older one has a file that no layer behind it hides. */
  ghost predicate DirOverFile(layers: seq<seq<Member>>) {
    exists i, j, file, dir :: 0 <= i < j < |layers| && Kept(layers, i, file)
      && dir in Regular(Clean(layers[j])) && Blocks(file, dir)
  }

  /** A layer has a member, not hidden by a later one, below the path of a file of an older layer that no layer
      behind it hides. */
  ghost predicate MemberBelowFile(layers: seq<seq<Member>>) {
    exists i, j, file, m :: 0 <= i < j < |layers| && Kept(layers, i, file) && Kept(layers, j, m) && InTheWay(file, m)
  }

  lemma DirOverFileMeans(layers: seq<seq<Member>>)
    requires AllWellFormed(layers)
    ensures NoDirOverFile(Flatten(layers)) <==> !DirOverFile(layers)
  {
    hide Flatten, Clean, Regular, HidesPlainly;
    forall i, m | 0 <= i < |layers| ensures m in Flatten(layers)[i] <==> Kept(layers, i, m) {
      FlattenKeeps(layers, i, m);
    }
    if DirOverFile(layers) {
      var i, j, file, dir :| 0 <= i < j < |layers| && Kept(layers, i, file)
        && dir in Regular(Clean(layers[j])) && Blocks(file, dir);
      assert Kept(layers, j, dir);
    }
  }

  lemma MemberBelowFileMeans(layers: seq<seq<Member>>)
    requires AllWellFormed(layers)
    ensures SomethingInTheWay(Flatten(layers)) <==> MemberBelowFile(layers)
  {
    hide Flatten, Clean, Regular, HidesPlainly;
    var lists := Flatten(layers);
    forall i, m | 0 <= i < |layers| ensures m in lists[i] <==> Kept(layers, i, m) {
      FlattenKeeps(layers, i, m);
    }
    if MemberBelowFile(layers) {
      var i, j, file, m :| 0 <= i < j < |layers| && Kept(layers, i, file) && Kept(layers, j, m) && InTheWay(file, m);
      assert file in lists[i] && m in lists[j];
    }
  }

  /**
   * Extracting the flattened lists oldest first gives what applying the layers one by one gives exactly when
   * no layer has a directory at the path of an older layer's file, unless a layer behind the file hides it.
   */
  lemma FlattenPreservesMeaning(layers: seq<seq<Member>>)
    requires AllWellFormed(layers) && AllUnique(Cleaned(layers))
    ensures ExtractAll(Flatten(layers)) == Some(ApplyAll(layers)) <==> !DirOverFile(layers)
  {
    hide *;
    FlattenIsTidy(layers);
    FlattenIsApplied(layers);
    ExtractAllExact(Flatten(layers));
    DirOverFileMeans(layers);
  }

  /** It raises an error exactly when a layer has something below a file of an older one that stays. */
  lemma FlattenFails(layers: seq<seq<Member>>)
    requires AllWellFormed(layers) && AllUnique(Cleaned(layers))
    ensures ExtractAll(Flatten(layers)).None? <==> MemberBelowFile(layers)
  {
    hide *;
    FlattenIsTidy(layers);
    ExtractAllFails(Flatten(layers));
    MemberBelowFileMeans(layers);
  }

  /** Every older path that only an opaque marker of the layer hides is listed again by the layer. */
  ghost predicate OpaqueRestored(older: seq<seq<Member>>, layer: seq<Member>) {
    forall n :: n in OverlayAll(older) && HidesOpaquely(layer, n) && !HidesPlainly(layer, n) ==>
      Lists(Regular(layer), n)
  }

  lemma OpaqueStep(older: seq<seq<Member>>, layer: seq<Member>)
    requires AllSettled(older) && WellFormed(layer)
    ensures OverlayAll(PruneAll(older, layer) + [Regular(layer)]) == ApplyLayer(OverlayAll(older), layer)
            <==> OpaqueRestored(older, layer)
  {
    OverlayStepExact(older, layer);
  }

  lemma TidyStep(older: seq<seq<Member>>, layer: seq<Member>)
    requires Tidy(older) && WellFormed(layer) && UniqueNames(layer)
    ensures AllSettled(older) && Tidy(PruneAll(older, layer) + [Regular(layer)])
  {
    SettledStep(older, layer);
    UniqueStep(older, layer);
    NoOverwriteStep(older, layer);
  }

  /** Where a directory meets an older file, extraction differs from whatever agrees with the last word. */
  lemma BlockedDiffers(lists: seq<seq<Member>>, applied: FileSystem)
    requires Tidy(lists) && !NoDirOverFile(lists)
    requires forall n :: n in OverlayAll(lists) && n in applied ==> OverlayAll(lists)[n] == applied[n]
    ensures ExtractAll(lists) != Some(applied)
  {
    hide *;
    var i, j, file, dir := BlockedDirectory(lists);
    DirectoryLast(lists, j, dir);
    if ExtractAll(lists).Some? {
      BlockedNames(file, dir);
      FilesStay(lists, i, file);
    }
  }

  lemma BlockedNames(file: Member, dir: Member)
    requires Blocks(file, dir)
    ensures !file.isDir && dir.isDir && file.name == dir.name
  {
  }

  /** One step over any older lists, opaque markers included. */
  lemma FlattenStepExact(older: seq<seq<Member>>, layer: seq<Member>)
    requires Tidy(older) && WellFormed(layer) && UniqueNames(layer)
    ensures var lists := PruneAll(older, layer) + [Regular(layer)];
            ExtractAll(lists) == Some(ApplyLayer(OverlayAll(older), layer))
            <==> OpaqueRestored(older, layer) && NoDirOverFile(lists)
  {
    hide *;
    var lists, applied := PruneAll(older, layer) + [Regular(layer)], ApplyLayer(OverlayAll(older), layer);
    TidyStep(older, layer);
    ExtractAllExact(lists);
    OpaqueStep(older, layer);
    if !NoDirOverFile(lists) {
      forall n | n in OverlayAll(lists) && n in applied ensures OverlayAll(lists)[n] == applied[n] {
        SameWhereBoth(older, layer, n);
      }
      BlockedDiffers(lists, applied);
    }
  }

  /** Where flattening and applying both have something, they have the same. */
  lemma SameWhereBoth(older: seq<seq<Member>>, layer: seq<Member>, n: string)
    requires AllSettled(older) && WellFormed(layer)
    requires n in OverlayAll(PruneAll(older, layer) + [Regular(layer)]) && n in ApplyLayer(OverlayAll(older), layer)
    ensures OverlayAll(PruneAll(older, layer) + [Regular(layer)])[n] == ApplyLayer(OverlayAll(older), layer)[n]
  {
    FlattenStepRestricts(older, layer);
    ApplyLayerRestricts(OverlayAll(older), layer);
    var a, b := Restrict(OverlayAll(older), PlainlyHiddenBy(layer)), Restrict(OverlayAll(older), HiddenBy(layer));
    OverlayKeys(a, Regular(layer));
    OverlayKeys(b, Regular(layer));
    OverlayValues(a, b, Regular(layer), n);
  }

  predicate Simple(name: string) {
    name == "a" || name == "a/" + "b"
  }

  lemma SimpleIsUnmarked(m: Member)
    requires Simple(m.name)
    ensures PlainMark(m.name) && !MarksWhiteout(m.name) && !MarksOpaque(m.name) && !IsWhiteout(m.name)
    ensures !Illegal(m.name) && StripDot(m) == m
  {
    hide DirPart, BasePart, Contains;
    SimpleParts(m.name);
    ShortMark(m.name);
    WhiteoutAgrees(m.name);
    NoDots(m.name);
    assert m.name[0] == 'a' && m.name != "";
  }

  lemma SimpleParts(name: string)
    requires Simple(name)
    ensures |DirPart(name)| <= 2 && |BasePart(name)| == 1 && (DirPart(name) != "" ==> DirPart(name)[0] == 'a')
  {
    if name != "a" { DirPartOf("a/", "b"); }
  }

  lemma ShortMark(name: string)
    requires |DirPart(name)| <= 2 && |BasePart(name)| == 1
    ensures PlainMark(name) && !MarksWhiteout(name) && !MarksOpaque(name)
  {
    hide DirPart, BasePart;
  }

  lemma NoDots(name: string)
    requires '.' !in name
    ensures !Contains(name, "..")
  {
    forall i | 0 <= i <= |name| - 2 ensures !OccursAt(name, "..", i) {
      assert name[i..i + 2][0] == name[i] && name[i] in name;
    }
  }

  lemma SimpleLayer(layer: seq<Member>)
    requires forall m :: m in layer ==> Simple(m.name)
    ensures Strip(layer) == layer && Clean(layer) == layer && Regular(layer) == layer
    ensures PlainMarks(layer) && NoOpaque(layer)
    ensures forall m :: m in layer ==> !MarksWhiteout(m.name)
  {
    forall m | m in layer ensures PlainMark(m.name) && !MarksWhiteout(m.name) && !MarksOpaque(m.name)
      && !IsWhiteout(m.name) && !Illegal(m.name) && StripDot(m) == m
    {
      SimpleIsUnmarked(m);
    }
    assert Strip(layer) == layer by {
      forall i | 0 <= i < |layer| ensures Strip(layer)[i] == layer[i] {
        assert layer[i] in layer;
      }
    }
    CleanDropsIllegal(layer);
    FilterAll(layer, (m: Member) => !IsWhiteout(m.name));
  }

  lemma FlattenTwo(a: seq<Member>, b: seq<Member>)
    requires Clean(a) == a == Regular(a) && Clean(b) == b == Regular(b)
    ensures Flatten([a, b]) == [Prune(a, b), b]
  {
    hide Clean, Regular, Prune;
    assert [a, b][..1] == [a] && [a][..0] == [];
    assert Flatten([a]) == [a];
  }

  lemma TwoLayersAreWellFormed(a: seq<Member>, b: seq<Member>)
    requires Clean(a) == a && WellFormed(a) && NoOpaque(a) && UniqueNames(a)
    requires Clean(b) == b && WellFormed(b) && NoOpaque(b) && UniqueNames(b)
    ensures AllWellFormed([a, b]) && AllUnique(Cleaned([a, b]))
  {
    hide Clean, WellFormed, NoOpaque, UniqueNames;
  }

  lemma NotHidden(layer: seq<Member>)
    requires forall m :: m in layer ==> Simple(m.name) && (m.isDir <==> m.name == "a") && !MarksWhiteout(m.name)
    ensures !HidesPlainly(layer, "a")
  {
    forall m | m in layer && !m.isDir ensures !AtOrBelow("a", m.name) {
      assert |m.name| == 3;
    }
  }

  /** Flattening a file and a layer that has a directory in its place keeps both. */
  lemma BothAreListed(file: Member, layer: seq<Member>)
    requires file.name == "a" && !file.isDir
    requires forall m :: m in layer ==> Simple(m.name) && (m.isDir <==> m.name == "a")
    ensures Flatten([[file], layer]) == [[file], layer]
  {
    hide Clean, Regular, Prune, Strip, PlainMark, MarksWhiteout, MarksOpaque, HidesPlainly, Visible;
    SimpleLayer([file]);
    SimpleLayer(layer);
    FlattenTwo([file], layer);
    assert ParentsListed([file]);
    SimpleIsUnmarked(file);
    PruneMeaning([file], layer);
    NotHidden(layer);
    VisibleNone([file], PlainlyHiddenBy(layer));
  }

  /** A directory in place of a file: the file stays. */
  lemma FileStaysForDirectory(file: Member, dir: Member)
    requires file.name == "a" == dir.name && !file.isDir && dir.isDir
    ensures AllWellFormed([[file], [dir]]) && AllUnique(Cleaned([[file], [dir]]))
    ensures ExtractAll(Flatten([[file], [dir]])) == Some(map["a" := file])
    ensures ApplyAll([[file], [dir]]) == map["a" := dir]
  {
    hide *;
    LoneMember(file);
    LoneMember(dir);
    TwoLayersAreWellFormed([file], [dir]);
    OneDirectory(dir);
    BothAreListed(file, [dir]);
    FlattenIsApplied([[file], [dir]]);
    TwoLists([file], [dir]);
    ListOfOne(map[], file);
    ListOfOne(map["a" := file], dir);
    DirectoryOnFile(file, dir);
  }

  lemma LoneMember(m: Member)
    requires m.name == "a"
    ensures Clean([m]) == [m] && WellFormed([m]) && NoOpaque([m]) && UniqueNames([m])
  {
    SimpleLayer([m]);
  }

  lemma OneDirectory(dir: Member)
    requires dir.name == "a" && dir.isDir
    ensures forall m :: m in [dir] ==> Simple(m.name) && (m.isDir <==> m.name == "a")
  {
  }

  lemma DirectoryOnFile(file: Member, dir: Member)
    requires file.name == "a" == dir.name && !file.isDir && dir.isDir
    ensures PutMember(map[], file) == Some(map["a" := file])
    ensures PutMember(map["a" := file], dir) == Some(map["a" := file])
    ensures map["a" := file]["a" := dir] == map["a" := dir]
  {
  }

  lemma TwoLists(a: seq<Member>, b: seq<Member>)
    ensures OverlayAll([a, b]) == Overlay(Overlay(map[], a), b)
    ensures ExtractAll([a, b]) == if Extract(map[], a).None? then None else Extract(Extract(map[], a).value, b)
  {
    assert [a, b][..1] == [a] && [a][..0] == [];
    assert ExtractAll([a]) == Extract(map[], a) && OverlayAll([a]) == Overlay(map[], a);
  }

  lemma ListOfOne(fs: FileSystem, m: Member)
    ensures Extract(fs, [m]) == PutMember(fs, m) && Overlay(fs, [m]) == fs[m.name := m]
  {
    assert [m][..0] == [];
  }

  /** Something below the directory makes extraction fail. */
  lemma FileFailsChild(file: Member, dir: Member, child: Member)
    requires file.name == "a" == dir.name && !file.isDir && dir.isDir && child.name == "a/" + "b" && !child.isDir
    ensures AllWellFormed([[file], [dir, child]]) && AllUnique(Cleaned([[file], [dir, child]]))
    ensures ExtractAll(Flatten([[file], [dir, child]])).None?
  {
    hide *;
    var layers := [[file], [dir, child]];
    LoneMember(file);
    DirectoryAndChild(dir, child);
    TwoLayersAreWellFormed([file], [dir, child]);
    BothAreListed(file, [dir, child]);
    FlattenIsTidy(layers);
    ChildBelow(file, child);
    assert file in layers[0] && child in layers[1];
    ChildFails(layers, 0, 1, file, child);
  }

  lemma DirectoryAndChild(dir: Member, child: Member)
    requires dir.name == "a" && dir.isDir && child.name == "a/" + "b" && !child.isDir
    ensures forall m :: m in [dir, child] ==> Simple(m.name) && (m.isDir <==> m.name == "a")
    ensures Clean([dir, child]) == [dir, child] && WellFormed([dir, child]) && NoOpaque([dir, child])
    ensures UniqueNames([dir, child])
  {
    hide Clean, WellFormed, NoOpaque, PlainMarks, MarksWhiteout, Strip, Regular, DirPart, BasePart;
    SimpleLayer([dir, child]);
    SmallLayerIsWellFormed(dir, child, "b");
  }

  lemma ChildBelow(file: Member, child: Member)
    requires file.name == "a" && !file.isDir && child.name == "a/" + "b"
    ensures InTheWay(file, child)
  {
  }
}
