/** Choosing the active modules (UdiRootConfig.c). */
module Modules {
  import opened Wrappers
  import opened Text

  class ShifterModule {
    const name: string
    const conflictNames: seq<string>
    var enabled: bool
    // Filled in once the whole module table is known.
    var conflict: seq<ShifterModule>

    constructor (name: string, conflictNames: seq<string>, enabled: bool)
      ensures this.name == name && this.conflictNames == conflictNames && this.enabled == enabled && conflict == []
    {
      this.name, this.conflictNames, this.enabled, this.conflict := name, conflictNames, enabled, [];
    }
  }

  predicate Selectable(m: ShifterModule, name: string)
    reads m
  {
    m.name == name && m.enabled
  }

  /** `m` is the first enabled module of the table with this name. */
  ghost predicate Chosen(modules: seq<ShifterModule>, name: string, m: ShifterModule)
    reads modules
  {
    exists i :: 0 <= i < |modules| && modules[i] == m && Selectable(m, name) && NoneBefore(modules, name, i)
  }

  ghost predicate NoneBefore(modules: seq<ShifterModule>, name: string, i: nat)
    requires i <= |modules|
    reads modules
  {
    forall k :: 0 <= k < i ==> !Selectable(modules[k], name)
  }

  ghost predicate Known(modules: seq<ShifterModule>, name: string)
    reads modules
  {
    exists i :: 0 <= i < |modules| && Selectable(modules[i], name)
  }

  predicate Clash(a: ShifterModule, b: ShifterModule)
    reads a, b
  {
    b in a.conflict || a in b.conflict
  }

  /** Some active module and `m` exclude each other. */
  ghost predicate Barred(active: seq<ShifterModule>, m: ShifterModule)
    reads active, m
  {
    exists k :: 0 <= k < |active| && Clash(active[k], m)
  }

  /** No two positions of the list hold modules of which one excludes the other. */
  ghost predicate ConflictFree(active: seq<ShifterModule>)
    reads active
  {
    forall i, j :: 0 <= i < j < |active| ==> !Clash(active[i], active[j])
  }

  /** The list holds the modules asked for by the first names, in their order. */
  ghost predicate Follows(modules: seq<ShifterModule>, names: seq<string>, active: seq<ShifterModule>)
    reads modules
  {
    && |active| <= |names|
    && forall i :: 0 <= i < |active| ==> Chosen(modules, names[i], active[i])
  }

  lemma ChosenIsUnique(modules: seq<ShifterModule>, name: string, a: ShifterModule, b: ShifterModule)
    requires Chosen(modules, name, a) && Chosen(modules, name, b)
    ensures a == b
  {
    var i :| 0 <= i < |modules| && modules[i] == a && Selectable(a, name) && NoneBefore(modules, name, i);
    var j :| 0 <= j < |modules| && modules[j] == b && Selectable(b, name) && NoneBefore(modules, name, j);
  }

  lemma KnownHasChosen(modules: seq<ShifterModule>, name: string) returns (m: ShifterModule)
    requires Known(modules, name)
    ensures Chosen(modules, name, m)
  {
    var i: nat := 0;
    while !Selectable(modules[i], name)
      invariant i < |modules| && NoneBefore(modules, name, i)
      invariant exists k :: i <= k < |modules| && Selectable(modules[k], name)
      decreases |modules| - i
    {
      i := i + 1;
    }
    m := modules[i];
  }

  /* What a request means. */

  predicate IsNone(s: string) {
    EqualIgnoringCase(s, "none")
  }

  /** The names of a request; "none" asks for nothing. */
  function Requested(selected: string): seq<string> {
    if IsNone(Trim(selected)) then [] else Tokens(Trim(selected), ',')
  }

  /** "none", in any case and with blanks around it, asks for nothing. */
  lemma NoneAsksForNothing(before: string, word: string, after: string)
    requires AllBlank(before) && AllBlank(after) && |word| == 4
    requires word[0] in "nN" && word[1] in "oO" && word[2] in "nN" && word[3] in "eE"
    ensures Requested(before + word + after) == []
  {
    TrimExact(before, word, after);
  }

  /** Any other text asks for the names between its commas, in order, with the blanks around the whole cut off. */
  lemma NamesAreRequested(before: string, names: seq<string>, after: string)
    requires AllBlank(before) && AllBlank(after) && names != []
    requires forall i :: 0 <= i < |names| ==> names[i] != "" && ',' !in names[i]
    requires !AllBlank(names[0][..1]) && !AllBlank(names[|names| - 1][|names[|names| - 1]| - 1..])
    requires |names| == 1 ==> !(|names[0]| == 4 && EqualIgnoringCase(names[0], "none"))
    ensures Requested(before + Join(names, ',') + after) == names
  {
    var text := Join(names, ',');
    JoinEnds(names);
    TrimExact(before, text, after);
    TokensOfJoin(names, ',');
    if |names| > 1 { assert ',' in text; }
  }

  lemma {:induction false} JoinEnds(names: seq<string>)
    requires names != [] && forall i :: 0 <= i < |names| ==> names[i] != ""
    ensures var text := Join(names, ',');
            && text != "" && text[..1] == names[0][..1]
            && text[|text| - 1..] == names[|names| - 1][|names[|names| - 1]| - 1..]
            && (|names| > 1 ==> ',' in text)
  {
    if |names| > 1 {
      JoinEnds(names[1..]);
      var text, rest := Join(names, ','), Join(names[1..], ',');
      assert text == names[0] + [','] + rest;
      assert text[|names[0]|] == ',';
    }
  }

  /** A request can be met: every name is known and no two of the modules exclude each other. */
  ghost predicate Satisfiable(modules: seq<ShifterModule>, names: seq<string>)
    reads modules
  {
    && (forall i :: 0 <= i < |names| ==> Known(modules, names[i]))
    && forall i, j, a, b | 0 <= i < j < |names| && a in modules && b in modules ::
         Chosen(modules, names[i], a) && Chosen(modules, names[j], b) ==> !Clash(a, b)
  }

  /** The first name that cannot be met stops the selection. */
  ghost predicate StoppedAt(modules: seq<ShifterModule>, names: seq<string>, active: seq<ShifterModule>)
    reads modules, active
  {
    && |active| < |names|
    && forall m | m in modules && Chosen(modules, names[|active|], m) :: Barred(active, m)
  }

  /** Either every request is met or some name is the one that stops. */
  lemma StopMeansUnsatisfiable(modules: seq<ShifterModule>, names: seq<string>, active: seq<ShifterModule>)
    requires Follows(modules, names, active) && StoppedAt(modules, names, active)
    ensures !Satisfiable(modules, names)
  {
    var n := |active|;
    if Known(modules, names[n]) {
      var m := KnownHasChosen(modules, names[n]);
      var k :| 0 <= k < n && Clash(active[k], m);
      assert Chosen(modules, names[k], active[k]);
    }
  }

  lemma CompleteMeansSatisfiable(modules: seq<ShifterModule>, names: seq<string>, active: seq<ShifterModule>)
    requires Follows(modules, names, active) && |active| == |names| && ConflictFree(active)
    ensures Satisfiable(modules, names)
  {
    forall i | 0 <= i < |names| ensures Known(modules, names[i]) {
      assert Chosen(modules, names[i], active[i]);
    }
    forall i, j, a, b | 0 <= i < j < |names| && a in modules && b in modules
      && Chosen(modules, names[i], a) && Chosen(modules, names[j], b)
      ensures !Clash(a, b)
    {
      ChosenIsUnique(modules, names[i], a, active[i]);
      ChosenIsUnique(modules, names[j], b, active[j]);
    }
  }

  /* Resolving the names of the excluded modules. */

  /** `m` is the first module of the table with this name, enabled or not. */
  ghost predicate FirstNamed(modules: seq<ShifterModule>, name: string, m: ShifterModule) {
    exists i :: 0 <= i < |modules| && modules[i] == m && m.name == name && NotNamedBefore(modules, name, i)
  }

  ghost predicate NotNamedBefore(modules: seq<ShifterModule>, name: string, i: nat)
    requires i <= |modules|
  {
    forall k :: 0 <= k < i ==> modules[k].name != name
  }

  ghost predicate Named(modules: seq<ShifterModule>, name: string) {
    exists i :: 0 <= i < |modules| && modules[i].name == name
  }

  ghost predicate Resolves(modules: seq<ShifterModule>, names: seq<string>, conflict: seq<ShifterModule>) {
    && |conflict| == |names|
    && forall i :: 0 <= i < |names| ==> FirstNamed(modules, names[i], conflict[i])
  }

  ghost predicate Resolved(modules: seq<ShifterModule>)
    reads modules
  {
    forall m | m in modules :: m.conflictNames != [] ==> Resolves(modules, m.conflictNames, m.conflict)
  }

  predicate DistinctNames(modules: seq<ShifterModule>) {
    forall i, j :: 0 <= i < j < |modules| ==> modules[i].name != modules[j].name
  }

  /** In a table of distinct names, excluding each other is a matter of names, in either direction. */
  lemma ClashByName(modules: seq<ShifterModule>, a: ShifterModule, b: ShifterModule)
    requires Resolved(modules) && DistinctNames(modules)
    requires a in modules && b in modules
    requires forall m | m in modules :: m.conflictNames == [] ==> m.conflict == []
    ensures Clash(a, b) <==> b.name in a.conflictNames || a.name in b.conflictNames
  {
    ExcludesByName(modules, a, b);
    ExcludesByName(modules, b, a);
  }

  lemma ExcludesByName(modules: seq<ShifterModule>, a: ShifterModule, b: ShifterModule)
    requires Resolved(modules) && DistinctNames(modules)
    requires a in modules && b in modules
    requires a.conflictNames == [] ==> a.conflict == []
    ensures b in a.conflict <==> b.name in a.conflictNames
  {
    if b.name in a.conflictNames {
      var k :| 0 <= k < |a.conflictNames| && a.conflictNames[k] == b.name;
      assert FirstNamed(modules, b.name, a.conflict[k]);
      var i :| 0 <= i < |modules| && modules[i] == a.conflict[k];
      var j :| 0 <= j < |modules| && modules[j] == b;
    }
  }

  class UdiConfig {
    var modules: seq<ShifterModule>
    var active: seq<ShifterModule>
    var selected: Option<string>
    var defaults: Option<string>

    /** The first enabled module with the name, and whether it may not join the active ones. */
    method FindModule(name: string) returns (found: Option<ShifterModule>, conflict: bool)
      ensures found.Some? ==> found.value in modules && Chosen(modules, name, found.value)
      ensures found.Some? ==> (conflict <==> Barred(active, found.value))
      ensures found.None? ==> !Known(modules, name)
    {
      var idx := 0;
      while idx < |modules|
        invariant idx <= |modules| && NoneBefore(modules, name, idx)
      {
        if modules[idx].name == name && modules[idx].enabled {
          var m := modules[idx];
          assert Chosen(modules, name, m);
          conflict := ClashesAhead(m);
          if !conflict { conflict := ClashesBehind(m); }
          return Some(m), conflict;
        }
        idx := idx + 1;
      }
      return None, false;
    }

    /** A module that `m` excludes is active. */
    method ClashesAhead(m: ShifterModule) returns (r: bool)
      ensures r <==> exists k :: 0 <= k < |active| && active[k] in m.conflict
    {
      var jdx := 0;
      while jdx < |m.conflict|
        invariant jdx <= |m.conflict|
        invariant forall j, k :: 0 <= j < jdx && 0 <= k < |active| ==> m.conflict[j] != active[k]
      {
        var kdx := 0;
        while kdx < |active|
          invariant kdx <= |active|
          invariant forall k :: 0 <= k < kdx ==> m.conflict[jdx] != active[k]
        {
          if active[kdx] == m.conflict[jdx] { return true; }
          kdx := kdx + 1;
        }
        jdx := jdx + 1;
      }
      return false;
    }

    /** An active module excludes `m`. */
    method ClashesBehind(m: ShifterModule) returns (r: bool)
      ensures r <==> exists k :: 0 <= k < |active| && m in active[k].conflict
    {
      var jdx := 0;
      while jdx < |active|
        invariant jdx <= |active|
        invariant forall k :: 0 <= k < jdx ==> m !in active[k].conflict
      {
        var kdx := 0;
        while kdx < |active[jdx].conflict|
          invariant kdx <= |active[jdx].conflict|
          invariant m !in active[jdx].conflict[..kdx]
        {
          if active[jdx].conflict[kdx] == m { return true; }
          kdx := kdx + 1;
        }
        assert active[jdx].conflict[..kdx] == active[jdx].conflict;
        jdx := jdx + 1;
      }
      return false;
    }

    /** Take in the module for the next name, or say why the whole request fails. */
    method AddModule(name: string, ghost names: seq<string>) returns (ok: bool)
      requires |active| < |names| && names[|active|] == name
      requires Follows(modules, names, active) && ConflictFree(active)
      modifies this`active
      ensures Follows(modules, names, active) && ConflictFree(active)
      ensures ok ==> |active| == |old(active)| + 1
      ensures !ok ==> active == old(active) && StoppedAt(modules, names, active) && !Satisfiable(modules, names)
    {
      hide ConflictFree, Follows, Satisfiable, StoppedAt, Chosen, Known, Barred;
      var found, conflict := FindModule(name);
      if found.None? || conflict {
        Stops(modules, names, active, found);
        StopMeansUnsatisfiable(modules, names, active);
        return false;
      }
      Extends(modules, names, active, found.value);
      active := active + [found.value];
      ok := true;
    }

    /** parse_selected_ShifterModule */
    method ParseSelected(request: string) returns (ok: bool)
      modifies this
      ensures modules == old(modules) && selected == Some(request) && defaults == old(defaults)
      ensures ConflictFree(active)
      ensures Follows(modules, Requested(request), active)
      ensures ok <==> |active| == |Requested(request)|
      ensures ok <==> Satisfiable(modules, Requested(request))
      ensures !ok ==> StoppedAt(modules, Requested(request), active)
    {
      selected := Some(request);
      var search := Trim(request);
      active := [];
      ghost var names := Requested(request);
      hide ConflictFree, Follows, Satisfiable, StoppedAt, Chosen, Known, Barred, Tokens, Skip, NextToken;
      NothingChosen(modules, names);
      if IsNone(search) { return true; }
      while Skip(search, ',') != ""
        invariant modules == old(modules) && selected == Some(request) && defaults == old(defaults)
        invariant |active| <= |names| && names[|active|..] == Tokens(search, ',')
        invariant ConflictFree(active) && Follows(modules, names, active)
        decreases |search|
      {
        var (name, rest) := NextToken(search, ',');
        NextName(names, |active|, search);
        var added := AddModule(name, names);
        if !added { return false; }
        search := rest;
      }
      NoTokens(search, ',');
      CompleteMeansSatisfiable(modules, names, active);
      ok := true;
    }

    /** The first module with the name. */
    method LookUp(name: string) returns (found: Option<ShifterModule>)
      ensures found.Some? ==> FirstNamed(modules, name, found.value)
      ensures found.None? ==> !Named(modules, name)
    {
      var j := 0;
      while j < |modules|
        invariant j <= |modules| && NotNamedBefore(modules, name, j)
      {
        if modules[j].name == name { return Some(modules[j]); }
        j := j + 1;
      }
      return None;
    }

    method ResolveModule(m: ShifterModule) returns (ok: bool)
      modifies m`conflict
      ensures ok ==> Resolves(modules, m.conflictNames, m.conflict)
      ensures ok <==> forall i :: 0 <= i < |m.conflictNames| ==> Named(modules, m.conflictNames[i])
    {
      m.conflict := [];
      var i := 0;
      while i < |m.conflictNames|
        invariant i <= |m.conflictNames| && |m.conflict| == i
        invariant forall k :: 0 <= k < i ==> FirstNamed(modules, m.conflictNames[k], m.conflict[k])
        invariant forall k :: 0 <= k < i ==> Named(modules, m.conflictNames[k])
      {
        var found := LookUp(m.conflictNames[i]);
        if found.None? { return false; }
        m.conflict := m.conflict + [found.value];
        i := i + 1;
      }
      ok := true;
    }

    /** Every excluded name is in the table. */
    ghost predicate Closed()
      reads this
    {
      forall m, i :: m in modules && 0 <= i < |m.conflictNames| ==> Named(modules, m.conflictNames[i])
    }

    method ResolveAll() returns (ok: bool)
      modifies modules
      ensures ok ==> Resolved(modules)
      ensures ok <==> Closed()
      ensures forall m | m in modules && m.conflictNames == [] :: m.conflict == old(m.conflict)
      ensures forall m | m in modules :: m.enabled == old(m.enabled)
    {
      var i := 0;
      while i < |modules|
        invariant i <= |modules|
        invariant forall k :: 0 <= k < i && modules[k].conflictNames != [] ==>
                    Resolves(modules, modules[k].conflictNames, modules[k].conflict)
        invariant forall k, j :: 0 <= k < i && 0 <= j < |modules[k].conflictNames| ==>
                    Named(modules, modules[k].conflictNames[j])
        invariant forall m | m in modules && m.conflictNames == [] :: m.conflict == old(m.conflict)
        invariant forall m | m in modules :: m.enabled == old(m.enabled)
      {
        if modules[i].conflictNames != [] {
          ok := ResolveModule(modules[i]);
          if !ok { return false; }
        }
        i := i + 1;
      }
      ok := true;
    }

    /** ShifterModule_postprocessing: exclusions become references, then the default modules are activated. */
    method Postprocess() returns (ok: bool)
      modifies this, modules
      ensures modules == old(modules) && defaults == old(defaults)
      ensures ok ==> Resolved(modules)
      ensures ok <==> Closed() && (defaults.Some? ==> Satisfiable(modules, Requested(defaults.value)))
      ensures Closed() && defaults.Some? ==> ConflictFree(active) && Follows(modules, Requested(defaults.value), active)
      ensures ok && defaults.Some? ==> |active| == |Requested(defaults.value)|
      ensures !Closed() || defaults.None? ==> active == old(active)
    {
      ok := ResolveAll();
      if ok && defaults.Some? {
        ok := ParseSelected(defaults.value);
      }
    }
  }

  lemma NothingChosen(modules: seq<ShifterModule>, names: seq<string>)
    ensures Follows(modules, names, []) && ConflictFree([])
    ensures names == [] ==> Satisfiable(modules, names)
  {
  }

  lemma NextName(names: seq<string>, n: nat, search: string)
    requires n <= |names| && names[n..] == Tokens(search, ',') && Skip(search, ',') != ""
    ensures n < |names| && names[n] == NextToken(search, ',').0
    ensures names[n + 1..] == Tokens(NextToken(search, ',').1, ',')
  {
    assert names[n..][0] == names[n] && names[n..][1..] == names[n + 1..];
  }

  lemma Stops(modules: seq<ShifterModule>, names: seq<string>, active: seq<ShifterModule>, found: Option<ShifterModule>)
    requires |active| < |names|
    requires found.None? ==> !Known(modules, names[|active|])
    requires found.Some? ==> Chosen(modules, names[|active|], found.value) && Barred(active, found.value)
    ensures StoppedAt(modules, names, active)
  {
    forall m | m in modules && Chosen(modules, names[|active|], m) ensures Barred(active, m) {
      if found.Some? {
        ChosenIsUnique(modules, names[|active|], m, found.value);
      }
    }
  }

  lemma Extends(modules: seq<ShifterModule>, names: seq<string>, active: seq<ShifterModule>, m: ShifterModule)
    requires |active| < |names| && Follows(modules, names, active) && ConflictFree(active)
    requires Chosen(modules, names[|active|], m) && !Barred(active, m)
    ensures Follows(modules, names, active + [m]) && ConflictFree(active + [m])
  {
  }
}
