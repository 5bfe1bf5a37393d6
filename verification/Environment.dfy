/** The container's environment array (shifter_core.c), and the order in which its sources are laid over each other. */
module Environment {
  import opened Wrappers
  import opened Text

  datatype Mode = Replace | Append | Prepend

  // One request against the environment.
  datatype Op = Put(entry: string, mode: Mode) | Unset(variable: string)

  // The four lists a site or a module brings along.
  datatype Settings = Settings(env: seq<string>, append: seq<string>, prepend: seq<string>, unset: seq<string>)

  /* Entries. */

  function NameOf(entry: string): (name: string)
    ensures '=' !in name && name <= entry
  {
    Before(entry, '=')
  }

  predicate IsBinding(entry: string) {
    |NameOf(entry)| < |entry|
  }

  function ValueOf(entry: string): string {
    if IsBinding(entry) then entry[|NameOf(entry)| + 1..] else ""
  }

  /** What `_shifter_putenv` accepts: an equals sign and something after it. */
  predicate HasValue(entry: string) {
    ValueOf(entry) != ""
  }

  /** `strncmp(entry, key, n + 1) == 0` for the key `name=`. */
  predicate Matches(entry: string, name: string) {
    name + "=" <= entry
  }

  lemma MatchesByName(entry: string, name: string)
    requires '=' !in name
    ensures Matches(entry, name) <==> IsBinding(entry) && NameOf(entry) == name
  {
    if Matches(entry, name) {
      assert (name + "=")[|name|] == '=' && name <= entry;
      BeforeIsUnique(entry, '=', name);
    }
    if IsBinding(entry) && NameOf(entry) == name {
      assert entry[..|name| + 1] == name + "=";
    }
  }

  lemma EntryParts(entry: string)
    requires IsBinding(entry)
    ensures entry == NameOf(entry) + "=" + ValueOf(entry)
  {
  }

  lemma BuiltEntry(name: string, value: string)
    requires '=' !in name
    ensures IsBinding(name + "=" + value)
    ensures NameOf(name + "=" + value) == name && ValueOf(name + "=" + value) == value
  {
    var e := name + "=" + value;
    assert name <= e && e[|name|] == '=';
    BeforeIsUnique(e, '=', name);
    assert e[|name| + 1..] == value;
  }

  /** The entry that takes the place of `present` when `entry` is put over it. */
  function Merged(present: string, entry: string, mode: Mode): string {
    if mode == Replace || ValueOf(present) == "" then entry
    else if mode == Prepend then entry + ":" + ValueOf(present)
    else present + ":" + ValueOf(entry)
  }

  /** The same on values alone. */
  function Combined(present: string, value: string, mode: Mode): string {
    if mode == Replace || present == "" then value
    else if mode == Prepend then value + ":" + present
    else present + ":" + value
  }

  lemma MergedMeaning(present: string, entry: string, mode: Mode)
    requires IsBinding(present) && IsBinding(entry) && NameOf(present) == NameOf(entry)
    ensures IsBinding(Merged(present, entry, mode)) && NameOf(Merged(present, entry, mode)) == NameOf(entry)
    ensures ValueOf(Merged(present, entry, mode)) == Combined(ValueOf(present), ValueOf(entry), mode)
  {
    EntryParts(present);
    EntryParts(entry);
    var value := Combined(ValueOf(present), ValueOf(entry), mode);
    assert Merged(present, entry, mode) == NameOf(entry) + "=" + value;
    BuiltEntry(NameOf(entry), value);
  }

  /* The array as a sequence. */

  /** The index of the first entry for `name`, or the length. */
  function Find(env: seq<string>, name: string): (i: nat)
    ensures i <= |env|
    ensures i < |env| ==> Matches(env[i], name)
    ensures forall k :: 0 <= k < i ==> !Matches(env[k], name)
  {
    if env == [] || Matches(env[0], name) then 0 else 1 + Find(env[1..], name)
  }

  lemma FindIsFirst(env: seq<string>, name: string, i: nat)
    requires i <= |env| && (i < |env| ==> Matches(env[i], name))
    requires forall k :: 0 <= k < i ==> !Matches(env[k], name)
    ensures Find(env, name) == i
  {
  }

  function PutEntry(env: seq<string>, entry: string, mode: Mode): seq<string> {
    var i := Find(env, NameOf(entry));
    if !HasValue(entry) then env
    else if i < |env| then env[i := Merged(env[i], entry, mode)]
    else env + [entry]
  }

  /** The last entry moves into the gap. */
  function UnsetEntry(env: seq<string>, variable: string): seq<string> {
    var i := Find(env, NameOf(variable));
    if i < |env| then env[i := env[|env| - 1]][..|env| - 1] else env
  }

  function Step(env: seq<string>, op: Op): seq<string> {
    match op
    case Put(entry, mode) => PutEntry(env, entry, mode)
    case Unset(variable) => UnsetEntry(env, variable)
  }

  function Run(env: seq<string>, ops: seq<Op>): seq<string> {
    if ops == [] then env else Step(Run(env, ops[..|ops| - 1]), ops[|ops| - 1])
  }

  /* The array as a map. */

  /** What `getenv` answers: the first entry of a name speaks for it. */
  function Bindings(env: seq<string>): (m: map<string, string>)
    ensures forall name :: name in m ==> '=' !in name
  {
    if env == [] then map[]
    else
      var rest := Bindings(env[1..]);
      if IsBinding(env[0]) then rest[NameOf(env[0]) := ValueOf(env[0])] else rest
  }

  /** No two entries bind the same name. */
  ghost predicate Distinct(env: seq<string>) {
    forall i, j :: 0 <= i < j < |env| ==> Unlike(env[i], env[j])
  }

  predicate Unlike(a: string, b: string) {
    IsBinding(a) && IsBinding(b) ==> NameOf(a) != NameOf(b)
  }

  lemma {:induction false} BindingsFind(env: seq<string>, name: string)
    requires '=' !in name
    ensures name in Bindings(env) <==> Find(env, name) < |env|
    ensures name in Bindings(env) ==> Bindings(env)[name] == ValueOf(env[Find(env, name)])
  {
    if env != [] {
      MatchesByName(env[0], name);
      BindingsFind(env[1..], name);
    }
  }

  lemma SameBindings(env: seq<string>, m: map<string, string>)
    requires forall name :: name in m ==> '=' !in name
    requires forall name: string :: '=' !in name ==> Agrees(env, m, name)
    ensures Bindings(env) == m
  {
    var b := Bindings(env);
    forall name: string | '=' !in name
      ensures (name in b <==> name in m) && (name in b ==> b[name] == m[name])
    {
      assert Agrees(env, m, name);
      BindingsFind(env, name);
    }
    assert forall name :: name in b <==> name in m;
  }

  predicate Agrees(env: seq<string>, m: map<string, string>, name: string) {
    && (name in m <==> Find(env, name) < |env|)
    && (name in m ==> m[name] == ValueOf(env[Find(env, name)]))
  }

  function PutValue(m: map<string, string>, entry: string, mode: Mode): map<string, string> {
    var name := NameOf(entry);
    if !HasValue(entry) then m
    else m[name := if name in m then Combined(m[name], ValueOf(entry), mode) else ValueOf(entry)]
  }

  function Meaning(m: map<string, string>, op: Op): map<string, string> {
    match op
    case Put(entry, mode) => PutValue(m, entry, mode)
    case Unset(variable) => m - {NameOf(variable)}
  }

  function Outcome(m: map<string, string>, ops: seq<Op>): map<string, string> {
    if ops == [] then m else Meaning(Outcome(m, ops[..|ops| - 1]), ops[|ops| - 1])
  }

  /** Putting an entry is an update of the map, on any array. */
  lemma PutMeaning(env: seq<string>, entry: string, mode: Mode)
    ensures Bindings(PutEntry(env, entry, mode)) == PutValue(Bindings(env), entry, mode)
    ensures Distinct(env) ==> Distinct(PutEntry(env, entry, mode))
  {
    hide Find, Bindings, Merged, Combined, ValueOf;
    if HasValue(entry) {
      var own, r := NameOf(entry), PutEntry(env, entry, mode);
      var i := Find(env, own);
      HasValueBinds(entry);
      MatchesByName(entry, own);
      if i < |env| {
        MatchesByName(env[i], own);
        MergedMeaning(env[i], entry, mode);
      }
      forall name: string | '=' !in name ensures Agrees(r, PutValue(Bindings(env), entry, mode), name) {
        PutElsewhere(env, entry, mode, name);
      }
      SameBindings(r, PutValue(Bindings(env), entry, mode));
      if Distinct(env) {
        forall j, k | 0 <= j < k < |r| ensures Unlike(r[j], r[k]) {
          if k < |env| {
            assert Unlike(env[j], env[k]);
          } else {
            MatchesByName(env[j], own);
          }
        }
      }
    }
  }

  lemma PutElsewhere(env: seq<string>, entry: string, mode: Mode, name: string)
    requires HasValue(entry) && '=' !in name
    ensures Agrees(PutEntry(env, entry, mode), PutValue(Bindings(env), entry, mode), name)
  {
    hide HasValue, ValueOf, Bindings, Merged, Combined, Find;
    var own, r := NameOf(entry), PutEntry(env, entry, mode);
    var i, f := Find(env, own), Find(env, name);
    BindingsFind(env, name);
    BindingsFind(env, own);
    MatchesByName(entry, name);
    HasValueBinds(entry);
    if i < |env| {
      MatchesByName(env[i], own);
      MatchesByName(env[i], name);
      MergedMeaning(env[i], entry, mode);
      MatchesByName(r[i], name);
      FindIsFirst(r, name, f);
    } else {
      FindIsFirst(r, name, if f < |env| then f else if name == own then |env| else |env| + 1);
    }
  }

  lemma HasValueBinds(entry: string)
    requires HasValue(entry)
    ensures IsBinding(entry)
  {
  }

  /** How many entries bind `name`. */
  function Count(env: seq<string>, name: string): nat {
    if env == [] then 0 else (if Matches(env[0], name) then 1 else 0) + Count(env[1..], name)
  }

  lemma {:induction false} CountConcat(a: seq<string>, b: seq<string>, name: string)
    ensures Count(a + b, name) == Count(a, name) + Count(b, name)
  {
    if a == [] {
      assert a + b == b;
    } else {
      assert (a + b)[1..] == a[1..] + b;
      CountConcat(a[1..], b, name);
    }
  }

  lemma {:induction false} CountZero(env: seq<string>, name: string)
    ensures Count(env, name) == 0 <==> Find(env, name) == |env|
  {
    if env != [] {
      CountZero(env[1..], name);
    }
  }

  lemma SplitLast(s: seq<string>, i: nat)
    requires i < |s|
    ensures s[i..] == s[i..|s| - 1] + [s[|s| - 1]]
  {
  }

  lemma UnsetCount(env: seq<string>, variable: string, name: string)
    requires '=' !in name
    ensures Count(UnsetEntry(env, variable), name) ==
            if name == NameOf(variable) && Count(env, name) > 0 then Count(env, name) - 1 else Count(env, name)
  {
    hide NameOf, Find, IsBinding, Matches;
    var own := NameOf(variable);
    var i := Find(env, own);
    CountZero(env, own);
    if i < |env| {
      MatchesByName(env[i], own);
      MatchesByName(env[i], name);
      var n := |env| - 1;
      var r := UnsetEntry(env, variable);
      CountMiddle(env, i, name);
      if i < n {
        SplitLast(env, i + 1);
        CountConcat(env[i + 1..n], [env[n]], name);
        assert r[..i] == env[..i] && r[i] == env[n] && r[i + 1..] == env[i + 1..n];
        CountMiddle(r, i, name);
      } else {
        assert r == env[..i];
      }
    }
  }

  lemma CountMiddle(env: seq<string>, i: nat, name: string)
    requires i < |env|
    ensures Count(env, name) == Count(env[..i], name) + Count([env[i]], name) + Count(env[i + 1..], name)
    ensures i + 1 == |env| ==> Count(env[i + 1..], name) == 0
  {
    assert env == env[..i] + ([env[i]] + env[i + 1..]);
    CountConcat(env[..i], [env[i]] + env[i + 1..], name);
    CountConcat([env[i]], env[i + 1..], name);
  }

  /** Removal takes out one entry, so a name is gone exactly when it had no second entry. */
  lemma UnsetRemovesOneEntry(env: seq<string>, variable: string)
    ensures NameOf(variable) !in Bindings(UnsetEntry(env, variable)) <==> Count(env, NameOf(variable)) <= 1
  {
    UnsetCount(env, variable, NameOf(variable));
    CountZero(UnsetEntry(env, variable), NameOf(variable));
    BindingsFind(UnsetEntry(env, variable), NameOf(variable));
  }

  lemma DistinctMeansOnce(env: seq<string>, name: string, i: nat)
    requires Distinct(env) && '=' !in name && i < |env| && Matches(env[i], name)
    ensures forall k | 0 <= k < |env| && k != i :: !Matches(env[k], name)
  {
    MatchesByName(env[i], name);
    forall k | 0 <= k < |env| && k != i ensures !Matches(env[k], name) {
      MatchesByName(env[k], name);
      assert if k < i then Unlike(env[k], env[i]) else Unlike(env[i], env[k]);
    }
  }

  lemma UnsetMeaning(env: seq<string>, variable: string)
    requires Distinct(env)
    ensures Bindings(UnsetEntry(env, variable)) == Bindings(env) - {NameOf(variable)}
    ensures Distinct(UnsetEntry(env, variable))
  {
    var own, r := NameOf(variable), UnsetEntry(env, variable);
    var i := Find(env, own);
    if i < |env| {
      forall j, k | 0 <= j < k < |r| ensures Unlike(r[j], r[k]) {
        UnsetKeepsApart(env, variable, j, k);
      }
    }
    forall name: string | '=' !in name ensures Agrees(r, Bindings(env) - {own}, name) {
      UnsetElsewhere(env, variable, name);
    }
    SameBindings(r, Bindings(env) - {own});
  }

  lemma UnsetKeepsApart(env: seq<string>, variable: string, j: nat, k: nat)
    requires Distinct(env) && Find(env, NameOf(variable)) < |env|
    requires j < k < |UnsetEntry(env, variable)|
    ensures Unlike(UnsetEntry(env, variable)[j], UnsetEntry(env, variable)[k])
  {
    var n := |env| - 1;
    assert Unlike(env[j], env[k]) && Unlike(env[j], env[n]) && Unlike(env[k], env[n]);
  }

  lemma UnsetElsewhere(env: seq<string>, variable: string, name: string)
    requires Distinct(env) && '=' !in name
    ensures Agrees(UnsetEntry(env, variable), Bindings(env) - {NameOf(variable)}, name)
  {
    hide ValueOf, Bindings, Find;
    var own, r := NameOf(variable), UnsetEntry(env, variable);
    var i, f, n := Find(env, own), Find(env, name), |env| - 1;
    BindingsFind(env, name);
    if i < |env| {
      MatchesByName(env[i], own);
      MatchesByName(env[i], name);
      DistinctMeansOnce(env, own, i);
      if name == own {
        FindIsFirst(r, name, n);
      } else if f < |env| {
        DistinctMeansOnce(env, name, f);
        FindIsFirst(r, name, if f == n then i else f);
      } else {
        FindIsFirst(r, name, n);
      }
    }
  }

  /** A run over an array of distinct names is a run over the map. */
  lemma {:induction false} RunRefinesMap(env: seq<string>, ops: seq<Op>)
    requires Distinct(env)
    ensures Bindings(Run(env, ops)) == Outcome(Bindings(env), ops)
    ensures Distinct(Run(env, ops))
  {
    hide Bindings, Distinct, PutValue, PutEntry, UnsetEntry;
    if ops != [] {
      var before := Run(env, ops[..|ops| - 1]);
      RunRefinesMap(env, ops[..|ops| - 1]);
      match ops[|ops| - 1]
      case Put(entry, mode) => PutMeaning(before, entry, mode);
      case Unset(variable) => UnsetMeaning(before, variable);
    }
  }

  lemma RunLast(env: seq<string>, ops: seq<Op>, op: Op)
    ensures Run(env, ops + [op]) == Step(Run(env, ops), op)
  {
    assert (ops + [op])[..|ops|] == ops;
  }

  lemma RefusedPut(env: seq<string>, entry: string)
    requires !HasValue(entry)
    ensures PutEntry(env, entry, Replace) == env
  {
  }

  lemma {:induction false} RunConcat(env: seq<string>, a: seq<Op>, b: seq<Op>)
    ensures Run(env, a + b) == Run(Run(env, a), b)
  {
    if b == [] {
      assert a + b == a;
    } else {
      assert (a + b)[..|a + b| - 1] == a + b[..|b| - 1];
      RunConcat(env, a, b[..|b| - 1]);
    }
  }

  lemma {:induction false} ResultConcat(m: map<string, string>, a: seq<Op>, b: seq<Op>)
    ensures Outcome(m, a + b) == Outcome(Outcome(m, a), b)
  {
    if b == [] {
      assert a + b == a;
    } else {
      assert (a + b)[..|a + b| - 1] == a + b[..|b| - 1];
      ResultConcat(m, a, b[..|b| - 1]);
    }
  }

  /** Setting the same entry again changes nothing. */
  lemma PutTwice(env: seq<string>, entry: string)
    ensures PutEntry(PutEntry(env, entry, Replace), entry, Replace) == PutEntry(env, entry, Replace)
  {
    var name, r := NameOf(entry), PutEntry(env, entry, Replace);
    if HasValue(entry) {
      MatchesByName(entry, name);
      var i := Find(env, name);
      FindIsFirst(r, name, i);
      assert r[i] == entry;
      assert r[i := entry] == r;
    }
  }

  /* Where the entries come from. */

  function Puts(entries: seq<string>, mode: Mode): (ops: seq<Op>)
    ensures |ops| == |entries|
    ensures forall i :: 0 <= i < |ops| ==> ops[i] == Put(entries[i], mode)
  {
    seq(|entries|, i requires 0 <= i < |entries| => Put(entries[i], mode))
  }

  function Unsets(variables: seq<string>): (ops: seq<Op>)
    ensures |ops| == |variables|
    ensures forall i :: 0 <= i < |ops| ==> ops[i] == Unset(variables[i])
  {
    seq(|variables|, i requires 0 <= i < |variables| => Unset(variables[i]))
  }

  function SettingsOps(s: Settings): seq<Op> {
    Puts(s.env, Replace) + Puts(s.append, Append) + Puts(s.prepend, Prepend) + Unsets(s.unset)
  }

  function ModuleOps(modules: seq<Settings>): seq<Op> {
    if modules == [] then [] else ModuleOps(modules[..|modules| - 1]) + SettingsOps(modules[|modules| - 1])
  }

  predicate Ignored(line: string) {
    Trim(line) == "" || Trim(line)[0] == '#'
  }

  /** The entries of an env file up to the first line that is not accepted. */
  function FileEntries(lines: seq<string>): seq<string> {
    if lines == [] then []
    else if Ignored(lines[0]) then FileEntries(lines[1..])
    else if !HasValue(Trim(lines[0])) then []
    else [Trim(lines[0])] + FileEntries(lines[1..])
  }

  predicate FileAccepted(lines: seq<string>) {
    forall i :: 0 <= i < |lines| ==> Ignored(lines[i]) || HasValue(Trim(lines[i]))
  }

  /**
   * A file that ends in a newline makes one more failing read, which leaves the last line in
   * the buffer. It is put again, with no effect.
   */
  lemma LastLineTwice(env: seq<string>, lines: seq<string>)
    requires lines != [] && FileAccepted(lines)
    ensures Run(env, Puts(FileEntries(lines + [lines[|lines| - 1]]), Replace)) ==
              Run(env, Puts(FileEntries(lines), Replace))
    ensures FileAccepted(lines + [lines[|lines| - 1]])
  {
    hide HasValue, Ignored, Trim, PutEntry, FileEntries;
    var last := lines[|lines| - 1];
    assert lines[..|lines| - 1] + [last] == lines;
    FileEntriesLast(lines[..|lines| - 1], last);
    FileEntriesLast(lines, last);
    if !Ignored(last) {
      var before, entry := FileEntries(lines[..|lines| - 1]), Trim(last);
      assert FileEntries(lines) == before + [entry];
      PutsLast(before, entry, Replace);
      PutsLast(before + [entry], entry, Replace);
      RunLast(env, Puts(before, Replace), Put(entry, Replace));
      RunLast(env, Puts(before + [entry], Replace), Put(entry, Replace));
      PutTwice(Run(env, Puts(before, Replace)), entry);
    } else {
      assert FileEntries(lines + [last]) == FileEntries(lines);
    }
  }

  lemma {:induction false} FileEntriesLast(lines: seq<string>, line: string)
    requires FileAccepted(lines) && (Ignored(line) || HasValue(Trim(line)))
    ensures FileEntries(lines + [line]) == FileEntries(lines) + (if Ignored(line) then [] else [Trim(line)])
  {
    if lines != [] {
      assert (lines + [line])[1..] == lines[1..] + [line];
      FileEntriesLast(lines[1..], line);
    }
  }

  lemma {:induction false} FileEntriesStop(lines: seq<string>, i: nat)
    requires i < |lines| && !Ignored(lines[i]) && !HasValue(Trim(lines[i]))
    requires FileAccepted(lines[..i])
    ensures FileEntries(lines) == FileEntries(lines[..i])
  {
    if i > 0 {
      assert lines[..i][0] == lines[0] && lines[..i][1..] == lines[1..][..i - 1];
      FileEntriesStop(lines[1..], i - 1);
    }
  }

  lemma NoFileEntries(env: seq<string>, lines: seq<string>)
    ensures FileAccepted(lines[..0]) && Run(env, Puts(FileEntries(lines[..0]), Replace)) == env
  {
  }

  /** What one line of the file adds to the lines before it. */
  lemma FileStep(env: seq<string>, lines: seq<string>, i: nat)
    requires i < |lines| && FileAccepted(lines[..i])
    ensures var line, before := lines[i], Run(env, Puts(FileEntries(lines[..i]), Replace));
            var after := Run(env, Puts(FileEntries(lines[..i + 1]), Replace));
            && (Ignored(line) ==> FileAccepted(lines[..i + 1]) && after == before)
            && (!Ignored(line) && HasValue(Trim(line)) ==>
                  FileAccepted(lines[..i + 1]) && after == PutEntry(before, Trim(line), Replace))
            && (!Ignored(line) && !HasValue(Trim(line)) ==>
                  && !FileAccepted(lines) && PutEntry(before, Trim(line), Replace) == before
                  && Run(env, Puts(FileEntries(lines), Replace)) == before)
  {
    hide HasValue, Trim, PutEntry, Run, FileEntries, Puts, Ignored;
    var line, entries := lines[i], FileEntries(lines[..i]);
    assert lines[..i + 1] == lines[..i] + [line];
    if !Ignored(line) && !HasValue(Trim(line)) {
      FileEntriesStop(lines, i);
      RefusedPut(Run(env, Puts(entries, Replace)), Trim(line));
    } else {
      FileEntriesLast(lines[..i], line);
      if Ignored(line) {
        assert entries + [] == entries;
      } else {
        PutsLast(entries, Trim(line), Replace);
        RunLast(env, Puts(entries, Replace), Put(Trim(line), Replace));
        PutStep(Run(env, Puts(entries, Replace)), Trim(line));
      }
    }
  }

  lemma PutStep(env: seq<string>, entry: string)
    ensures Step(env, Put(entry, Replace)) == PutEntry(env, entry, Replace)
  {
  }

  lemma PutsLast(entries: seq<string>, entry: string, mode: Mode)
    ensures Puts(entries + [entry], mode) == Puts(entries, mode) + [Put(entry, mode)]
  {
  }

  /** Everything that happens before the site has its say. */
  function UserOps(image: seq<string>, file: seq<string>, user: seq<string>, modules: seq<Settings>): seq<Op> {
    Puts(image, Replace) + Puts(FileEntries(file), Replace) + Puts(user, Replace) + ModuleOps(modules)
  }

  predicate UserAccepted(file: seq<string>, user: seq<string>) {
    FileAccepted(file) && forall i :: 0 <= i < |user| ==> HasValue(user[i])
  }

  /** An equals sign with something behind it. */
  predicate Assigns(entry: string) {
    exists k :: 0 <= k < |entry| - 1 && entry[k] == '='
  }

  lemma AssignsExact(entry: string)
    ensures HasValue(entry) <==> Assigns(entry)
  {
    var name := NameOf(entry);
    if IsBinding(entry) {
      assert entry[|name|] == '=';
      assert forall j :: 0 <= j < |name| ==> entry[j] == name[j];
    } else {
      assert name == entry;
    }
  }

  lemma AcceptedAssigns(file: seq<string>, user: seq<string>)
    ensures UserAccepted(file, user) <==>
              && (forall i :: 0 <= i < |user| ==> Assigns(user[i]))
              && forall i :: 0 <= i < |file| ==>
                   var line := Trim(file[i]);
                   line == "" || line[0] == '#' || Assigns(line)
  {
    hide Assigns, HasValue, Trim;
    forall i | 0 <= i < |user| ensures HasValue(user[i]) <==> Assigns(user[i]) { AssignsExact(user[i]); }
    forall i | 0 <= i < |file| ensures HasValue(Trim(file[i])) <==> Assigns(Trim(file[i])) {
      AssignsExact(Trim(file[i]));
    }
  }

  /* Precedence. */

  predicate Touches(op: Op, name: string) {
    match op
    case Put(entry, _) => HasValue(entry) && NameOf(entry) == name
    case Unset(variable) => NameOf(variable) == name
  }

  predicate Untouched(ops: seq<Op>, name: string) {
    forall i :: 0 <= i < |ops| ==> !Touches(ops[i], name)
  }

  lemma {:induction false} UntouchedKeeps(m: map<string, string>, ops: seq<Op>, name: string)
    requires Untouched(ops, name)
    ensures name in Outcome(m, ops) <==> name in m
    ensures name in m ==> Outcome(m, ops)[name] == m[name]
  {
    if ops != [] {
      UntouchedKeeps(m, ops[..|ops| - 1], name);
      assert !Touches(ops[|ops| - 1], name);
    }
  }

  /** The last `Replace` or `Unset` of a name wins over everything before it. */
  lemma LastWordWins(m: map<string, string>, before: seq<Op>, op: Op, after: seq<Op>, name: string)
    requires Touches(op, name) && (op.Put? ==> op.mode == Replace) && Untouched(after, name)
    ensures op.Unset? ==> name !in Outcome(m, before + [op] + after)
    ensures op.Put? ==> name in Outcome(m, before + [op] + after)
                        && Outcome(m, before + [op] + after)[name] == ValueOf(op.entry)
  {
    ResultConcat(m, before + [op], after);
    assert (before + [op])[..|before|] == before;
    UntouchedKeeps(Outcome(m, before + [op]), after, name);
  }

  predicate Binds(entries: seq<string>, i: int, name: string)
    requires 0 <= i < |entries|
  {
    HasValue(entries[i]) && NameOf(entries[i]) == name
  }

  /** No variable the site unsets is left, whatever came before. */
  lemma SiteUnsetWins(m: map<string, string>, before: seq<Op>, site: Settings, k: nat)
    requires k < |site.unset|
    ensures NameOf(site.unset[k]) !in Outcome(m, before + SettingsOps(site))
  {
    var name := NameOf(site.unset[k]);
    var head := before + Puts(site.env, Replace) + Puts(site.append, Append) + Puts(site.prepend, Prepend);
    assert before + SettingsOps(site) == head + Unsets(site.unset);
    UnsetStays(Outcome(m, head), site.unset, k);
    ResultConcat(m, head, Unsets(site.unset));
  }

  lemma {:induction false} UnsetStays(m: map<string, string>, variables: seq<string>, k: nat)
    requires k < |variables|
    ensures NameOf(variables[k]) !in Outcome(m, Unsets(variables))
  {
    var n := |variables| - 1;
    assert Unsets(variables)[..n] == Unsets(variables[..n]);
    if k < n {
      UnsetStays(m, variables[..n], k);
    }
  }

  /** A variable the site sets, and does not touch otherwise, has the site's last value. */
  lemma SiteSetWins(m: map<string, string>, before: seq<Op>, site: Settings, k: nat)
    requires k < |site.env| && HasValue(site.env[k])
    requires forall i :: k < i < |site.env| ==> !Binds(site.env, i, NameOf(site.env[k]))
    requires Untouched(Puts(site.append, Append), NameOf(site.env[k]))
    requires Untouched(Puts(site.prepend, Prepend), NameOf(site.env[k]))
    requires Untouched(Unsets(site.unset), NameOf(site.env[k]))
    ensures NameOf(site.env[k]) in Outcome(m, before + SettingsOps(site))
    ensures Outcome(m, before + SettingsOps(site))[NameOf(site.env[k])] == ValueOf(site.env[k])
  {
    hide HasValue, ValueOf, NameOf, Outcome;
    var name, puts := NameOf(site.env[k]), Puts(site.env, Replace);
    var last := Puts(site.append, Append) + Puts(site.prepend, Prepend) + Unsets(site.unset);
    var after := puts[k + 1..] + last;
    assert puts == puts[..k] + [puts[k]] + puts[k + 1..];
    assert before + SettingsOps(site) == (before + puts[..k]) + [puts[k]] + after;
    var tail := puts[k + 1..];
    forall i | 0 <= i < |tail| ensures !Touches(tail[i], name) {
      assert !Binds(site.env, k + 1 + i, name);
    }
    UntouchedConcat(Puts(site.append, Append), Puts(site.prepend, Prepend), name);
    UntouchedConcat(Puts(site.append, Append) + Puts(site.prepend, Prepend), Unsets(site.unset), name);
    UntouchedConcat(puts[k + 1..], last, name);
    LastWordWins(m, before + puts[..k], puts[k], after, name);
  }

  lemma UntouchedConcat(a: seq<Op>, b: seq<Op>, name: string)
    requires Untouched(a, name) && Untouched(b, name)
    ensures Untouched(a + b, name)
  {
  }

  /**
   * What the site appends and prepends surrounds what it set, in that order: the last prepended
   * value is first and the last appended one is last.
   */
  function Surrounded(value: string, appended: seq<string>, prepended: seq<string>): string {
    if prepended != [] then prepended[|prepended| - 1] + ":" + Surrounded(value, appended, prepended[..|prepended| - 1])
    else if appended != [] then Surrounded(value, appended[..|appended| - 1], []) + ":" + appended[|appended| - 1]
    else value
  }

  function ValuesFor(entries: seq<string>, name: string): (r: seq<string>)
    ensures forall i :: 0 <= i < |r| ==> r[i] != ""
  {
    if entries == [] then []
    else
      var rest, last := ValuesFor(entries[..|entries| - 1], name), entries[|entries| - 1];
      if HasValue(last) && NameOf(last) == name then rest + [ValueOf(last)] else rest
  }

  lemma {:induction false} AppendedValue(m: map<string, string>, entries: seq<string>, name: string)
    requires name in m && m[name] != ""
    ensures name in Outcome(m, Puts(entries, Append))
    ensures Outcome(m, Puts(entries, Append))[name] == Surrounded(m[name], ValuesFor(entries, name), [])
    ensures Outcome(m, Puts(entries, Append))[name] != ""
  {
    if entries != [] {
      var n := |entries| - 1;
      assert Puts(entries, Append)[..n] == Puts(entries[..n], Append);
      AppendedValue(m, entries[..n], name);
      var rest := ValuesFor(entries[..n], name);
      assert (rest + [ValueOf(entries[n])])[..|rest|] == rest;
    }
  }

  lemma {:induction false} PrependedValue(m: map<string, string>, value: string,
      appended: seq<string>, entries: seq<string>, name: string)
    requires name in m && m[name] != "" && m[name] == Surrounded(value, appended, [])
    ensures name in Outcome(m, Puts(entries, Prepend))
    ensures Outcome(m, Puts(entries, Prepend))[name] == Surrounded(value, appended, ValuesFor(entries, name))
    ensures Outcome(m, Puts(entries, Prepend))[name] != ""
  {
    if entries != [] {
      var n := |entries| - 1;
      assert Puts(entries, Prepend)[..n] == Puts(entries[..n], Prepend);
      PrependedValue(m, value, appended, entries[..n], name);
      var rest := ValuesFor(entries[..n], name);
      assert (rest + [ValueOf(entries[n])])[..|rest|] == rest;
    }
  }

  /** The full value of a variable the site does not unset and that has a value when the site's lists are reached. */
  lemma SiteSurrounds(m: map<string, string>, before: seq<Op>, site: Settings, name: string)
    requires Untouched(Unsets(site.unset), name)
    requires name in Outcome(m, before + Puts(site.env, Replace))
    requires Outcome(m, before + Puts(site.env, Replace))[name] != ""
    ensures name in Outcome(m, before + SettingsOps(site))
    ensures Outcome(m, before + SettingsOps(site))[name] ==
            Surrounded(Outcome(m, before + Puts(site.env, Replace))[name],
              ValuesFor(site.append, name), ValuesFor(site.prepend, name))
  {
    hide Outcome, Surrounded, ValuesFor, HasValue, ValueOf, NameOf;
    var head := before + Puts(site.env, Replace);
    var m0 := Outcome(m, head);
    var m1 := Outcome(m0, Puts(site.append, Append));
    var m2 := Outcome(m1, Puts(site.prepend, Prepend));
    assert before + SettingsOps(site) == head + Puts(site.append, Append)
      + Puts(site.prepend, Prepend) + Unsets(site.unset);
    ResultConcat(m, head, Puts(site.append, Append));
    ResultConcat(m, head + Puts(site.append, Append), Puts(site.prepend, Prepend));
    ResultConcat(m, head + Puts(site.append, Append) + Puts(site.prepend, Prepend), Unsets(site.unset));
    AppendedValue(m0, site.append, name);
    PrependedValue(m1, m0[name], ValuesFor(site.append, name), site.prepend, name);
    UntouchedKeeps(m2, Unsets(site.unset), name);
  }

  /* Which source wins. */

  /** An entry of the list sets this variable to something. */
  predicate Sets(entries: seq<string>, name: string) {
    exists i | 0 <= i < |entries| :: name + "=" < entries[i]
  }

  /** The last entry of the list that sets the variable sets it to this value. */
  predicate SetsLast(entries: seq<string>, name: string, value: string) {
    exists i | 0 <= i < |entries| :: entries[i] == name + "=" + value && !Sets(entries[i + 1..], name)
  }

  /** A line of the file sets the variable; a name that begins with '#' cannot be set there. */
  predicate FileSets(lines: seq<string>, name: string) {
    !("#" <= name) && exists i | 0 <= i < |lines| :: name + "=" < Trim(lines[i])
  }

  predicate FileSetsLast(lines: seq<string>, name: string, value: string) {
    !("#" <= name)
    && exists i | 0 <= i < |lines| :: Trim(lines[i]) == name + "=" + value && !FileSets(lines[i + 1..], name)
  }

  /** The variable is unset, named alone or with a value behind it. */
  predicate Drops(variables: seq<string>, name: string) {
    exists i | 0 <= i < |variables| :: variables[i] == name || name + "=" <= variables[i]
  }

  /** The variable is appended to, prepended to or unset. */
  predicate Changes(s: Settings, name: string) {
    Sets(s.append, name) || Sets(s.prepend, name) || Drops(s.unset, name)
  }

  predicate Mentions(s: Settings, name: string) {
    Sets(s.env, name) || Changes(s, name)
  }

  predicate AnyMentions(modules: seq<Settings>, name: string) {
    exists i | 0 <= i < |modules| :: Mentions(modules[i], name)
  }

  /**
   * A variable that the site unsets is gone, and one that it sets, without changing it further, has its last value.
   * One that the site does not mention has the value of the last module that sets it, unless that one or a later one
   * changes it; or else the user's, or else the file's, or else the image's last value, or what it had before.
   */
  ghost predicate Precedence(
    before: map<string, string>, after: map<string, string>,
    image: seq<string>, file: seq<string>, user: seq<string>, modules: seq<Settings>, site: Settings)
  {
    && (forall name: string | '=' !in name && Drops(site.unset, name) :: name !in after)
    && (forall name: string, value: string | '=' !in name && value != "" ::
          SetsLast(site.env, name, value) && !Changes(site, name) ==> Bound(after, name, value))
    && forall name: string | '=' !in name && !Mentions(site, name) ::
         && (forall k, value: string | 0 <= k < |modules| && value != "" ::
               SetsLast(modules[k].env, name, value) && !Changes(modules[k], name)
                 && !AnyMentions(modules[k + 1..], name)
               ==> Bound(after, name, value))
         && (!AnyMentions(modules, name) ==>
               && (forall value: string | value != "" ::
                     || SetsLast(user, name, value)
                     || (!Sets(user, name) && FileSetsLast(file, name, value))
                     || (!Sets(user, name) && !FileSets(file, name) && SetsLast(image, name, value))
                     ==> Bound(after, name, value))
               && (!Sets(user, name) && !FileSets(file, name) && !Sets(image, name) ==> SameIn(before, after, name)))
  }

  predicate Bound(m: map<string, string>, name: string, value: string) {
    name in m && m[name] == value
  }

  predicate SameIn(a: map<string, string>, b: map<string, string>, name: string) {
    (name in a <==> name in b) && (name in a ==> a[name] == b[name])
  }

  lemma BindsByPrefix(entry: string, name: string)
    requires '=' !in name
    ensures HasValue(entry) && NameOf(entry) == name <==> name + "=" < entry
  {
    MatchesByName(entry, name);
    if IsBinding(entry) && NameOf(entry) == name { EntryParts(entry); }
  }

  lemma NotSetUntouched(entries: seq<string>, name: string, mode: Mode)
    requires '=' !in name && !Sets(entries, name)
    ensures Untouched(Puts(entries, mode), name)
  {
    forall i | 0 <= i < |entries| ensures !Touches(Put(entries[i], mode), name) {
      BindsByPrefix(entries[i], name);
    }
  }

  lemma NotDroppedUntouched(variables: seq<string>, name: string)
    requires '=' !in name && !Drops(variables, name)
    ensures Untouched(Unsets(variables), name)
  {
    forall i | 0 <= i < |variables| ensures NameOf(variables[i]) != name {
      if NameOf(variables[i]) == name { MatchesByName(variables[i], name); }
    }
  }

  lemma UnchangedUntouched(s: Settings, name: string)
    requires '=' !in name && !Changes(s, name)
    ensures Untouched(Puts(s.append, Append) + Puts(s.prepend, Prepend) + Unsets(s.unset), name)
  {
    NotSetUntouched(s.append, name, Append);
    NotSetUntouched(s.prepend, name, Prepend);
    NotDroppedUntouched(s.unset, name);
    UntouchedConcat(Puts(s.append, Append), Puts(s.prepend, Prepend), name);
  }

  lemma NotMentionedUntouched(s: Settings, name: string)
    requires '=' !in name && !Mentions(s, name)
    ensures Untouched(SettingsOps(s), name)
  {
    hide Untouched, Sets, Drops;
    NotSetUntouched(s.env, name, Replace);
    NotSetUntouched(s.append, name, Append);
    NotSetUntouched(s.prepend, name, Prepend);
    NotDroppedUntouched(s.unset, name);
    UntouchedConcat(Puts(s.env, Replace), Puts(s.append, Append), name);
    UntouchedConcat(Puts(s.env, Replace) + Puts(s.append, Append), Puts(s.prepend, Prepend), name);
    UntouchedConcat(Puts(s.env, Replace) + Puts(s.append, Append) + Puts(s.prepend, Prepend), Unsets(s.unset), name);
  }

  lemma {:induction false} NoModuleTouches(modules: seq<Settings>, name: string)
    requires '=' !in name && !AnyMentions(modules, name)
    ensures Untouched(ModuleOps(modules), name)
  {
    hide SettingsOps, Mentions;
    if modules != [] {
      var n := |modules| - 1;
      assert forall i :: 0 <= i < n ==> modules[..n][i] == modules[i];
      NoModuleTouches(modules[..n], name);
      NotMentionedUntouched(modules[n], name);
    }
  }

  lemma {:induction false} ModuleOpsConcat(a: seq<Settings>, b: seq<Settings>)
    ensures ModuleOps(a + b) == ModuleOps(a) + ModuleOps(b)
  {
    hide SettingsOps;
    if b == [] {
      assert a + b == a;
    } else {
      assert (a + b)[..|a + b| - 1] == a + b[..|b| - 1];
      ModuleOpsConcat(a, b[..|b| - 1]);
    }
  }

  lemma SplitAt(before: seq<Op>, ops: seq<Op>, k: nat, after: seq<Op>)
    requires k < |ops|
    ensures before + ops + after == (before + ops[..k]) + [ops[k]] + (ops[k + 1..] + after)
  {
    assert ops == ops[..k] + [ops[k]] + ops[k + 1..];
  }

  /** The last entry that sets a variable decides, when nothing touches it afterwards. */
  lemma SetLastWins(m: map<string, string>, before: seq<Op>, entries: seq<string>, after: seq<Op>, name: string,
                    value: string)
    requires '=' !in name && value != "" && SetsLast(entries, name, value) && Untouched(after, name)
    ensures Bound(Outcome(m, before + Puts(entries, Replace) + after), name, value)
  {
    hide Outcome, Untouched, Touches;
    var k :| 0 <= k < |entries| && entries[k] == name + "=" + value && !Sets(entries[k + 1..], name);
    var puts, rest := Puts(entries, Replace), Puts(entries[k + 1..], Replace);
    NotSetUntouched(entries[k + 1..], name, Replace);
    UntouchedConcat(rest, after, name);
    BuiltEntry(name, value);
    assert Touches(puts[k], name) by { TouchesSet(puts[k], name); }
    SplitAt(before, puts, k, after);
    assert puts[k + 1..] == rest;
    LastWordWins(m, before + puts[..k], puts[k], rest + after, name);
  }

  lemma TouchesSet(op: Op, name: string)
    requires op.Put? && NameOf(op.entry) == name && HasValue(op.entry)
    ensures Touches(op, name)
  {
  }

  lemma SetsCons(entry: string, rest: seq<string>, name: string)
    ensures Sets([entry] + rest, name) <==> name + "=" < entry || Sets(rest, name)
  {
    var all := [entry] + rest;
    assert all[1..] == rest;
    if i :| 0 <= i < |rest| && name + "=" < rest[i] {
      assert name + "=" < all[i + 1];
    }
    if name + "=" < entry { assert name + "=" < all[0]; }
  }

  lemma FileSetsCons(lines: seq<string>, name: string)
    requires lines != []
    ensures FileSets(lines, name) <==> (!("#" <= name) && name + "=" < Trim(lines[0])) || FileSets(lines[1..], name)
  {
    hide Trim;
    if i :| 0 <= i < |lines| && name + "=" < Trim(lines[i]) {
      assert i > 0 ==> lines[1..][i - 1] == lines[i];
    }
    if i :| 0 <= i < |lines[1..]| && name + "=" < Trim(lines[1..][i]) {
      assert lines[i + 1] == lines[1..][i];
    }
  }

  /** A line that sets a variable is not ignored, unless the name begins with '#'. */
  lemma SettingLine(line: string, name: string)
    requires name + "=" <= Trim(line)
    ensures Ignored(line) <==> "#" <= name
  {
    hide Trim;
    assert Trim(line)[0] == (name + "=")[0];
  }

  lemma {:induction false} EntriesOfFile(lines: seq<string>, name: string)
    requires FileAccepted(lines) && '=' !in name
    ensures Sets(FileEntries(lines), name) <==> FileSets(lines, name)
  {
    hide Trim, Ignored, Sets, FileSets;
    if lines != [] {
      EntriesOfFile(lines[1..], name);
      FileSetsCons(lines, name);
      SetsCons(Trim(lines[0]), FileEntries(lines[1..]), name);
      if name + "=" < Trim(lines[0]) { SettingLine(lines[0], name); }
    } else {
      assert !Sets([], name) && !FileSets([], name) by { NothingSets(name); }
    }
  }

  lemma NothingSets(name: string)
    ensures !Sets([], name) && !FileSets([], name)
  {
  }

  lemma SetsLastBehind(entry: string, rest: seq<string>, name: string, value: string)
    requires SetsLast(rest, name, value)
    ensures SetsLast([entry] + rest, name, value)
  {
    hide Sets;
    var k :| 0 <= k < |rest| && rest[k] == name + "=" + value && !Sets(rest[k + 1..], name);
    assert ([entry] + rest)[k + 1] == rest[k] && ([entry] + rest)[k + 2..] == rest[k + 1..];
  }

  lemma {:induction false} LastOfFile(lines: seq<string>, name: string, value: string)
    requires FileAccepted(lines) && '=' !in name && value != "" && FileSetsLast(lines, name, value)
    ensures SetsLast(FileEntries(lines), name, value)
  {
    hide Trim, Ignored, Sets, FileSets;
    var i :| 0 <= i < |lines| && Trim(lines[i]) == name + "=" + value && !FileSets(lines[i + 1..], name);
    var entry, rest := Trim(lines[0]), FileEntries(lines[1..]);
    if i == 0 {
      assert name + "=" <= entry;
      SettingLine(lines[0], name);
      EntriesOfFile(lines[1..], name);
      assert !Ignored(lines[0]) && HasValue(entry) && FileEntries(lines) == [entry] + rest;
      assert ([entry] + rest)[0] == name + "=" + value && ([entry] + rest)[0 + 1..] == rest;
    } else {
      assert lines[1..][i - 1] == lines[i] && lines[1..][i..] == lines[i + 1..];
      LastOfFile(lines[1..], name, value);
      SetsLastBehind(entry, rest, name, value);
    }
  }

  /* Putting the sources together. */

  lemma SourceWins(m: map<string, string>, image: seq<string>, file: seq<string>, user: seq<string>,
      modules: seq<Settings>, site: Settings, name: string, value: string)
    requires '=' !in name && value != "" && !Mentions(site, name) && !AnyMentions(modules, name) && FileAccepted(file)
    requires || SetsLast(user, name, value)
             || (!Sets(user, name) && FileSetsLast(file, name, value))
             || (!Sets(user, name) && !FileSets(file, name) && SetsLast(image, name, value))
    ensures Bound(Outcome(m, UserOps(image, file, user, modules) + SettingsOps(site)), name, value)
  {
    hide Outcome, SettingsOps, ModuleOps, FileEntries, Puts, Mentions, AnyMentions, SetsLast, Sets, FileSets;
    hide FileSetsLast, Untouched, Trim, Bound;
    var i, f, u, o, s := Puts(image, Replace), Puts(FileEntries(file), Replace), Puts(user, Replace),
      ModuleOps(modules), SettingsOps(site);
    NoModuleTouches(modules, name);
    NotMentionedUntouched(site, name);
    UntouchedConcat(o, s, name);
    assert UserOps(image, file, user, modules) + s == i + f + u + (o + s);
    if SetsLast(user, name, value) {
      SetLastWins(m, i + f, user, o + s, name, value);
    } else {
      NotSetUntouched(user, name, Replace);
      UntouchedConcat(u, o + s, name);
      assert i + f + u + (o + s) == i + f + (u + (o + s));
      if FileSetsLast(file, name, value) {
        LastOfFile(file, name, value);
        SetLastWins(m, i, FileEntries(file), u + (o + s), name, value);
      } else {
        EntriesOfFile(file, name);
        NotSetUntouched(FileEntries(file), name, Replace);
        UntouchedConcat(f, u + (o + s), name);
        assert i + f + (u + (o + s)) == [] + i + (f + (u + (o + s)));
        SetLastWins(m, [], image, f + (u + (o + s)), name, value);
      }
    }
  }

  lemma NobodyTouches(m: map<string, string>, image: seq<string>, file: seq<string>, user: seq<string>,
      modules: seq<Settings>, site: Settings, name: string)
    requires '=' !in name && !Mentions(site, name) && !AnyMentions(modules, name) && FileAccepted(file)
    requires !Sets(user, name) && !FileSets(file, name) && !Sets(image, name)
    ensures SameIn(m, Outcome(m, UserOps(image, file, user, modules) + SettingsOps(site)), name)
  {
    hide Outcome, SettingsOps, ModuleOps, FileEntries, Puts, Mentions, AnyMentions, Sets, FileSets, Untouched;
    var i, f, u, o, s := Puts(image, Replace), Puts(FileEntries(file), Replace), Puts(user, Replace),
      ModuleOps(modules), SettingsOps(site);
    NoModuleTouches(modules, name);
    NotMentionedUntouched(site, name);
    NotSetUntouched(user, name, Replace);
    EntriesOfFile(file, name);
    NotSetUntouched(FileEntries(file), name, Replace);
    NotSetUntouched(image, name, Replace);
    UntouchedConcat(i, f, name);
    UntouchedConcat(i + f, u, name);
    UntouchedConcat(i + f + u, o, name);
    UntouchedConcat(i + f + u + o, s, name);
    UntouchedKeeps(m, i + f + u + o + s, name);
  }

  lemma ModuleWins(m: map<string, string>, before: seq<Op>, modules: seq<Settings>, k: nat, site: Settings,
      name: string, value: string)
    requires '=' !in name && value != "" && !Mentions(site, name) && k < |modules|
    requires SetsLast(modules[k].env, name, value) && !Changes(modules[k], name) && !AnyMentions(modules[k + 1..], name)
    ensures Bound(Outcome(m, before + ModuleOps(modules) + SettingsOps(site)), name, value)
  {
    hide Outcome, ModuleOps, Puts, Unsets, Mentions, Changes, AnyMentions, SetsLast, Untouched, Bound;
    var own, s := modules[k], SettingsOps(site);
    var rest := Puts(own.append, Append) + Puts(own.prepend, Prepend) + Unsets(own.unset);
    var later := ModuleOps(modules[k + 1..]);
    assert modules == modules[..k] + ([own] + modules[k + 1..]);
    ModuleOpsConcat(modules[..k], [own] + modules[k + 1..]);
    ModuleOpsConcat([own], modules[k + 1..]);
    OneModule(own);
    UnchangedUntouched(own, name);
    NoModuleTouches(modules[k + 1..], name);
    NotMentionedUntouched(site, name);
    UntouchedConcat(rest, later, name);
    UntouchedConcat(rest + later, s, name);
    var head := before + ModuleOps(modules[..k]);
    assert before + ModuleOps(modules) + s == head + Puts(own.env, Replace) + (rest + later + s);
    SetLastWins(m, head, own.env, rest + later + s, name, value);
  }

  lemma OneModule(s: Settings)
    ensures ModuleOps([s]) == SettingsOps(s)
  {
    assert [s][..0] == [] && ModuleOps([]) == [];
    assert [] + SettingsOps(s) == SettingsOps(s);
  }

  lemma SourcesTakePrecedence(m: map<string, string>, image: seq<string>, file: seq<string>, user: seq<string>,
      modules: seq<Settings>, site: Settings)
    requires FileAccepted(file)
    ensures Precedence(m, Outcome(m, UserOps(image, file, user, modules) + SettingsOps(site)),
              image, file, user, modules, site)
  {
    hide Outcome, SettingsOps, ModuleOps, FileEntries, Mentions, Changes, AnyMentions, SetsLast, Sets, FileSets;
    hide FileSetsLast, Bound, SameIn, UserOps, Drops;
    var after := Outcome(m, UserOps(image, file, user, modules) + SettingsOps(site));
    forall name: string | '=' !in name && Drops(site.unset, name) ensures name !in after {
      SiteDrops(m, UserOps(image, file, user, modules), site, name);
    }
    forall name: string, value: string | '=' !in name && value != "" && SetsLast(site.env, name, value)
      && !Changes(site, name)
      ensures Bound(after, name, value)
    {
      SiteLast(m, UserOps(image, file, user, modules), site, name, value);
    }
    forall name: string, k, value: string | '=' !in name && !Mentions(site, name) && 0 <= k < |modules| && value != ""
      && SetsLast(modules[k].env, name, value) && !Changes(modules[k], name) && !AnyMentions(modules[k + 1..], name)
      ensures Bound(after, name, value)
    {
      ModulesAreLast(image, file, user, modules);
      ModuleWins(m, Puts(image, Replace) + Puts(FileEntries(file), Replace) + Puts(user, Replace), modules, k, site,
        name, value);
    }
    forall name: string, value: string | '=' !in name && !Mentions(site, name) && !AnyMentions(modules, name)
      && value != ""
      && (|| SetsLast(user, name, value)
          || (!Sets(user, name) && FileSetsLast(file, name, value))
          || (!Sets(user, name) && !FileSets(file, name) && SetsLast(image, name, value)))
      ensures Bound(after, name, value)
    {
      SourceWins(m, image, file, user, modules, site, name, value);
    }
    forall name: string | '=' !in name && !Mentions(site, name) && !AnyMentions(modules, name)
      && !Sets(user, name) && !FileSets(file, name) && !Sets(image, name)
      ensures SameIn(m, after, name)
    {
      NobodyTouches(m, image, file, user, modules, site, name);
    }
  }

  lemma SiteDrops(m: map<string, string>, before: seq<Op>, site: Settings, name: string)
    requires '=' !in name && Drops(site.unset, name)
    ensures name !in Outcome(m, before + SettingsOps(site))
  {
    var k :| 0 <= k < |site.unset| && (site.unset[k] == name || name + "=" <= site.unset[k]);
    if site.unset[k] == name {
      BeforeIsUnique(name, '=', name);
    } else {
      MatchesByName(site.unset[k], name);
    }
    SiteUnsetWins(m, before, site, k);
  }

  lemma SiteLast(m: map<string, string>, before: seq<Op>, site: Settings, name: string, value: string)
    requires '=' !in name && value != "" && SetsLast(site.env, name, value) && !Changes(site, name)
    ensures Bound(Outcome(m, before + SettingsOps(site)), name, value)
  {
    hide Outcome, Puts, Unsets, Changes, SetsLast, Untouched, Bound;
    var rest := Puts(site.append, Append) + Puts(site.prepend, Prepend) + Unsets(site.unset);
    UnchangedUntouched(site, name);
    assert before + SettingsOps(site) == before + Puts(site.env, Replace) + rest;
    SetLastWins(m, before, site.env, rest, name, value);
  }

  lemma ModulesAreLast(image: seq<string>, file: seq<string>, user: seq<string>, modules: seq<Settings>)
    ensures UserOps(image, file, user, modules) ==
              Puts(image, Replace) + Puts(FileEntries(file), Replace) + Puts(user, Replace) + ModuleOps(modules)
  {
  }

  /* The array. */

  class EnvArray {
    var cells: array<Option<string>>
    ghost var size: nat

    ghost predicate Valid()
      reads this, cells
    {
      && size < cells.Length && cells[size].None?
      && forall i :: 0 <= i < size ==> cells[i].Some?
    }

    ghost function Contents(): (s: seq<string>)
      requires Valid()
      reads this, cells
      ensures |s| == size
    {
      seq(size, i requires 0 <= i < size && Valid() reads this, cells => cells[i].value)
    }

    method EnvSize() returns (n: nat)
      requires Valid()
      ensures n == size
    {
      n := 0;
      while cells[n].Some?
        invariant n <= size
        decreases size - n
      {
        n := n + 1;
      }
    }

    method FindEnv(variable: string) returns (i: nat, found: bool)
      requires Valid()
      ensures i == Find(Contents(), NameOf(variable)) && (found <==> i < size)
    {
      var name := NameOf(variable);
      i, found := 0, false;
      while cells[i].Some? && !found
        invariant i <= size && (found ==> i < size && Matches(Contents()[i], name))
        invariant forall k :: 0 <= k < i ==> !Matches(Contents()[k], name)
        decreases size - i, !found
      {
        assert cells[i].value == Contents()[i];
        if Matches(cells[i].value, name) {
          found := true;
        } else {
          i := i + 1;
        }
      }
      FindIsFirst(Contents(), name, i);
    }

    method UnsetEnv(variable: string)
      requires Valid()
      modifies this, cells
      ensures Valid() && cells == old(cells)
      ensures Contents() == UnsetEntry(old(Contents()), variable)
    {
      var i, found := FindEnv(variable);
      var n := EnvSize();
      if found && n > 0 {
        cells[i] := cells[n - 1];
        cells[n - 1] := None;
        size := size - 1;
      }
      assert Contents() == UnsetEntry(old(Contents()), variable);
    }

    method SetCell(i: nat, entry: string)
      requires Valid() && i < size
      modifies cells
      ensures Valid() && Contents() == old(Contents())[i := entry]
    {
      cells[i] := Some(entry);
      assert Contents() == old(Contents())[i := entry];
    }

    method Add(entry: string)
      requires Valid()
      modifies this
      ensures Valid() && fresh(cells)
      ensures Contents() == old(Contents()) + [entry]
    {
      var n := EnvSize();
      var grown := new Option<string>[n + 2](_ => None);
      forall i | 0 <= i < n { grown[i] := cells[i]; }
      grown[n] := Some(entry);
      cells := grown;
      size := size + 1;
      assert Contents() == old(Contents()) + [entry];
    }

    method PutEnv(entry: string, mode: Mode) returns (ok: bool)
      requires Valid()
      modifies this, cells
      ensures Valid() && (cells == old(cells) || fresh(cells))
      ensures ok <==> HasValue(entry)
      ensures Contents() == PutEntry(old(Contents()), entry, mode)
    {
      hide Find, Run, Bindings;
      var equals := NameOf(entry);
      if |equals| == |entry| { return false; }
      var newvalue := entry[|equals| + 1..];
      if newvalue == "" { return false; }
      ok := true;
      var i, found := FindEnv(entry);
      if found {
        var present := cells[i].value;
        assert present == Contents()[i];
        MatchesByName(present, equals);
        var currvalue := present[|NameOf(present)| + 1..];
        if mode == Replace || currvalue == "" {
          SetCell(i, entry);
        } else if mode == Prepend {
          SetCell(i, entry + ":" + currvalue);
        } else {
          SetCell(i, present + ":" + newvalue);
        }
      } else {
        Add(entry);
      }
    }

    method PutAll(entries: seq<string>, mode: Mode)
      requires Valid()
      modifies this, cells
      ensures Valid() && (cells == old(cells) || fresh(cells))
      ensures Contents() == Run(old(Contents()), Puts(entries, mode))
    {
      hide PutEntry, Find;
      var i := 0;
      while i < |entries|
        invariant i <= |entries| && Valid() && (cells == old(cells) || fresh(cells))
        invariant Contents() == Run(old(Contents()), Puts(entries, mode)[..i])
      {
        var _ := PutEnv(entries[i], mode);
        assert Puts(entries, mode)[..i + 1][..i] == Puts(entries, mode)[..i];
        i := i + 1;
      }
      assert Puts(entries, mode)[..i] == Puts(entries, mode);
    }

    method UnsetAll(variables: seq<string>)
      requires Valid()
      modifies this, cells
      ensures Valid() && (cells == old(cells) || fresh(cells))
      ensures Contents() == Run(old(Contents()), Unsets(variables))
    {
      hide UnsetEntry, Find;
      var i := 0;
      while i < |variables|
        invariant i <= |variables| && Valid() && (cells == old(cells) || fresh(cells))
        invariant Contents() == Run(old(Contents()), Unsets(variables)[..i])
      {
        UnsetEnv(variables[i]);
        assert Unsets(variables)[..i + 1][..i] == Unsets(variables)[..i];
        i := i + 1;
      }
      assert Unsets(variables)[..i] == Unsets(variables);
    }

    /** `lines` is what the buffer holds after each read. */
    method PutFile(lines: seq<string>) returns (ok: bool)
      requires Valid()
      modifies this, cells
      ensures Valid() && (cells == old(cells) || fresh(cells))
      ensures ok <==> FileAccepted(lines)
      ensures Contents() == Run(old(Contents()), Puts(FileEntries(lines), Replace))
    {
      hide HasValue, Trim, PutEntry, Bindings, Run, FileEntries, FileAccepted, Puts, Find;
      var i := 0;
      NoFileEntries(old(Contents()), lines);
      while i < |lines|
        invariant i <= |lines| && Valid() && (cells == old(cells) || fresh(cells))
        invariant FileAccepted(lines[..i])
        invariant Contents() == Run(old(Contents()), Puts(FileEntries(lines[..i]), Replace))
      {
        FileStep(old(Contents()), lines, i);
        var trimmed := Trim(lines[i]);
        if trimmed != "" && trimmed[0] != '#' {
          var put := PutEnv(trimmed, Replace);
          if !put { return false; }
        }
        i := i + 1;
      }
      assert lines[..i] == lines;
      ok := true;
    }

    method PutUser(user: seq<string>) returns (ok: bool)
      requires Valid()
      modifies this, cells
      ensures Valid() && (cells == old(cells) || fresh(cells))
      ensures ok <==> forall i :: 0 <= i < |user| ==> HasValue(user[i])
      ensures ok ==> Contents() == Run(old(Contents()), Puts(user, Replace))
    {
      hide HasValue, PutEntry;
      var i := 0;
      while i < |user|
        invariant i <= |user| && Valid() && (cells == old(cells) || fresh(cells))
        invariant forall k :: 0 <= k < i ==> HasValue(user[k])
        invariant Contents() == Run(old(Contents()), Puts(user, Replace)[..i])
      {
        var put := PutEnv(user[i], Replace);
        if !put { return false; }
        assert Puts(user, Replace)[..i + 1][..i] == Puts(user, Replace)[..i];
        i := i + 1;
      }
      assert Puts(user, Replace)[..i] == Puts(user, Replace);
      ok := true;
    }

    method PutSettings(s: Settings)
      requires Valid()
      modifies this, cells
      ensures Valid() && (cells == old(cells) || fresh(cells))
      ensures Contents() == Run(old(Contents()), SettingsOps(s))
    {
      hide Run;
      ghost var start := Contents();
      PutAll(s.env, Replace);
      PutAll(s.append, Append);
      RunConcat(start, Puts(s.env, Replace), Puts(s.append, Append));
      PutAll(s.prepend, Prepend);
      RunConcat(start, Puts(s.env, Replace) + Puts(s.append, Append), Puts(s.prepend, Prepend));
      UnsetAll(s.unset);
      RunConcat(start, Puts(s.env, Replace) + Puts(s.append, Append) + Puts(s.prepend, Prepend), Unsets(s.unset));
    }

    method PutModules(modules: seq<Settings>)
      requires Valid()
      modifies this, cells
      ensures Valid() && (cells == old(cells) || fresh(cells))
      ensures Contents() == Run(old(Contents()), ModuleOps(modules))
    {
      hide SettingsOps;
      var idx := 0;
      while idx < |modules|
        invariant idx <= |modules| && Valid() && (cells == old(cells) || fresh(cells))
        invariant Contents() == Run(old(Contents()), ModuleOps(modules[..idx]))
      {
        PutSettings(modules[idx]);
        RunConcat(old(Contents()), ModuleOps(modules[..idx]), SettingsOps(modules[idx]));
        assert modules[..idx + 1][..idx] == modules[..idx];
        idx := idx + 1;
      }
      assert modules[..idx] == modules;
    }

    /** Fails only for an env file or a user entry that is not accepted; the program then exits. */
    method SetupEnv(image: seq<string>, file: seq<string>, user: seq<string>, modules: seq<Settings>, site: Settings)
      returns (ok: bool)
      requires Valid()
      modifies this, cells
      ensures Valid()
      ensures ok <==> UserAccepted(file, user)
      ensures ok <==>
                && (forall i :: 0 <= i < |user| ==> Assigns(user[i]))
                && forall i :: 0 <= i < |file| ==>
                     var line := Trim(file[i]);
                     line == "" || line[0] == '#' || Assigns(line)
      ensures var ops := UserOps(image, file, user, modules) + SettingsOps(site);
              && (ok ==> Contents() == Run(old(Contents()), ops))
              && (ok && Distinct(old(Contents())) ==>
                    Bindings(Contents()) == Outcome(Bindings(old(Contents())), ops) && Distinct(Contents()))
      ensures ok && Distinct(old(Contents())) ==>
                Precedence(Bindings(old(Contents())), Bindings(Contents()), image, file, user, modules, site)
    {
      AcceptedAssigns(file, user);
      hide Precedence, FileAccepted, Assigns;
      hide Run, Outcome, SettingsOps, ModuleOps, FileEntries, Bindings, Distinct;
      ghost var start := Contents();
      PutAll(image, Replace);
      ok := PutFile(file);
      if !ok { return; }
      RunConcat(start, Puts(image, Replace), Puts(FileEntries(file), Replace));
      ok := PutUser(user);
      if !ok { return; }
      RunConcat(start, Puts(image, Replace) + Puts(FileEntries(file), Replace), Puts(user, Replace));
      PutModules(modules);
      RunConcat(start, Puts(image, Replace) + Puts(FileEntries(file), Replace)
        + Puts(user, Replace), ModuleOps(modules));
      PutSettings(site);
      RunConcat(start, UserOps(image, file, user, modules), SettingsOps(site));
      if Distinct(start) {
        RunRefinesMap(start, UserOps(image, file, user, modules) + SettingsOps(site));
        SourcesTakePrecedence(Bindings(start), image, file, user, modules, site);
      }
    }
  }
}
