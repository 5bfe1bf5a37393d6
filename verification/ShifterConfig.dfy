/** The record of what is already set up, and its comparison with a request (shifter_core.c). */
module ShifterConfig {
  import opened Wrappers
  import opened Text
  import opened StringOrder
  import opened CStrings
  import opened VolumeEntries
  import opened VolumeMaps
  import opened Modules

  datatype Request = Request(identifier: string, user: string, volumes: seq<Entry>, modules: seq<string>)

  const LABELS: seq<string> := ["{\"identifier\":\"", ",\"user\":\"", ",\"volMap\":\"", ",\"modules\":\""]

  /** Each value between its label and a quote, and the closing brace. */
  function Fields(labels: seq<string>, values: seq<string>): string
    requires |labels| == |values|
  {
    if labels == [] then "}" else labels[0] + (values[0] + "\"" + Fields(labels[1..], values[1..]))
  }

  function ConfigText(identifier: string, user: string, signature: string, modules: string): string {
    Fields(LABELS, [identifier, user, signature, modules])
  }

  /** The text, written out. */
  lemma ConfigTextExact(identifier: string, user: string, signature: string, modules: string)
    ensures ConfigText(identifier, user, signature, modules) ==
              "{\"identifier\":\"" + (identifier + "\""
                + (",\"user\":\"" + (user + "\""
                + (",\"volMap\":\"" + (signature + "\""
                + (",\"modules\":\"" + (modules + "\"" + "}")))))))
  {
    hide Fields;
    var values := [identifier, user, signature, modules];
    NextField(LABELS, values);
    NextField(LABELS[1..], values[1..]);
    NextField(LABELS[2..], values[2..]);
    NextField(LABELS[3..], values[3..]);
    assert LABELS[1..][1..] == LABELS[2..] && LABELS[2..][1..] == LABELS[3..] && LABELS[3..][1..] == [];
    assert values[1..][1..] == values[2..] && values[2..][1..] == values[3..] && values[3..][1..] == [];
    NoField();
  }

  lemma NextField(labels: seq<string>, values: seq<string>)
    requires |labels| == |values| > 0
    ensures Fields(labels, values) == labels[0] + (values[0] + "\"" + Fields(labels[1..], values[1..]))
  {
  }

  lemma NoField()
    ensures Fields([], []) == "}"
  {
  }

  function RequestText(r: Request): string {
    ConfigText(r.identifier, r.user, SignatureText(Prints(r.volumes)), Terminated(r.modules, ','))
  }

  function Names(modules: seq<ShifterModule>): (r: seq<string>)
    ensures |r| == |modules|
    ensures forall i {:trigger r[i]} :: 0 <= i < |r| ==> r[i] == modules[i].name
  {
    seq(|modules|, i requires 0 <= i < |modules| => modules[i].name)
  }

  /* The operations. */

  ghost function RequestOf(user: string, identifier: string, volumeMap: VolumeMap, config: UdiConfig): Request
    reads volumeMap, config
  {
    Request(identifier, user, volumeMap.Entries(), Names(config.active))
  }

  /** The names of the active modules, each followed by a comma. */
  method ModuleList(config: UdiConfig) returns (text: string)
    ensures text == Terminated(Names(config.active), ',')
  {
    hide Terminated;
    var modules := new StringBuffer("");
    NoNames(Names(config.active));
    var idx := 0;
    while idx < |config.active|
      invariant idx <= |config.active| && modules.Valid() && fresh(modules) && fresh(modules.cells)
      invariant modules.Contents() == Terminated(Names(config.active)[..idx], ',')
    {
      var name := config.active[idx].name;
      ghost var names := Names(config.active);
      modules.Append(name + ",");
      TerminatedLast(names[..idx], name, ',');
      assert names[..idx + 1] == names[..idx] + [name];
      idx := idx + 1;
    }
    assert Names(config.active)[..idx] == Names(config.active);
    text := modules.cells[..modules.length];
  }

  lemma NoNames(names: seq<string>)
    ensures Terminated(names[..0], ',') == ""
  {
  }

  /** generateShifterConfigString */
  method GenerateConfigString(user: string, identifier: string, volumeMap: VolumeMap, config: UdiConfig)
    returns (text: string)
    requires volumeMap.Valid()
    modifies volumeMap`raw
    ensures volumeMap.Valid() && volumeMap.Entries() == old(volumeMap.Entries())
    ensures text == RequestText(RequestOf(user, identifier, volumeMap, config))
  {
    hide *;
    var signature := volumeMap.GetSignature();
    var modules := ModuleList(config);
    text := ConfigText(identifier, user, if signature.Some? then signature.value else "", modules);
    TextOf(user, identifier, volumeMap, config, signature, modules);
  }

  lemma TextOf(user: string, identifier: string, volumeMap: VolumeMap, config: UdiConfig,
      signature: Option<string>, modules: string)
    requires volumeMap.Valid()
    requires volumeMap.raw == [] ==> signature == None
    requires volumeMap.raw != [] ==> signature == Some(SignatureText(Prints(volumeMap.Entries())))
    requires modules == Terminated(Names(config.active), ',')
    ensures ConfigText(identifier, user, if signature.Some? then signature.value else "", modules)
            == RequestText(RequestOf(user, identifier, volumeMap, config))
  {
    hide ConfigText, Terminated;
    if volumeMap.raw == [] {
      assert Prints(volumeMap.Entries()) == [];
    }
  }

  /** saveShifterConfig: the text of the file it writes */
  method SaveShifterConfig(user: string, identifier: string, volumeMap: VolumeMap, config: UdiConfig)
    returns (file: string)
    requires volumeMap.Valid()
    modifies volumeMap`raw
    ensures volumeMap.Valid() && volumeMap.Entries() == old(volumeMap.Entries())
    ensures file == RequestText(RequestOf(user, identifier, volumeMap, config)) + "\n"
  {
    hide *;
    var text := GenerateConfigString(user, identifier, volumeMap, config);
    file := text + "\n";
  }

  /** compareShifterConfig: as many bytes of the file as the request is long are compared with it. */
  method CompareShifterConfig(user: string, identifier: string, volumeMap: VolumeMap,
      config: UdiConfig, file: Option<string>)
    returns (c: int)
    requires volumeMap.Valid()
    modifies volumeMap`raw
    ensures volumeMap.Valid() && volumeMap.Entries() == old(volumeMap.Entries())
    ensures c == 0 <==> file.Some? && RequestText(RequestOf(user, identifier, volumeMap, config)) <= file.value
  {
    hide *;
    var text := GenerateConfigString(user, identifier, volumeMap, config);
    if file.None? { return -1; }
    var buffer := if |file.value| < |text| then file.value else file.value[..|text|];
    if |buffer| == |text| {
      c := Compare(text, buffer);
    } else {
      c := -1;
    }
  }

  /* What equal texts mean. */

  predicate Unquoted(s: string) {
    '"' !in s
  }

  /** Texts in which the quote ends a field are compared field by field. */
  lemma FieldByField(x: string, y: string, r: string, s: string)
    requires Unquoted(x) && Unquoted(y)
    ensures x + "\"" + r <= y + "\"" + s <==> x == y && r <= s
  {
    var a, b := x + "\"" + r, y + "\"" + s;
    assert a[|x|] == '"' && b[|y|] == '"';
    if a <= b {
      assert b[|x|] == '"' && x <= b && y <= b;
      BeforeIsUnique(b, '"', x);
      BeforeIsUnique(b, '"', y);
      assert a[|x| + 1..] == r && b[|x| + 1..] == s;
    }
  }

  lemma SamePrefix(p: string, r: string, s: string)
    ensures p + r <= p + s <==> r <= s
  {
    assert (p + r)[|p|..] == r && (p + s)[|p|..] == s;
  }

  lemma BehindField(name: string, value: string, rest: string, tail: string)
    ensures (name + (value + "\"" + rest)) + tail == name + (value + "\"" + (rest + tail))
  {
  }

  lemma FieldsFirst(labels: seq<string>, values: seq<string>)
    requires |labels| == |values| > 0
    ensures Fields(labels, values) == labels[0] + (values[0] + "\"" + Fields(labels[1..], values[1..]))
  {
  }

  /** One text starts another with more behind it exactly when all fields but the last agree, and the last does too or
      is cut off where the other one has a quote and a brace. */
  lemma {:induction false} FieldsAgree(labels: seq<string>, x: seq<string>, y: seq<string>)
    requires |labels| == |x| == |y| > 0
    requires forall i :: 0 <= i < |x| - 1 ==> Unquoted(x[i]) && Unquoted(y[i])
    ensures Fields(labels, x) <= Fields(labels, y) + "\n" <==>
            var n := |x| - 1;
            x[..n] == y[..n] && (x[n] == y[n] || x[n] + "\"}" <= y[n])
  {
    hide Unquoted, Fields;
    var r, s := Fields(labels[1..], x[1..]), Fields(labels[1..], y[1..]);
    FieldsFirst(labels, x);
    FieldsFirst(labels, y);
    BehindField(labels[0], y[0], s, "\n");
    SamePrefix(labels[0], x[0] + "\"" + r, y[0] + "\"" + (s + "\n"));
    if |labels| == 1 {
      NoFields(labels[1..], x[1..]);
      NoFields(labels[1..], y[1..]);
      LastField(x[0], y[0]);
    } else {
      FieldByField(x[0], y[0], r, s + "\n");
      FieldsAgree(labels[1..], x[1..], y[1..]);
      OneMoreField(x, y);
    }
  }

  lemma NoFields(labels: seq<string>, values: seq<string>)
    requires labels == [] == values
    ensures Fields(labels, values) == "}"
  {
  }

  lemma OneMoreField(x: seq<string>, y: seq<string>)
    requires |x| == |y| > 1
    ensures var n := |x| - 1;
            x[..n] == y[..n] <==> x[0] == y[0] && x[1..][..n - 1] == y[1..][..n - 1]
  {
    var n := |x| - 1;
    assert x[..n] == [x[0]] + x[1..][..n - 1] && y[..n] == [y[0]] + y[1..][..n - 1];
  }

  /** The last field may hold quotes: its end is the quote with a brace. */
  lemma LastField(x: string, y: string)
    ensures x + "\"" + "}" <= y + "\"" + ("}" + "\n") <==> x == y || x + "\"}" <= y
  {
    var a, b := x + "\"}", y + "\"}\n";
    assert a == x + "\"" + "}" && b == y + "\"" + ("}" + "\n");
    assert a[|x|] == '"' && a[|x| + 1] == '}' && |a| == |x| + 2;
    assert b[|y|] == '"' && b[|y| + 1] == '}' && b[|y| + 2] == '\n' && |b| == |y| + 3;
    assert y <= b;
    if a <= b {
      assert b[|x|] == '"' && b[|x| + 1] == '}';
      assert |x| <= |y|;
      assert |x| + 1 != |y|;
      assert x == b[..|x|] == y[..|x|];
      assert |x| + 2 <= |y| ==> b[..|x| + 2] == y[..|x| + 2];
    }
  }

  predicate ModuleNames(names: seq<string>) {
    forall i :: 0 <= i < |names| ==> ',' !in names[i]
  }

  /** The saved modules are those asked for and at least one more, whose name begins with a quote and a brace. */
  predicate CutOff(asked: seq<string>, saved: seq<string>) {
    |asked| < |saved| && asked == saved[..|asked|] && "\"}" <= saved[|asked|]
  }

  lemma {:induction false} NamesInText(a: seq<string>, b: seq<string>)
    requires ModuleNames(a) && ModuleNames(b)
    ensures Terminated(a, ',') == Terminated(b, ',') <==> a == b
    ensures Terminated(a, ',') + "\"}" <= Terminated(b, ',') <==> CutOff(a, b)
  {
    var s, t := Terminated(a, ','), Terminated(b, ',');
    if b != [] { FirstName(b); }
    if a != [] {
      FirstName(a);
      if b != [] {
        NamesInText(a[1..], b[1..]);
        NameByName(a[0], b[0], Terminated(a[1..], ','), Terminated(b[1..], ','));
        NameByName(a[0], b[0], Terminated(a[1..], ',') + "\"}", Terminated(b[1..], ','));
        assert s + "\"}" == a[0] + "," + (Terminated(a[1..], ',') + "\"}");
        OneMoreName(a, b);
      }
    } else if b != [] {
      assert s + "\"}" == "\"}";
      EndInName(b[0], Terminated(b[1..], ','));
    }
  }

  lemma FirstName(names: seq<string>)
    requires names != []
    ensures Terminated(names, ',') == names[0] + "," + Terminated(names[1..], ',')
  {
  }

  lemma NameByName(x: string, y: string, r: string, s: string)
    requires ',' !in x && ',' !in y
    ensures x + "," + r <= y + "," + s <==> x == y && r <= s
    ensures x + "," + r == y + "," + s <==> x == y && r == s
  {
    var a, b := x + "," + r, y + "," + s;
    assert a[|x|] == ',' && b[|y|] == ',';
    if a <= b {
      assert b[|x|] == ',' && x <= b && y <= b;
      BeforeIsUnique(b, ',', x);
      BeforeIsUnique(b, ',', y);
      assert a[|x| + 1..] == r && b[|x| + 1..] == s;
    }
  }

  lemma EndInName(name: string, rest: string)
    requires ',' !in name
    ensures "\"}" <= name + "," + rest <==> "\"}" <= name
  {
    var t := name + "," + rest;
    assert t[|name|] == ',' && name <= t;
    assert "\"}"[0] == '"' && "\"}"[1] == '}';
  }

  lemma OneMoreName(a: seq<string>, b: seq<string>)
    requires a != [] && b != []
    ensures a == b <==> a[0] == b[0] && a[1..] == b[1..]
    ensures CutOff(a, b) <==> a[0] == b[0] && CutOff(a[1..], b[1..])
  {
    assert a == [a[0]] + a[1..] && b == [b[0]] + b[1..];
    if |a| < |b| {
      assert b[..|a|] == [b[0]] + b[1..][..|a| - 1];
    }
  }

  ghost predicate Plain(r: Request) {
    Unquoted(r.identifier) && Unquoted(r.user) && AllNormal(r.volumes) && ModuleNames(r.modules)
  }

  /**
   * A request finds itself already loaded exactly when image, user, volume entries (in any order)
   * and modules (in order) are those that were saved, or a saved module's name ends the text early.
   */
  lemma AlreadyLoadedExact(request: Request, saved: Request)
    requires Plain(request) && Plain(saved)
    ensures RequestText(request) <= RequestText(saved) + "\n" <==>
            && request.identifier == saved.identifier
            && request.user == saved.user
            && multiset(request.volumes) == multiset(saved.volumes)
            && (request.modules == saved.modules || CutOff(request.modules, saved.modules))
  {
    hide RequestText, Fields, SignatureText, Terminated, AllNormal, CutOff;
    SignatureExact(request.volumes, saved.volumes);
    SignatureExact(saved.volumes, request.volumes);
    NamesInText(request.modules, saved.modules);
    var x, y := TextFields(request), TextFields(saved);
    FieldsAgree(LABELS, x, y);
    SameFields(request, saved);
    SameFields(saved, request);
  }

  /** Without quotes in module names this is equality. */
  lemma AlreadyLoadedPlain(request: Request, saved: Request)
    requires Plain(request) && Plain(saved)
    requires forall i :: 0 <= i < |saved.modules| ==> Unquoted(saved.modules[i])
    ensures RequestText(request) <= RequestText(saved) + "\n" <==>
            && request.identifier == saved.identifier
            && request.user == saved.user
            && multiset(request.volumes) == multiset(saved.volumes)
            && request.modules == saved.modules
  {
    hide RequestText, Plain;
    AlreadyLoadedExact(request, saved);
    NoCutOff(request.modules, saved.modules);
  }

  lemma NoCutOff(asked: seq<string>, saved: seq<string>)
    requires forall i :: 0 <= i < |saved| ==> Unquoted(saved[i])
    ensures !CutOff(asked, saved)
  {
    forall i | 0 <= i < |saved| ensures !("\"}" <= saved[i]) {
      assert saved[i] != "" ==> saved[i][0] in saved[i];
    }
  }

  function TextFields(r: Request): seq<string> {
    [r.identifier, r.user, SignatureText(Prints(r.volumes)), Terminated(r.modules, ',')]
  }

  lemma SameFields(a: Request, b: Request)
    ensures RequestText(a) == Fields(LABELS, TextFields(a))
    ensures TextFields(a)[..3] == TextFields(b)[..3] <==>
            && a.identifier == b.identifier && a.user == b.user
            && SignatureText(Prints(a.volumes)) == SignatureText(Prints(b.volumes))
  {
    hide Fields, SignatureText, Terminated;
    if TextFields(a)[..3] == TextFields(b)[..3] {
      assert TextFields(a)[..3][0] == TextFields(b)[..3][0] && TextFields(a)[..3][1] == TextFields(b)[..3][1];
      assert TextFields(a)[..3][2] == TextFields(b)[..3][2];
    }
  }

  /** With a quote in the image's or the user's name the border between the two is lost. */
  lemma QuotesCollide(x: string, y: string, z: string, volumes: seq<Entry>, modules: seq<string>)
    ensures var q := "\",\"user\":\"";
            var a, b := Request(x + q + y, z, volumes, modules), Request(x, y + q + z, volumes, modules);
            a != b && RequestText(a) == RequestText(b)
  {
    hide SignatureText, Terminated, Fields;
    var q := "\",\"user\":\"";
    assert |x + q + y| != |x|;
    var s, m := SignatureText(Prints(volumes)), Terminated(modules, ',');
    var rest := Fields(LABELS[2..], [s, m]);
    FirstTwo(x + q + y, z, s, m);
    FirstTwo(x, y + q + z, s, m);
    assert q == "\"" + LABELS[1];
    Shifted(x, y, z, LABELS[1], "\"" + rest);
  }

  lemma FirstTwo(x: string, y: string, s: string, m: string)
    ensures Fields(LABELS, [x, y, s, m]) ==
              LABELS[0] + (x + "\"" + (LABELS[1] + (y + "\"" + Fields(LABELS[2..], [s, m]))))
  {
    assert [x, y, s, m][1..] == [y, s, m] && [y, s, m][1..] == [s, m];
    assert LABELS[1..][1..] == LABELS[2..] && LABELS[1..][0] == LABELS[1];
  }

  lemma Shifted(x: string, y: string, z: string, name: string, rest: string)
    ensures (x + ("\"" + name) + y) + "\"" + (name + (z + rest)) == x + "\"" + (name + ((y + ("\"" + name) + z) + rest))
  {
  }

  /** The modules a request has made active have no comma in their names. */
  lemma ActiveNamesHaveNoComma(modules: seq<ShifterModule>, selected: string, active: seq<ShifterModule>)
    requires Follows(modules, Requested(selected), active)
    ensures forall i :: 0 <= i < |active| ==> ',' !in Names(active)[i] && Names(active)[i] != ""
  {
    forall i | 0 <= i < |active| ensures ',' !in Names(active)[i] && Names(active)[i] != "" {
      assert Chosen(modules, Requested(selected)[i], active[i]);
    }
  }
}
