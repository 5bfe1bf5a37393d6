/** One entry of a volume map: parsing, validation, the normalised text, and the round trip (VolumeMap.c). */
module VolumeEntries {
  import opened Wrappers
  import opened Text
  import opened Decimal
  import opened VolumeText

  /* Flags in order. */

  function InsertFlag(s: seq<Flag>, f: Flag): (r: seq<Flag>)
    ensures multiset(r) == multiset(s) + multiset{f}
  {
    if s == [] then [f]
    else if TypeOf(s[|s| - 1]) > TypeOf(f) then
      assert s == s[..|s| - 1] + [s[|s| - 1]];
      InsertFlag(s[..|s| - 1], f) + [s[|s| - 1]]
    else s + [f]
  }

  /** What `qsort` by type leaves. */
  function SortFlags(s: seq<Flag>): (r: seq<Flag>)
    ensures multiset(r) == multiset(s)
  {
    if s == [] then []
    else
      assert s == s[..|s| - 1] + [s[|s| - 1]];
      InsertFlag(SortFlags(s[..|s| - 1]), s[|s| - 1])
  }

  ghost predicate DistinctTypes(s: seq<Flag>) {
    forall i, j :: 0 <= i < j < |s| ==> TypeOf(s[i]) != TypeOf(s[j])
  }

  ghost predicate Ascending(s: seq<Flag>) {
    forall i, j :: 0 <= i < j < |s| ==> TypeOf(s[i]) < TypeOf(s[j])
  }

  lemma {:induction false} InsertKeepsAscending(s: seq<Flag>, f: Flag)
    requires Ascending(s) && forall i :: 0 <= i < |s| ==> TypeOf(s[i]) != TypeOf(f)
    ensures Ascending(InsertFlag(s, f))
  {
    if s != [] && TypeOf(s[|s| - 1]) > TypeOf(f) {
      var init, last := s[..|s| - 1], s[|s| - 1];
      InsertKeepsAscending(init, f);
      var r := InsertFlag(init, f);
      forall i | 0 <= i < |r| ensures TypeOf(r[i]) < TypeOf(last) {
        assert r[i] in multiset(r);
        assert r[i] in init || r[i] == f;
      }
    }
  }

  lemma {:induction false} SortIsAscending(s: seq<Flag>)
    requires DistinctTypes(s)
    ensures Ascending(SortFlags(s))
  {
    if s != [] {
      var init, last := s[..|s| - 1], s[|s| - 1];
      SortIsAscending(init);
      var r := SortFlags(init);
      forall i | 0 <= i < |r| ensures TypeOf(r[i]) != TypeOf(last) {
        assert r[i] in multiset(r);
        assert r[i] in init;
      }
      InsertKeepsAscending(r, last);
    }
  }

  lemma {:induction false} AscendingIsSorted(s: seq<Flag>)
    requires Ascending(s)
    ensures SortFlags(s) == s
  {
    if s != [] {
      AscendingIsSorted(s[..|s| - 1]);
      assert s == s[..|s| - 1] + [s[|s| - 1]];
    }
  }

  lemma SameFlags(s: seq<Flag>, f: Flag)
    ensures f in SortFlags(s) <==> f in s
  {
    assert f in multiset(SortFlags(s)) <==> f in multiset(s);
  }

  /* Validation. */

  datatype Rules = Rules(
    exactAllowed: seq<string>, startsDisallowed: seq<string>, exactDisallowed: seq<string>,
    fromStartsDisallowed: seq<string>, fromExactDisallowed: seq<string>, allowedFlags: set<nat>)

  const USER_RULES: Rules := Rules(
    ["/var/tmp"], ["/etc", "/var", "etc", "var", "/opt/udiImage", "opt/udiImage"], ["/opt", "opt"], [], [], {1, 4})

  const SITE_RULES: Rules := Rules(
    [], [],
    ["/opt", "opt", "/etc", "etc", "/var", "var", "/etc/passwd", "etc/passwd", "/etc/group", "etc/group",
     "/etc/nsswitch.conf", "etc/nsswitch.conf"],
    [], [], {1, 2, 4, 8, 16})

  predicate StartsWithAny(s: string, prefixes: seq<string>) {
    exists i :: 0 <= i < |prefixes| && prefixes[i] <= s
  }

  predicate PathAllowed(path: string) {
    path != "" && path[0] == '/' && !Contains(path, "..")
  }

  ghost predicate FlagsAllowed(flags: seq<Flag>, allowed: set<nat>) {
    && (forall i :: 0 <= i < |flags| ==> TypeOf(flags[i]) in allowed)
    && DistinctTypes(flags)
    && !(Slave in flags && Private in flags)
  }

  predicate TargetAllowed(from: string, to: string, rules: Rules) {
    && !StartsWithAny(from, rules.fromStartsDisallowed) && from !in rules.fromExactDisallowed
    && (to in rules.exactAllowed || (!StartsWithAny(to, rules.startsDisallowed) && to !in rules.exactDisallowed))
  }

  ghost predicate Accepted(from: string, to: string, flags: seq<Flag>, rules: Rules) {
    PathAllowed(from) && PathAllowed(to) && FlagsAllowed(flags, rules.allowedFlags) && TargetAllowed(from, to, rules)
  }

  /** Flags of the same kind, whatever their options. */
  predicate SameKind(f: Flag, g: Flag) {
    match f
    case ReadOnly => g.ReadOnly?
    case Recursive => g.Recursive?
    case PerNodeCache(_, _, _, _) => g.PerNodeCache?
    case Slave => g.Slave?
    case Private => g.Private?
  }

  lemma KindIsType(f: Flag, g: Flag)
    ensures TypeOf(f) == TypeOf(g) <==> SameKind(f, g)
  {
  }

  lemma KindsExact(flags: seq<Flag>)
    ensures DistinctTypes(flags) <==> forall i, j :: 0 <= i < j < |flags| ==> !SameKind(flags[i], flags[j])
  {
    forall i, j | 0 <= i < j < |flags| ensures TypeOf(flags[i]) == TypeOf(flags[j]) <==> SameKind(flags[i], flags[j]) {
      KindIsType(flags[i], flags[j]);
    }
  }

  /** Flags are kept in this order. */
  lemma KindsInOrder(size: int, block: int, medium: string, fstype: string)
    ensures Ascending([ReadOnly, Recursive, PerNodeCache(size, block, medium, fstype), Slave, Private])
  {
  }

  /**
   * What a user may mount: absolute paths without "..", at most one read-only flag and one cache; and a target that is
   * exactly /var/tmp, or does not begin with /etc, /var or /opt/udiImage and is not /opt.
   */
  lemma UserRequestExact(from: string, to: string, flags: seq<Flag>)
    ensures Accepted(from, to, flags, USER_RULES) <==>
            && "/" <= from && !Contains(from, "..") && "/" <= to && !Contains(to, "..")
            && (forall f :: f in flags ==> f.ReadOnly? || f.PerNodeCache?)
            && (forall i, j :: 0 <= i < j < |flags| ==> !SameKind(flags[i], flags[j]))
            && (to == "/var/tmp"
                || (!("/etc" <= to) && !("/var" <= to) && !("/opt/udiImage" <= to) && to != "/opt"))
  {
    hide Contains;
    KindsExact(flags);
    if "/" <= to { UserTarget(from, to); }
    forall f ensures TypeOf(f) in USER_RULES.allowedFlags <==> f.ReadOnly? || f.PerNodeCache? {
    }
    assert (forall i :: 0 <= i < |flags| ==> TypeOf(flags[i]) in USER_RULES.allowedFlags) <==>
           forall f :: f in flags ==> f.ReadOnly? || f.PerNodeCache?;
  }

  lemma UserTarget(from: string, to: string)
    requires "/" <= to
    ensures TargetAllowed(from, to, USER_RULES) <==>
            to == "/var/tmp" || (!("/etc" <= to) && !("/var" <= to) && !("/opt/udiImage" <= to) && to != "/opt")
  {
    var p := USER_RULES.startsDisallowed;
    assert to[0] == '/';
    assert p[0] == "/etc" && p[1] == "/var" && p[2] == "etc" && p[3] == "var";
    assert p[4] == "/opt/udiImage" && p[5] == "opt/udiImage";
    assert !(p[2] <= to) && !(p[3] <= to) && !(p[5] <= to);
  }

  /** What the site may mount: each kind of flag once, not both propagation styles, no target among the system's own
      paths. */
  lemma SiteRequestExact(from: string, to: string, flags: seq<Flag>)
    ensures Accepted(from, to, flags, SITE_RULES) <==>
            && "/" <= from && !Contains(from, "..") && "/" <= to && !Contains(to, "..")
            && (forall i, j :: 0 <= i < j < |flags| ==> !SameKind(flags[i], flags[j]))
            && !(Slave in flags && Private in flags)
            && to !in {"/opt", "/etc", "/var", "/etc/passwd", "/etc/group", "/etc/nsswitch.conf"}
  {
    hide Contains;
    KindsExact(flags);
    if "/" <= to { SiteTarget(to); }
  }

  lemma SiteTarget(to: string)
    requires "/" <= to
    ensures to in SITE_RULES.exactDisallowed <==>
            to in {"/opt", "/etc", "/var", "/etc/passwd", "/etc/group", "/etc/nsswitch.conf"}
  {
    var p := SITE_RULES.exactDisallowed;
    assert to[0] == '/';
    assert p[0] == "/opt" && p[2] == "/etc" && p[4] == "/var" && p[6] == "/etc/passwd" && p[8] == "/etc/group";
    assert p[10] == "/etc/nsswitch.conf";
  }

  lemma SortedStaysAccepted(from: string, to: string, flags: seq<Flag>, rules: Rules)
    requires Accepted(from, to, flags, rules)
    ensures Accepted(from, to, SortFlags(flags), rules) && Ascending(SortFlags(flags))
  {
    var r := SortFlags(flags);
    SortIsAscending(flags);
    forall i | 0 <= i < |r| ensures TypeOf(r[i]) in rules.allowedFlags {
      SameFlags(flags, r[i]);
    }
    SameFlags(flags, Slave);
    SameFlags(flags, Private);
  }

  /* Parsing. */

  predicate PathChar(c: char) {
    || 'a' <= c <= 'z' || 'A' <= c <= 'Z' || '0' <= c <= '9'
    || c == '_' || c == ':' || c == '.' || c == '+' || c == '-' || c == '/'
  }

  predicate PathText(s: string) {
    forall i :: 0 <= i < |s| ==> PathChar(s[i]) && s[i] != ':'
  }

  /** Cut at colons; unlike `strtok` this keeps empty parts, except behind a colon at the very end. */
  function CutTokens(s: string): (r: seq<string>)
    ensures forall i :: 0 <= i < |r| ==> ':' !in r[i]
    decreases |s|
  {
    if s == "" then []
    else
      var token := Before(s, ':');
      [token] + if |token| < |s| then CutTokens(s[|token| + 1..]) else []
  }

  function Unquoted(piece: string): string {
    if piece != "" && piece[0] == '"' && piece[|piece| - 1] == '"' then
      if |piece| == 1 then "" else piece[1..|piece| - 1]
    else piece
  }

  datatype Entry = Entry(from: string, to: string, flags: seq<Flag>)

  /** One entry of the input; without a target the source is mounted at its own place, if that is allowed. */
  ghost function ParseEntry(piece: string, rules: Rules, requireTo: bool): Option<Entry> {
    var tokens := CutTokens(Unquoted(piece));
    if tokens == [] || (|tokens| == 1 && requireTo) then None
    else
      var from := Filter(tokens[0], PathChar);
      var to := if |tokens| == 1 then from else Filter(tokens[1], PathChar);
      var flags := FlagsOf(if |tokens| == 1 then [] else tokens[2..]);
      if flags.None? || !Accepted(from, to, flags.value, rules) then None
      else Some(Entry(from, to, SortFlags(flags.value)))
  }

  /** The normalised text. */
  function Print(e: Entry): string {
    Join([e.from, e.to] + Words(e.flags), ':')
  }

  /** Normal form, under any rules. */
  ghost predicate NormalForm(e: Entry) {
    && PathText(e.from) && PathAllowed(e.from)
    && PathText(e.to) && PathAllowed(e.to)
    && Ascending(e.flags)
    && forall i :: 0 <= i < |e.flags| ==> GoodFlag(e.flags[i])
  }

  ghost predicate WellFormed(e: Entry, rules: Rules) {
    NormalForm(e) && Accepted(e.from, e.to, e.flags, rules)
  }

  lemma FilteredIsPathText(token: string)
    requires ':' !in token
    ensures PathText(Filter(token, PathChar))
  {
    var r := Filter(token, PathChar);
    forall i | 0 <= i < |r| ensures PathChar(r[i]) && r[i] != ':' {
      assert r[i] in r;
    }
  }

  /** Whatever is accepted is in normal form. */
  lemma ParsedIsWellFormed(piece: string, rules: Rules, requireTo: bool)
    requires ParseEntry(piece, rules, requireTo).Some?
    ensures WellFormed(ParseEntry(piece, rules, requireTo).value, rules)
  {
    hide FlagsAllowed, TargetAllowed, PathAllowed, CutTokens, FlagsOf, SortFlags, Filter, GoodFlag;
    var tokens := CutTokens(Unquoted(piece));
    var e := ParseEntry(piece, rules, requireTo).value;
    FilteredIsPathText(tokens[0]);
    if |tokens| > 1 {
      FilteredIsPathText(tokens[1]);
    }
    var flagTokens := if |tokens| == 1 then [] else tokens[2..];
    var flags := FlagsOf(flagTokens).value;
    SortedStaysAccepted(e.from, e.to, flags, rules);
    FlagsAreGood(flagTokens);
    forall i | 0 <= i < |e.flags| ensures GoodFlag(e.flags[i]) {
      SameFlags(flags, e.flags[i]);
    }
  }

  /** Quotes around a piece are dropped, once. */
  lemma QuotesAreDropped(piece: string, rules: Rules, requireTo: bool)
    ensures Unquoted("\"" + piece + "\"") == piece
    ensures ParseEntry("", rules, requireTo) == ParseEntry("\"", rules, requireTo) == None
    ensures piece != "" && (piece[0] != '"' || piece[|piece| - 1] != '"') ==>
              ParseEntry("\"" + piece + "\"", rules, requireTo) == ParseEntry(piece, rules, requireTo)
  {
    assert ("\"" + piece + "\"")[1..|piece| + 1] == piece;
  }

  /** A piece without a colon is mounted at its own place, unless a target is asked for; characters that are not allowed
      in a path are dropped before anything is checked. */
  lemma OnePath(piece: string, rules: Rules, requireTo: bool)
    requires piece != "" && ':' !in piece && piece[0] != '"'
    ensures var path := Filter(piece, (c: char) =>
              'a' <= c <= 'z' || 'A' <= c <= 'Z' || '0' <= c <= '9' || c in "_:.+-/");
            ParseEntry(piece, rules, requireTo) ==
              if !requireTo && Accepted(path, path, [], rules) then Some(Entry(path, path, [])) else None
  {
    hide Accepted, Filter;
    BeforeIsUnique(piece, ':', piece);
    SamePathChars(piece);
    assert FlagsOf([]) == Some([]) && SortFlags([]) == [];
  }

  lemma SamePathChars(s: string)
    ensures Filter(s, PathChar) ==
              Filter(s, (c: char) => 'a' <= c <= 'z' || 'A' <= c <= 'Z' || '0' <= c <= '9' || c in "_:.+-/")
  {
    FilterSame(s, PathChar, (c: char) => 'a' <= c <= 'z' || 'A' <= c <= 'Z' || '0' <= c <= '9' || c in "_:.+-/");
  }

  /** A piece with two paths and the words of flags behind colons. */
  lemma TwoPaths(from: string, to: string, words: seq<string>, rules: Rules, requireTo: bool)
    requires from != "" && from[0] != '"' && to != "" && ':' !in from && ':' !in to
    requires forall i :: 0 <= i < |words| ==> words[i] != "" && ':' !in words[i]
    ensures var a := Filter(from, (c: char) =>
              'a' <= c <= 'z' || 'A' <= c <= 'Z' || '0' <= c <= '9' || c in "_:.+-/");
            var b := Filter(to, (c: char) =>
              'a' <= c <= 'z' || 'A' <= c <= 'Z' || '0' <= c <= '9' || c in "_:.+-/");
            ParseEntry(Join([from, to] + words, ':'), rules, requireTo) ==
              if FlagsOf(words).None? || !Accepted(a, b, FlagsOf(words).value, rules) then None
              else Some(Entry(a, b, SortFlags(FlagsOf(words).value)))
  {
    hide Accepted, Filter, FlagsOf, SortFlags, CutTokens;
    var parts := [from, to] + words;
    CutJoined(parts);
    SamePathChars(from);
    SamePathChars(to);
    assert parts[2..] == words && Join(parts, ':')[0] == from[0];
  }

  /** Each word adds its flags. */
  lemma {:induction false} FlagsConcat(a: seq<string>, b: seq<string>)
    ensures FlagsOf(a + b) ==
              if FlagsOf(a).None? || FlagsOf(b).None? then None else Some(FlagsOf(a).value + FlagsOf(b).value)
    ensures forall word :: FlagsOf([word]) == FlagOf(word)
  {
    hide FlagOf;
    forall word ensures FlagsOf([word]) == FlagOf(word) {
      assert [word][..0] == [];
      if FlagOf(word).Some? { assert [] + FlagOf(word).value == FlagOf(word).value; }
    }
    if b == [] {
      assert a + b == a;
      if FlagsOf(a).Some? { assert FlagsOf(a).value + [] == FlagsOf(a).value; }
    } else {
      var n := |b| - 1;
      assert (a + b)[..|a + b| - 1] == a + b[..n];
      FlagsConcat(a, b[..n]);
      if FlagsOf(a).Some? && FlagsOf(b).Some? {
        Regroup(FlagsOf(a).value, FlagsOf(b[..n]).value, FlagOf(b[n]).value);
      }
    }
  }

  /* Printing and parsing again. */

  lemma {:induction false} CutJoined(parts: seq<string>)
    requires forall i :: 0 <= i < |parts| ==> IsToken(parts[i], ':')
    ensures CutTokens(Join(parts, ':')) == parts
  {
    if |parts| == 1 {
      BeforeIsUnique(parts[0], ':', parts[0]);
    } else if |parts| > 1 {
      var s, rest := Join(parts, ':'), Join(parts[1..], ':');
      assert parts[0] <= s && s[|parts[0]|] == ':';
      BeforeIsUnique(s, ':', parts[0]);
      assert s[|parts[0]| + 1..] == rest;
      CutJoined(parts[1..]);
    }
  }

  /** The characters of a printed flag. */
  predicate WordChar(c: char) {
    'a' <= c <= 'z' || 'A' <= c <= 'Z' || '0' <= c <= '9' || c == '=' || c == ','
  }

  predicate WordText(s: string) {
    forall i :: 0 <= i < |s| ==> WordChar(s[i])
  }

  lemma WordTextConcat(a: string, b: string)
    requires WordText(a) && WordText(b)
    ensures WordText(a + b)
  {
  }

  lemma WordIsText(f: Flag)
    requires GoodFlag(f)
    ensures WordText(Word(f)) && Word(f) != ""
  {
    if f.PerNodeCache? {
      hide *;
      SizesAreText(f);
      var size, block := Digits(f.size), Digits(f.block);
      var tail2 := "method" + "=" + f.medium + "," + ("fstype" + "=" + f.fstype);
      WordTextConcat("bs" + "=", block);
      WordTextConcat("bs" + "=" + block, ",");
      WordTextConcat("bs" + "=" + block + ",", tail2);
      var tail1 := "bs" + "=" + block + "," + tail2;
      WordTextConcat("size" + "=", size);
      WordTextConcat("size" + "=" + size, ",");
      WordTextConcat("size" + "=" + size + ",", tail1);
      WordTextConcat("perNodeCache" + "=", "size" + "=" + size + "," + tail1);
      CacheWord(f);
    }
  }

  lemma SizesAreText(f: Flag)
    requires GoodFlag(f) && f.PerNodeCache?
    ensures f.size >= 0 && f.block >= 0
    ensures WordText(Digits(f.size)) && WordText(Digits(f.block))
    ensures WordText("perNodeCache" + "=") && WordText("size" + "=") && WordText("bs" + "=") && WordText(",")
    ensures WordText("method" + "=" + f.medium + "," + ("fstype" + "=" + f.fstype))
  {
  }

  lemma CacheWord(f: Flag)
    requires GoodFlag(f) && f.PerNodeCache? && f.size >= 0 && f.block >= 0
    ensures Word(f) == "perNodeCache" + "=" + ("size" + "=" + Digits(f.size) + "," + ("bs" + "=" + Digits(f.block) + ","
                       + ("method" + "=" + f.medium + "," + ("fstype" + "=" + f.fstype))))
    ensures Word(f) != ""
  {
    hide Digits;
  }

  /** A printed flag parses to itself. */
  lemma WordParses(f: Flag)
    requires GoodFlag(f)
    ensures FlagOf(Word(f)) == Some([f])
  {
    if f.PerNodeCache? {
      CacheWordParses(f);
    } else {
      var w := Word(f);
      BeforeIsUnique(w, '=', w);
    }
  }

  lemma CacheOptionsSet(f: Flag)
    requires GoodFlag(f) && f.PerNodeCache?
    ensures SetOptions(DEFAULT_CACHE, CacheOptions(f)) == Some(f)
  {
    hide BytesOf, IsSize, Digits;
    IsSizePositive(f.size);
    IsSizePositive(f.block);
    SizeRoundTrip(f.size);
    SizeRoundTrip(f.block);
    var options := CacheOptions(f);
    var c1 := DEFAULT_CACHE.(size := f.size);
    var c2 := c1.(block := f.block);
    KeysDiffer();
    assert SetOption(DEFAULT_CACHE, "size", options[0].1) == Some(c1);
    assert SetOption(c1, "bs", options[1].1) == Some(c2);
    assert SetOption(c2, "method", options[2].1) == Some(c2) == Some(f);
    assert SetOption(c2, "fstype", options[3].1) == Some(c2);
    assert options[1..][0] == options[1] && options[1..][1..] == options[2..];
    assert options[2..][0] == options[2] && options[2..][1..] == options[3..];
    assert options[3..][0] == options[3] && options[3..][1..] == [];
    assert options[0] == ("size", options[0].1) && options[3] == ("fstype", options[3].1);
    assert SetOptions(c2, options[3..]) == SetOptions(c2, []) == Some(c2);
    assert SetOptions(c2, options[2..]) == SetOptions(c2, options[3..]);
    assert SetOptions(c1, options[1..]) == SetOptions(c2, options[2..]);
  }

  lemma IsSizePositive(n: int)
    requires IsSize(n)
    ensures n > 0
  {
  }

  lemma KeysDiffer()
    ensures EqualIgnoringCase("size", "size") && EqualIgnoringCase("bs", "bs") && EqualIgnoringCase("method", "method")
    ensures EqualIgnoringCase("loop", "loop")
    ensures !EqualIgnoringCase("bs", "size") && !EqualIgnoringCase("bs", "fs")
    ensures !EqualIgnoringCase("method", "size")
    ensures !EqualIgnoringCase("method", "fs") && !EqualIgnoringCase("method", "bs")
    ensures !EqualIgnoringCase("fstype", "size")
    ensures !EqualIgnoringCase("fstype", "fs") && !EqualIgnoringCase("fstype", "bs")
    ensures !EqualIgnoringCase("fstype", "method")
  {
    assert Lower("bs"[0]) != Lower("fs"[0]);
    assert Lower("fstype"[0]) != Lower("method"[0]);
  }

  lemma CacheWordParses(f: Flag)
    requires GoodFlag(f) && f.PerNodeCache?
    ensures FlagOf(Word(f)) == Some([f])
  {
    hide Options, SetOptions, Word, IsSize;
    IsSizePositive(f.size);
    CacheWordOptions(f);
    CacheOptionsSet(f);
    assert Word(f) != "";
  }

  lemma {:induction false} WordsParse(flags: seq<Flag>)
    requires forall i :: 0 <= i < |flags| ==> GoodFlag(flags[i])
    ensures FlagsOf(Words(flags)) == Some(flags)
  {
    hide FlagOf, Word, GoodFlag;
    if flags != [] {
      var n := |flags| - 1;
      assert Words(flags)[..n] == Words(flags[..n]);
      WordsParse(flags[..n]);
      WordParses(flags[n]);
      assert flags == flags[..n] + [flags[n]];
    }
  }

  lemma FilterKeepsPath(s: string)
    requires PathText(s)
    ensures Filter(s, PathChar) == s
  {
    forall c | c in s ensures PathChar(c) {
      var i :| 0 <= i < |s| && s[i] == c;
    }
    FilterAll(s, PathChar);
  }

  lemma PartsAreTokens(e: Entry)
    requires NormalForm(e)
    ensures forall i :: 0 <= i < |[e.from, e.to] + Words(e.flags)| ==>
              IsToken(([e.from, e.to] + Words(e.flags))[i], ':')
  {
    hide GoodFlag, Word;
    var parts := [e.from, e.to] + Words(e.flags);
    forall i | 0 <= i < |parts| ensures IsToken(parts[i], ':') {
      if i >= 2 {
        WordIsText(e.flags[i - 2]);
        assert parts[i] == Word(e.flags[i - 2]);
      }
    }
  }

  lemma PrintStarts(e: Entry)
    requires e.from != ""
    ensures Print(e) != "" && Print(e)[0] == e.from[0]
  {
    assert ([e.from, e.to] + Words(e.flags))[0] == e.from;
  }

  /** The normalised text of an accepted entry parses to the same entry, under the same rules. */
  lemma PrintParses(e: Entry, rules: Rules, requireTo: bool)
    requires WellFormed(e, rules)
    ensures ParseEntry(Print(e), rules, requireTo) == Some(e)
  {
    hide Accepted, CutTokens, Join, Filter, FlagsOf, SortFlags, Ascending, GoodFlag, Words;
    PrintStarts(e);
    PartsAreTokens(e);
    var parts := [e.from, e.to] + Words(e.flags);
    CutJoined(parts);
    assert parts[2..] == Words(e.flags);
    FilterKeepsPath(e.from);
    FilterKeepsPath(e.to);
    WordsParse(e.flags);
    AscendingIsSorted(e.flags);
  }

  /** Parsing, printing and parsing again gives the same entry. */
  lemma EntryRoundTrip(piece: string, rules: Rules, requireTo: bool)
    requires ParseEntry(piece, rules, requireTo).Some?
    ensures var e := ParseEntry(piece, rules, requireTo).value;
            ParseEntry(Print(e), rules, requireTo) == Some(e)
  {
    hide ParseEntry, WellFormed, Print;
    ParsedIsWellFormed(piece, rules, requireTo);
    PrintParses(ParseEntry(piece, rules, requireTo).value, rules, requireTo);
  }

  /** Two entries in normal form have the same text only if they are the same, whichever rules accepted them. */
  lemma PrintInjective(a: Entry, b: Entry)
    requires NormalForm(a) && NormalForm(b)
    ensures Print(a) == Print(b) <==> a == b
  {
    hide Join, CutTokens, GoodFlag;
    if Print(a) == Print(b) {
      var x, y := [a.from, a.to] + Words(a.flags), [b.from, b.to] + Words(b.flags);
      PartsAreTokens(a);
      PartsAreTokens(b);
      CutJoined(x);
      CutJoined(y);
      assert x[0] == y[0] && x[1] == y[1] && x[2..] == y[2..];
      assert Words(a.flags) == x[2..] == Words(b.flags);
      WordsParse(a.flags);
      WordsParse(b.flags);
    }
  }

  /** What the text is made of; in particular neither quotes nor semicolons. */
  predicate RawChar(c: char) {
    PathChar(c) || WordChar(c)
  }

  predicate RawText(s: string) {
    forall i :: 0 <= i < |s| ==> RawChar(s[i])
  }

  lemma {:induction false} JoinIsRaw(parts: seq<string>)
    requires forall i :: 0 <= i < |parts| ==> RawText(parts[i])
    ensures RawText(Join(parts, ':'))
  {
    if |parts| > 1 {
      JoinIsRaw(parts[1..]);
      var a, b := parts[0] + [':'], Join(parts[1..], ':');
      assert RawText(a) && RawText(b);
    }
  }

  lemma PrintIsRaw(e: Entry)
    requires NormalForm(e)
    ensures RawText(Print(e)) && Print(e) != ""
  {
    hide GoodFlag, Word, Join;
    var parts := [e.from, e.to] + Words(e.flags);
    forall i | 0 <= i < |parts| ensures RawText(parts[i]) {
      if i >= 2 {
        WordIsText(e.flags[i - 2]);
        assert parts[i] == Word(e.flags[i - 2]);
      }
    }
    JoinIsRaw(parts);
    PrintStarts(e);
  }
}
