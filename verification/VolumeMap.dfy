/** The volume map: entries in parallel lists, and its signature (VolumeMap.c). */
module VolumeMaps {
  import opened Wrappers
  import opened Text
  import opened StringOrder
  import opened CStrings
  import opened VolumeText
  import opened VolumeEntries
  import opened VolumeParsing

  /** The entries up to the first piece that is refused. */
  ghost function GoodPrefix(pieces: seq<string>, rules: Rules, requireTo: bool): seq<Entry> {
    if pieces == [] || ParseEntry(pieces[0], rules, requireTo).None? then []
    else [ParseEntry(pieces[0], rules, requireTo).value] + GoodPrefix(pieces[1..], rules, requireTo)
  }

  ghost predicate AllParse(pieces: seq<string>, rules: Rules, requireTo: bool) {
    forall i :: 0 <= i < |pieces| ==> ParseEntry(pieces[i], rules, requireTo).Some?
  }

  function Prints(entries: seq<Entry>): (r: seq<string>)
    ensures |r| == |entries|
    ensures forall i {:trigger r[i]} :: 0 <= i < |r| ==> r[i] == Print(entries[i])
  {
    seq(|entries|, i requires 0 <= i < |entries| => Print(entries[i]))
  }

  ghost predicate AllNormal(entries: seq<Entry>) {
    forall i :: 0 <= i < |entries| ==> NormalForm(entries[i])
  }

  /* Strings without a terminator inside. */

  lemma {:induction false} TokensWithout(s: string, sep: char, c: char)
    requires c !in s
    ensures forall i :: 0 <= i < |Tokens(s, sep)| ==> c !in Tokens(s, sep)[i]
    decreases |s|
  {
    if s != "" {
      if s[0] == sep {
        TokensWithout(s[1..], sep, c);
      } else {
        TokensWithout(s[|Before(s, sep)|..], sep, c);
      }
    }
  }

  lemma {:induction false} CutTokensWithout(s: string, c: char)
    requires c !in s
    ensures forall i :: 0 <= i < |CutTokens(s)| ==> c !in CutTokens(s)[i]
    decreases |s|
  {
    var token := Before(s, ':');
    if s != "" && |token| < |s| {
      CutTokensWithout(s[|token| + 1..], c);
    }
  }

  /* One entry. */

  lemma {:induction false} FlagsRefused(tokens: seq<string>, k: nat)
    requires k <= |tokens| && FlagsOf(tokens[..k]).None?
    ensures FlagsOf(tokens).None?
  {
    if k < |tokens| {
      assert tokens[..|tokens| - 1][..k] == tokens[..k];
      FlagsRefused(tokens[..|tokens| - 1], k);
    } else {
      assert tokens[..k] == tokens;
    }
  }

  method ParseFlags(tokens: seq<string>) returns (r: Option<seq<Flag>>)
    requires forall i :: 0 <= i < |tokens| ==> '\0' !in tokens[i]
    ensures r == FlagsOf(tokens)
  {
    hide FlagOf;
    var flags: seq<Flag> := [];
    var i := 0;
    while i < |tokens|
      invariant i <= |tokens| && FlagsOf(tokens[..i]) == Some(flags)
    {
      assert tokens[..i + 1][..i] == tokens[..i];
      var ok, more := ParseFlag(tokens[i], flags);
      if !ok {
        FlagsRefused(tokens, i + 1);
        return None;
      }
      flags := more;
      i := i + 1;
    }
    assert tokens[..i] == tokens;
    r := Some(flags);
  }

  method TokensOf(piece: string) returns (tokens: seq<string>)
    requires '\0' !in piece
    ensures tokens == CutTokens(Unquoted(piece))
  {
    var text := Unquoted(piece);
    var buf := new char[|text| + 1];
    forall i | 0 <= i < |text| { buf[i] := text[i]; }
    buf[|text|] := '\0';
    assert buf[..|text|] == text;
    tokens := Tokenize(buf, text);
  }

  /** The body of the loop of `_parseVolumeMap`: one piece between semicolons. */
  method ParsePiece(piece: string, rules: Rules, requireTo: bool) returns (r: Option<Entry>)
    requires '\0' !in piece
    ensures r == ParseEntry(piece, rules, requireTo)
  {
    hide CutTokens, FlagsOf, Filter, Accepted, Verdict, SortFlags;
    var tokens := TokensOf(piece);
    CutTokensWithout(Unquoted(piece), '\0');
    if |tokens| == 0 { return None; }
    var from := UserInputPathFilter(tokens[0]);
    var to := None;
    if |tokens| > 1 {
      var target := UserInputPathFilter(tokens[1]);
      to := Some(target);
    }
    var flags := ParseFlags(if |tokens| == 1 then [] else tokens[2..]);
    if flags.None? { return None; }
    if |tokens| == 1 && !requireTo {
      to := Some(from);
    }
    if to.None? { return None; }
    var code := ValidateVolumeMap(from, to.value, flags.value, rules);
    VerdictZero(from, to.value, flags.value, rules);
    if code != 0 { return None; }
    r := Some(Entry(from, to.value, SortFlags(flags.value)));
  }

  /* The list of pieces. */

  lemma PiecesStep(input: string, ptr: nat)
    requires ptr < |input|
    ensures var piece := Before(input[ptr..], ';');
            Tokens(input[ptr..], ';') ==
            if piece == "" then Tokens(input[ptr + 1..], ';')
            else [piece] + if ptr + |piece| + 1 <= |input| then Tokens(input[ptr + |piece| + 1..], ';') else []
  {
    var s := input[ptr..];
    var piece := Before(s, ';');
    if piece == "" {
      assert s[0] == ';' && s[1..] == input[ptr + 1..];
    } else {
      var rest := s[|piece|..];
      if |piece| < |s| {
        assert rest[0] == ';' && rest[1..] == input[ptr + |piece| + 1..];
      }
    }
  }

  /* The signature. */

  function SignatureText(raw: seq<string>): string {
    Join(Sort(raw), ';')
  }

  predicate RawEntry(s: string) {
    s != "" && ';' !in s && '"' !in s
  }

  lemma PrintIsEntry(e: Entry)
    requires NormalForm(e)
    ensures RawEntry(Print(e))
  {
    PrintIsRaw(e);
  }

  /** How often an entry occurs is how often its text does. */
  lemma {:induction false} CountPrints(entries: seq<Entry>, e: Entry)
    requires AllNormal(entries) && NormalForm(e)
    ensures multiset(Prints(entries))[Print(e)] == multiset(entries)[e]
  {
    hide NormalForm, Print;
    if entries != [] {
      var n := |entries| - 1;
      CountPrints(entries[..n], e);
      PrintInjective(entries[n], e);
      assert entries == entries[..n] + [entries[n]];
      assert Prints(entries) == Prints(entries[..n]) + [Print(entries[n])];
    }
  }

  /** The texts agree, in any order, exactly when the entries do. */
  lemma PrintsExact(a: seq<Entry>, b: seq<Entry>)
    requires AllNormal(a) && AllNormal(b)
    ensures multiset(Prints(a)) == multiset(Prints(b)) <==> multiset(a) == multiset(b)
  {
    hide NormalForm, Print;
    if multiset(Prints(a)) == multiset(Prints(b)) {
      forall e ensures multiset(a)[e] == multiset(b)[e] {
        if NormalForm(e) {
          CountPrints(a, e);
          CountPrints(b, e);
        } else {
          assert e !in a && e !in b;
        }
      }
    }
    if multiset(a) == multiset(b) {
      SameTexts(a, b);
    }
  }

  lemma {:induction false} SameTexts(a: seq<Entry>, b: seq<Entry>)
    requires multiset(a) == multiset(b)
    ensures multiset(Prints(a)) == multiset(Prints(b))
  {
    hide *;
    if a == [] {
      assert |multiset(b)| == |b|;
    } else {
      var i := Occurrence(b, a[0]);
      var tail, rest := a[1..], b[..i] + b[i + 1..];
      PrintsWithoutFirst(a, tail);
      PrintsWithout(b, i);
      SameTexts(tail, rest);
    }
  }

  lemma PrintsWithoutFirst(a: seq<Entry>, tail: seq<Entry>)
    requires a != [] && tail == a[1..]
    ensures |tail| < |a| && multiset(tail) == multiset(a) - multiset{a[0]}
    ensures multiset(Prints(a)) == multiset(Prints(tail)) + multiset{Print(a[0])}
  {
    hide Print, Prints;
    PrintsWithout(a, 0);
    assert a[..0] + a[1..] == tail;
  }

  lemma Occurrence(entries: seq<Entry>, e: Entry) returns (i: nat)
    requires e in multiset(entries)
    ensures i < |entries| && entries[i] == e
  {
    i :| 0 <= i < |entries| && entries[i] == e;
  }

  /** Taking an entry out takes its text out. */
  lemma PrintsWithout(a: seq<Entry>, i: nat)
    requires i < |a|
    ensures multiset(a[..i] + a[i + 1..]) == multiset(a) - multiset{a[i]}
    ensures multiset(Prints(a)) == multiset(Prints(a[..i] + a[i + 1..])) + multiset{Print(a[i])}
  {
    hide Print;
    var r, rest := Prints(a), a[..i] + a[i + 1..];
    assert a == a[..i] + [a[i]] + a[i + 1..];
    assert r == r[..i] + [r[i]] + r[i + 1..];
    assert Prints(rest) == r[..i] + r[i + 1..];
  }

  /** Signatures of lists of texts agree exactly when the lists do, up to order. */
  lemma SignatureIsCanonical(a: seq<string>, b: seq<string>)
    requires forall i :: 0 <= i < |a| ==> RawEntry(a[i])
    requires forall i :: 0 <= i < |b| ==> RawEntry(b[i])
    ensures SignatureText(a) == SignatureText(b) <==> multiset(a) == multiset(b)
  {
    SortIsCanonical(a, b);
    SortedEntries(a);
    SortedEntries(b);
    TokensOfJoin(Sort(a), ';');
    TokensOfJoin(Sort(b), ';');
  }

  lemma SortedEntries(a: seq<string>)
    requires forall i :: 0 <= i < |a| ==> RawEntry(a[i])
    ensures forall i :: 0 <= i < |Sort(a)| ==> RawEntry(Sort(a)[i]) && IsToken(Sort(a)[i], ';')
  {
    forall i | 0 <= i < |Sort(a)| ensures RawEntry(Sort(a)[i]) {
      assert Sort(a)[i] in multiset(Sort(a));
      assert Sort(a)[i] in a;
    }
  }

  class VolumeMap {
    var raw: seq<string>
    var to: seq<string>
    var from: seq<string>
    var flags: seq<seq<Flag>>

    /** The lists run in parallel, except that `raw` may have been sorted. */
    ghost predicate Valid()
      reads this
    {
      && |raw| == |to| == |from| == |flags|
      && AllNormal(Entries())
      && multiset(raw) == multiset(Prints(Entries()))
    }

    ghost function Entries(): (r: seq<Entry>)
      reads this
      ensures |to| == |from| == |flags| ==> |r| == |to|
    {
      if |to| == |from| == |flags| then
        seq(|to|, i requires 0 <= i < |to| && |to| == |from| == |flags| reads this => Entry(from[i], to[i], flags[i]))
      else []
    }

    constructor ()
      ensures Valid() && Entries() == []
    {
      raw, to, from, flags := [], [], [], [];
      new;
      assert Entries() == [];
    }

    method Add(e: Entry)
      requires Valid() && NormalForm(e)
      modifies this
      ensures Valid() && Entries() == old(Entries()) + [e]
      ensures raw == old(raw) + [Print(e)]
    {
      hide NormalForm, Print;
      var text := PrintRaw(e);
      raw, to, from, flags := raw + [text], to + [e.to], from + [e.from], flags + [e.flags];
      assert Entries() == old(Entries()) + [e];
      assert Prints(Entries()) == Prints(old(Entries())) + [Print(e)];
    }

    /** Add the entry of the first piece that is left, or refuse it. */
    method TakePiece(piece: string, rules: Rules, requireTo: bool, ghost left: seq<string>) returns (ok: bool)
      requires Valid() && '\0' !in piece && left != [] && left[0] == piece
      modifies this
      ensures Valid()
      ensures !ok ==> !AllParse(left, rules, requireTo)
      ensures !ok ==> Entries() == old(Entries()) + GoodPrefix(left, rules, requireTo)
      ensures ok ==> (AllParse(left, rules, requireTo) <==> AllParse(left[1..], rules, requireTo))
      ensures ok ==>
                var now, was := GoodPrefix(left[1..], rules, requireTo), GoodPrefix(left, rules, requireTo);
                Entries() + now == old(Entries()) + was
    {
      hide ParseEntry, NormalForm, WellFormed, AllNormal, Print, AllParse, GoodPrefix;
      var e := ParsePiece(piece, rules, requireTo);
      PieceRead(Entries(), left, rules, requireTo);
      if e.None? { return false; }
      ParsedIsWellFormed(piece, rules, requireTo);
      ParsedIsNormal(e.value, rules);
      Add(e.value);
      ok := true;
    }

    /** _parseVolumeMap: entries are added until one is refused. */
    method ParseVolumeMap(input: string, rules: Rules, requireTo: bool) returns (ok: bool)
      requires Valid() && '\0' !in input
      modifies this
      ensures Valid()
      ensures ok <==> AllParse(Tokens(input, ';'), rules, requireTo)
      ensures Entries() == old(Entries()) + GoodPrefix(Tokens(input, ';'), rules, requireTo)
    {
      hide Tokens, ParseEntry, AllParse, GoodPrefix, AllNormal, Print, Before;
      ghost var pieces := Tokens(input, ';');
      ghost var start := Entries();
      ghost var left := pieces;
      var ptr := 0;
      assert input[0..] == input;
      TokensWithout(input, ';', '\0');
      NothingRead(start, pieces, rules, requireTo);
      while ptr < |input|
        invariant ptr <= |input| + 1 && Valid()
        invariant left == if ptr <= |input| then Tokens(input[ptr..], ';') else []
        invariant forall i :: 0 <= i < |left| ==> '\0' !in left[i]
        invariant AllParse(pieces, rules, requireTo) <==> AllParse(left, rules, requireTo)
        invariant Entries() + GoodPrefix(left, rules, requireTo) == start + GoodPrefix(pieces, rules, requireTo)
      {
        PiecesStep(input, ptr);
        var piece := Before(input[ptr..], ';');
        if piece == "" {
          ptr := ptr + 1;
          continue;
        }
        assert left[0] == piece;
        var added := TakePiece(piece, rules, requireTo, left);
        if !added { return false; }
        left := left[1..];
        ptr := ptr + |piece| + 1;
      }
      NoPieces(input, ptr);
      NothingRead(Entries(), left, rules, requireTo);
      ok := true;
    }

    /** getVolMapSignature: sorts the texts, but not the other lists. */
    method GetSignature() returns (sig: Option<string>)
      requires Valid()
      modifies this`raw
      ensures Valid() && raw == Sort(old(raw))
      ensures Entries() == old(Entries())
      ensures raw == [] ==> sig == None
      ensures raw != [] ==> sig == Some(SignatureText(Prints(Entries())))
    {
      if |raw| == 0 { return None; }
      hide *;
      SortRaw();
      var text := JoinInBuffer(raw);
      sig := Some(text);
      SignatureOf(Prints(Entries()));
    }

    method SortRaw()
      requires Valid()
      modifies this`raw
      ensures Valid() && raw == Sort(old(raw)) == Sort(Prints(Entries()))
      ensures Entries() == old(Entries())
    {
      hide Sort, AllNormal;
      SortIsCanonical(raw, Prints(Entries()));
      raw := Sort(raw);
      assert Entries() == old(Entries());
    }
  }

  lemma SignatureOf(raw: seq<string>)
    ensures SignatureText(raw) == Join(Sort(raw), ';')
  {
  }

  /** The texts joined by semicolons, in a buffer of exactly that size. */
  method JoinInBuffer(raw: seq<string>) returns (text: string)
    requires raw != []
    ensures text == Join(raw, ';')
  {
    hide Join, Terminated, TotalLength;
    var length := 0;
    var i := 0;
    NoLengthYet(raw);
    while i < |raw|
      invariant i <= |raw| && length == TotalLength(raw[..i])
    {
      LengthStep(raw, i);
      length := length + |raw[i]|;
      i := i + 1;
    }
    assert raw[..i] == raw;
    var buf := new char[length + |raw|];
    JoinLength(raw, ';');
    var w: nat := 0;
    i := 0;
    NothingWritten(raw, buf[..0], ';');
    while i < |raw|
      invariant i <= |raw| && buf.Length == |Join(raw, ';')| + 1
      invariant i < |raw| ==> w <= buf.Length && buf[..w] == Terminated(raw[..i], ';')
      invariant i == |raw| ==> buf[..] == Join(raw, ';') + "\0"
    {
      w := WriteEntry(buf, w, raw[i], ';', ';', raw, i);
      i := i + 1;
    }
    text := buf[..buf.Length - 1];
  }

  lemma NoLengthYet(raw: seq<string>)
    ensures TotalLength(raw[..0]) == 0
  {
  }

  lemma {:induction false} LengthStep(raw: seq<string>, i: nat)
    requires i < |raw|
    ensures TotalLength(raw[..i + 1]) == TotalLength(raw[..i]) + |raw[i]|
  {
    if i == 0 {
      assert raw[..1][1..] == [];
    } else {
      assert raw[..i + 1][1..] == raw[1..][..i] && raw[..i][1..] == raw[1..][..i - 1];
      LengthStep(raw[1..], i - 1);
    }
  }

  lemma NothingRead(entries: seq<Entry>, pieces: seq<string>, rules: Rules, requireTo: bool)
    ensures pieces == [] ==>
              entries + GoodPrefix(pieces, rules, requireTo) == entries && AllParse(pieces, rules, requireTo)
  {
    if pieces == [] {
      assert entries + [] == entries;
    }
  }

  lemma NoPieces(input: string, ptr: nat)
    requires |input| <= ptr
    ensures ptr == |input| ==> Tokens(input[ptr..], ';') == []
  {
  }

  lemma PieceRead(entries: seq<Entry>, pieces: seq<string>, rules: Rules, requireTo: bool)
    requires pieces != []
    ensures var e := ParseEntry(pieces[0], rules, requireTo);
            if e.None? then !AllParse(pieces, rules, requireTo)
              && entries + GoodPrefix(pieces, rules, requireTo) == entries
            else (AllParse(pieces, rules, requireTo) <==> AllParse(pieces[1..], rules, requireTo))
                 && entries + GoodPrefix(pieces, rules, requireTo) ==
                      entries + [e.value] + GoodPrefix(pieces[1..], rules, requireTo)
  {
    hide ParseEntry;
    var e := ParseEntry(pieces[0], rules, requireTo);
    AllParseFirst(pieces, rules, requireTo);
    if e.Some? {
      Regroup(entries, [e.value], GoodPrefix(pieces[1..], rules, requireTo));
    } else {
      assert entries + [] == entries;
    }
  }

  lemma AllParseFirst(pieces: seq<string>, rules: Rules, requireTo: bool)
    requires pieces != []
    ensures AllParse(pieces, rules, requireTo) <==>
            ParseEntry(pieces[0], rules, requireTo).Some? && AllParse(pieces[1..], rules, requireTo)
  {
    hide ParseEntry;
    var rest := pieces[1..];
    assert forall i :: 0 < i < |pieces| ==> pieces[i] == rest[i - 1];
    assert forall i :: 0 <= i < |rest| ==> rest[i] == pieces[i + 1];
  }

  lemma ParsedIsNormal(e: Entry, rules: Rules)
    requires WellFormed(e, rules)
    ensures NormalForm(e)
  {
  }

  /** The signatures of two maps agree exactly when they have the same entries, up to order. */
  lemma SignatureExact(a: seq<Entry>, b: seq<Entry>)
    requires AllNormal(a) && AllNormal(b)
    ensures SignatureText(Prints(a)) == SignatureText(Prints(b)) <==> multiset(a) == multiset(b)
    ensures SignatureText(Prints(a)) == "" <==> a == []
    ensures '"' !in SignatureText(Prints(a))
  {
    hide NormalForm, Print, Sort;
    PrintsAreEntries(a);
    PrintsAreEntries(b);
    SignatureIsCanonical(Prints(a), Prints(b));
    PrintsExact(a, b);
    SortedEntries(Prints(a));
    JoinWithout(Sort(Prints(a)), ';', '"');
    if a != [] {
      JoinNonempty(Sort(Prints(a)), ';');
    }
  }

  ghost predicate AllWellFormed(entries: seq<Entry>, rules: Rules) {
    forall i :: 0 <= i < |entries| ==> WellFormed(entries[i], rules)
  }

  /** A text that parses to an entry with this very text. */
  ghost predicate IsNormalText(text: string, rules: Rules, requireTo: bool) {
    var e := ParseEntry(text, rules, requireTo);
    e.Some? && NormalForm(e.value) && Print(e.value) == text
  }

  lemma {:induction false} NormalTextsParse(texts: seq<string>, rules: Rules, requireTo: bool)
    requires forall i :: 0 <= i < |texts| ==> IsNormalText(texts[i], rules, requireTo)
    ensures AllParse(texts, rules, requireTo) && AllNormal(GoodPrefix(texts, rules, requireTo))
    ensures Prints(GoodPrefix(texts, rules, requireTo)) == texts
  {
    hide ParseEntry, NormalForm, Print;
    if texts != [] {
      assert IsNormalText(texts[0], rules, requireTo);
      NormalTextsParse(texts[1..], rules, requireTo);
      AllParseFirst(texts, rules, requireTo);
      assert texts == [texts[0]] + texts[1..];
    }
  }

  /** Parsing a signature gives the same entries again, in the order of their texts. */
  lemma SignatureRoundTrip(entries: seq<Entry>, rules: Rules, requireTo: bool)
    requires AllWellFormed(entries, rules)
    ensures var pieces := Tokens(SignatureText(Prints(entries)), ';');
            && AllParse(pieces, rules, requireTo)
            && multiset(GoodPrefix(pieces, rules, requireTo)) == multiset(entries)
  {
    hide ParseEntry, NormalForm, Print, Sort, Join, Accepted, GoodPrefix, AllParse;
    forall i | 0 <= i < |entries| ensures NormalForm(entries[i]) {
      assert WellFormed(entries[i], rules);
    }
    var texts := Sort(Prints(entries));
    PrintsAreEntries(entries);
    SortedEntries(Prints(entries));
    TokensOfJoin(texts, ';');
    forall i | 0 <= i < |texts| ensures IsNormalText(texts[i], rules, requireTo) {
      assert texts[i] in multiset(texts);
      assert texts[i] in Prints(entries);
      var k :| 0 <= k < |entries| && Prints(entries)[k] == texts[i];
      assert WellFormed(entries[k], rules);
      PrintParses(entries[k], rules, requireTo);
    }
    NormalTextsParse(texts, rules, requireTo);
    PrintsExact(GoodPrefix(texts, rules, requireTo), entries);
  }

  lemma PrintsAreEntries(a: seq<Entry>)
    requires AllNormal(a)
    ensures forall i :: 0 <= i < |Prints(a)| ==> RawEntry(Prints(a)[i])
  {
    forall i | 0 <= i < |Prints(a)| ensures RawEntry(Prints(a)[i]) {
      PrintIsEntry(a[i]);
    }
  }

  lemma {:induction false} JoinWithout(parts: seq<string>, sep: char, c: char)
    requires c != sep && forall i :: 0 <= i < |parts| ==> c !in parts[i]
    ensures c !in Join(parts, sep)
  {
    if |parts| > 1 {
      JoinWithout(parts[1..], sep, c);
    }
  }

  lemma JoinNonempty(parts: seq<string>, sep: char)
    requires parts != [] && parts[0] != ""
    ensures Join(parts, sep) != ""
  {
  }
}
