/** Who may use an image: the gateway's check (imagemngr.py), the metadata it writes (converters.py) and the
    compute node's reading of it (ImageData.c). */
module Acl {
  import opened Wrappers
  import opened Text
  import opened Decimal

  const MAX_IDS: nat := 1000
  const ULONG_RANGE: nat := 0x1_0000_0000_0000_0000
  const UID_RANGE: nat := 0x1_0000_0000

  // A key of a Python dictionary: missing, None or a value.
  datatype Field<T> = Absent | Null | Present(value: T)

  datatype Record = Record(private: Field<bool>, userACL: Field<seq<nat>>, groupACL: Field<seq<nat>>)

  function Ids(f: Field<seq<nat>>): seq<nat> {
    if f.Present? then f.value else []
  }

  /* The gateway. */

  /** Nobody is shut out: the image is public, or there are no lists, or both lists are empty. */
  predicate Open(rec: Record) {
    || rec.private == Present(false)
    || (!rec.userACL.Present? && !rec.groupACL.Present?)
    || (rec.userACL == Present([]) && rec.groupACL == Present([]))
  }

  predicate Listed(users: seq<nat>, groups: seq<nat>, uid: nat, gid: nat, aux: seq<nat>) {
    uid in users || gid in groups || exists i :: 0 <= i < |aux| && aux[i] in groups
  }

  predicate GatewayAllows(rec: Record, uid: nat, gid: nat, aux: seq<nat>) {
    Open(rec) || Listed(Ids(rec.userACL), Ids(rec.groupACL), uid, gid, aux)
  }

  /** _checkread; `aux` are the groups that `id -G` reports. */
  method CheckRead(rec: Record, uid: nat, gid: nat, aux: seq<nat>) returns (r: bool)
    ensures r <==> GatewayAllows(rec, uid, gid, aux)
    ensures r <==>
            || rec.private == Present(false)
            || (!rec.userACL.Present? && !rec.groupACL.Present?)
            || (rec.userACL == Present([]) && rec.groupACL == Present([]))
            || (rec.userACL.Present? && uid in rec.userACL.value)
            || (rec.groupACL.Present? && gid in rec.groupACL.value)
            || (rec.groupACL.Present? && exists i :: 0 <= i < |aux| && aux[i] in rec.groupACL.value)
  {
    if rec.private == Present(false) { return true; }
    if !rec.userACL.Present? && !rec.groupACL.Present? { return true; }
    if rec.userACL == Present([]) && rec.groupACL == Present([]) { return true; }
    if rec.userACL.Present? && uid in rec.userACL.value { return true; }
    if rec.groupACL.Present? && gid in rec.groupACL.value { return true; }
    var i := 0;
    while i < |aux|
      invariant i <= |aux|
      invariant forall k :: 0 <= k < i ==> aux[k] !in Ids(rec.groupACL)
    {
      if rec.groupACL.Present? && aux[i] in rec.groupACL.value { return true; }
      i := i + 1;
    }
    return false;
  }

  /* The writer. */

  function Texts(ids: seq<nat>): (r: seq<string>)
    ensures |r| == |ids|
    ensures forall i {:trigger r[i]} :: 0 <= i < |r| ==> r[i] == Digits(ids[i])
  {
    seq(|ids|, i requires 0 <= i < |ids| => Digits(ids[i]))
  }

  predicate Private(rec: Record, disabled: bool) {
    rec.private == Present(true) && !disabled
  }

  function AclLine(key: string, written: bool, acl: Field<seq<nat>>): seq<string> {
    if written && acl.Present? then [key + ": " + Join(Texts(acl.value), ',')] else []
  }

  /** The lines about access that `writemeta` writes; `disabled` is the environment's DISABLE_ACL_METADATA. */
  function AclLines(rec: Record, disabled: bool): seq<string> {
    AclLine("USERACL", Private(rec, disabled), rec.userACL) + AclLine("GROUPACL", Private(rec, disabled), rec.groupACL)
  }

  /** writemeta, its access lines */
  method WriteMeta(rec: Record, disabled: bool) returns (lines: seq<string>)
    ensures lines == AclLines(rec, disabled)
    ensures rec.private != Present(true) || disabled ==> lines == []
    ensures rec.private == Present(true) && !disabled ==>
              lines == (if rec.userACL.Present? then ["USERACL: " + Join(Texts(rec.userACL.value), ',')] else [])
                + (if rec.groupACL.Present? then ["GROUPACL: " + Join(Texts(rec.groupACL.value), ',')] else [])
  {
    assert "USERACL" + ": " == "USERACL: " && "GROUPACL" + ": " == "GROUPACL: ";
    lines := [];
    var private := rec.private.Present? && rec.private.value;
    if disabled { private := false; }
    if private && rec.userACL.Present? {
      lines := lines + ["USERACL: " + Join(Texts(rec.userACL.value), ',')];
    }
    if private && rec.groupACL.Present? {
      lines := lines + ["GROUPACL: " + Join(Texts(rec.groupACL.value), ',')];
    }
  }

  /* The reader. */

  /** `strtoul` in base ten, narrowed to `uid_t`. */
  function Narrow(n: Scan): nat
    requires AllDigits(n.digits)
  {
    var v := Value(n.digits);
    (if v >= ULONG_RANGE then ULONG_RANGE - 1
     else if n.negative then (ULONG_RANGE - v) % ULONG_RANGE
     else v) % UID_RANGE
  }

  /** The id a token stands for, if it is a number and nothing else. */
  function TokenId(token: string): Option<nat> {
    var trimmed := Trim(token);
    if trimmed == "" || ScanNumber(trimmed).rest != "" then None else Some(Narrow(ScanNumber(trimmed)))
  }

  /** Neither the first nor the last character is a blank. */
  predicate Solid(s: string) {
    s != "" && !AllBlank(s[..1]) && !AllBlank(s[|s| - 1..])
  }

  lemma DigitsAreSolid(n: nat)
    ensures Solid(Digits(n)) && Solid("-" + Digits(n))
  {
    hide Digits;
    var d := Digits(n);
    assert IsDigit(d[..1][0]) && IsDigit(d[|d| - 1..][0]);
    assert ("-" + d)[..1][0] == '-' && ("-" + d)[|d|..] == d[|d| - 1..];
  }

  lemma TokenOf(before: string, core: string, after: string)
    requires AllBlank(before) && AllBlank(after) && Solid(core)
    ensures TokenId(before + core + after) ==
              if ScanNumber(core).rest != "" then None else Some(Narrow(ScanNumber(core)))
  {
    hide ScanNumber, Narrow, Trim, AllBlank;
    TrimExact(before, core, after);
  }

  /**
   * A token is a number with blanks around it, or it is skipped. A negative number counts down from 2^64, a number that
   * is too large counts as 2^64 - 1, and the last 32 bits of the result are the id.
   */
  lemma TokenExact(before: string, n: nat, after: string)
    requires AllBlank(before) && AllBlank(after)
    ensures TokenId(before + Digits(n) + after) ==
              Some((if n < 0x1_0000_0000_0000_0000 then n else 0xFFFF_FFFF_FFFF_FFFF) % 0x1_0000_0000)
    ensures 0 < n < 0x1_0000_0000_0000_0000 ==>
              TokenId(before + ("-" + Digits(n)) + after) == Some((0x1_0000_0000_0000_0000 - n) % 0x1_0000_0000)
  {
    hide Digits, ScanNumber, Value, TokenId, Solid, AllBlank;
    DigitsAreSolid(n);
    ScanSigned(n);
    ValueOfDigits(n);
    TokenOf(before, Digits(n), after);
    TokenOf(before, "-" + Digits(n), after);
  }

  /** Anything that goes on behind its digits is skipped, and so is what has none. */
  lemma JunkIsSkipped(n: nat, junk: string)
    requires junk != "" && !IsDigit(junk[0]) && !AllBlank(junk[|junk| - 1..])
    ensures TokenId(Digits(n) + junk) == None && TokenId("") == None
  {
    hide Digits, ScanNumber, Narrow, AllBlank;
    var d := Digits(n);
    var t := d + junk;
    DigitsAreSolid(n);
    assert t[..1] == d[..1] && t[|t| - 1..] == junk[|junk| - 1..];
    assert "" + t + "" == t;
    NoBlanks();
    TokenOf("", t, "");
    ScanDigits(n, junk);
  }

  lemma NoBlanks()
    ensures AllBlank("") && Trim("") == ""
  {
  }

  /** The ids a list of tokens stands for; a token that is not a number is skipped. */
  function TokenIds(tokens: seq<string>): seq<nat> {
    if tokens == [] then []
    else (if TokenId(tokens[0]).Some? then [TokenId(tokens[0]).value] else []) + TokenIds(tokens[1..])
  }

  function TextIds(text: string): seq<nat> {
    TokenIds(Tokens(Trim(text), ','))
  }

  /** What `_convert_to_list` hands out: nothing at all when the list is too long. */
  function Kept(ids: seq<nat>): seq<nat> {
    if |ids| > MAX_IDS then [] else ids
  }

  lemma KeptIfFew(ids: seq<nat>, more: seq<nat>)
    ensures |ids| > MAX_IDS ==> Kept(ids + more) == []
    ensures |ids| <= MAX_IDS ==> Kept(ids) == ids
  {
  }

  class IdList {
    var cells: array<nat>
    var count: nat

    ghost predicate Valid()
      reads this
    {
      count <= cells.Length
    }

    ghost function Contents(): seq<nat>
      requires Valid()
      reads this, cells
    {
      cells[..count]
    }

    constructor ()
      ensures Valid() && Contents() == [] && fresh(cells)
    {
      cells, count := new nat[0], 0;
    }

    /** Room for one more id and a terminator. */
    method Reserve(used: nat)
      requires used <= cells.Length
      modifies this`cells
      ensures cells == old(cells) || fresh(cells)
      ensures used + 2 <= cells.Length && cells[..used] == old(cells[..used])
    {
      if cells.Length < used + 2 {
        var grown := new nat[(used + 2) * 2];
        forall i | 0 <= i < used { grown[i] := cells[i]; }
        cells := grown;
        assert cells[..used] == old(cells[..used]);
      }
    }

    method Store(used: nat, id: nat)
      requires used < cells.Length
      modifies cells
      ensures cells[..used + 1] == old(cells[..used]) + [id]
    {
      cells[used] := id;
    }

    /** One token: its number, if it is one, is stored behind the others. */
    method Take(used: nat, token: string) returns (n: nat)
      requires used <= cells.Length
      modifies this`cells, cells
      ensures (cells == old(cells) || fresh(cells)) && n <= cells.Length
      ensures cells[..n] ==
                if TokenId(token).Some? then old(cells[..used]) + [TokenId(token).value] else old(cells[..used])
    {
      hide TokenId;
      Reserve(used);
      var id := TokenId(token);
      n := used;
      if id.Some? {
        Store(used, id.value);
        n := used + 1;
      }
    }

    /** _convert_to_list */
    method ConvertToList(text: string) returns (n: nat)
      requires Valid()
      modifies this, cells
      ensures Valid() && (cells == old(cells) || fresh(cells))
      ensures text == "" ==> n == 0 && Contents() == old(Contents())
      ensures text != "" ==> Contents() == Kept(TextIds(text)) && n == |Contents()|
    {
      if text == "" { return 0; }
      hide TokenId, TokenIds, TextIds, Kept, Tokens, Skip, NextToken, Trim;
      cells, count := new nat[0], 0;
      var search := Trim(text);
      var used: nat := 0;
      NoIdsYet(cells[..used], text);
      while Skip(search, ',') != ""
        invariant fresh(cells) && count == 0 && used <= cells.Length && used <= MAX_IDS
        invariant cells[..used] + TokenIds(Tokens(search, ',')) == TextIds(text)
        decreases |search|
      {
        var (token, rest) := NextToken(search, ',');
        ghost var before := cells[..used];
        IdStep(before, search, token, rest);
        search := rest;
        used := Take(used, token);
        if used > MAX_IDS {
          KeptIfFew(cells[..used], TokenIds(Tokens(search, ',')));
          cells := new nat[0];
          return 0;
        }
      }
      AllIdsRead(cells[..used], search);
      KeptIfFew(cells[..used], []);
      count := used;
      n := used;
    }
  }

  lemma NoIdsYet(ids: seq<nat>, text: string)
    requires ids == []
    ensures ids + TokenIds(Tokens(Trim(text), ',')) == TextIds(text)
  {
  }

  lemma AllIdsRead(ids: seq<nat>, search: string)
    requires Skip(search, ',') == ""
    ensures ids + TokenIds(Tokens(search, ',')) == ids
  {
    NoTokens(search, ',');
    assert ids + [] == ids;
  }

  lemma IdStep(done: seq<nat>, search: string, token: string, rest: string)
    requires Skip(search, ',') != "" && NextToken(search, ',') == (token, rest)
    ensures done + TokenIds(Tokens(search, ',')) ==
            (if TokenId(token).Some? then done + [TokenId(token).value] else done) + TokenIds(Tokens(rest, ','))
  {
    hide *;
    TokenIdsFirst(token, Tokens(rest, ','));
    var ids := TokenIds(Tokens(rest, ','));
    if TokenId(token).Some? {
      Regroup(done, [TokenId(token).value], ids);
    } else {
      Regroup(done, [], ids);
      assert done + [] == done;
    }
  }

  lemma TokenIdsFirst(token: string, tokens: seq<string>)
    ensures TokenIds([token] + tokens) ==
              (if TokenId(token).Some? then [TokenId(token).value] else []) + TokenIds(tokens)
  {
    assert ([token] + tokens)[1..] == tokens;
  }

  // The lists a metadata file leaves in the image record.
  datatype Loaded = Loaded(users: seq<nat>, groups: seq<nat>)

  /** One entry of the file; None when the reader aborts because a list came out empty. */
  function LoadEntry(loaded: Loaded, key: string, value: string): Option<Loaded> {
    var ids := Kept(TextIds(value));
    if value == "" then Some(loaded)
    else if key == "USERACL" then if ids == [] then None else Some(loaded.(users := ids))
    else if key == "GROUPACL" then if ids == [] then None else Some(loaded.(groups := ids))
    else Some(loaded)
  }

  // The record read so far, and the key and value of an entry that goes on in the next line.
  datatype Reading = Reading(loaded: Loaded, pending: Option<(string, string)>)

  predicate GoesOn(part: string) {
    part != "" && part[|part| - 1] == '\\'
  }

  /** A part of a value without the backslash that says it goes on. */
  function PartText(part: string): string {
    if GoesOn(part) then Trim(part[..|part| - 1]) else part
  }

  function Continued(r: Reading, key: string, value: string, more: bool): Option<Reading> {
    if more then Some(r.(pending := Some((key, value))))
    else
      var loaded := LoadEntry(r.loaded, key, Trim(value));
      if loaded.None? then None else Some(Reading(loaded.value, None))
  }

  /** One line: a comment, a line without a colon, an entry or its beginning, or more of an entry. */
  function ReadLine(r: Reading, line: string): Option<Reading> {
    if "#" <= line then Some(r)
    else if r.pending.Some? then
      var (key, value) := r.pending.value;
      Continued(r, key, value + " " + PartText(Trim(line)), GoesOn(Trim(line)))
    else
      var key := Before(line, ':');
      if key == line then Some(r)
      else
        var part := Trim(line[|key| + 1..]);
        Continued(r, Trim(key), PartText(part), GoesOn(part))
  }

  function ReadLines(r: Reading, lines: seq<string>): Option<Reading>
    decreases |lines|
  {
    if lines == [] then Some(r)
    else if ReadLine(r, lines[0]).None? then None
    else ReadLines(ReadLine(r, lines[0]).value, lines[1..])
  }

  lemma ReadOne(r: Reading, line: string)
    ensures ReadLines(r, [line]) == ReadLine(r, line)
  {
    hide ReadLine;
    assert [line][1..] == [];
  }

  lemma {:induction false} ReadLinesConcat(r: Reading, a: seq<string>, b: seq<string>)
    ensures ReadLines(r, a + b) == if ReadLines(r, a).None? then None else ReadLines(ReadLines(r, a).value, b)
    decreases |a|
  {
    hide ReadLine;
    if a == [] {
      assert a + b == b;
    } else {
      assert (a + b)[1..] == a[1..] + b;
      var next := ReadLine(r, a[0]);
      if next.Some? { ReadLinesConcat(next.value, a[1..], b); }
    }
  }

  /** A comment has no effect anywhere, and neither has a line without a colon at the start of the file. */
  lemma SkippedLine(loaded: Loaded, before: seq<string>, line: string, after: seq<string>)
    requires "#" <= line || (':' !in line && before == [])
    ensures Load(loaded, before + [line] + after) == Load(loaded, before + after)
  {
    hide ReadLine;
    var r := Reading(loaded, None);
    ReadLinesConcat(r, before + [line], after);
    ReadLinesConcat(r, before, [line]);
    ReadLinesConcat(r, before, after);
    if ReadLines(r, before).Some? {
      ReadOne(ReadLines(r, before).value, line);
      LineHasNoEffect(ReadLines(r, before).value, line);
    }
  }

  lemma LineHasNoEffect(r: Reading, line: string)
    requires "#" <= line || (':' !in line && r.pending.None?)
    ensures ReadLine(r, line) == Some(r)
  {
    if ':' !in line { BeforeIsUnique(line, ':', line); }
  }

  /** What a whole file loads; an entry that goes on behind its end is lost. */
  function Load(loaded: Loaded, lines: seq<string>): Option<Loaded> {
    var r := ReadLines(Reading(loaded, None), lines);
    if r.None? then None else Some(r.value.loaded)
  }

  lemma EntryStarts(r: Reading, key: string, rest: string)
    requires r.pending.None? && ':' !in key && !("#" <= key)
    ensures ReadLine(r, key + ":" + rest) == Continued(r, Trim(key), PartText(Trim(rest)), GoesOn(Trim(rest)))
  {
    hide Continued, PartText, GoesOn, Trim;
    var line := key + ":" + rest;
    assert key <= line && line[|key|] == ':' && line[|key| + 1..] == rest;
    assert line[0] == if key == "" then ':' else key[0];
    BeforeIsUnique(line, ':', key);
  }

  /** A text that trimming leaves alone. */
  predicate Tight(s: string) {
    s != "" && !IsSpace(s[0]) && !IsSpace(s[|s| - 1])
  }

  lemma CutParts(first: string, second: string)
    requires Tight(first) && Tight(second) && !GoesOn(second)
    ensures var part, whole := first + "\\", first + " " + second;
            && Trim(part) == part && GoesOn(part) && PartText(part) == first
            && Trim(whole) == whole && !GoesOn(whole) && PartText(whole) == whole
            && Trim(second) == second && PartText(second) == second
  {
    hide Trim;
    var part, whole := first + "\\", first + " " + second;
    TrimTight(part);
    TrimTight(whole);
    TrimTight(first);
    TrimTight(second);
    assert part[..|part| - 1] == first && whole[|whole| - 1] == second[|second| - 1];
  }

  /** A value may be cut at a space: two lines read like the one line they make. */
  lemma CutLine(loaded: Loaded, key: string, first: string, second: string)
    requires ':' !in key && !("#" <= key) && !("#" <= second)
    requires Tight(first) && Tight(second) && !GoesOn(second)
    ensures Load(loaded, [key + ":" + (first + "\\"), second]) == Load(loaded, [key + ":" + (first + " " + second)])
  {
    hide LoadEntry, Trim, GoesOn, PartText, Tight;
    var r := Reading(loaded, None);
    var cut, joined := key + ":" + (first + "\\"), key + ":" + (first + " " + second);
    CutParts(first, second);
    EntryStarts(r, key, first + "\\");
    EntryStarts(r, key, first + " " + second);
    assert [cut, second][1..] == [second];
    ReadOne(r.(pending := Some((Trim(key), first))), second);
    ReadOne(r, joined);
  }

  class ImageData {
    const users: IdList
    const groups: IdList

    ghost predicate Valid()
      reads this, users, groups
    {
      users != groups && users.cells != groups.cells && users.Valid() && groups.Valid()
    }

    ghost function Value(): Loaded
      requires Valid()
      reads this, users, groups, users.cells, groups.cells
    {
      Loaded(users.Contents(), groups.Contents())
    }

    constructor ()
      ensures Valid() && Value() == Loaded([], [])
      ensures fresh(users) && fresh(groups) && fresh(users.cells) && fresh(groups.cells)
    {
      users := new IdList();
      groups := new IdList();
    }

    /** _ImageData_assign on the two access keys; the process aborts when it is not `ok`. */
    method Assign(key: string, value: string) returns (ok: bool)
      requires Valid()
      modifies users, groups, users.cells, groups.cells
      ensures Valid()
      ensures users.cells == old(users.cells) || fresh(users.cells)
      ensures groups.cells == old(groups.cells) || fresh(groups.cells)
      ensures key == "USERACL" && value != "" ==>
                Value() == old(Value()).(users := Kept(TextIds(value))) && (ok <==> Kept(TextIds(value)) != [])
      ensures key == "GROUPACL" && value != "" ==>
                Value() == old(Value()).(groups := Kept(TextIds(value))) && (ok <==> Kept(TextIds(value)) != [])
      ensures value == "" || (key != "USERACL" && key != "GROUPACL") ==> ok && Value() == old(Value())
    {
      hide TextIds, Kept;
      ok := true;
      if key == "USERACL" {
        if value != "" {
          var n := users.ConvertToList(value);
          ok := n != 0;
        }
      } else if key == "GROUPACL" {
        if value != "" {
          var n := groups.ConvertToList(value);
          ok := n != 0;
        }
      }
    }

    /** shifter_parseConfig, line by line. */
    method ParseMeta(lines: seq<string>) returns (ok: bool)
      requires Valid()
      modifies users, groups, users.cells, groups.cells
      ensures Valid()
      ensures ok <==> Load(old(Value()), lines).Some?
      ensures ok ==> Value() == Load(old(Value()), lines).value
    {
      hide TextIds, Kept, Trim, ReadLine, LoadEntry, GoesOn, PartText;
      var i := 0;
      var pending := None;
      while i < |lines|
        invariant i <= |lines| && Valid()
        invariant users.cells == old(users.cells) || fresh(users.cells)
        invariant groups.cells == old(groups.cells) || fresh(groups.cells)
        invariant ReadLines(Reading(old(Value()), None), lines) == ReadLines(Reading(Value(), pending), lines[i..])
      {
        assert lines[i..][0] == lines[i] && lines[i..][1..] == lines[i + 1..];
        ok, pending := ParseLine(lines[i], pending);
        if !ok { return false; }
        i := i + 1;
      }
      ok := true;
    }

    /** One round of its loop: the entry the line completes is assigned. */
    method ParseLine(line: string, pending: Option<(string, string)>)
      returns (ok: bool, next: Option<(string, string)>)
      requires Valid()
      modifies users, groups, users.cells, groups.cells
      ensures Valid()
      ensures users.cells == old(users.cells) || fresh(users.cells)
      ensures groups.cells == old(groups.cells) || fresh(groups.cells)
      ensures ok <==> ReadLine(Reading(old(Value()), pending), line).Some?
      ensures ok ==> ReadLine(Reading(old(Value()), pending), line) == Some(Reading(Value(), next))
    {
      hide TextIds, Kept, Trim;
      if line != "" && line[0] == '#' { return true, pending; }
      var key, value, part;
      if pending.None? {
        var name := Before(line, ':');
        assert |name| == |line| ==> name == line;
        if |name| == |line| { return true, pending; }
        key, value, part := Trim(name), "", Trim(line[|name| + 1..]);
      } else {
        key, value, part := pending.value.0, pending.value.1 + " ", Trim(line);
      }
      var more := part != "" && part[|part| - 1] == '\\';
      if more {
        part := Trim(part[..|part| - 1]);
      }
      assert "" + part == part;
      value := value + part;
      if more { return true, Some((key, value)); }
      ok := Assign(key, Trim(value));
      next := None;
    }

    /** check_image_permissions */
    method CheckPermissions(uid: nat, gid: nat, aux: seq<nat>) returns (r: bool)
      requires Valid()
      ensures r <==> NodeAllows(Value(), uid, gid, aux)
      ensures r <==>
              || (users.count == 0 && groups.count == 0)
              || uid in users.Contents()
              || gid in groups.Contents()
              || exists i :: 0 <= i < |aux| && aux[i] in groups.Contents()
    {
      if users.count == 0 && groups.count == 0 { return true; }
      var i := 0;
      while i < users.count
        invariant i <= users.count
        invariant uid !in users.cells[..i]
      {
        if users.cells[i] == uid { return true; }
        i := i + 1;
      }
      i := 0;
      while i < groups.count
        invariant i <= groups.count
        invariant !Listed([], groups.cells[..i], 0, gid, aux)
      {
        if groups.cells[i] == gid { return true; }
        var j := 0;
        while j < |aux|
          invariant j <= |aux|
          invariant groups.cells[i] !in aux[..j]
        {
          if groups.cells[i] == aux[j] {
            assert aux[j] in groups.Contents();
            return true;
          }
          j := j + 1;
        }
        i := i + 1;
      }
      return false;
    }
  }

  predicate NodeAllows(l: Loaded, uid: nat, gid: nat, aux: seq<nat>) {
    l == Loaded([], []) || Listed(l.users, l.groups, uid, gid, aux)
  }

  /* The round trip. */

  predicate AreUids(ids: seq<nat>) {
    forall i :: 0 <= i < |ids| ==> ids[i] < UID_RANGE
  }

  function Narrowed(ids: seq<nat>): (r: seq<nat>)
    ensures |r| == |ids|
    ensures forall i {:trigger r[i]} :: 0 <= i < |r| ==>
              r[i] == (if ids[i] >= ULONG_RANGE then ULONG_RANGE - 1 else ids[i]) % UID_RANGE
  {
    seq(|ids|, i requires 0 <= i < |ids| => (if ids[i] >= ULONG_RANGE then ULONG_RANGE - 1 else ids[i]) % UID_RANGE)
  }

  lemma NumberTight(n: nat)
    ensures Trim(Digits(n)) == Digits(n) && IsToken(Digits(n), ',')
    ensures ScanNumber(Digits(n)) == Scan(false, Digits(n), "") && Value(Digits(n)) == n
  {
    TrimTight(Digits(n));
    assert Digits(n) + "" == Digits(n);
    ScanDigits(n, "");
  }

  lemma TokenOfDigits(n: nat)
    ensures TokenId(Digits(n)) == Some((if n >= ULONG_RANGE then ULONG_RANGE - 1 else n) % UID_RANGE)
  {
    hide Digits, ScanNumber, Value, Trim;
    NumberTight(n);
  }

  lemma {:induction false} TokenIdsOfTexts(ids: seq<nat>)
    ensures TokenIds(Texts(ids)) == Narrowed(ids)
  {
    hide Digits, TokenId;
    if ids != [] {
      TokenOfDigits(ids[0]);
      assert Texts(ids)[1..] == Texts(ids[1..]);
      TokenIdsOfTexts(ids[1..]);
      assert Narrowed(ids) == [Narrowed(ids)[0]] + Narrowed(ids[1..]);
    }
  }

  lemma {:induction false} JoinedEnds(ids: seq<nat>)
    requires ids != []
    ensures var s := Join(Texts(ids), ',');
            s != "" && IsDigit(s[0]) && IsDigit(s[|s| - 1])
  {
    if |ids| > 1 {
      assert Texts(ids)[1..] == Texts(ids[1..]);
      JoinedEnds(ids[1..]);
    }
  }

  /** Reading a written list back narrows each id. */
  lemma WrittenIdsRead(ids: seq<nat>)
    ensures TextIds(Join(Texts(ids), ',')) == Narrowed(ids)
    ensures Join(Texts(ids), ',') == "" <==> ids == []
    ensures Trim(" " + Join(Texts(ids), ',')) == Join(Texts(ids), ',')
  {
    var s := Join(Texts(ids), ',');
    if ids != [] {
      JoinedEnds(ids);
    }
    TrimTight(s);
    assert (" " + s)[1..] == s;
    assert TrimLeft(" " + s) == TrimLeft(s);
    forall i | 0 <= i < |ids| ensures IsToken(Texts(ids)[i], ',') {
      NumberTight(ids[i]);
    }
    TokensOfJoin(Texts(ids), ',');
    TokenIdsOfTexts(ids);
  }

  /** A list comes back unchanged exactly when it is short and every id fits `uid_t`. */
  lemma RoundTripExact(ids: seq<nat>)
    ensures Kept(TextIds(Join(Texts(ids), ','))) == ids <==>
            |ids| <= 1000 && forall i :: 0 <= i < |ids| ==> ids[i] < 0x1_0000_0000
    ensures Kept(TextIds(Join(Texts(ids), ','))) == [] <==> ids == [] || |ids| > 1000
  {
    hide TextIds, Texts, Join;
    WrittenIdsRead(ids);
    if |ids| <= MAX_IDS && AreUids(ids) {
      assert Narrowed(ids) == ids;
    } else if |ids| <= MAX_IDS {
      var i :| 0 <= i < |ids| && ids[i] >= UID_RANGE;
      assert Narrowed(ids)[i] < UID_RANGE;
    }
  }

  /** What a line loads that neither goes on nor continues another. */
  function LoadLine(loaded: Loaded, line: string): Option<Loaded> {
    Load(loaded, [line])
  }

  predicate Complete(line: string, key: string, value: string) {
    && !("#" <= line) && ':' in line && Trim(Before(line, ':')) == key
    && Trim(line[|Before(line, ':')| + 1..]) == value && !GoesOn(value) && Trim(value) == value
  }

  lemma CompleteLine(loaded: Loaded, line: string, key: string, value: string)
    requires Complete(line, key, value)
    ensures LoadLine(loaded, line) == LoadEntry(loaded, key, value)
    ensures ReadLine(Reading(loaded, None), line) ==
              if LoadEntry(loaded, key, value).None? then None
              else Some(Reading(LoadEntry(loaded, key, value).value, None))
  {
    hide LoadEntry, Trim;
    ReadOne(Reading(loaded, None), line);
    assert Before(line, ':') != line;
  }

  lemma WrittenLine(key: string, ids: seq<nat>)
    requires key == "USERACL" || key == "GROUPACL"
    ensures Complete(key + ": " + Join(Texts(ids), ','), key, Join(Texts(ids), ','))
  {
    var s := Join(Texts(ids), ',');
    var line := key + ": " + s;
    assert key <= line && line[|key|] == ':';
    BeforeIsUnique(line, ':', key);
    TrimTight(key);
    assert line[|key| + 1..] == " " + s;
    if ids != [] { JoinedEnds(ids); }
    TrimTight(s);
    WrittenIdsRead(ids);
  }

  lemma LoadOneLine(loaded: Loaded, ids: seq<nat>)
    ensures LoadLine(loaded, "USERACL: " + Join(Texts(ids), ',')) ==
            if ids == [] then Some(loaded)
            else if |ids| > MAX_IDS then None
            else Some(loaded.(users := Narrowed(ids)))
    ensures LoadLine(loaded, "GROUPACL: " + Join(Texts(ids), ',')) ==
            if ids == [] then Some(loaded)
            else if |ids| > MAX_IDS then None
            else Some(loaded.(groups := Narrowed(ids)))
  {
    hide TextIds, Texts, Join, Narrowed, LoadLine, Complete;
    WrittenIdsRead(ids);
    var s := Join(Texts(ids), ',');
    WrittenLine("USERACL", ids);
    WrittenLine("GROUPACL", ids);
    assert "USERACL" + ": " == "USERACL: ";
    assert "GROUPACL" + ": " == "GROUPACL: ";
    CompleteLine(loaded, "USERACL: " + s, "USERACL", s);
    CompleteLine(loaded, "GROUPACL: " + s, "GROUPACL", s);
  }

  /** Neither list is too long for the reader. */
  predicate Short(rec: Record) {
    |Ids(rec.userACL)| <= MAX_IDS && |Ids(rec.groupACL)| <= MAX_IDS
  }

  lemma NarrowedIds(ids: seq<nat>)
    ensures AreUids(Narrowed(ids))
    ensures forall id :: id in ids && id < UID_RANGE ==> id in Narrowed(ids)
    ensures Narrowed(ids) == [] <==> ids == []
  {
    forall id | id in ids && id < UID_RANGE ensures id in Narrowed(ids) {
      var i :| 0 <= i < |ids| && ids[i] == id;
      assert Narrowed(ids)[i] == id;
    }
  }

  /** What the compute node has after reading what the gateway wrote. */
  lemma MetadataRoundTrip(rec: Record, disabled: bool)
    ensures Load(Loaded([], []), AclLines(rec, disabled)) ==
            if !Private(rec, disabled) then Some(Loaded([], []))
            else if !Short(rec) then None
            else Some(Loaded(Narrowed(Ids(rec.userACL)), Narrowed(Ids(rec.groupACL))))
  {
    hide LoadLine, Load, Texts, Join, Narrowed, Complete;
    var l := Loaded([], []);
    var u, g := Ids(rec.userACL), Ids(rec.groupACL);
    assert "USERACL" + ": " == "USERACL: ";
    assert "GROUPACL" + ": " == "GROUPACL: ";
    NarrowedIds([]);
    LoadOneLine(l, u);
    LoadOneLine(l, g);
    LoadOneLine(l.(users := Narrowed(u)), g);
    WrittenLine("USERACL", u);
    LoadNothing(l);
    LoadAclLines(l, "USERACL: " + Join(Texts(u), ','), "GROUPACL: " + Join(Texts(g), ','), Join(Texts(u), ','));
  }

  lemma LoadNothing(l: Loaded)
    ensures Load(l, []) == Some(l)
    ensures Load(l, [] + []) == Some(l)
  {
  }

  lemma LoadAclLines(l: Loaded, first: string, second: string, value: string)
    requires Complete(first, "USERACL", value)
    ensures Load(l, [first] + []) == LoadLine(l, first)
    ensures Load(l, [] + [second]) == LoadLine(l, second)
    ensures Load(l, [first] + [second]) ==
            if LoadLine(l, first).None? then None else LoadLine(LoadLine(l, first).value, second)
  {
    hide ReadLine, LoadEntry, Complete;
    assert [first] + [] == [first] && [] + [second] == [second];
    assert ([first] + [second])[1..] == [second];
    CompleteLine(l, first, "USERACL", value);
  }

  /** Both sides give this caller the same answer. */
  predicate Agree(rec: Record, disabled: bool, uid: nat, gid: nat, aux: seq<nat>) {
    var loaded := Load(Loaded([], []), AclLines(rec, disabled));
    loaded.Some? && (NodeAllows(loaded.value, uid, gid, aux) <==> GatewayAllows(rec, uid, gid, aux))
  }

  /** Ids that are all 32 bits wide, as those of a caller are. */
  predicate IsCaller(uid: nat, gid: nat, aux: seq<nat>) {
    uid < UID_RANGE && gid < UID_RANGE && AreUids(aux)
  }

  /** An id that is too wide narrows to one that is in the list anyway. */
  predicate NarrowsInside(ids: seq<nat>) {
    forall id | id in Narrowed(ids) :: id in ids
  }

  /** Every id there can be is in the list. */
  predicate Covers(ids: seq<nat>) {
    forall id | 0 <= id < UID_RANGE :: id in ids
  }

  /** Everybody is admitted exactly when the image is open or one of its lists has every id. */
  lemma AdmitsAll(rec: Record)
    ensures (forall uid, gid, aux :: IsCaller(uid, gid, aux) ==> GatewayAllows(rec, uid, gid, aux)) <==>
            Open(rec) || Covers(Ids(rec.userACL)) || Covers(Ids(rec.groupACL))
  {
    hide Open;
    var u, g := Ids(rec.userACL), Ids(rec.groupACL);
    if !Open(rec) && !Covers(u) && !Covers(g) {
      var uid :| 0 <= uid < UID_RANGE && uid !in u;
      var gid :| 0 <= gid < UID_RANGE && gid !in g;
      assert IsCaller(uid, gid, []) && !GatewayAllows(rec, uid, gid, []);
    }
  }

  /** A list does not have all the numbers up to its length. */
  lemma {:induction false} FreeId(ids: seq<nat>) returns (n: nat)
    ensures n <= |ids| && n !in ids
    decreases |ids|
  {
    n := |ids|;
    if n in ids {
      var i :| 0 <= i < |ids| && ids[i] == n;
      var rest := ids[..i] + ids[i + 1..];
      n := FreeId(rest);
      assert forall k :: 0 <= k < |ids| && k != i ==> ids[k] == rest[if k < i then k else k - 1];
    }
  }

  /** Membership in the narrowed lists, for callers, is membership in the lists themselves exactly when no id narrows
      to another caller's. */
  lemma NarrowedListed(u: seq<nat>, g: seq<nat>)
    requires |u| <= MAX_IDS && |g| <= MAX_IDS
    ensures (forall uid, gid, aux :: IsCaller(uid, gid, aux) ==>
               (Listed(Narrowed(u), Narrowed(g), uid, gid, aux) <==> Listed(u, g, uid, gid, aux)))
            <==> NarrowsInside(u) && NarrowsInside(g)
  {
    hide Narrowed;
    NarrowedIds(u);
    NarrowedIds(g);
    if !NarrowsInside(u) {
      var uid :| uid in Narrowed(u) && uid !in u;
      var gid := FreeId(g);
      assert IsCaller(uid, gid, []) && !Listed(u, g, uid, gid, []) && Listed(Narrowed(u), Narrowed(g), uid, gid, []);
    } else if !NarrowsInside(g) {
      var gid :| gid in Narrowed(g) && gid !in g;
      var uid := FreeId(u);
      assert IsCaller(uid, gid, []) && !Listed(u, g, uid, gid, []) && Listed(Narrowed(u), Narrowed(g), uid, gid, []);
    } else {
      forall uid, gid, aux | IsCaller(uid, gid, aux)
        ensures Listed(Narrowed(u), Narrowed(g), uid, gid, aux) <==> Listed(u, g, uid, gid, aux)
      {
        assert forall i :: 0 <= i < |aux| ==> (aux[i] in Narrowed(g) <==> aux[i] in g);
      }
    }
  }

  lemma NobodyListed()
    ensures !Listed([], [], 0, 0, [])
  {
  }

  lemma OpenLists(rec: Record)
    ensures rec.private == Present(true) && Open(rec) ==> Ids(rec.userACL) == [] && Ids(rec.groupACL) == []
  {
  }

  /**
   * The gateway and the compute node agree about every caller exactly when: the lists of a private image were written,
   * neither is too long, and nobody is shut out or there is an id and none narrows to another caller's; or nothing was
   * written, and nobody is shut out.
   */
  lemma AgreementExact(rec: Record, disabled: bool)
    ensures var u, g := Ids(rec.userACL), Ids(rec.groupACL);
            (forall uid, gid, aux :: IsCaller(uid, gid, aux) ==> Agree(rec, disabled, uid, gid, aux)) <==>
            if Private(rec, disabled)
            then Short(rec) && (Open(rec) || ((u != [] || g != []) && NarrowsInside(u) && NarrowsInside(g)))
            else Open(rec) || Covers(u) || Covers(g)
  {
    hide Load, AclLines, Narrowed, Listed, Open, NarrowsInside, Covers, Ids;
    MetadataRoundTrip(rec, disabled);
    var u, g := Ids(rec.userACL), Ids(rec.groupACL);
    NarrowedIds(u);
    NarrowedIds(g);
    OpenLists(rec);
    NobodyListed();
    if !Private(rec, disabled) {
      AdmitsAll(rec);
    } else if !Short(rec) || (u == [] && g == []) {
      assert IsCaller(0, 0, []);
      assert !Short(rec) ==> !Agree(rec, disabled, 0, 0, []);
      assert !Open(rec) ==> !Agree(rec, disabled, 0, 0, []);
    } else {
      NarrowedListed(u, g);
    }
  }

  /** An id that does not fit admits the caller it narrows to, whom the gateway does not admit. */
  lemma WideIdAdmitsAnother(id: nat)
    requires id >= UID_RANGE
    ensures var rec, uid := Record(Present(true), Present([id]), Absent), Narrowed([id])[0];
            !GatewayAllows(rec, uid, 0, []) && Load(Loaded([], []), AclLines(rec, false)).Some?
            && NodeAllows(Load(Loaded([], []), AclLines(rec, false)).value, uid, 0, [])
  {
    hide Load, AclLines;
    var rec := Record(Present(true), Present([id]), Absent);
    MetadataRoundTrip(rec, false);
    assert Narrowed([id])[0] in Narrowed([id]);
  }
}
