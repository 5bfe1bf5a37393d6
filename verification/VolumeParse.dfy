/** The loops of the volume map parser: filtering, cutting, options, sizes, validation and printing (VolumeMap.c,
    utility.c). */
module VolumeParsing {
  import opened Wrappers
  import opened Text
  import opened Decimal
  import opened Doubles
  import opened CStrings
  import opened VolumeText
  import opened VolumeEntries

  /** userInputPathFilter with slashes allowed */
  method UserInputPathFilter(input: string) returns (r: string)
    ensures r == Filter(input, PathChar)
    ensures r == Filter(input, (c: char) => 'a' <= c <= 'z' || 'A' <= c <= 'Z' || '0' <= c <= '9' || c in "_:.+-/")
  {
    FilterSame(input, PathChar,
      (c: char) => 'a' <= c <= 'z' || 'A' <= c <= 'Z' || '0' <= c <= '9' || c in "_:.+-/");
    r := "";
    var i := 0;
    while i < |input|
      invariant i <= |input| && r == Filter(input[..i], PathChar)
    {
      assert input[..i + 1][..i] == input[..i];
      if PathChar(input[i]) { r := r + [input[i]]; }
      i := i + 1;
    }
    assert input[..i] == input;
  }

  /** _tokenizeVolumeMapInput: each delimiter is overwritten, and the token in front of it copied. */
  method Tokenize(input: array<char>, ghost text: string) returns (tokens: seq<string>)
    requires input.Length == |text| + 1 && input[..|text|] == text && input[|text|] == '\0' && '\0' !in text
    modifies input
    ensures tokens == CutTokens(text)
  {
    hide Before, CutTokens;
    tokens := [];
    var limit := input.Length - 1;
    var sptr, ptr := 0, 0;
    assert text[0..] == text;
    NoText();
    while sptr < limit
      invariant sptr <= ptr && sptr <= limit + 1 && (sptr < limit ==> ptr <= limit)
      invariant forall k :: sptr <= k <= limit ==> input[k] == if k < limit then text[k] else '\0'
      invariant sptr < limit ==> ':' !in text[sptr..ptr]
      invariant tokens + (if sptr < limit then CutTokens(text[sptr..]) else []) == CutTokens(text)
      decreases limit + 1 - ptr
    {
      assert ptr < limit ==> text[ptr] in text;
      if input[ptr] == ':' || input[ptr] == '\0' {
        var token := input[sptr..ptr];
        CutFirst(text, sptr, ptr);
        SameSlice(input[..], text, sptr, ptr);
        input[ptr] := '\0';
        Regroup(tokens, [token], if ptr + 1 < limit then CutTokens(text[ptr + 1..]) else []);
        tokens := tokens + [token];
        sptr := ptr + 1;
      } else {
        assert text[sptr..ptr + 1] == text[sptr..ptr] + [text[ptr]];
      }
      ptr := ptr + 1;
    }
    assert tokens + [] == tokens;
  }

  lemma NoText()
    ensures CutTokens("") == []
  {
  }

  lemma SameSlice(a: seq<char>, b: seq<char>, from: nat, to: nat)
    requires from <= to <= |b| <= |a| && forall k :: from <= k < to ==> a[k] == b[k]
    ensures a[from..to] == b[from..to]
  {
  }

  lemma CutFirst(text: string, from: nat, to: nat)
    requires from <= to <= |text| && from < |text| && ':' !in text[from..to] && (to < |text| ==> text[to] == ':')
    ensures CutTokens(text[from..]) == [text[from..to]] + if to + 1 < |text| then CutTokens(text[to + 1..]) else []
  {
    hide CutTokens;
    var s, k := text[from..], to - from;
    assert s[..k] == text[from..to];
    assert to < |text| ==> s[k + 1..] == text[to + 1..];
    CutAtColon(s, k);
    NoText();
  }

  lemma CutAtColon(s: string, k: nat)
    requires s != "" && k <= |s| && ':' !in s[..k] && (k < |s| ==> s[k] == ':')
    ensures CutTokens(s) == [s[..k]] + if k < |s| then CutTokens(s[k + 1..]) else []
  {
    BeforeIsUnique(s, ':', s[..k]);
  }

  /* Options, cut in place. */

  /** The C string at `p` is `t`. */
  predicate Reads(buf: seq<char>, p: nat, t: string) {
    p + |t| < |buf| && buf[p..p + |t|] == t && buf[p + |t|] == '\0' && '\0' !in t
  }

  datatype Pair = Pair(key: nat, value: Option<nat>)

  predicate PairReads(buf: seq<char>, p: Pair, kv: KeyValue) {
    && Reads(buf, p.key, kv.0)
    && (p.value.Some? <==> kv.1.Some?)
    && (p.value.Some? ==> Reads(buf, p.value.value, kv.1.value))
  }

  /** The pair lies outside of `lo..hi`, with its terminators. */
  predicate PairApart(p: Pair, kv: KeyValue, lo: nat, hi: nat) {
    && (p.key + |kv.0| < lo || hi < p.key)
    && (p.value.Some? && kv.1.Some? ==> p.value.value + |kv.1.value| < lo || hi < p.value.value)
  }

  /** Changes inside `lo..hi`, or none, leave a pair alone that lies outside. */
  lemma PairStays(before: seq<char>, after: seq<char>, p: Pair, kv: KeyValue, lo: nat, hi: nat)
    requires PairReads(before, p, kv) && PairApart(p, kv, lo, hi)
    requires |before| == |after| && forall k :: 0 <= k < |before| && (k < lo || hi < k) ==> before[k] == after[k]
    ensures PairReads(after, p, kv)
  {
    TextStays(before, after, p.key, kv.0, lo, hi);
    if p.value.Some? {
      TextStays(before, after, p.value.value, kv.1.value, lo, hi);
    }
  }

  lemma TextStays(before: seq<char>, after: seq<char>, p: nat, t: string, lo: nat, hi: nat)
    requires Reads(before, p, t) && (p + |t| < lo || hi < p)
    requires |before| == |after| && forall k :: 0 <= k < |before| && (k < lo || hi < k) ==> before[k] == after[k]
    ensures Reads(after, p, t)
  {
    assert before[p..p + |t|] == after[p..p + |t|];
  }

  /** What is left to be cut: from `s` to the terminator at `f`, which is before the end if "=" was there. */
  ghost predicate Left(buf: seq<char>, s: nat, f: nat) {
    s <= f < |buf| && buf[f] == '\0' && buf[|buf| - 1] == '\0' && '\0' !in buf[s..f]
  }

  ghost function LeftValues(buf: seq<char>, s: nat, f: nat): seq<KeyValue> {
    if Left(buf, s, f) then KeyValues(buf[s..f], f < |buf| - 1) else []
  }

  /** `strchr`, looking up to the terminator at `f` */
  method FindChar(buf: array<char>, s: nat, c: char, ghost f: nat) returns (at: Option<nat>)
    requires c != '\0' && Left(buf[..], s, f)
    ensures at.Some? ==> s <= at.value < f && buf[at.value] == c && c !in buf[s..at.value]
    ensures at.None? ==> c !in buf[s..f]
    ensures |Before(buf[s..f], c)| == (if at.Some? then at.value else f) - s
  {
    hide KeyValues;
    ghost var t := buf[s..f];
    assert forall k :: s <= k < f ==> buf[k] == t[k - s] && buf[k] in t;
    var i := s;
    while buf[i] != c && buf[i] != '\0'
      invariant s <= i <= f && c !in buf[s..i]
      decreases f - i
    {
      assert buf[s..i + 1] == buf[s..i] + [buf[i]];
      i := i + 1;
    }
    assert t[..i - s] == buf[s..i];
    BeforeIsUnique(t, c, t[..i - s]);
    at := if buf[i] == c then Some(i) else None;
  }

  /** One option: both ends of the pair are overwritten. */
  method CutOption(buf: array<char>, s: nat, ghost f: nat)
    returns (p: Pair, next: nat, ghost kv: KeyValue, ghost g: nat)
    requires s + 1 < buf.Length && Left(buf[..], s, f)
    modifies buf
    ensures PairReads(buf[..], p, kv) && s < next <= buf.Length
    ensures g <= f && (next < buf.Length ==> Left(buf[..], next, g) && PairApart(p, kv, next, g))
    ensures LeftValues(old(buf[..]), s, f) == [kv] + (if next < buf.Length then LeftValues(buf[..], next, g) else [])
    ensures forall k :: 0 <= k < buf.Length && (k < s || f < k) ==> buf[k] == old(buf[k])
  {
    hide KeyValues, Before, Reads, PairReads, PairApart, LeftValues;
    var limit := buf.Length - 1;
    ghost var was := buf[..];
    assert was[s..f] == buf[s..f];
    var vptr := FindChar(buf, s, '=', f);
    var comma := FindChar(buf, s, ',', f);
    var ptr := if comma.Some? then comma.value else limit;
    buf[ptr] := '\0';
    if vptr.Some? {
      buf[vptr.value] := '\0';
    }
    p := Pair(s, if vptr.Some? then Some(vptr.value + 1) else None);
    next := ptr + 1;
    kv, g := CutMeaning(
      was, buf[..], s, f, if vptr.Some? then vptr.value else f, if comma.Some? then comma.value else f);
  }

  /** Where the two characters are, and the buffer after they are overwritten; `|was|` stands for a missing one. */
  ghost predicate IsCut(was: seq<char>, now: seq<char>, s: nat, f: nat, e: nat, c: nat) {
    && s + 1 < |was| && |now| == |was| && Left(was, s, f)
    && s <= e <= f && s <= c <= f && (e == c ==> e == f)
    && |Before(was[s..f], '=')| == e - s && |Before(was[s..f], ',')| == c - s
    && (e < f ==> now[e] == '\0') && (c < f ==> now[c] == '\0')
    && forall k :: 0 <= k < |was| && k != e && k != c ==> now[k] == was[k]
  }

  ghost predicate CutTo(was: seq<char>, now: seq<char>, s: nat, f: nat, p: Pair, kv: KeyValue, next: nat, g: nat) {
    && PairReads(now, p, kv) && g <= f
    && (next < |was| ==> Left(now, next, g) && PairApart(p, kv, next, g))
    && LeftValues(was, s, f) == [kv] + (if next < |was| then LeftValues(now, next, g) else [])
  }

  /** What the two cuts have done. */
  lemma CutMeaning(was: seq<char>, now: seq<char>, s: nat, f: nat, e: nat, c: nat) returns (kv: KeyValue, g: nat)
    requires IsCut(was, now, s, f, e, c) && now[f] == '\0' && now[|now| - 1] == '\0'
    ensures CutTo(was, now, s, f, Pair(s, if e < f then Some(e + 1) else None), kv, if c < f then c + 1 else |was|, g)
  {
    hide CutTo;
    if c == f {
      kv, g := CutLast(was, now, s, f, e);
    } else if e < c {
      kv, g := CutOrdinary(was, now, s, f, e, c);
    } else if e == f {
      kv, g := CutBare(was, now, s, f, c);
    } else {
      kv, g := CutSwallowing(was, now, s, f, e, c);
    }
  }

  lemma CutLast(was: seq<char>, now: seq<char>, s: nat, f: nat, e: nat) returns (kv: KeyValue, g: nat)
    requires IsCut(was, now, s, f, e, f) && now[f] == '\0'
    ensures CutTo(was, now, s, f, Pair(s, if e < f then Some(e + 1) else None), kv, |was|, g)
  {
    hide KeyValues, Before, Reads;
    var t := was[s..f];
    KeyValuesStep(t, f < |was| - 1, f - s, e - s);
    kv, g := (t[..e - s], if e < f then Some(t[e - s + 1..]) else None), f;
    PieceReads(was, now, s, f, s, e);
    SliceEnds(t, e - s);
    if e < f {
      PieceReads(was, now, s, f, e + 1, f);
      SliceEnds(t, e + 1 - s);
    }
  }

  lemma PutTogether(was: seq<char>, now: seq<char>, s: nat, f: nat, p: Pair, kv: KeyValue, next: nat, g: nat)
    requires Left(was, s, f) && Left(now, next, g) && g <= f && |now| == |was|
    requires PairReads(now, p, kv) && PairApart(p, kv, next, g)
    requires KeyValues(was[s..f], f < |was| - 1) == [kv] + KeyValues(now[next..g], g < |was| - 1)
    ensures CutTo(was, now, s, f, p, kv, next, g)
  {
    hide KeyValues, PairReads, PairApart;
  }

  lemma OrdinaryReads(was: seq<char>, now: seq<char>, s: nat, f: nat, e: nat, c: nat)
    requires IsCut(was, now, s, f, e, c) && e < c < f
    ensures var t := was[s..f];
            PairReads(now, Pair(s, Some(e + 1)), (t[..e - s], Some(t[e - s + 1..c - s])))
  {
    hide Before, Reads;
    PieceReads(was, now, s, f, s, e);
    PieceReads(was, now, s, f, e + 1, c);
    SliceEnds(was[s..f], e - s);
  }

  lemma CutOrdinary(was: seq<char>, now: seq<char>, s: nat, f: nat, e: nat, c: nat) returns (kv: KeyValue, g: nat)
    requires IsCut(was, now, s, f, e, c) && e < c < f && now[f] == '\0' && now[|now| - 1] == '\0'
    ensures CutTo(was, now, s, f, Pair(s, Some(e + 1)), kv, c + 1, g)
  {
    hide KeyValues, Before, PairReads, LeftValues, CutTo;
    var t := was[s..f];
    KeyValuesStep(t, f < |was| - 1, c - s, e - s);
    kv, g := (t[..e - s], Some(t[e - s + 1..c - s])), f;
    OrdinaryReads(was, now, s, f, e, c);
    PieceLeft(was, now, s, f, c + 1, f);
    SliceEnds(t, c + 1 - s);
    PutTogether(was, now, s, f, Pair(s, Some(e + 1)), kv, c + 1, g);
  }

  lemma CutBare(was: seq<char>, now: seq<char>, s: nat, f: nat, c: nat) returns (kv: KeyValue, g: nat)
    requires IsCut(was, now, s, f, f, c) && c < f && now[f] == '\0' && now[|now| - 1] == '\0'
    ensures CutTo(was, now, s, f, Pair(s, None), kv, c + 1, g)
  {
    hide KeyValues, Before, Reads, LeftValues, CutTo;
    var t := was[s..f];
    KeyValuesStep(t, f < |was| - 1, c - s, f - s);
    kv, g := (t[..c - s], None), f;
    PieceReads(was, now, s, f, s, c);
    PieceLeft(was, now, s, f, c + 1, f);
    SliceEnds(t, c - s);
    SliceEnds(t, c + 1 - s);
    PutTogether(was, now, s, f, Pair(s, None), kv, c + 1, g);
  }

  lemma CutSwallowing(was: seq<char>, now: seq<char>, s: nat, f: nat, e: nat, c: nat) returns (kv: KeyValue, g: nat)
    requires IsCut(was, now, s, f, e, c) && c < e < f && now[f] == '\0' && now[|now| - 1] == '\0'
    ensures CutTo(was, now, s, f, Pair(s, Some(e + 1)), kv, c + 1, g)
  {
    hide KeyValues, Before, Reads, LeftValues, CutTo;
    var t := was[s..f];
    KeyValuesStep(t, f < |was| - 1, c - s, e - s);
    kv, g := (t[..c - s], Some(t[e - s + 1..])), e;
    PieceReads(was, now, s, f, s, c);
    PieceReads(was, now, s, f, e + 1, f);
    PieceLeft(was, now, s, f, c + 1, e);
    SliceEnds(t, c - s);
    SliceEnds(t, e + 1 - s);
    PutTogether(was, now, s, f, Pair(s, Some(e + 1)), kv, c + 1, g);
  }

  lemma SliceEnds(t: string, k: nat)
    requires k <= |t|
    ensures t[0..k] == t[..k] && t[k..|t|] == t[k..]
  {
  }

  /** A part of the text that was left, untouched and terminated. */
  lemma PieceReads(was: seq<char>, now: seq<char>, s: nat, f: nat, a: nat, b: nat)
    requires Left(was, s, f) && s <= a <= b <= f && |now| == |was| && now[b] == '\0'
    requires forall k :: a <= k < b ==> now[k] == was[k]
    ensures Reads(now, a, was[s..f][a - s..b - s])
  {
    PieceLeft(was, now, s, f, a, b);
    ReadsSlice(now, a, b, was[s..f][a - s..b - s]);
  }

  lemma PieceLeft(was: seq<char>, now: seq<char>, s: nat, f: nat, a: nat, b: nat)
    requires Left(was, s, f) && s <= a <= b <= f && |now| == |was|
    requires forall k :: a <= k < b ==> now[k] == was[k]
    ensures now[a..b] == was[s..f][a - s..b - s] && '\0' !in now[a..b]
  {
    SubSlice(was, s, f, a, b);
    assert now[a..b] == was[a..b];
    NoTerminator(was, s, f);
  }

  lemma SubSlice(s: seq<char>, from: nat, to: nat, a: nat, b: nat)
    requires from <= a <= b <= to <= |s|
    ensures s[from..to][a - from..b - from] == s[a..b]
  {
    assert s[from..][..to - from] == s[from..to];
    assert s[from..to][a - from..] == s[a..to];
    assert s[a..to][..b - a] == s[a..b];
  }

  lemma NoTerminator(buf: seq<char>, s: nat, f: nat)
    requires Left(buf, s, f)
    ensures forall k :: s <= k < f ==> buf[k] != '\0'
  {
    assert forall k :: s <= k < f ==> buf[k] in buf[s..f];
  }

  lemma KeyValuesStep(t: string, cut: bool, c: nat, e: nat)
    requires c == |Before(t, ',')| && e == |Before(t, '=')| && (t != "" || cut)
    ensures KeyValues(t, cut) ==
            if c == |t| then [(t[..e], if e < |t| then Some(t[e + 1..]) else None)]
            else if e < c then [(t[..e], Some(t[e + 1..c]))] + KeyValues(t[c + 1..], cut)
            else if e == |t| then [(t[..c], None)] + KeyValues(t[c + 1..], cut)
            else [(t[..c], Some(t[e + 1..]))] + KeyValues(t[c + 1..e], true)
  {
    hide Before;
  }

  lemma ReadsSlice(buf: seq<char>, a: nat, b: nat, t: string)
    requires a <= b < |buf| && buf[a..b] == t && buf[b] == '\0' && '\0' !in t
    ensures Reads(buf, a, t)
  {
  }

  /** The loop of `_parseFlag` over the options behind the first "=". */
  method CutOptions(buf: array<char>, start: nat, ghost text: string) returns (pairs: seq<Pair>)
    requires start + |text| + 1 == buf.Length && '\0' !in text
    requires buf[start..buf.Length - 1] == text && buf[buf.Length - 1] == '\0'
    modifies buf
    ensures |pairs| == |KeyValues(text, false)|
    ensures forall i :: 0 <= i < |pairs| ==> PairReads(buf[..], pairs[i], KeyValues(text, false)[i])
  {
    hide KeyValues, PairReads, PairApart, Left;
    pairs := [];
    var s: nat, limit: nat := start, buf.Length - 1;
    ghost var f: nat, done: seq<KeyValue> := limit, [];
    LeftAtFirst(buf[..], start, text);
    while s < limit
      invariant start <= s <= buf.Length && f < buf.Length && (s <= limit ==> Left(buf[..], s, f))
      invariant KeyValues(text, false) == done + if s <= limit then LeftValues(buf[..], s, f) else []
      invariant |done| == |pairs| && AllRead(buf[..], pairs, done) && (s <= limit ==> AllApart(pairs, done, s, f))
      decreases buf.Length - s
    {
      ghost var was := buf[..];
      var p, next, kv, g := CutOption(buf, s, f);
      AllStay(was, buf[..], pairs, done, s, f);
      OneMore(buf[..], pairs, done, p, kv, s, f, next, g);
      ghost var rest := if next <= limit then LeftValues(buf[..], next, g) else [];
      assert done + ([kv] + rest) == (done + [kv]) + rest;
      pairs, done, s, f := pairs + [p], done + [kv], next, g;
    }
    NothingLeft(buf[..], s, f);
    assert done + [] == done;
  }

  ghost predicate AllRead(buf: seq<char>, pairs: seq<Pair>, done: seq<KeyValue>)
    requires |pairs| == |done|
  {
    forall i :: 0 <= i < |pairs| ==> PairReads(buf, pairs[i], done[i])
  }

  ghost predicate AllApart(pairs: seq<Pair>, done: seq<KeyValue>, s: nat, f: nat)
    requires |pairs| == |done|
  {
    forall i :: 0 <= i < |pairs| ==> PairApart(pairs[i], done[i], s, f)
  }

  lemma AllStay(was: seq<char>, now: seq<char>, pairs: seq<Pair>, done: seq<KeyValue>, s: nat, f: nat)
    requires |pairs| == |done| && AllRead(was, pairs, done) && AllApart(pairs, done, s, f)
    requires |was| == |now| && forall k :: 0 <= k < |was| && (k < s || f < k) ==> was[k] == now[k]
    ensures AllRead(now, pairs, done)
  {
    hide PairReads, PairApart;
    forall i | 0 <= i < |pairs| ensures PairReads(now, pairs[i], done[i]) {
      PairStays(was, now, pairs[i], done[i], s, f);
    }
  }

  lemma OneMore(now: seq<char>, pairs: seq<Pair>, done: seq<KeyValue>, p: Pair,
      kv: KeyValue, s: nat, f: nat, next: nat, g: nat)
    requires |pairs| == |done| && AllRead(now, pairs, done) && AllApart(pairs, done, s, f)
    requires PairReads(now, p, kv) && s <= next
    ensures AllRead(now, pairs + [p], done + [kv])
    ensures g <= f && PairApart(p, kv, next, g) ==> AllApart(pairs + [p], done + [kv], next, g)
  {
    hide PairReads;
  }

  lemma LeftAtFirst(buf: seq<char>, start: nat, text: string)
    requires start + |text| + 1 == |buf| && '\0' !in text
    requires buf[start..|buf| - 1] == text && buf[|buf| - 1] == '\0'
    ensures Left(buf, start, |buf| - 1) && LeftValues(buf, start, |buf| - 1) == KeyValues(text, false)
  {
  }

  lemma NothingLeft(buf: seq<char>, s: nat, f: nat)
    requires s + 1 >= |buf| && f < |buf|
    ensures LeftValues(buf, s, f) == []
  {
  }

  /* Sizes. */

  /** parseBytes */
  method ParseBytes(text: Option<string>) returns (r: int)
    ensures r == if text.Some? then BytesOf(text.value) else -1
  {
    if text.None? { return -1; }
    hide DoubleOf, ScanNumeral, ScaleIndex, Unit, Scaled, Trunc;
    var n := ScanNumeral(text.value);
    var k := FindScale(Unit(n.rest));
    if k == |SCALE| { return -1; }
    var a := ScaleUp(DoubleOf(n), k);
    var bytes := Trunc(a);
    r := if bytes >= SSIZE_RANGE then -1 else if n.negative then -bytes else bytes;
  }

  method FindScale(c: char) returns (k: nat)
    ensures k == ScaleIndex(c)
  {
    k := 0;
    while k < |SCALE| && SCALE[k] != c
      invariant k <= |SCALE| && c !in SCALE[..k]
    {
      assert SCALE[..k + 1] == SCALE[..k] + [SCALE[k]];
      k := k + 1;
    }
    ScaleFound(c, k);
  }

  method ScaleUp(start: Double, k: nat) returns (a: Double)
    ensures a == Scaled(start, k)
  {
    a := start;
    var j := 0;
    while j < k
      invariant j <= k && a == Scaled(start, j)
    {
      a := a.(exponent := a.exponent + 10);
      j := j + 1;
    }
  }

  lemma ScaleFound(c: char, k: nat)
    requires k <= |SCALE| && c !in SCALE[..k] && (k < |SCALE| ==> SCALE[k] == c)
    ensures ScaleIndex(c) == k
  {
    if k == |SCALE| {
      assert SCALE[..k] == SCALE;
    } else {
      assert forall i :: 0 <= i < k ==> SCALE[i] in SCALE[..k];
    }
  }

  /* Flags. */

  /** _parseFlag, appending to the list of flags */
  method ParseFlag(token: string, flags: seq<Flag>) returns (ok: bool, r: seq<Flag>)
    requires '\0' !in token
    ensures ok <==> FlagOf(token).Some?
    ensures r == if ok then flags + FlagOf(token).value else flags
  {
    hide KeyValues, SetOptions, EqualIgnoringCase;
    if token == "" {
      assert flags + [] == flags;
      return true, flags;
    }
    var name, options := CutFlag(token);
    if EqualIgnoringCase(name, "ro") {
      if |options| > 0 { return false, flags; }
      return true, flags + [ReadOnly];
    } else if EqualIgnoringCase(name, "rec") {
      if |options| > 0 { return false, flags; }
      return true, flags + [Recursive];
    } else if EqualIgnoringCase(name, "perNodeCache") {
      var cache := ParseCache(options);
      if cache.None? || cache.value.size <= 0 { return false, flags; }
      return true, flags + [cache.value];
    } else if EqualIgnoringCase(name, "slave") {
      if |options| > 0 { return false, flags; }
      return true, flags + [Slave];
    } else if EqualIgnoringCase(name, "private") {
      if |options| > 0 { return false, flags; }
      return true, flags + [Private];
    }
    return false, flags;
  }

  /** The name of a flag and its options, read from the buffer once it is cut. */
  method CutFlag(token: string) returns (name: string, options: seq<KeyValue>)
    requires '\0' !in token
    ensures name == Before(token, '=') && options == Options(token)
  {
    hide KeyValues;
    name := Before(token, '=');
    options := [];
    if |name| < |token| {
      var buf := new char[|token| + 1];
      forall i | 0 <= i < |token| { buf[i] := token[i]; }
      buf[|token|] := '\0';
      buf[|name|] := '\0';
      ghost var text := token[|name| + 1..];
      assert buf[|name| + 1..buf.Length - 1] == text;
      var pairs := CutOptions(buf, |name| + 1, text);
      options := ReadPairs(buf, pairs, KeyValues(text, false));
    }
  }

  method ReadPairs(buf: array<char>, pairs: seq<Pair>, ghost kvs: seq<KeyValue>) returns (options: seq<KeyValue>)
    requires |pairs| == |kvs| && AllRead(buf[..], pairs, kvs)
    ensures options == kvs
  {
    options := [];
    var i := 0;
    while i < |pairs|
      invariant i <= |pairs| && options == kvs[..i]
    {
      assert PairReads(buf[..], pairs[i], kvs[i]);
      var key := ReadAt(buf, pairs[i].key, kvs[i].0);
      var value := None;
      if pairs[i].value.Some? {
        var v := ReadAt(buf, pairs[i].value.value, kvs[i].1.value);
        value := Some(v);
      }
      options := options + [(key, value)];
      i := i + 1;
    }
  }

  method ReadAt(buf: array<char>, p: nat, ghost t: string) returns (s: string)
    requires Reads(buf[..], p, t)
    ensures s == t
  {
    var i := p;
    assert forall k :: p <= k < p + |t| ==> buf[k] == t[k - p] && buf[k] != '\0';
    while buf[i] != '\0'
      invariant p <= i <= p + |t|
      decreases p + |t| - i
    {
      i := i + 1;
    }
    s := buf[p..i];
  }

  /** The options of a per-node cache, from first to last. */
  method ParseCache(options: seq<KeyValue>) returns (r: Option<Flag>)
    ensures r == SetOptions(DEFAULT_CACHE, options)
  {
    hide BytesOf, EqualIgnoringCase;
    var cache := DEFAULT_CACHE;
    var i := 0;
    while i < |options|
      invariant i <= |options| && cache.PerNodeCache?
      invariant SetOptions(DEFAULT_CACHE, options) == SetOptions(cache, options[i..])
    {
      var key, value := options[i].0, options[i].1;
      assert options[i..][0] == options[i] && options[i..][1..] == options[i + 1..];
      ghost var before := cache;
      if EqualIgnoringCase(key, "size") {
        var bytes := ParseBytes(value);
        if bytes <= 0 { return None; }
        cache := cache.(size := bytes);
      } else if EqualIgnoringCase(key, "fs") {
        if value.None? || !EqualIgnoringCase(value.value, "xfs") { return None; }
        cache := cache.(fstype := "xfs");
      } else if EqualIgnoringCase(key, "bs") {
        var bytes := ParseBytes(value);
        if bytes <= 0 { return None; }
        cache := cache.(block := bytes);
      } else if EqualIgnoringCase(key, "method") {
        if value.None? || !EqualIgnoringCase(value.value, "loop") { return None; }
        cache := cache.(medium := "loop");
      }
      assert SetOption(before, key, value) == Some(cache);
      i := i + 1;
    }
    r := Some(cache);
  }

  /* Validation. */

  /** Which rule the flags break first: 2 for a flag that is not allowed, 3 for a second one of its kind. */
  function FlagVerdict(flags: seq<Flag>, seen: set<nat>, allowed: set<nat>): nat {
    if flags == [] then 0
    else if TypeOf(flags[0]) !in allowed then 2
    else if TypeOf(flags[0]) in seen then 3
    else FlagVerdict(flags[1..], seen + {TypeOf(flags[0])}, allowed)
  }

  function Verdict(from: string, to: string, flags: seq<Flag>, rules: Rules): nat {
    var v := FlagVerdict(flags, {}, rules.allowedFlags);
    if !PathAllowed(from) || !PathAllowed(to) then 1
    else if v != 0 then v
    else if Slave in flags && Private in flags then 4
    else if TargetAllowed(from, to, rules) then 0
    else 1
  }

  lemma {:induction false} FlagVerdictZero(flags: seq<Flag>, seen: set<nat>, allowed: set<nat>)
    ensures FlagVerdict(flags, seen, allowed) == 0 <==>
            (forall i :: 0 <= i < |flags| ==> TypeOf(flags[i]) in allowed && TypeOf(flags[i]) !in seen)
              && DistinctTypes(flags)
  {
    hide TypeOf;
    if flags != [] {
      var rest := flags[1..];
      var more := seen + {TypeOf(flags[0])};
      FlagVerdictZero(rest, more, allowed);
      assert forall i :: 0 < i < |flags| ==> flags[i] == rest[i - 1];
      assert forall i :: 0 <= i < |rest| ==> rest[i] == flags[i + 1];
    }
  }

  /** Nothing is objected to exactly when the entry is accepted. */
  lemma VerdictZero(from: string, to: string, flags: seq<Flag>, rules: Rules)
    ensures Verdict(from, to, flags, rules) == 0 <==> Accepted(from, to, flags, rules)
  {
    FlagVerdictZero(flags, {}, rules.allowedFlags);
  }

  /** The flags in front of the `n`th are allowed and of different kinds. */
  predicate GoodSoFar(flags: seq<Flag>, allowed: set<nat>, n: nat)
    requires n <= |flags|
  {
    && (forall k :: 0 <= k < n ==> TypeOf(flags[k]) in allowed)
    && forall j, k :: 0 <= j < k < n ==> !SameKind(flags[j], flags[k])
  }

  predicate Objection(flags: seq<Flag>, allowed: set<nat>, n: nat, code: nat)
    requires n < |flags|
  {
    && GoodSoFar(flags, allowed, n)
    && if TypeOf(flags[n]) !in allowed then code == 2
       else code == 3 && exists j :: 0 <= j < n && SameKind(flags[j], flags[n])
  }

  lemma {:induction false} FlagVerdictMeans(flags: seq<Flag>, n: nat, seen: set<nat>, allowed: set<nat>)
    requires n <= |flags| && GoodSoFar(flags, allowed, n)
    requires forall t :: t in seen <==> exists j :: 0 <= j < n && TypeOf(flags[j]) == t
    ensures var v := FlagVerdict(flags[n..], seen, allowed);
            if v == 0 then GoodSoFar(flags, allowed, |flags|)
            else exists k :: n <= k < |flags| && Objection(flags, allowed, k, v)
    decreases |flags| - n
  {
    if n < |flags| {
      hide TypeOf;
      var kind := TypeOf(flags[n]);
      assert flags[n..][0] == flags[n] && flags[n..][1..] == flags[n + 1..];
      forall j | 0 <= j < n ensures SameKind(flags[j], flags[n]) <==> TypeOf(flags[j]) == kind {
        KindIsType(flags[j], flags[n]);
      }
      if kind in allowed && kind !in seen {
        FlagVerdictMeans(flags, n + 1, seen + {kind}, allowed);
      } else {
        assert Objection(flags, allowed, n, FlagVerdict(flags[n..], seen, allowed));
      }
    }
  }

  /** What each answer of the validation says. */
  lemma VerdictMeans(from: string, to: string, flags: seq<Flag>, rules: Rules)
    ensures var paths := "/" <= from && "/" <= to && !Contains(from, "..") && !Contains(to, "..");
            match Verdict(from, to, flags, rules)
            case 0 => Accepted(from, to, flags, rules)
            case 4 => paths && GoodSoFar(flags, rules.allowedFlags, |flags|) && Slave in flags && Private in flags
            case 1 => !paths || (GoodSoFar(flags, rules.allowedFlags, |flags|) && !TargetAllowed(from, to, rules))
            case v => paths && exists k :: 0 <= k < |flags| && Objection(flags, rules.allowedFlags, k, v)
  {
    VerdictZero(from, to, flags, rules);
    FlagVerdictMeans(flags, 0, {}, rules.allowedFlags);
    assert flags[0..] == flags;
  }

  method StartsWith(s: string, prefixes: seq<string>) returns (r: bool)
    ensures r <==> StartsWithAny(s, prefixes)
  {
    var i := 0;
    while i < |prefixes|
      invariant i <= |prefixes| && !StartsWithAny(s, prefixes[..i])
    {
      if prefixes[i] <= s { return true; }
      i := i + 1;
    }
    assert prefixes[..i] == prefixes;
    return false;
  }

  method Equals(s: string, texts: seq<string>) returns (r: bool)
    ensures r <==> s in texts
  {
    var i := 0;
    while i < |texts|
      invariant i <= |texts| && s !in texts[..i]
    {
      if texts[i] == s { return true; }
      i := i + 1;
    }
    assert texts[..i] == texts;
    return false;
  }

  method CheckFlags(flags: seq<Flag>, allowed: set<nat>) returns (code: nat)
    ensures code == var v := FlagVerdict(flags, {}, allowed);
                    if v == 0 && Slave in flags && Private in flags then 4 else v
  {
    var seen: set<nat> := {};
    var idx := 0;
    while idx < |flags|
      invariant idx <= |flags| && FlagVerdict(flags, {}, allowed) == FlagVerdict(flags[idx..], seen, allowed)
      invariant forall t :: t in seen <==> exists i :: 0 <= i < idx && TypeOf(flags[i]) == t
    {
      assert flags[idx..][0] == flags[idx] && flags[idx..][1..] == flags[idx + 1..];
      if TypeOf(flags[idx]) !in allowed { return 2; }
      if TypeOf(flags[idx]) in seen { return 3; }
      seen := seen + {TypeOf(flags[idx])};
      idx := idx + 1;
    }
    SeenType(flags, seen);
    if TypeOf(Slave) in seen && TypeOf(Private) in seen { return 4; }
    return 0;
  }

  lemma SeenType(flags: seq<Flag>, seen: set<nat>)
    requires forall t :: t in seen <==> exists i :: 0 <= i < |flags| && TypeOf(flags[i]) == t
    ensures TypeOf(Slave) in seen <==> Slave in flags
    ensures TypeOf(Private) in seen <==> Private in flags
  {
    assert forall f: Flag :: TypeOf(f) == 8 <==> f == Slave;
    assert forall f: Flag :: TypeOf(f) == 16 <==> f == Private;
    if Slave in flags {
      var i :| 0 <= i < |flags| && flags[i] == Slave;
      assert TypeOf(flags[i]) == 8;
    }
    if Private in flags {
      var i :| 0 <= i < |flags| && flags[i] == Private;
      assert TypeOf(flags[i]) == 16;
    }
  }

  /** _validateVolumeMap */
  method ValidateVolumeMap(from: string, to: string, flags: seq<Flag>, rules: Rules) returns (code: nat)
    ensures code == Verdict(from, to, flags, rules)
  {
    hide FlagVerdict, Contains, StartsWithAny;
    if Contains(from, "..") { return 1; }
    if Contains(to, "..") { return 1; }
    if from == "" || from[0] != '/' { return 1; }
    if to == "" || to[0] != '/' { return 1; }
    code := CheckFlags(flags, rules.allowedFlags);
    if code != 0 { return; }
    var found := StartsWith(from, rules.fromStartsDisallowed);
    if found { return 1; }
    found := Equals(from, rules.fromExactDisallowed);
    if found { return 1; }
    found := Equals(to, rules.exactAllowed);
    if found { return 0; }
    found := StartsWith(to, rules.startsDisallowed);
    if found { return 1; }
    found := Equals(to, rules.exactDisallowed);
    if found { return 1; }
    return 0;
  }

  /* Printing. */

  lemma {:induction false} JoinLast(parts: seq<string>, part: string, sep: char)
    requires parts != []
    ensures Join(parts + [part], sep) == Join(parts, sep) + ([sep] + part)
  {
    if |parts| == 1 {
      assert (parts + [part])[1..] == [part];
    } else {
      assert (parts + [part])[1..] == parts[1..] + [part];
      JoinLast(parts[1..], part, sep);
      var a, b, c := parts[0] + [sep], Join(parts[1..], sep), [sep] + part;
      assert a + (b + c) == (a + b) + c;
    }
  }

  /** The normalised text, built up flag by flag in a growing buffer. */
  method PrintRaw(e: Entry) returns (raw: string)
    ensures raw == Print(e)
  {
    hide Word, Join;
    var buffer := new StringBuffer(e.from + ":" + e.to);
    FirstParts(e);
    var i := 0;
    while i < |e.flags|
      invariant i <= |e.flags| && buffer.Valid() && fresh(buffer) && fresh(buffer.cells)
      invariant buffer.Contents() == Join([e.from, e.to] + Words(e.flags)[..i], ':')
    {
      buffer.Append(":" + Word(e.flags[i]));
      var parts := [e.from, e.to] + Words(e.flags)[..i];
      JoinLast(parts, Word(e.flags[i]), ':');
      assert parts + [Word(e.flags[i])] == [e.from, e.to] + Words(e.flags)[..i + 1];
      i := i + 1;
    }
    assert Words(e.flags)[..i] == Words(e.flags);
    raw := buffer.cells[..buffer.length];
  }

  lemma FirstParts(e: Entry)
    ensures Join([e.from, e.to] + Words(e.flags)[..0], ':') == e.from + ":" + e.to
  {
    var parts := [e.from, e.to];
    assert parts + Words(e.flags)[..0] == parts;
    assert parts[1..] == [e.to];
  }
}
