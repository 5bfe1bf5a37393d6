/** The text of volume maps: sizes, flags, and one entry (VolumeMap.c). */
module VolumeText {
  import opened Wrappers
  import opened Text
  import opened Decimal
  import opened Doubles

  /* Sizes. */

  const SSIZE_RANGE: nat := 0x8000_0000_0000_0000

  const SCALE: string := "bkmgtpe"

  /** The place of a unit letter in the scale, or its length. */
  function ScaleIndex(c: char): (k: nat)
    ensures k <= |SCALE|
    ensures k < |SCALE| ==> SCALE[k] == c
    ensures k == |SCALE| ==> c !in SCALE
  {
    if c == 'b' then 0 else if c == 'k' then 1 else if c == 'm' then 2 else if c == 'g' then 3
    else if c == 't' then 4 else if c == 'p' then 5 else if c == 'e' then 6 else 7
  }

  function Unit(rest: string): char {
    if rest == "" then 'b' else Lower(rest[0])
  }

  /** Multiplied by 1024 as often as the unit says. */
  function Scaled(a: Double, k: nat): Double {
    a.(exponent := a.exponent + 10 * k)
  }

  /** The number of bytes a text stands for; -1 when the unit is unknown or the number does not fit. */
  function BytesOf(text: string): int {
    var n := ScanNumeral(text);
    var k := ScaleIndex(Unit(n.rest));
    var a: int := Trunc(Scaled(DoubleOf(n), k));
    if k == |SCALE| || a >= SSIZE_RANGE then -1 else if n.negative then -a else a
  }

  predicate IsSize(n: int) {
    0 < n < SSIZE_RANGE && Representable(n)
  }

  lemma BytesAreSize(text: string)
    requires BytesOf(text) > 0
    ensures IsSize(BytesOf(text)) && BytesOf(text) < 0x8000_0000_0000_0000
  {
    hide DoubleOf, Representable, ScanNumeral, Trunc;
    var n := ScanNumeral(text);
    DoubleIsSmall(n);
    TruncIsRepresentable(Scaled(DoubleOf(n), ScaleIndex(Unit(n.rest))));
  }

  /** A whole double, written without an exponent, is read as itself. */
  lemma WholeIsRead(text: string, value: nat, binary: bool)
    requires ScanNumeral(text) == Numeral(false, value, binary, 0, "") && IsSize(value)
    ensures BytesOf(text) == value
  {
    hide Nearest, Representable, ScanNumeral, Trunc;
    WholeIsExact(value);
    assert value * Power(binary, 0) == value;
  }

  /** `unit` is the letter at place `k` of the scale, in either case. */
  predicate IsUnit(unit: char, k: nat) {
    k < 7 && (unit == "bkmgtpe"[k] || unit == "BKMGTPE"[k])
  }

  lemma UnitIsFound(unit: char, rest: string, k: nat)
    requires IsUnit(unit, k)
    ensures k < 7 && ScaleIndex(Unit([unit] + rest)) == k
    ensures !IsDigit(unit) && unit != '.' && Lower(unit) != 'x'
    ensures k < 6 ==> NoExponent([unit] + rest, 'e')
    ensures k == 6 && DigitRun(Unsigned(rest)) == "" ==> NoExponent([unit] + rest, 'e')
  {
    assert ([unit] + rest)[1..] == rest;
  }

  /** 1024 to the power of `k`. */
  lemma PowersOf1024()
    ensures [1, 0x400, 0x10_0000, 0x4000_0000, 0x100_0000_0000, 0x4_0000_0000_0000, 0x1000_0000_0000_0000] ==
              [Pow2(0), Pow2(10), Pow2(20), Pow2(30), Pow2(40), Pow2(50), Pow2(60)]
  {
    hide Product;
    assert Pow2(2) == 2 * Pow2(1) == 4 && Pow2(4) == 2 * Pow2(3) == 16;
    assert Pow2(6) == 2 * Pow2(5) == 64 && Pow2(8) == 2 * Pow2(7) == 256 && Pow2(10) == 2 * Pow2(9) == 1024;
    Pow2Add(10, 10);
    Pow2Add(20, 10);
    Pow2Add(30, 10);
    Pow2Add(40, 10);
    Pow2Add(50, 10);
    ByThousands();
  }

  lemma ByThousands()
    ensures forall n: nat :: Product(n, 1024) == 1024 * n
  {
  }

  /** A whole number that is a double, with a unit behind it: multiplied by 1024 once for each place in the scale. */
  lemma UnitSize(n: nat, unit: char, rest: string, k: nat)
    requires n > 0 && Representable(n) && IsUnit(unit, k)
    requires k == 6 ==> DigitRun(Unsigned(rest)) == ""
    requires n * [1, 0x400, 0x10_0000, 0x4000_0000, 0x100_0000_0000, 0x4_0000_0000_0000, 0x1000_0000_0000_0000][k]
               < 0x8000_0000_0000_0000
    ensures BytesOf(Digits(n) + [unit] + rest) ==
              n * [1, 0x400, 0x10_0000, 0x4000_0000, 0x100_0000_0000, 0x4_0000_0000_0000, 0x1000_0000_0000_0000][k]
  {
    hide Nearest, Representable, ScanNumeral, Trunc, Pow2, NoExponent, ScaleIndex, Unit;
    UnitIsFound(unit, rest, k);
    var tail := [unit] + rest;
    assert Pointed(Digits(n), "", false) + ExponentText(0, 'e') + tail == Digits(n) + [unit] + rest;
    assert Digits(n) + "" == Digits(n);
    ScanDecimal(Digits(n), "", false, 0, tail);
    ValueOfDigits(n);
    assert n * Power(false, 0) == n;
    WholeIsExactly(n);
    TruncShifted(Nearest(n, 1), n, 10 * k);
    PowersOf1024();
  }

  /** What follows a numeral begins with this unit; nothing at all stands for bytes. */
  predicate HasUnit(tail: string, k: nat) {
    if tail == "" then k == 0 else IsUnit(tail[0], k)
  }

  /** The tail is not an exponent of its own. */
  predicate NoPower(tail: string) {
    tail == "" || DigitRun(Unsigned(tail[1..])) == ""
  }

  lemma UnitOfTail(tail: string, k: nat)
    requires HasUnit(tail, k)
    ensures k < 7 && ScaleIndex(Unit(tail)) == k && (tail == "" ==> k == 0)
    ensures tail != "" ==> !IsDigit(tail[0]) && tail[0] != '.' && Lower(tail[0]) != 'x'
    ensures tail != "" && k != 0 && k != 6 ==> !IsHexDigit(tail[0])
    ensures k != 6 || NoPower(tail) ==> NoExponent(tail, 'e')
    ensures k != 5 || NoPower(tail) ==> NoExponent(tail, 'p')
  {
    hide DigitRun, Unsigned;
  }

  /**
   * Any decimal size: digits, perhaps with a point and an exponent, and perhaps a unit. The number of bytes, if it is
   * accepted, is the number times 1024 to the place of the unit, within one byte and a relative error of 2^-52.
   */
  lemma SizeIsClose(a: string, b: string, point: bool, x: int, tail: string, k: nat)
    requires AllDigits(a) && AllDigits(b) && (point || b == "") && |a| + |b| > 0 && Value(a + b) > 0
    requires HasUnit(tail, k) && (k == 6 && x == 0 ==> NoPower(tail))
    requires BytesOf(Pointed(a, b, point) + ExponentText(x, 'e') + tail) != -1
    ensures var r := BytesOf(Pointed(a, b, point) + ExponentText(x, 'e') + tail);
            var e := x - |b|;
            var up, down := Pow10(if e > 0 then e else 0), Pow10(if e < 0 then -e else 0);
            r >= 0 && Close(Product(r, down), Product(Product(Value(a + b), up), Pow2(10 * k)), down)
  {
    hide *;
    UnitOfTail(tail, k);
    ScanDecimal(a, b, point, x, tail);
    DigitsConcat(a, b);
    DecimalIsClose(Pointed(a, b, point) + ExponentText(x, 'e') + tail, Value(a + b), x - |b|, tail, k);
  }

  /** Any hexadecimal size; its exponent, behind a 'p', is one of two. Without it, 'b' and 'e' are no units. */
  lemma HexSizeIsClose(x: char, a: string, b: string, point: bool, e: int, tail: string, k: nat)
    requires x in "xX" && AllHex(a) && AllHex(b) && AllHex(a + b) && (point || b == "") && HexValue(a + b) > 0
    requires HasUnit(tail, k) && (e == 0 && tail != "" ==> k != 0 && k != 6 && (k == 5 ==> NoPower(tail)))
    requires BytesOf("0" + [x] + Pointed(a, b, point) + ExponentText(e, 'p') + tail) != -1
    ensures var r := BytesOf("0" + [x] + Pointed(a, b, point) + ExponentText(e, 'p') + tail);
            var f := e - 4 * |b|;
            var up, down := Pow2(if f > 0 then f else 0), Pow2(if f < 0 then -f else 0);
            r >= 0 && Close(Product(r, down), Product(Product(HexValue(a + b), up), Pow2(10 * k)), down)
  {
    hide *;
    UnitOfTail(tail, k);
    HexOfNothing(a + b);
    ScanHexadecimal(x, a, b, point, e, tail);
    HexadecimalIsClose(
      "0" + [x] + Pointed(a, b, point) + ExponentText(e, 'p') + tail, HexValue(a + b), e - 4 * |b|, tail, k);
  }

  lemma HexOfNothing(s: string)
    requires AllHex(s) && HexValue(s) > 0
    ensures |s| > 0
  {
  }

  lemma DecimalIsClose(text: string, v: nat, e: int, tail: string, k: nat)
    requires ScanNumeral(text) == Numeral(false, v, false, e, tail) && v > 0 && k < 7 && ScaleIndex(Unit(tail)) == k
    requires BytesOf(text) != -1
    ensures var r, up, down := BytesOf(text), Pow10(if e > 0 then e else 0), Pow10(if e < 0 then -e else 0);
            r >= 0 && Close(Product(r, down), Product(Product(v, up), Pow2(10 * k)), down)
  {
    hide ScanNumeral, Unit, ScaleIndex, BytesOf, Pow10, Pow2, Close, Product;
    ReadIsClose(text, Numeral(false, v, false, e, tail), k);
  }

  lemma HexadecimalIsClose(text: string, v: nat, e: int, tail: string, k: nat)
    requires ScanNumeral(text) == Numeral(false, v, true, e, tail) && v > 0 && k < 7 && ScaleIndex(Unit(tail)) == k
    requires BytesOf(text) != -1
    ensures var r, up, down := BytesOf(text), Pow2(if e > 0 then e else 0), Pow2(if e < 0 then -e else 0);
            r >= 0 && Close(Product(r, down), Product(Product(v, up), Pow2(10 * k)), down)
  {
    hide ScanNumeral, Unit, ScaleIndex, BytesOf, Pow10, Pow2, Close, Product;
    ReadIsClose(text, Numeral(false, v, true, e, tail), k);
  }

  function Up(e: int): nat {
    if e > 0 then e else 0
  }

  lemma ReadIsClose(text: string, n: Numeral, k: nat)
    requires ScanNumeral(text) == n && !n.negative && n.value > 0 && k < 7 && ScaleIndex(Unit(n.rest)) == k
    requires BytesOf(text) != -1
    ensures var r, down := BytesOf(text), Power(n.binary, Up(-n.exponent));
            && r >= 0
            && Close(Product(r, down), Product(Product(n.value, Power(n.binary, Up(n.exponent))), Pow2(10 * k)), down)
  {
    hide *;
    BytesOfNumeral(text, n, k);
    NumeralIsClose(n, k);
  }

  lemma DigitsConcat(a: string, b: string)
    requires AllDigits(a) && AllDigits(b)
    ensures AllDigits(a + b)
  {
  }

  lemma BytesOfNumeral(text: string, n: Numeral, k: nat)
    requires ScanNumeral(text) == n && !n.negative && k < 7 && ScaleIndex(Unit(n.rest)) == k
    ensures BytesOf(text) != -1 ==> BytesOf(text) == Trunc(Scaled(DoubleOf(n), k))
  {
    hide ScanNumeral, ScaleIndex, Unit, DoubleOf, Trunc;
  }

  lemma NumeralIsClose(n: Numeral, k: nat)
    requires n.value > 0
    ensures var r, e := Trunc(Scaled(DoubleOf(n), k)), n.exponent;
            var up, down := Power(n.binary, Up(e)), Power(n.binary, Up(-e));
            Close(Product(r, down), Product(Product(n.value, up), Pow2(10 * k)), down)
  {
    hide Nearest, Trunc, Pow2, Power, Product, Close;
    var v, e := n.value, n.exponent;
    PowerOfZero(n.binary, v);
    if e >= 0 {
      var p := Power(n.binary, e);
      StillPositive(v, p);
      TimesIsProduct(v, p);
      TruncIsClose(Product(v, p), 1, 10 * k);
    } else {
      TruncIsClose(v, Power(n.binary, -e), 10 * k);
    }
  }

  lemma TimesIsProduct(a: nat, b: nat)
    ensures a * b == Product(a, b)
  {
  }

  lemma PowerOfZero(binary: bool, v: nat)
    ensures Power(binary, 0) == 1 && Product(v, Power(binary, 0)) == v
  {
  }

  lemma StillPositive(v: nat, p: nat)
    requires v > 0 && p > 0
    ensures Product(v, p) > 0
  {
  }

  /** A printed size reads back as itself. */
  lemma SizeRoundTrip(n: nat)
    requires IsSize(n)
    ensures BytesOf(Digits(n)) == n
  {
    ScanPrinted(n);
    WholeIsRead(Digits(n), n, false);
  }

  /** Blanks in front of a number and a plus sign do not matter, and a negative number is never a size. */
  lemma SignedSize(before: string, text: string)
    requires AllBlank(before) && text != ""
    requires IsDigit(text[0]) || (|text| > 1 && text[0] == '.' && IsDigit(text[1]))
    ensures BytesOf(before + text) == BytesOf(text) == BytesOf(before + ("+" + text))
    ensures BytesOf(before + ("-" + text)) == if BytesOf(text) < 0 then -1 else -BytesOf(text)
  {
    hide *;
    assert before + text == before + ("" + text);
    ScanSign(before, "", text);
    ScanSign(before, "+", text);
    ScanSign(before, "-", text);
    BytesBySign(text, before + text);
    BytesBySign(text, before + ("+" + text));
    BytesBySign(text, before + ("-" + text));
  }

  lemma BytesBySign(text: string, signed: string)
    requires !ScanNumeral(text).negative
    requires ScanNumeral(signed) == ScanNumeral(text).(negative := ScanNumeral(signed).negative)
    ensures BytesOf(signed) ==
              if ScanNumeral(signed).negative && BytesOf(text) >= 0 then -BytesOf(text) else BytesOf(text)
    ensures BytesOf(text) >= -1
  {
    hide ScanNumeral, Nearest, Power, Trunc, ScaleIndex, Unit;
  }

  /** In a hexadecimal size, 'b' and 'e' are digits, not units. */
  lemma HexSize(x: char, h: string)
    requires x in "xX" && h != "" && AllHex(h) && IsSize(HexValue(h))
    ensures BytesOf("0" + [x] + h) == HexValue(h)
  {
    hide *;
    PlainNumeral(h);
    ScanHexadecimal(x, h, "", false, 0, "");
    assert "0" + [x] + Pointed(h, "", false) + ExponentText(0, 'p') + "" == "0" + [x] + h;
    assert h + "" == h;
    WholeIsRead("0" + [x] + h, HexValue(h), true);
  }

  lemma PlainNumeral(h: string)
    ensures Pointed(h, "", false) == h && ExponentText(0, 'p') == "" && AllHex("") && NoExponent("", 'p')
  {
  }

  /* Flags. */

  datatype Flag =
    | ReadOnly
    | Recursive
    | PerNodeCache(size: int, block: int, medium: string, fstype: string)
    | Slave
    | Private

  function TypeOf(f: Flag): nat {
    match f
    case ReadOnly => 1
    case Recursive => 2
    case PerNodeCache(_, _, _, _) => 4
    case Slave => 8
    case Private => 16
  }

  const DEFAULT_CACHE: Flag := PerNodeCache(0, 1024 * 1024, "loop", "xfs")

  type KeyValue = (string, Option<string>)

  /**
   * The options of a flag: `key=value` pairs between commas. A key without "=" in front of a later
   * pair swallows that pair's "=": it gets everything behind it as its value, and what is left of the
   * other pair has none. `cut` says that `s` ends at such a place.
   */
  function KeyValues(s: string, cut: bool): seq<KeyValue>
    decreases |s|
  {
    var c, e := |Before(s, ',')|, |Before(s, '=')|;
    if s == "" && !cut then []
    else if c == |s| then [(s[..e], if e < |s| then Some(s[e + 1..]) else None)]
    else if e < c then [(s[..e], Some(s[e + 1..c]))] + KeyValues(s[c + 1..], cut)
    else if e == |s| then [(s[..c], None)] + KeyValues(s[c + 1..], cut)
    else [(s[..c], Some(s[e + 1..]))] + KeyValues(s[c + 1..e], true)
  }

  /** One option of a per-node cache; an unknown key has no effect. */
  function SetOption(cache: Flag, key: string, value: Option<string>): Option<Flag>
    requires cache.PerNodeCache?
  {
    var bytes := if value.None? then -1 else BytesOf(value.value);
    if EqualIgnoringCase(key, "size") then if bytes <= 0 then None else Some(cache.(size := bytes))
    else if EqualIgnoringCase(key, "fs") then
      if value.Some? && EqualIgnoringCase(value.value, "xfs") then Some(cache.(fstype := "xfs")) else None
    else if EqualIgnoringCase(key, "bs") then if bytes <= 0 then None else Some(cache.(block := bytes))
    else if EqualIgnoringCase(key, "method") then
      if value.Some? && EqualIgnoringCase(value.value, "loop") then Some(cache.(medium := "loop")) else None
    else Some(cache)
  }

  function SetOptions(cache: Flag, options: seq<KeyValue>): (r: Option<Flag>)
    requires cache.PerNodeCache?
    ensures r.Some? ==> r.value.PerNodeCache?
    decreases |options|
  {
    if options == [] then Some(cache)
    else
      var next := SetOption(cache, options[0].0, options[0].1);
      if next.None? then None else SetOptions(next.value, options[1..])
  }

  function Options(token: string): seq<KeyValue> {
    var name := Before(token, '=');
    if |name| < |token| then KeyValues(token[|name| + 1..], false) else []
  }

  /** The flag a token stands for: none for an empty token, and no result for a token that is refused. */
  function FlagOf(token: string): Option<seq<Flag>> {
    var name, options := Before(token, '='), Options(token);
    if token == "" then Some([])
    else if EqualIgnoringCase(name, "ro") then if options == [] then Some([ReadOnly]) else None
    else if EqualIgnoringCase(name, "rec") then if options == [] then Some([Recursive]) else None
    else if EqualIgnoringCase(name, "perNodeCache") then
      var cache := SetOptions(DEFAULT_CACHE, options);
      if cache.Some? && cache.value.size > 0 then Some([cache.value]) else None
    else if EqualIgnoringCase(name, "slave") then if options == [] then Some([Slave]) else None
    else if EqualIgnoringCase(name, "private") then if options == [] then Some([Private]) else None
    else None
  }

  /* What the words of a flag mean. */

  /** Flags without options: an empty word is none, the names are known in any case, and a cache needs a size. */
  lemma PlainWords(word: string)
    requires '=' !in word
    ensures FlagOf(word) ==
              if word == "" then Some([])
              else if EqualIgnoringCase(word, "ro") then Some([ReadOnly])
              else if EqualIgnoringCase(word, "rec") then Some([Recursive])
              else if EqualIgnoringCase(word, "slave") then Some([Slave])
              else if EqualIgnoringCase(word, "private") then Some([Private])
              else None
  {
    hide KeyValues;
    BeforeIsUnique(word, '=', word);
    assert Options(word) == [];
    if EqualIgnoringCase(word, "perNodeCache") {
      assert SetOptions(DEFAULT_CACHE, []) == Some(DEFAULT_CACHE);
    }
  }

  /** Only a cache takes options. */
  lemma OptionsOnlyForCache(name: string, options: string)
    requires '=' !in name && options != "" && !EqualIgnoringCase(name, "perNodeCache")
    ensures FlagOf(name + "=" + options).None?
  {
    var token := name + "=" + options;
    assert name <= token && token[|name|] == '=' && token[|name| + 1..] == options;
    BeforeIsUnique(token, '=', name);
  }

  /** A key that is known has a value that is accepted. */
  predicate OptionAccepted(key: string, value: Option<string>) {
    && (EqualIgnoringCase(key, "size") || EqualIgnoringCase(key, "bs") ==> value.Some? && BytesOf(value.value) > 0)
    && (EqualIgnoringCase(key, "fs") ==> value.Some? && EqualIgnoringCase(value.value, "xfs"))
    && (EqualIgnoringCase(key, "method") ==> value.Some? && EqualIgnoringCase(value.value, "loop"))
  }

  /** The last value of a key, as a number of bytes. */
  function LastBytes(options: seq<KeyValue>, key: string, otherwise: int): int {
    if options == [] then otherwise
    else
      var (k, value) := options[|options| - 1];
      if EqualIgnoringCase(k, key) && value.Some? then BytesOf(value.value)
      else LastBytes(options[..|options| - 1], key, otherwise)
  }

  /** A cache is accepted exactly when its options are and it has a size. The last size and block size count; a block is
      one megabyte otherwise; the medium and the file system type are always the same. */
  lemma CacheExact(name: string, text: string)
    requires EqualIgnoringCase(name, "perNodeCache") && '=' !in name && text != ""
    ensures var options := KeyValues(text, false);
            FlagOf(name + "=" + text) ==
              if (forall i :: 0 <= i < |options| ==> OptionAccepted(options[i].0, options[i].1))
                 && LastBytes(options, "size", 0) > 0
              then
                var size, bs := LastBytes(options, "size", 0), LastBytes(options, "bs", 0x10_0000);
                Some([PerNodeCache(size, bs, "loop", "xfs")])
              else None
  {
    hide KeyValues, BytesOf, EqualIgnoringCase, SetOptions;
    var token := name + "=" + text;
    assert name <= token && token[|name|] == '=' && token[|name| + 1..] == text;
    BeforeIsUnique(token, '=', name);
    NamesDiffer(name);
    SetOptionsExact(KeyValues(text, false));
  }

  lemma NamesDiffer(name: string)
    requires EqualIgnoringCase(name, "perNodeCache")
    ensures !EqualIgnoringCase(name, "ro") && !EqualIgnoringCase(name, "rec")
  {
  }

  lemma {:induction false} SetOptionsLast(cache: Flag, options: seq<KeyValue>, last: KeyValue)
    requires cache.PerNodeCache?
    ensures SetOptions(cache, options + [last]) ==
              if SetOptions(cache, options).None? then None
              else SetOption(SetOptions(cache, options).value, last.0, last.1)
    decreases |options|
  {
    hide SetOption;
    if options == [] {
      assert (options + [last])[1..] == [] && options + [last] == [last];
    } else {
      var next := SetOption(cache, options[0].0, options[0].1);
      assert (options + [last])[1..] == options[1..] + [last];
      if next.Some? {
        SetOptionKeeps(cache, options[0].0, options[0].1);
        SetOptionsLast(next.value, options[1..], last);
      }
    }
  }

  lemma SetOptionKeeps(cache: Flag, key: string, value: Option<string>)
    requires cache.PerNodeCache? && SetOption(cache, key, value).Some?
    ensures SetOption(cache, key, value).value.PerNodeCache?
  {
    hide BytesOf, EqualIgnoringCase;
  }

  lemma {:induction false} SetOptionsExact(options: seq<KeyValue>)
    ensures SetOptions(DEFAULT_CACHE, options) ==
              if forall i :: 0 <= i < |options| ==> OptionAccepted(options[i].0, options[i].1)
              then Some(PerNodeCache(LastBytes(options, "size", 0), LastBytes(options, "bs", 0x10_0000), "loop", "xfs"))
              else None
  {
    hide BytesOf, EqualIgnoringCase, SetOptions, OptionAccepted, LastBytes;
    if options == [] {
      NoOptions();
    } else {
      var n := |options| - 1;
      var init, last := options[..n], options[n];
      assert options == init + [last];
      SetOptionsExact(init);
      SetOptionsLast(DEFAULT_CACHE, init, last);
      assert forall i :: 0 <= i < n ==> init[i] == options[i];
      var size, block := LastBytes(init, "size", 0), LastBytes(init, "bs", 0x10_0000);
      OneOption(size, block, last.0, last.1);
      LastOne(options, "size", 0);
      LastOne(options, "bs", 0x10_0000);
    }
  }

  lemma NoOptions()
    ensures SetOptions(DEFAULT_CACHE, []) == Some(PerNodeCache(0, 0x10_0000, "loop", "xfs"))
    ensures LastBytes([], "size", 0) == 0 && LastBytes([], "bs", 0x10_0000) == 0x10_0000
  {
  }

  lemma LastOne(options: seq<KeyValue>, key: string, otherwise: int)
    requires options != []
    ensures var (k, value) := options[|options| - 1];
            LastBytes(options, key, otherwise) ==
              if EqualIgnoringCase(k, key) && value.Some? then BytesOf(value.value)
              else LastBytes(options[..|options| - 1], key, otherwise)
  {
    hide BytesOf, EqualIgnoringCase;
  }

  /** The four keys are different. */
  lemma KeysApart(key: string)
    ensures !(EqualIgnoringCase(key, "size") && EqualIgnoringCase(key, "fs"))
    ensures !(EqualIgnoringCase(key, "size") && EqualIgnoringCase(key, "bs"))
    ensures !(EqualIgnoringCase(key, "size") && EqualIgnoringCase(key, "method"))
    ensures !(EqualIgnoringCase(key, "fs") && EqualIgnoringCase(key, "bs"))
    ensures !(EqualIgnoringCase(key, "fs") && EqualIgnoringCase(key, "method"))
    ensures !(EqualIgnoringCase(key, "bs") && EqualIgnoringCase(key, "method"))
  {
    assert Lower("fs"[0]) != Lower("bs"[0]);
  }

  lemma OneOption(size: int, block: int, key: string, value: Option<string>)
    ensures SetOption(PerNodeCache(size, block, "loop", "xfs"), key, value) ==
              if !OptionAccepted(key, value) then None
              else Some(PerNodeCache(
                if EqualIgnoringCase(key, "size") && value.Some? then BytesOf(value.value) else size,
                if EqualIgnoringCase(key, "bs") && value.Some? then BytesOf(value.value) else block, "loop", "xfs"))
  {
    hide BytesOf, EqualIgnoringCase;
    KeysApart(key);
  }

  function FlagsOf(tokens: seq<string>): Option<seq<Flag>> {
    if tokens == [] then Some([])
    else
      var init, last := FlagsOf(tokens[..|tokens| - 1]), FlagOf(tokens[|tokens| - 1]);
      if init.None? || last.None? then None else Some(init.value + last.value)
  }

  /** A flag that parsing can produce. */
  predicate GoodFlag(f: Flag) {
    f.PerNodeCache? ==> IsSize(f.size) && IsSize(f.block) && f.medium == "loop" && f.fstype == "xfs"
  }

  /** As `GoodFlag`, while the size is still missing. */
  predicate GoodCache(f: Flag) {
    f.PerNodeCache? && (f.size == 0 || IsSize(f.size)) && IsSize(f.block) && f.medium == "loop" && f.fstype == "xfs"
  }

  lemma SetOptionIsGood(cache: Flag, key: string, value: Option<string>)
    requires GoodCache(cache)
    ensures SetOption(cache, key, value).Some? ==> GoodCache(SetOption(cache, key, value).value)
  {
    hide BytesOf, IsSize, EqualIgnoringCase;
    if value.Some? && BytesOf(value.value) > 0 {
      BytesAreSize(value.value);
    }
  }

  lemma {:induction false} SetOptionsIsGood(cache: Flag, options: seq<KeyValue>)
    requires GoodCache(cache)
    ensures SetOptions(cache, options).Some? ==> GoodCache(SetOptions(cache, options).value)
    decreases |options|
  {
    if options != [] {
      var next := SetOption(cache, options[0].0, options[0].1);
      SetOptionIsGood(cache, options[0].0, options[0].1);
      if next.Some? {
        SetOptionsIsGood(next.value, options[1..]);
      }
    }
  }

  lemma FlagIsGood(token: string)
    requires FlagOf(token).Some?
    ensures forall i :: 0 <= i < |FlagOf(token).value| ==> GoodFlag(FlagOf(token).value[i])
  {
    hide SetOptions, Options, EqualIgnoringCase;
    assert GoodCache(DEFAULT_CACHE);
    SetOptionsIsGood(DEFAULT_CACHE, Options(token));
  }

  lemma {:induction false} FlagsAreGood(tokens: seq<string>)
    requires FlagsOf(tokens).Some?
    ensures forall i :: 0 <= i < |FlagsOf(tokens).value| ==> GoodFlag(FlagsOf(tokens).value[i])
  {
    if tokens != [] {
      FlagsAreGood(tokens[..|tokens| - 1]);
      FlagIsGood(tokens[|tokens| - 1]);
    }
  }

  function CacheText(size: nat, block: nat, medium: string, fstype: string): string {
    "size" + "=" + Digits(size) + ","
    + ("bs" + "=" + Digits(block) + "," + ("method" + "=" + medium + "," + ("fstype" + "=" + fstype)))
  }

  /** How a flag is printed. */
  function Word(f: Flag): string {
    match f
    case ReadOnly => "ro"
    case Recursive => "rec"
    case Slave => "slave"
    case Private => "private"
    case PerNodeCache(size, block, medium, fstype) =>
      "perNodeCache" + "=" + CacheText(if size < 0 then 0 else size, if block < 0 then 0 else block, medium, fstype)
  }

  function Words(flags: seq<Flag>): (r: seq<string>)
    ensures |r| == |flags|
    ensures forall i {:trigger r[i]} :: 0 <= i < |r| ==> r[i] == Word(flags[i])
  {
    seq(|flags|, i requires 0 <= i < |flags| => Word(flags[i]))
  }

  predicate Plain(s: string) {
    '=' !in s && ',' !in s
  }

  lemma OnePair(key: string, value: string, rest: string)
    requires Plain(key) && Plain(value)
    ensures KeyValues(key + "=" + value + "," + rest, false) == [(key, Some(value))] + KeyValues(rest, false)
  {
    var s := key + "=" + value + "," + rest;
    assert key <= s && s[|key|] == '=';
    BeforeIsUnique(s, '=', key);
    var pair := key + "=" + value;
    assert pair <= s && s[|pair|] == ',';
    BeforeIsUnique(s, ',', pair);
    assert s[|key| + 1..|pair|] == value && s[|pair| + 1..] == rest && s[..|key|] == key;
  }

  lemma LastPair(key: string, value: string)
    requires Plain(key) && Plain(value)
    ensures KeyValues(key + "=" + value, false) == [(key, Some(value))]
  {
    var s := key + "=" + value;
    assert key <= s && s[|key|] == '=';
    BeforeIsUnique(s, '=', key);
    BeforeIsUnique(s, ',', s);
    assert s[|key| + 1..] == value && s[..|key|] == key;
  }

  function CacheOptions(f: Flag): seq<KeyValue>
    requires f.PerNodeCache? && f.size >= 0 && f.block >= 0
  {
    [("size", Some(Digits(f.size))), ("bs", Some(Digits(f.block))),
      ("method", Some(f.medium)), ("fstype", Some(f.fstype))]
  }

  function Pair(key: string, value: string): string {
    key + "=" + value
  }

  /** Pairs between commas are read as they are. */
  lemma {:induction false} PairsAreRead(keys: seq<string>, values: seq<string>)
    requires |keys| == |values| > 0 && forall i :: 0 <= i < |keys| ==> Plain(keys[i]) && Plain(values[i])
    ensures KeyValues(Join(seq(|keys|, i requires 0 <= i < |keys| => Pair(keys[i], values[i])), ','), false) ==
              seq(|keys|, i requires 0 <= i < |keys| => (keys[i], Some(values[i])))
  {
    hide KeyValues;
    var words := seq(|keys|, i requires 0 <= i < |keys| => Pair(keys[i], values[i]));
    if |keys| == 1 {
      LastPair(keys[0], values[0]);
    } else {
      PairsAreRead(keys[1..], values[1..]);
      var rest := words[1..];
      assert rest == seq(|keys| - 1, i requires 0 <= i < |keys| - 1 => Pair(keys[1..][i], values[1..][i]));
      OnePair(keys[0], values[0], Join(rest, ','));
      assert Join(words, ',') == keys[0] + "=" + values[0] + "," + Join(rest, ',');
    }
  }

  /** A key alone; an empty one counts only at a place that was cut. */
  lemma BareKey(key: string, cut: bool)
    requires Plain(key)
    ensures KeyValues(key, cut) == if key == "" && !cut then [] else [(key, None)]
  {
    BeforeIsUnique(key, '=', key);
    BeforeIsUnique(key, ',', key);
    assert key[..|key|] == key;
  }

  /** A key without a value gets everything behind the next equals sign, and the key in front of that has none. */
  lemma BareKeySwallows(key: string, next: string, value: string)
    requires Plain(key) && Plain(next)
    ensures KeyValues(key + "," + next + "=" + value, false) == [(key, Some(value)), (next, None)]
  {
    hide KeyValues, Before;
    var s, front := key + "," + next + "=" + value, key + "," + next;
    assert key <= s && s[|key|] == ',';
    BeforeIsUnique(s, ',', key);
    assert front <= s && s[|front|] == '=';
    BeforeIsUnique(s, '=', front);
    assert s[|key| + 1..|front|] == next && s[|front| + 1..] == value && s[..|key|] == key;
    BareKey(next, true);
    SwallowStep(s, |key|, |front|);
  }

  lemma SwallowStep(s: string, c: nat, e: nat)
    requires c == |Before(s, ',')| && e == |Before(s, '=')| && c < e < |s|
    ensures KeyValues(s, false) == [(s[..c], Some(s[e + 1..]))] + KeyValues(s[c + 1..e], true)
  {
    hide Before;
  }

  lemma CacheWordOptions(f: Flag)
    requires f.PerNodeCache? && GoodFlag(f)
    ensures Before(Word(f), '=') == "perNodeCache" && Options(Word(f)) == CacheOptions(f)
  {
    hide KeyValues, Digits;
    var size, block := Digits(f.size), Digits(f.block);
    var tail3 := "fstype" + "=" + f.fstype;
    var tail2 := "method" + "=" + f.medium + "," + tail3;
    var tail1 := "bs" + "=" + block + "," + tail2;
    var tail0 := "size" + "=" + size + "," + tail1;
    var w := Word(f);
    assert w == "perNodeCache" + "=" + tail0;
    assert "perNodeCache" <= w && w[12] == '=';
    BeforeIsUnique(w, '=', "perNodeCache");
    assert w[13..] == tail0;
    OnePair("size", size, tail1);
    OnePair("bs", block, tail2);
    OnePair("method", f.medium, tail3);
    LastPair("fstype", f.fstype);
  }
}
