/** Numbers as text: what `str` and `%lu` print, and what `strtol` and `strtoul` read. */
module Decimal {
  import opened Text

  predicate IsDigit(c: char) {
    '0' <= c <= '9'
  }

  predicate AllDigits(s: string) {
    forall i :: 0 <= i < |s| ==> IsDigit(s[i])
  }

  function DigitChar(d: nat): (c: char)
    requires d < 10
    ensures IsDigit(c) && DigitValue(c) == d
  {
    '0' + d as char
  }

  function DigitValue(c: char): nat
    requires IsDigit(c)
  {
    (c - '0') as int
  }

  function Digits(n: nat): (s: string)
    ensures s != "" && AllDigits(s)
    ensures s[0] == '0' ==> n == 0
  {
    if n < 10 then [DigitChar(n)] else Digits(n / 10) + [DigitChar(n % 10)]
  }

  function Value(s: string): nat
    requires AllDigits(s)
  {
    if s == "" then 0 else 10 * Value(s[..|s| - 1]) + DigitValue(s[|s| - 1])
  }

  lemma {:induction false} ValueOfDigits(n: nat)
    ensures Value(Digits(n)) == n
  {
    if n >= 10 {
      ValueOfDigits(n / 10);
      assert Digits(n)[..|Digits(n)| - 1] == Digits(n / 10);
    }
  }

  /** The leading digits of `s`. */
  function DigitRun(s: string): (r: string)
    ensures r <= s && AllDigits(r)
    ensures |r| < |s| ==> !IsDigit(s[|r|])
  {
    if s == "" || !IsDigit(s[0]) then "" else [s[0]] + DigitRun(s[1..])
  }

  lemma {:induction false} DigitRunIsLongest(s: string, p: string)
    requires p <= s && AllDigits(p) && (|p| == |s| || !IsDigit(s[|p|]))
    ensures DigitRun(s) == p
  {
    if p != "" {
      assert p[0] == s[0] && s[1..][..|p| - 1] == p[1..];
      DigitRunIsLongest(s[1..], p[1..]);
    }
  }

  datatype Scan = Scan(negative: bool, digits: string, rest: string)

  /** How `strtol` and `strtoul` cut a number off: white space, a sign, digits. */
  function ScanNumber(s: string): (r: Scan)
    ensures AllDigits(r.digits)
  {
    var t := TrimLeft(s);
    var signed := t != "" && (t[0] == '-' || t[0] == '+');
    var u := if signed then t[1..] else t;
    var digits := DigitRun(u);
    Scan(signed && t[0] == '-', digits, if digits == "" then s else u[|digits|..])
  }

  lemma ScanDigits(n: nat, rest: string)
    requires rest == "" || !IsDigit(rest[0])
    ensures ScanNumber(Digits(n) + rest) == Scan(false, Digits(n), rest)
    ensures Value(ScanNumber(Digits(n) + rest).digits) == n
  {
    var s := Digits(n) + rest;
    assert s[0] == Digits(n)[0] && IsDigit(s[0]);
    assert TrimLeft(s) == s;
    DigitRunIsLongest(s, Digits(n));
    ValueOfDigits(n);
  }

  lemma ScanSigned(n: nat)
    ensures ScanNumber(Digits(n)) == Scan(false, Digits(n), "")
    ensures ScanNumber("-" + Digits(n)) == Scan(true, Digits(n), "")
  {
    hide Digits, DigitRun;
    var d := Digits(n);
    assert d + "" == d;
    ScanDigits(n, "");
    var m := "-" + d;
    assert m[1..] == d && TrimLeft(m) == m && d[|d|..] == "";
    DigitRunIsLongest(d, d);
  }
}
