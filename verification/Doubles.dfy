/** Numbers as `strtod` reads them: decimal and hexadecimal numerals and the doubles nearest to them. */
module Doubles {
  import opened Text
  import opened Decimal

  /* Whole numbers that are doubles. */

  const MANTISSA: nat := 0x20_0000_0000_0000

  /** The distance between neighbouring doubles at `n`. */
  function Ulp(n: nat): (u: nat)
    ensures u > 0
  {
    if n < MANTISSA then 1 else 2 * Ulp(n / 2)
  }

  predicate Representable(n: nat) {
    n % Ulp(n) == 0
  }

  lemma TwiceRepresentable(n: nat)
    requires Representable(n)
    ensures Representable(2 * n)
  {
    if 2 * n >= MANTISSA {
      var u := Ulp(n);
      assert 2 * n / 2 == n;
      assert Ulp(2 * n) == 2 * u;
      assert n == u * (n / u);
      Division(2 * n, 2 * u, n / u, 0);
    }
  }

  lemma Multiple(d: int, k: int)
    requires d > 0
    ensures k >= 1 ==> d * k >= d
    ensures k <= -1 ==> d * k <= -d
  {
    if k >= 1 {
      assert d * k == d + d * (k - 1) && d * (k - 1) >= 0;
    } else if k <= -1 {
      assert d * k == -d - d * (-k - 1) && d * (-k - 1) >= 0;
    }
  }

  lemma Division(n: nat, d: nat, q: nat, r: nat)
    requires d > 0 && n == d * q + r && r < d
    ensures n / d == q && n % d == r
  {
    assert n == d * (n / d) + n % d;
    assert d * (n / d - q) == r - n % d;
    Multiple(d, n / d - q);
  }

  lemma SmallRepresentable(n: nat)
    requires n <= MANTISSA
    ensures Representable(n)
  {
    if n == MANTISSA {
      assert Ulp(MANTISSA) == 2 * Ulp(MANTISSA / 2) == 2;
    }
  }

  /** A large whole double is even, and its half is a double too. */
  lemma HalfRepresentable(n: nat)
    requires Representable(n) && n >= MANTISSA
    ensures n == 2 * (n / 2) && Representable(n / 2)
  {
    var u := Ulp(n / 2);
    var q := n / (2 * u);
    assert n == (2 * u) * q == 2 * (u * q);
    Division(n / 2, u, q, 0);
  }

  /* Doubles of any size. */

  // The number `mantissa * 2^exponent`.
  datatype Double = Double(mantissa: nat, exponent: int)

  function Pow2(k: nat): (r: nat)
    ensures r > 0
  {
    if k == 0 then 1 else 2 * Pow2(k - 1)
  }

  function Pow10(k: nat): (r: nat)
    ensures r > 0
  {
    if k == 0 then 1 else 10 * Pow10(k - 1)
  }

  /** `n / d` to the nearest whole number, to the even one when two are equally near. */
  function RoundHalfEven(n: nat, d: nat): nat
    requires d > 0
  {
    var q, r := n / d, n % d;
    if 2 * r < d || (2 * r == d && q % 2 == 0) then q else q + 1
  }

  /** The quotient has fewer than 53 bits before the point. */
  predicate TooSmall(n: nat, d: nat) {
    n < MANTISSA / 2 * d
  }

  predicate TooLarge(n: nat, d: nat) {
    n >= MANTISSA * d
  }

  function Distance(n: nat, d: nat): nat {
    if TooSmall(n, d) then MANTISSA / 2 * d - n else if TooLarge(n, d) then n - MANTISSA * d + 1 else 0
  }

  /** The double nearest to `n / d`: scaled by two until its whole part has 53 bits, and rounded. */
  function Nearest(n: nat, d: nat): (r: Double)
    requires d > 0
    ensures !TooLarge(n, d) ==> r.exponent <= 0
    ensures !TooSmall(n, d) ==> r.exponent >= 0
    decreases Distance(n, d)
  {
    if n == 0 then Double(0, 0)
    else if TooSmall(n, d) then
      var r := Nearest(2 * n, d);
      r.(exponent := r.exponent - 1)
    else if TooLarge(n, d) then
      var r := Nearest(n, 2 * d);
      r.(exponent := r.exponent + 1)
    else Double(RoundHalfEven(n, d), 0)
  }

  /** `|a - b| <= c / 2` */
  predicate Near(a: nat, b: nat, c: nat) {
    2 * a <= 2 * b + c && 2 * b <= 2 * a + c
  }

  lemma RoundedIsNear(n: nat, d: nat)
    requires d > 0
    ensures Near(RoundHalfEven(n, d) * d, n, d)
  {
    var q, r := n / d, n % d;
    assert n == q * d + r && (q + 1) * d == q * d + d;
  }

  lemma RoundedIsSmall(n: nat, d: nat)
    requires d > 0 && !TooSmall(n, d) && !TooLarge(n, d)
    ensures MANTISSA / 2 <= RoundHalfEven(n, d) <= MANTISSA
  {
    var q, r := n / d, n % d;
    assert n == d * q + r;
    assert d * (q - MANTISSA) == d * q - MANTISSA * d;
    Multiple(d, q - MANTISSA);
    assert d * (q + 1 - MANTISSA / 2) == d * q + d - MANTISSA / 2 * d;
    Multiple(d, q + 1 - MANTISSA / 2);
  }

  /** It is within half a unit of the last place of 53 bits. */
  lemma {:induction false} NearestIsNear(n: nat, d: nat)
    requires d > 0
    ensures var r := Nearest(n, d);
            r.mantissa <= MANTISSA && (n > 0 ==> r.mantissa >= MANTISSA / 2) && NearDouble(r, n, d)
    decreases Distance(n, d)
  {
    hide *;
    NearestStep(n, d);
    if n > 0 && TooSmall(n, d) {
      NearestIsNear(2 * n, d);
      NearUp(n, d, Nearest(2 * n, d));
    } else if n > 0 && TooLarge(n, d) {
      NearestIsNear(n, 2 * d);
      NearDown(n, d, Nearest(n, 2 * d));
    } else if n > 0 {
      RoundedIsNear(n, d);
      RoundedIsSmall(n, d);
      NearHere(n, d, RoundHalfEven(n, d));
    } else {
      NearHere(n, d, 0);
      NearZero(d);
    }
  }

  lemma NearestStep(n: nat, d: nat)
    requires d > 0
    ensures n == 0 ==> Nearest(n, d) == Double(0, 0)
    ensures n > 0 && TooSmall(n, d) ==> Distance(2 * n, d) < Distance(n, d)
    ensures n > 0 && TooLarge(n, d) ==> Distance(n, 2 * d) < Distance(n, d)
    ensures n > 0 && TooSmall(n, d) ==>
              Nearest(n, d) == Nearest(2 * n, d).(exponent := Nearest(2 * n, d).exponent - 1)
                && Nearest(2 * n, d).exponent <= 0
    ensures n > 0 && TooLarge(n, d) ==>
              Nearest(n, d) == Nearest(n, 2 * d).(exponent := Nearest(n, 2 * d).exponent + 1)
                && Nearest(n, 2 * d).exponent >= 0
    ensures n > 0 && !TooSmall(n, d) && !TooLarge(n, d) ==> Nearest(n, d) == Double(RoundHalfEven(n, d), 0)
  {
    hide RoundHalfEven;
  }

  predicate NearDouble(r: Double, n: nat, d: nat) {
    if r.exponent >= 0 then Near(r.mantissa * (d * Pow2(r.exponent)), n, d * Pow2(r.exponent))
    else Near(r.mantissa * d, n * Pow2(-r.exponent), d)
  }

  lemma NearZero(d: nat)
    ensures Near(0 * d, 0, d)
  {
  }

  lemma NearHere(n: nat, d: nat, m: nat)
    requires d > 0
    ensures Near(m * d, n, d) ==> NearDouble(Double(m, 0), n, d)
  {
    hide Near;
    assert d * Pow2(0) == d;
  }

  lemma NearUp(n: nat, d: nat, r: Double)
    requires NearDouble(r, 2 * n, d) && r.exponent <= 0
    ensures NearDouble(r.(exponent := r.exponent - 1), n, d)
  {
    hide Near;
    var e := -r.exponent;
    assert n * Pow2(e + 1) == 2 * n * Pow2(e);
    if e == 0 {
      assert d * Pow2(0) == d && 2 * n * Pow2(0) == 2 * n;
    }
  }

  lemma NearDown(n: nat, d: nat, r: Double)
    requires NearDouble(r, n, 2 * d) && r.exponent >= 0
    ensures NearDouble(r.(exponent := r.exponent + 1), n, d)
  {
    hide Near;
    var e := r.exponent;
    assert 2 * d * Pow2(e) == d * Pow2(e + 1);
  }

  function Product(n: nat, k: nat): nat {
    n * k
  }

  function Quotient(n: nat, d: nat): nat
    requires d > 0
  {
    n / d
  }

  /** Cutting off what is behind the point. */
  function Trunc(a: Double): nat {
    if a.exponent >= 0 then Product(a.mantissa, Pow2(a.exponent)) else Quotient(a.mantissa, Pow2(-a.exponent))
  }

  lemma {:induction false} ShiftedRepresentable(n: nat, k: nat)
    requires Representable(n)
    ensures Representable(n * Pow2(k))
  {
    hide Representable;
    if k == 0 {
      assert n * Pow2(0) == n;
    } else {
      ShiftedRepresentable(n, k - 1);
      TwiceRepresentable(n * Pow2(k - 1));
      assert n * Pow2(k) == 2 * (n * Pow2(k - 1));
    }
  }

  lemma Nonnegative(a: nat, b: nat)
    ensures a * b >= 0
  {
  }

  lemma QuotientIsSmaller(n: nat, d: nat)
    requires d > 0
    ensures n / d <= n
  {
    var q := n / d;
    assert n == d * q + n % d;
    assert d * q == q + (d - 1) * q;
    Nonnegative(d - 1, q);
  }

  /** What is left of a double when it is cut off is a whole double. */
  lemma TruncIsRepresentable(a: Double)
    requires a.mantissa <= MANTISSA
    ensures Representable(Trunc(a))
  {
    hide Representable, Pow2;
    SmallRepresentable(a.mantissa);
    if a.exponent >= 0 {
      ShiftedRepresentable(a.mantissa, a.exponent);
    } else {
      QuotientIsSmaller(a.mantissa, Pow2(-a.exponent));
      SmallRepresentable(Trunc(a));
    }
  }

  /** A number of less than 54 bits is only shifted. */
  lemma {:induction false} SmallIsExact(n: nat)
    requires 0 < n < MANTISSA
    ensures var r := Nearest(n, 1);
            r.exponent <= 0 && r.mantissa == n * Pow2(-r.exponent)
    decreases MANTISSA - n
  {
    if n < MANTISSA / 2 {
      SmallIsExact(2 * n);
      var e := -Nearest(2 * n, 1).exponent;
      assert n * Pow2(e + 1) == 2 * n * Pow2(e);
    } else {
      assert n * Pow2(0) == n;
    }
  }

  /** So is a large whole double, in the other direction. */
  lemma {:induction false} LargeIsExact(v: nat, d: nat)
    requires d > 0 && v >= MANTISSA / 2 && Representable(v)
    ensures var r := Nearest(v * d, d);
            r.exponent >= 0 && r.mantissa * Pow2(r.exponent) == v
    decreases v
  {
    hide Representable, Nearest;
    Scales(v, d);
    if v < MANTISSA {
      NearestOfMultiple(v, d);
      assert v * Pow2(0) == v;
    } else {
      HalfRepresentable(v);
      LargeIsExact(v / 2, 2 * d);
      assert v / 2 * (2 * d) == v * d;
      NearestOfLarge(v * d, d);
      TwicePower(Nearest(v * d, 2 * d));
    }
  }

  lemma NearestOfMultiple(v: nat, d: nat)
    requires d > 0 && v * d > 0 && !TooSmall(v * d, d) && !TooLarge(v * d, d)
    ensures Nearest(v * d, d) == Double(v, 0)
  {
    Division(v * d, d, v, 0);
  }

  lemma NearestOfLarge(n: nat, d: nat)
    requires d > 0 && n > 0 && !TooSmall(n, d) && TooLarge(n, d)
    ensures Nearest(n, d) == Nearest(n, 2 * d).(exponent := Nearest(n, 2 * d).exponent + 1)
  {
  }

  lemma TwicePower(r: Double)
    requires r.exponent >= 0
    ensures r.mantissa * Pow2(r.exponent + 1) == 2 * (r.mantissa * Pow2(r.exponent))
  {
    assert Pow2(r.exponent + 1) == 2 * Pow2(r.exponent);
  }

  lemma TimesIsMonotone(a: nat, b: nat, d: nat)
    requires d > 0 && a <= b
    ensures a * d <= b * d && (a < b ==> a * d < b * d)
  {
    assert b * d == a * d + d * (b - a);
    Multiple(d, b - a);
  }

  lemma Scales(v: nat, d: nat)
    requires d > 0 && v >= MANTISSA / 2
    ensures v * d >= MANTISSA / 2 * d && v * d > 0
    ensures v < MANTISSA <==> v * d < MANTISSA * d
  {
    TimesIsMonotone(MANTISSA / 2, v, d);
    if v < MANTISSA { TimesIsMonotone(v, MANTISSA, d); } else { TimesIsMonotone(MANTISSA, v, d); }
  }

  /** A whole double is its own nearest double. */
  lemma WholeIsExact(n: nat)
    requires n > 0 && Representable(n)
    ensures Trunc(Nearest(n, 1)) == n
  {
    hide Representable, Nearest;
    if n < MANTISSA {
      SmallIsExact(n);
      var r := Nearest(n, 1);
      if r.exponent < 0 {
        Division(r.mantissa, Pow2(-r.exponent), n, 0);
      } else {
        assert n * Pow2(0) == n;
      }
    } else {
      LargeIsExact(n, 1);
      assert n * 1 == n;
    }
  }

  /* Products, as far as the bounds below need them. */

  lemma Comm(a: nat, b: nat)
    ensures Product(a, b) == Product(b, a)
  {
  }

  lemma Assoc(a: nat, b: nat, c: nat)
    ensures Product(a, Product(b, c)) == Product(Product(a, b), c)
  {
    assert a * (b * c) == a * b * c;
  }

  lemma Distributes(a: nat, b: nat, c: nat)
    ensures Product(a + b, c) == Product(a, c) + Product(b, c)
  {
    assert (a + b) * c == a * c + b * c;
  }

  lemma Monotone(a: nat, b: nat, c: nat)
    requires a <= b
    ensures Product(a, c) <= Product(b, c)
  {
    Distributes(a, b - a, c);
  }

  /** The two numbers by which the bounds multiply. */
  lemma Constants(a: nat, b: nat)
    ensures Product(2 * a, b) == 2 * Product(a, b)
    ensures Product(MANTISSA / 2 * a, b) == MANTISSA / 2 * Product(a, b)
  {
    assert 2 * a * b == 2 * (a * b);
    assert MANTISSA / 2 * a * b == MANTISSA / 2 * (a * b);
  }

  lemma Cancel(p: nat, a: nat, b: nat)
    requires p > 0 && Product(p, a) <= Product(p, b)
    ensures a <= b
  {
    if a > b {
      assert p * a == p * b + p * (a - b);
      Multiple(p, a - b);
    }
  }

  lemma One(a: nat)
    ensures Product(1, a) == a && Product(a, 1) == a && Product(a, 0) == 0
  {
  }

  /* Multiplying a double by a power of two. */

  lemma {:induction false} Pow2Add(a: nat, b: nat)
    ensures Pow2(a + b) == Product(Pow2(a), Pow2(b))
  {
    hide Product;
    if a == 0 {
      One(Pow2(b));
    } else {
      Pow2Add(a - 1, b);
      Constants(Pow2(a - 1), Pow2(b));
    }
  }

  /** A double that stands for the whole number `n`. */
  predicate Exactly(a: Double, n: nat) {
    if a.exponent >= 0 then Product(a.mantissa, Pow2(a.exponent)) == n else a.mantissa == Product(n, Pow2(-a.exponent))
  }

  lemma TruncShifted(a: Double, n: nat, j: nat)
    requires Exactly(a, n)
    ensures Trunc(a.(exponent := a.exponent + j)) == Product(n, Pow2(j))
  {
    hide Pow2, Product, Quotient;
    var e := a.exponent;
    if e >= 0 {
      Pow2Add(e, j);
      Assoc(a.mantissa, Pow2(e), Pow2(j));
    } else if e + j >= 0 {
      Pow2Add(-e, e + j);
      Assoc(n, Pow2(-e), Pow2(e + j));
    } else {
      Pow2Add(j, -e - j);
      Assoc(n, Pow2(j), Pow2(-e - j));
      ExactQuotient(Product(n, Pow2(j)), Pow2(-e - j));
    }
  }

  lemma ExactQuotient(q: nat, d: nat)
    requires d > 0
    ensures Quotient(Product(q, d), d) == q
  {
    Division(q * d, d, q, 0);
  }

  lemma WholeIsExactly(n: nat)
    requires n > 0 && Representable(n)
    ensures Exactly(Nearest(n, 1), n)
  {
    hide Representable, Nearest;
    if n < MANTISSA {
      SmallIsExact(n);
      assert n * Pow2(0) == n;
    } else {
      LargeIsExact(n, 1);
      assert n * 1 == n;
    }
  }

  /** `2^52 * |x - y| <= 2^52 * slack + y` */
  predicate Close(x: nat, y: nat, slack: nat) {
    && MANTISSA / 2 * x <= MANTISSA / 2 * y + MANTISSA / 2 * slack + y
    && MANTISSA / 2 * y <= MANTISSA / 2 * x + MANTISSA / 2 * slack + y
  }

  lemma CancelSum(p: nat, x: nat, a: nat, b: nat)
    requires p > 0 && Product(p, x) <= Product(p, a) + Product(p, b)
    ensures x <= a + b
  {
    hide Product;
    Sum(p, a, b);
    Cancel(p, x, a + b);
  }

  lemma RelativeBound(a: nat, b: nat, s: nat, kd: nat)
    requires MANTISSA / 2 * kd <= 2 * b && 2 * a <= 2 * b + kd && 2 * b <= 2 * a + 2 * s + kd
    ensures MANTISSA / 2 * a <= MANTISSA / 2 * b + b
    ensures MANTISSA / 2 * b <= MANTISSA / 2 * a + MANTISSA / 2 * s + b
  {
  }

  lemma CloseBy(p: nat, x: nat, y: nat, slack: nat, kd: nat)
    requires p > 0 && MANTISSA / 2 * kd <= 2 * Product(p, y)
    requires 2 * Product(p, x) <= 2 * Product(p, y) + kd
    requires 2 * Product(p, y) <= 2 * Product(p, x) + 2 * Product(p, slack) + kd
    ensures Close(x, y, slack)
  {
    hide Product;
    var h := MANTISSA / 2;
    Times(p, x);
    Times(p, y);
    Times(p, slack);
    RelativeBound(Product(p, x), Product(p, y), Product(p, slack), kd);
    CancelSum(p, h * x, h * y, y);
    Sum(p, h * x, h * slack);
    CancelSum(p, h * y, h * x + h * slack, y);
  }

  lemma Times(p: nat, x: nat)
    ensures Product(p, MANTISSA / 2 * x) == MANTISSA / 2 * Product(p, x)
  {
    Comm(p, x);
    Comm(p, MANTISSA / 2 * x);
    Constants(x, p);
  }

  lemma Sum(p: nat, a: nat, b: nat)
    ensures Product(p, a + b) == Product(p, a) + Product(p, b)
  {
    Comm(p, a);
    Comm(p, b);
    Comm(p, a + b);
    Distributes(a, b, p);
  }

  /** Swapping the first two of three factors. */
  lemma Swap(a: nat, b: nat, c: nat)
    ensures Product(a, Product(b, c)) == Product(b, Product(a, c))
    ensures Product(a, Product(b, c)) == Product(Product(a, b), c)
  {
    Assoc(a, b, c);
    Assoc(b, a, c);
    Comm(a, b);
  }

  lemma NearTimes(a: nat, b: nat, d: nat, k: nat)
    requires Near(a, b, d)
    ensures Near(Product(a, k), Product(b, k), Product(d, k))
  {
    hide Product;
    Monotone(2 * a, 2 * b + d, k);
    Monotone(2 * b, 2 * a + d, k);
    Distributes(2 * b, d, k);
    Distributes(2 * a, d, k);
    Constants(a, k);
    Constants(b, k);
  }

  /** A mantissa of 53 bits makes the distance to the quotient small. */
  lemma SlackIsSmall(m: nat, d: nat, b: nat, k: nat)
    requires m >= MANTISSA / 2 && Near(Product(m, d), b, d)
    ensures MANTISSA / 2 * Product(d, k) <= 2 * Product(b, k)
  {
    hide Product;
    Monotone(MANTISSA / 2, m, d);
    assert Product(MANTISSA / 2, d) == MANTISSA / 2 * d by { Comm(MANTISSA / 2, d); One(d); Constants(1, d); }
    Monotone(MANTISSA / 2 * d, 2 * b, k);
    Constants(d, k);
    Constants(b, k);
  }

  lemma LargeIsClose(m: nat, d: nat, n: nat, k: nat, slack: nat)
    requires m >= MANTISSA / 2 && Near(Product(m, d), n, d)
    ensures Close(Product(Product(m, d), k), Product(n, k), slack)
  {
    hide Product;
    var x, y := Product(Product(m, d), k), Product(n, k);
    NearTimes(Product(m, d), n, d, k);
    SlackIsSmall(m, d, n, k);
    One(x);
    One(y);
    One(slack);
    CloseBy(1, x, y, slack, Product(d, k));
  }

  lemma ScaledIsClose(m: nat, d: nat, n: nat, p: nat, k: nat, r: nat)
    requires p > 0 && m >= MANTISSA / 2 && Near(Product(m, d), Product(n, p), d)
    requires Product(r, p) <= Product(m, k) < Product(r, p) + p
    ensures Close(Product(r, d), Product(n, k), d)
  {
    hide Product;
    var x, y := Product(r, d), Product(n, k);
    NearTimes(Product(m, d), Product(n, p), d, k);
    SlackIsSmall(m, d, Product(n, p), k);
    // p * x == (r * p) * d and p * y == (n * p) * k
    Swap(p, r, d);
    Comm(p, r);
    Swap(p, n, k);
    Comm(p, n);
    // (m * d) * k == (m * k) * d
    Assoc(m, d, k);
    Comm(d, k);
    Assoc(m, k, d);
    Monotone(Product(r, p), Product(m, k), d);
    Monotone(Product(m, k), Product(r, p) + p, d);
    Distributes(Product(r, p), p, d);
    CloseBy(p, x, y, d, Product(d, k));
  }

  lemma WholeIsClose(m: nat, e: nat, n: nat, d: nat, j: nat)
    requires m >= MANTISSA / 2 && Near(Product(m, Product(d, Pow2(e))), n, Product(d, Pow2(e)))
    ensures Close(Product(Product(m, Pow2(e + j)), d), Product(n, Pow2(j)), d)
  {
    hide Pow2, Close, Near, Product;
    var p, k := Pow2(e), Pow2(j);
    Pow2Add(e, j);
    LargeIsClose(m, Product(d, p), n, k, d);
    // (m * (p * k)) * d == (m * (d * p)) * k
    Comm(Product(m, Product(p, k)), d);
    Swap(d, m, Product(p, k));
    Assoc(d, p, k);
    Assoc(m, Product(d, p), k);
  }

  lemma PartIsClose(m: nat, f: nat, n: nat, d: nat, j: nat)
    requires f > 0 && m >= MANTISSA / 2 && Near(Product(m, d), Product(n, Pow2(f)), d)
    ensures var r := if j >= f then Product(m, Pow2(j - f)) else Quotient(m, Pow2(f - j));
            Close(Product(r, d), Product(n, Pow2(j)), d)
  {
    hide Pow2, Close, Near, Product, Quotient;
    if j >= f {
      Pow2Add(f, j - f);
      // (m * 2^(j - f)) * 2^f == m * 2^j
      Assoc(m, Pow2(j - f), Pow2(f));
      Comm(Pow2(j - f), Pow2(f));
      ScaledIsClose(m, d, n, Pow2(f), Pow2(j), Product(m, Pow2(j - f)));
    } else {
      Pow2Add(j, f - j);
      QuotientIsBelow(m, Pow2(f - j), Pow2(j));
      ScaledIsClose(m, d, n, Pow2(f), Pow2(j), Quotient(m, Pow2(f - j)));
    }
  }

  /** What is left of the double nearest to `n / d`, multiplied by a power of two and cut off, is that multiple within
      one and a relative 2^-52. */
  lemma TruncIsClose(n: nat, d: nat, j: nat)
    requires n > 0 && d > 0
    ensures var a := Nearest(n, d);
            Close(Product(Trunc(a.(exponent := a.exponent + j)), d), Product(n, Pow2(j)), d)
  {
    hide Nearest, Pow2, Close, Near, Product, Quotient;
    var a := Nearest(n, d);
    var m, e := a.mantissa, a.exponent;
    NearestIsNear(n, d);
    NearParts(a, n, d);
    if e >= 0 {
      WholeIsClose(m, e, n, d, j);
    } else {
      PartIsClose(m, -e, n, d, j);
    }
  }

  lemma QuotientIsBelow(m: nat, q: nat, k: nat)
    requires q > 0 && k > 0
    ensures var r, p := Quotient(m, q), Product(k, q);
            p > 0 && Product(r, p) <= Product(m, k) < Product(r, p) + p
  {
    hide Product;
    var r := Quotient(m, q);
    QuotientSplits(m, q);
    // r * (k * q) == (r * q) * k
    Comm(k, q);
    Assoc(r, q, k);
    Distributes(Product(r, q), m % q, k);
    Monotone(m % q + 1, q, k);
    Distributes(m % q, 1, k);
    One(k);
  }

  lemma QuotientSplits(m: nat, q: nat)
    requires q > 0
    ensures m == Product(Quotient(m, q), q) + m % q && m % q < q
  {
  }

  lemma NearParts(a: Double, n: nat, d: nat)
    requires NearDouble(a, n, d)
    ensures if a.exponent >= 0
            then Near(Product(a.mantissa, Product(d, Pow2(a.exponent))), n, Product(d, Pow2(a.exponent)))
            else Near(Product(a.mantissa, d), Product(n, Pow2(-a.exponent)), d)
  {
    hide Near;
  }

  /* Hexadecimal digits. */

  predicate IsHexDigit(c: char) {
    IsDigit(c) || 'a' <= Lower(c) <= 'f'
  }

  predicate AllHex(s: string) {
    forall i :: 0 <= i < |s| ==> IsHexDigit(s[i])
  }

  function HexValue(s: string): nat
    requires AllHex(s)
  {
    if s == "" then 0
    else
      var c := s[|s| - 1];
      16 * HexValue(s[..|s| - 1]) + if IsDigit(c) then DigitValue(c) else 10 + (Lower(c) - 'a') as int
  }

  /** The leading digits of `s`. */
  function FigureRun(s: string, hex: bool): (r: string)
    ensures r <= s && (if hex then AllHex(r) else AllDigits(r))
  {
    if !hex then DigitRun(s) else if s == "" || !IsHexDigit(s[0]) then "" else [s[0]] + FigureRun(s[1..], hex)
  }

  /* Numerals. */

  // Digits with at most one point: their value without it, their number, and how many are behind it.
  datatype Figures = Figures(value: nat, count: nat, fraction: nat, rest: string)

  // The number `value * 10^exponent`, or `value * 2^exponent`, and what follows it.
  datatype Numeral = Numeral(negative: bool, value: nat, binary: bool, exponent: int, rest: string)

  function ScanFigures(s: string, hex: bool): Figures {
    var whole := FigureRun(s, hex);
    var behind := s[|whole|..];
    var pointed := behind != "" && behind[0] == '.';
    var fraction := if pointed then FigureRun(behind[1..], hex) else "";
    var all := whole + fraction;
    Figures(if hex then HexValue(all) else Value(all), |all|, |fraction|,
      if pointed then behind[1 + |fraction|..] else behind)
  }

  function Signed(s: string): bool {
    s != "" && (s[0] == '-' || s[0] == '+')
  }

  function Unsigned(s: string): string {
    if Signed(s) then s[1..] else s
  }

  /** The exponent behind a numeral, and what follows; without digits there is none. */
  function ScanExponent(s: string, letter: char): (int, string) {
    if s == "" || Lower(s[0]) != letter then (0, s)
    else
      var t := s[1..];
      var digits := DigitRun(Unsigned(t));
      if digits == "" then (0, s)
      else (if Signed(t) && t[0] == '-' then -(Value(digits) as int) else Value(digits), Unsigned(t)[|digits|..])
  }

  /** A hexadecimal numeral has a digit behind its prefix; otherwise it is the decimal numeral 0. */
  predicate HasHexPrefix(s: string) {
    |s| >= 2 && s[0] == '0' && Lower(s[1]) == 'x' && ScanFigures(s[2..], true).count > 0
  }

  /** How `strtod` cuts a numeral off: white space, a sign, digits with at most one point, an exponent. */
  function ScanNumeral(s: string): Numeral {
    var t := TrimLeft(s);
    var u := Unsigned(t);
    var hex := HasHexPrefix(u);
    var f := ScanFigures(if hex then u[2..] else u, hex);
    if f.count == 0 then Numeral(false, 0, false, 0, s)
    else
      var (exponent, rest) := ScanExponent(f.rest, if hex then 'p' else 'e');
      Numeral(Signed(t) && t[0] == '-', f.value, hex, exponent - (if hex then 4 else 1) * f.fraction, rest)
  }

  function Power(binary: bool, k: nat): (r: nat)
    ensures r > 0
  {
    if binary then Pow2(k) else Pow10(k)
  }

  /** The double that a numeral stands for. */
  function DoubleOf(n: Numeral): Double {
    if n.exponent >= 0 then Nearest(n.value * Power(n.binary, n.exponent), 1)
    else Nearest(n.value, Power(n.binary, -n.exponent))
  }

  lemma DoubleIsSmall(n: Numeral)
    ensures DoubleOf(n).mantissa <= MANTISSA
  {
    if n.exponent >= 0 {
      NearestIsNear(n.value * Power(n.binary, n.exponent), 1);
    } else {
      NearestIsNear(n.value, Power(n.binary, -n.exponent));
    }
  }

  lemma OnlyFigures(s: string, hex: bool)
    requires FigureRun(s, hex) == s
    ensures ScanFigures(s, hex) == Figures(if hex then HexValue(s) else Value(s), |s|, 0, "")
  {
    hide FigureRun, HexValue, Value;
    assert s + "" == s && s[|s|..] == "";
  }

  lemma ScanPrinted(n: nat)
    ensures ScanNumeral(Digits(n)) == Numeral(false, n, false, 0, "")
  {
    hide ScanFigures, FigureRun, Digits, Value;
    var s := Digits(n);
    assert IsDigit(s[0]) && (|s| >= 2 ==> IsDigit(s[1]));
    assert TrimLeft(s) == s;
    PrintedRun(s);
    OnlyFigures(s, false);
    ValueOfDigits(n);
  }

  lemma PrintedRun(s: string)
    requires AllDigits(s)
    ensures FigureRun(s, false) == s
  {
    DigitRunIsLongest(s, s);
  }

  /* Scanning written numerals. */

  predicate AllFigures(s: string, hex: bool) {
    if hex then AllHex(s) else AllDigits(s)
  }

  function FigureValue(s: string, hex: bool): nat
    requires AllFigures(s, hex)
  {
    if hex then HexValue(s) else Value(s)
  }

  lemma FiguresConcat(a: string, b: string, hex: bool)
    requires AllFigures(a, hex) && AllFigures(b, hex)
    ensures AllFigures(a + b, hex)
  {
  }

  /** What cannot go on with figures. */
  predicate StopsFigures(rest: string, hex: bool) {
    rest == "" || !(if hex then IsHexDigit(rest[0]) else IsDigit(rest[0]))
  }

  /** `a`, or `a.b`. */
  function Pointed(a: string, b: string, point: bool): string {
    if point then a + "." + b else a
  }

  lemma RunStops(s: string, rest: string, hex: bool)
    requires AllFigures(s, hex) && StopsFigures(rest, hex)
    ensures FigureRun(s + rest, hex) == s
  {
    if hex {
      HexRunStops(s, rest);
    } else {
      DigitRunIsLongest(s + rest, s);
    }
  }

  lemma {:induction false} HexRunStops(s: string, rest: string)
    requires AllHex(s) && (rest == "" || !IsHexDigit(rest[0]))
    ensures FigureRun(s + rest, true) == s
  {
    if s == "" {
      assert s + rest == rest;
    } else {
      HexRunStops(s[1..], rest);
      assert (s + rest)[1..] == s[1..] + rest;
    }
  }

  lemma ScanPointed(a: string, b: string, point: bool, tail: string, hex: bool)
    requires AllFigures(a, hex) && AllFigures(b, hex) && (point || b == "") && AllFigures(a + b, hex)
    requires StopsFigures(tail, hex) && (tail != "" && !point ==> tail[0] != '.')
    ensures ScanFigures(Pointed(a, b, point) + tail, hex) == Figures(FigureValue(a + b, hex), |a + b|, |b|, tail)
  {
    hide FigureRun, FigureValue, ScanFigures, AllFigures;
    if point {
      RunStops(a, "." + b + tail, hex);
      RunStops(b, tail, hex);
      assert Pointed(a, b, point) + tail == a + ("." + b + tail);
      FiguresWithPoint(a, b, tail, hex);
    } else {
      RunStops(a, tail, hex);
      FiguresWithout(a, tail, hex);
      assert a + b == a;
    }
  }

  lemma FiguresWithout(a: string, tail: string, hex: bool)
    requires AllFigures(a, hex) && FigureRun(a + tail, hex) == a && (tail == "" || tail[0] != '.')
    ensures ScanFigures(a + tail, hex) == Figures(FigureValue(a, hex), |a|, 0, tail)
  {
    hide FigureRun, Value, HexValue;
    assert (a + tail)[|a|..] == tail && a + "" == a;
  }

  lemma FiguresWithPoint(a: string, b: string, tail: string, hex: bool)
    requires AllFigures(a + b, hex)
    requires FigureRun(a + ("." + b + tail), hex) == a && FigureRun(b + tail, hex) == b
    ensures ScanFigures(a + ("." + b + tail), hex) == Figures(FigureValue(a + b, hex), |a + b|, |b|, tail)
  {
    hide FigureRun, Value, HexValue;
    var behind := "." + b + tail;
    assert (a + behind)[|a|..] == behind && behind[0] == '.';
    assert behind[1..] == b + tail && behind[1 + |b|..] == tail;
  }

  /** No digits of an exponent follow. */
  predicate NoExponent(rest: string, letter: char) {
    rest == "" || Lower(rest[0]) != letter || DigitRun(Unsigned(rest[1..])) == ""
  }

  function ExponentText(x: int, letter: char): string {
    if x == 0 then "" else if x < 0 then [letter] + ("-" + Digits(-x)) else [letter] + Digits(x)
  }

  lemma ScanExponentText(x: int, letter: char, rest: string)
    requires letter == 'e' || letter == 'p'
    requires rest == "" || !IsDigit(rest[0])
    requires x == 0 ==> NoExponent(rest, letter)
    ensures ScanExponent(ExponentText(x, letter) + rest, letter) == (x, rest)
  {
    hide Digits, DigitRun, ScanExponent, Unsigned;
    if x > 0 {
      assert ExponentText(x, letter) + rest == [letter] + ("" + Digits(x) + rest);
      ScanPower(false, x, letter, rest);
    } else if x < 0 {
      assert ExponentText(x, letter) + rest == [letter] + ("-" + Digits(-x) + rest);
      ScanPower(true, -x, letter, rest);
    } else {
      assert ExponentText(x, letter) + rest == rest;
      NothingScanned(rest, letter);
    }
  }

  lemma NothingScanned(rest: string, letter: char)
    requires NoExponent(rest, letter)
    ensures ScanExponent(rest, letter) == (0, rest)
  {
    hide DigitRun, Unsigned;
  }

  lemma ScanPower(negative: bool, n: nat, letter: char, rest: string)
    requires n > 0 && (letter == 'e' || letter == 'p') && (rest == "" || !IsDigit(rest[0]))
    ensures ScanExponent([letter] + ((if negative then "-" else "") + Digits(n) + rest), letter) ==
              (if negative then -(n as int) else n as int, rest)
  {
    hide Digits, DigitRun, Value;
    var t := (if negative then "-" else "") + Digits(n) + rest;
    assert ([letter] + t)[1..] == t;
    assert Unsigned(t) == Digits(n) + rest by {
      assert negative ==> t[1..] == Digits(n) + rest;
      assert !negative ==> t == Digits(n) + rest;
    }
    assert (Digits(n) + rest)[|Digits(n)|..] == rest;
    DigitRunIsLongest(Digits(n) + rest, Digits(n));
    ValueOfDigits(n);
  }

  /** A decimal numeral, with or without a point and an exponent, is read as it is written. */
  lemma ScanDecimal(a: string, b: string, point: bool, x: int, rest: string)
    requires AllDigits(a) && AllDigits(b) && (point || b == "") && |a| + |b| > 0
    requires rest == "" || (!IsDigit(rest[0]) && rest[0] != '.' && Lower(rest[0]) != 'x')
    requires x == 0 ==> NoExponent(rest, 'e')
    ensures ScanNumeral(Pointed(a, b, point) + ExponentText(x, 'e') + rest) ==
              Numeral(false, Value(a + b), false, x - |b|, rest)
  {
    hide ScanFigures, Value, Digits, ScanExponent, NoExponent, DigitRun;
    var tail := ExponentText(x, 'e') + rest;
    var s := Pointed(a, b, point) + tail;
    assert s == Pointed(a, b, point) + ExponentText(x, 'e') + rest;
    assert tail != "" ==> tail[0] == 'e' || (x == 0 && tail == rest);
    assert s[0] == '.' || IsDigit(s[0]);
    assert TrimLeft(s) == s && Unsigned(s) == s;
    assert !HasHexPrefix(s) by {
      assert |s| >= 2 && |a| >= 2 ==> s[1] == a[1];
    }
    ScanPointed(a, b, point, tail, false);
    ScanExponentText(x, 'e', rest);
  }

  /** So is a hexadecimal one; its exponent is one of two, and a digit behind the point counts for four. */
  lemma ScanHexadecimal(x: char, a: string, b: string, point: bool, e: int, rest: string)
    requires x in "xX" && AllHex(a) && AllHex(b) && (point || b == "") && |a| + |b| > 0
    requires rest == "" || (!IsDigit(rest[0]) && (e == 0 ==> !IsHexDigit(rest[0]) && rest[0] != '.'))
    requires e == 0 ==> NoExponent(rest, 'p')
    ensures AllHex(a + b)
    ensures ScanNumeral("0" + [x] + Pointed(a, b, point) + ExponentText(e, 'p') + rest) ==
              Numeral(false, HexValue(a + b), true, e - 4 * |b|, rest)
  {
    hide *;
    FiguresConcat(a, b, true);
    ScanFiguresOfHex(a, b);
    var tail := ExponentText(e, 'p') + rest;
    TailOfHex(e, rest);
    ScanPointed(a, b, point, tail, true);
    ScanPrefixed(x, Pointed(a, b, point) + tail);
    ScanExponentText(e, 'p', rest);
    assert "0" + [x] + (Pointed(a, b, point) + tail)
        == "0" + [x] + Pointed(a, b, point) + ExponentText(e, 'p') + rest;
  }

  lemma ScanFiguresOfHex(a: string, b: string)
    requires AllHex(a) && AllHex(b)
    ensures AllFigures(a, true) && AllFigures(b, true) && AllHex(a + b)
    ensures FigureValue(a + b, true) == HexValue(a + b)
  {
  }

  lemma TailOfHex(e: int, rest: string)
    requires rest == "" || (!IsDigit(rest[0]) && (e == 0 ==> !IsHexDigit(rest[0]) && rest[0] != '.'))
    ensures var tail := ExponentText(e, 'p') + rest;
            StopsFigures(tail, true) && (tail != "" ==> tail[0] != '.')
  {
    hide Digits;
    if e == 0 { assert ExponentText(e, 'p') + rest == rest; }
  }

  lemma ScanPrefixed(x: char, body: string)
    requires x in "xX" && ScanFigures(body, true).count > 0
    ensures var f := ScanFigures(body, true);
            var (exponent, rest) := ScanExponent(f.rest, 'p');
            ScanNumeral("0" + [x] + body) == Numeral(false, f.value, true, exponent - 4 * f.fraction, rest)
  {
    hide ScanFigures, ScanExponent;
    var s := "0" + [x] + body;
    assert TrimLeft(s) == s && Unsigned(s) == s && s[2..] == body;
  }

  /** Blanks and a sign in front of a number change the sign only. */
  lemma ScanSign(before: string, sign: string, text: string)
    requires AllBlank(before) && sign in {"", "+", "-"} && text != ""
    requires IsDigit(text[0]) || (|text| > 1 && text[0] == '.' && IsDigit(text[1]))
    ensures ScanNumeral(before + (sign + text)) == ScanNumeral(text).(negative := sign == "-")
    ensures !ScanNumeral(text).negative
  {
    hide ScanFigures, ScanExponent;
    var s := sign + text;
    LeftTrimmed(before, s);
    assert TrimLeft(s) == s && TrimLeft(text) == text;
    assert Unsigned(text) == text && Unsigned(s) == text by {
      assert sign != "" ==> s[1..] == text;
      assert sign == "" ==> s == text;
    }
    SomeFigures(text);
  }

  lemma SomeFigures(text: string)
    requires text != ""
    requires IsDigit(text[0]) || (|text| > 1 && text[0] == '.' && IsDigit(text[1]))
    ensures ScanFigures(text, false).count > 0
  {
    hide Value;
  }

  /** Each of the sixteen digits has its value, in either case, and a further one counts sixteen times less. */
  lemma HexDigits(s: string, c: char, k: nat)
    requires AllHex(s) && k < 16
    requires c == "0123456789abcdef"[k] || c == "0123456789ABCDEF"[k]
    ensures AllHex(s + [c]) && HexValue(s + [c]) == 16 * HexValue(s) + k && HexValue("") == 0
  {
    assert (s + [c])[..|s|] == s;
  }

  lemma HexDigitsAre(c: char)
    ensures AllHex([c]) <==> c in "0123456789abcdefABCDEF"
  {
    assert AllHex([c]) <==> IsHexDigit([c][0]);
  }

  /** The power of ten is the numeral of as many zeros behind a one. */
  lemma {:induction false} Pow10IsWritten(zeros: string)
    requires forall i :: 0 <= i < |zeros| ==> zeros[i] == '0'
    ensures AllDigits("1" + zeros) && Value("1" + zeros) == Pow10(|zeros|)
  {
    var s := "1" + zeros;
    if zeros == "" {
      assert s[..0] == "" && Value("1") == 1;
    } else {
      Pow10IsWritten(zeros[..|zeros| - 1]);
      assert s[..|s| - 1] == "1" + zeros[..|zeros| - 1];
    }
  }
}
