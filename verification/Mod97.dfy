/** The arithmetic behind MOD 97-10: 97 is prime and 10 generates its units. */
module Mod97 {
  import opened Digits

  predicate Divisible(n: int) {
    n % 97 == 0
  }

  lemma MultipleIsDivisible(n: int, q: int)
    requires n == 97 * q
    ensures Divisible(n)
  {
  }

  /** Ten is invertible modulo 97: 10 * 68 == 7 * 97 + 1. */
  lemma CancelTen(y: int)
    ensures Divisible(10 * y) <==> Divisible(y)
  {
    if Divisible(10 * y) {
      MultipleIsDivisible(y, 68 * (10 * y / 97) - 7 * y);
    }
    if Divisible(y) {
      MultipleIsDivisible(10 * y, 10 * (y / 97));
    }
  }

  lemma {:induction false} CancelShift(x: int, k: nat)
    ensures Divisible(Shift(x, k)) <==> Divisible(x)
  {
    if k > 0 {
      CancelShift(x, k - 1);
      CancelTen(Shift(x, k - 1));
    }
  }

  lemma EqualRemainders(x: int, y: int)
    ensures x % 97 == y % 97 <==> Divisible(x - y)
  {
  }

  lemma RemainderDiffers(n: int)
    ensures Divisible(n - n % 97)
  {
    MultipleIsDivisible(n - n % 97, n / 97);
  }

  /** A remainder may stand for its number under a shift and an addition. */
  lemma ShiftedRemainder(n: int, k: nat, v: int)
    ensures (Shift(n % 97, k) + v) % 97 == (Shift(n, k) + v) % 97
  {
    RemainderDiffers(n);
    ShiftSum(n % 97, n - n % 97, k);
    CancelShift(n - n % 97, k);
    EqualRemainders(Shift(n, k) + v, Shift(n % 97, k) + v);
  }

  lemma DivisibleRemainder(c: int, r: int)
    requires 0 < c && Divisible(c * r)
    ensures Divisible(97 % c * r)
  {
    var q, k := 97 / c, c * r / 97;
    assert 97 % c * r == 97 * r - q * (c * r) by {
      assert 97 % c == 97 - q * c;
      assert (97 - q * c) * r == 97 * r - q * c * r;
    }
    assert q * (c * r) == 97 * (q * k);
    MultipleIsDivisible(97 % c * r, r - q * k);
  }

  lemma NegativeProduct(e: int, r: int)
    ensures Divisible(-e * r) <==> Divisible(e * r)
  {
    assert -e * r == -(e * r);
    if Divisible(e * r) { MultipleIsDivisible(-(e * r), -(e * r / 97)); }
    if Divisible(-(e * r)) { MultipleIsDivisible(e * r, -(-(e * r) / 97)); }
  }

  /** Euclid's lemma for 97, by descent along the remainders of 97. */
  lemma {:induction false} NoZeroDivisors(c: int, r: int)
    requires 0 < c < 97 && !Divisible(r)
    ensures !Divisible(c * r)
    decreases c
  {
    if c > 1 {
      assert 97 % c != 0;
      NoZeroDivisors(97 % c, r);
      if Divisible(c * r) {
        DivisibleRemainder(c, r);
      }
    }
  }

  // ----- 10 is a primitive root: no power of ten below the 96th is 1

  lemma RemainderOf(n: int, q: int, r: int)
    requires n == 97 * q + r && 0 <= r < 97
    ensures n % 97 == r
  {
  }

  lemma PowerProduct(a: nat, b: nat, r: nat, s: nat)
    requires Pow10(a) % 97 == r && Pow10(b) % 97 == s
    ensures Pow10(a + b) % 97 == r * s % 97
  {
    Pow10Add(a, b);
    FactorRemainder(Pow10(a), r, Pow10(b), Pow10(a) * Pow10(b), r * Pow10(b));
    FactorRemainder(Pow10(b), s, r, r * Pow10(b), r * s);
  }

  /** A factor may be replaced by its remainder. */
  lemma FactorRemainder(m: nat, r: nat, n: nat, product: nat, reduced: nat)
    requires m % 97 == r && product == m * n && reduced == r * n
    ensures product % 97 == reduced % 97
  {
    var x := m / 97;
    TimesSum(x, r, n);
    RemainderOf(product, x * n + reduced / 97, reduced % 97);
  }

  lemma TimesSum(x: nat, r: nat, n: nat)
    ensures (97 * x + r) * n == 97 * (x * n) + r * n
  {
  }

  lemma Square(a: nat, r: nat) returns (b: nat)
    requires Pow10(a) % 97 == r
    ensures b == 2 * a && Pow10(b) % 97 == r * r % 97
  {
    PowerProduct(a, a, r, r);
    b := a + a;
  }

  /** 10^32, 10^48 and 10^96 modulo 97, by repeated squaring. The sixteen is
      kept symbolic, so that the verifier does not expand the powers. */
  lemma Landmarks() returns (h: nat)
    ensures IsSixteen(h)
    ensures Pow10(2 * h) % 97 == 61 && Pow10(3 * h) % 97 == 96 && Pow10(6 * h) % 97 == 1
  {
    assert Pow10(1) == 10;
    var p2 := Square(1, 10);
    var p4 := Square(p2, 3);
    var p8 := Square(p4, 9);
    h := Square(p8, 81);
    LandmarksFrom(h);
  }

  predicate IsSixteen(h: nat) {
    15 < h < 17
  }

  lemma LandmarksFrom(h: nat)
    requires Pow10(h) % 97 == 62
    ensures Pow10(2 * h) % 97 == 61 && Pow10(3 * h) % 97 == 96 && Pow10(6 * h) % 97 == 1
  {
    PowerProduct(h, h, 62, 62);
    PowerProduct(2 * h, h, 61, 62);
    PowerProduct(3 * h, 3 * h, 96, 96);
  }

  predicate IsPeriod(d: nat) {
    Pow10(d) % 97 == 1
  }

  lemma PeriodDifference(a: nat, b: nat)
    requires b <= a && IsPeriod(a) && IsPeriod(b)
    ensures IsPeriod(a - b)
  {
    var r := Pow10(a - b) % 97;
    PowerProduct(a - b, b, r, 1);
  }

  lemma {:induction false} PeriodMultiple(g: nat, k: nat)
    requires IsPeriod(g)
    ensures IsPeriod(g * k)
  {
    if k == 0 {
      assert g * k == 0;
    } else {
      var m := g * (k - 1);
      assert g * k == m + g;
      PeriodMultiple(g, k - 1);
      PowerProduct(m, g, 1, 1);
    }
  }

  /** Periods are closed under greatest common divisor. */
  lemma {:induction false} CommonPeriod(a: nat, b: nat) returns (g: nat, x: nat, y: nat)
    requires a > 0 && b > 0 && IsPeriod(a) && IsPeriod(b)
    ensures 0 < g <= a && IsPeriod(g) && a == g * x && b == g * y
    decreases a + b
  {
    if a == b {
      g, x, y := a, 1, 1;
    } else if a > b {
      PeriodDifference(a, b);
      g, x, y := CommonPeriod(a - b, b);
      assert g * (x + y) == g * x + g * y;
      x := x + y;
    } else {
      PeriodDifference(b, a);
      g, x, y := CommonPeriod(a, b - a);
      assert g * (x + y) == g * x + g * y;
      y := x + y;
    }
  }

  /** A proper divisor of 96 divides 48 or 32. */
  lemma ProperDivisorOf96(g: nat, y: nat, h: nat) returns (k: nat)
    requires IsSixteen(h) && g * y == 6 * h && g < 6 * h
    ensures g * k == 3 * h || g * k == 2 * h
  {
    assert y == 1 ==> g * y == g;
    if y % 2 == 0 {
      k := y / 2;
      assert g * y == 2 * (g * k);
    } else {
      OddDivisorOf96(g, y);
      k := 1;
      assert g * y == 3 * g;
    }
  }

  lemma OddDivisorOf96(g: nat, y: nat)
    requires g * y == 96 && y % 2 != 0
    ensures y == 1 || y == 3
  {
    var g1 := Halve(g, y);
    var g2 := Halve(g1, y);
    var g3 := Halve(g2, y);
    var g4 := Halve(g3, y);
    var g5 := Halve(g4, y);
    FactorsOf3(g5, y);
  }

  lemma FactorsOf3(l: nat, y: nat)
    requires l * y == 3
    ensures y == 1 || y == 3
  {
    assert l == 0 || l * y >= y;
    assert y == 2 ==> l * y == 2 * l;
  }

  lemma Halve(g: nat, y: nat) returns (h: nat)
    requires g * y % 2 == 0 && y % 2 != 0
    ensures g == 2 * h && 2 * (h * y) == g * y
  {
    h := g / 2;
    var r := g % 2;
    assert g * y == 2 * (h * y) + r * y by { assert (2 * h + r) * y == 2 * (h * y) + r * y; }
    assert r == 1 ==> g * y == 2 * (h * y) + y;
  }

  lemma NoPeriodBelow96(d: nat, h: nat)
    requires IsSixteen(h) && 0 < d < 6 * h
    requires IsPeriod(6 * h) && !IsPeriod(3 * h) && !IsPeriod(2 * h)
    ensures !IsPeriod(d)
  {
    if IsPeriod(d) {
      var g, x, y := CommonPeriod(d, 6 * h);
      var k := ProperDivisorOf96(g, y, h);
      PeriodMultiple(g, k);
    }
  }

  /** 97 does not divide 10^d - 1 for any distance below 96. */
  lemma NoShortPeriod(d: nat)
    requires 1 <= d <= 95
    ensures !Divisible(Pow10(d) - 1)
  {
    var h := Landmarks();
    NoPeriodBelow96(d, h);
    PredecessorOfDivisible(Pow10(d));
  }

  lemma PredecessorOfDivisible(n: int)
    ensures Divisible(n - 1) <==> n % 97 == 1
  {
  }

  lemma UnitProduct(e: int, r: int)
    requires -97 < e < 97 && e != 0 && !Divisible(r)
    ensures !Divisible(e * r)
  {
    if e > 0 {
      NoZeroDivisors(e, r);
    } else {
      NoZeroDivisors(-e, r);
      NegativeProduct(e, r);
    }
  }

  lemma LessOnce(e: int, p: int)
    ensures e * p - e == e * (p - 1)
  {
  }

  /** Moving a unit by fewer than 96 places always changes its remainder. */
  lemma ShiftMovesUnits(e: int, d: nat)
    requires -97 < e < 97 && e != 0 && 1 <= d <= 95
    ensures !Divisible(Shift(e, d) - e)
  {
    NoShortPeriod(d);
    UnitProduct(e, Pow10(d) - 1);
    ShiftIsTimes(e, d);
    LessOnce(e, Pow10(d));
  }
}
