/** Decimal digit strings: printing, reading, zero-padding and string order.
    Shared by document numbers, IBAN check digits and money. */
module Digits {

  predicate IsDigit(c: char) {
    '0' <= c <= '9'
  }

  /** ASCII white space, as `str.strip` and the pattern \s read it. */
  predicate IsSpace(c: char) {
    9 <= c as int <= 13 || 28 <= c as int <= 32
  }

  predicate AllDigits(s: string) {
    forall i :: 0 <= i < |s| ==> IsDigit(s[i])
  }

  /** The value of a digit; anything else counts as nothing. */
  function DigitValue(c: char): (d: nat)
    ensures d < 10
  {
    if IsDigit(c) then c as int - '0' as int else 0
  }

  function DigitChar(d: nat): (c: char)
    requires d < 10
    ensures IsDigit(c) && DigitValue(c) == d
  {
    ('0' as int + d) as char
  }

  function Pow10(n: nat): (p: nat)
    ensures p > 0
  {
    if n == 0 then 1 else 10 * Pow10(n - 1)
  }

  /** The number a digit string spells, most significant digit first. */
  function Val(s: string): nat {
    if s == [] then 0 else Val(s[..|s| - 1]) * 10 + DigitValue(s[|s| - 1])
  }

  /** `int(s)`, which raises on anything but digits. */
  function Int(s: string): nat
    requires s != [] && AllDigits(s)
  {
    Val(s)
  }

  /** `str(n)` for a non-negative integer. */
  function Str(n: nat): (s: string)
    ensures |s| > 0
  {
    if n < 10 then [DigitChar(n)] else Str(n / 10) + [DigitChar(n % 10)]
  }

  function Zeros(n: nat): (s: string)
    ensures |s| == n && AllDigits(s)
    ensures forall i :: 0 <= i < n ==> s[i] == '0'
  {
    seq(n, _ => '0')
  }

  /** `str.zfill`: the width is a minimum, never a maximum. */
  function Zfill(s: string, width: nat): string {
    if |s| >= width then s else Zeros(width - |s|) + s
  }

  function Padded(n: nat, width: nat): string {
    Zfill(Str(n), width)
  }

  /** A number moved `k` places to the left. */
  function Shift(n: int, k: nat): int
    decreases k
  {
    if k == 0 then n else 10 * Shift(n, k - 1)
  }

  // ----- Powers of ten and shifts

  lemma {:induction false} Pow10Add(a: nat, b: nat)
    ensures Pow10(a + b) == Pow10(a) * Pow10(b)
  {
    if a > 0 {
      Pow10Add(a - 1, b);
      assert Pow10(a + b) == 10 * Pow10(a - 1 + b);
    }
  }

  lemma {:induction false} Pow10Monotone(a: nat, b: nat)
    requires a <= b
    ensures Pow10(a) <= Pow10(b)
  {
    if a < b {
      Pow10Monotone(a, b - 1);
    }
  }

  lemma {:induction false} ShiftSum(x: int, y: int, k: nat)
    ensures Shift(x + y, k) == Shift(x, k) + Shift(y, k)
  {
    if k > 0 {
      ShiftSum(x, y, k - 1);
    }
  }

  lemma {:induction false} ShiftTwice(n: int, a: nat, b: nat)
    ensures Shift(Shift(n, a), b) == Shift(n, a + b)
  {
    if b > 0 {
      ShiftTwice(n, a, b - 1);
    }
  }

  lemma {:induction false} ShiftMonotone(x: int, y: int, k: nat)
    requires x <= y
    ensures Shift(x, k) <= Shift(y, k)
  {
    if k > 0 {
      ShiftMonotone(x, y, k - 1);
    }
  }

  lemma {:induction false} ShiftIsTimes(n: int, k: nat)
    ensures Shift(n, k) == n * Pow10(k)
  {
    if k > 0 {
      ShiftIsTimes(n, k - 1);
      assert n * (10 * Pow10(k - 1)) == 10 * (n * Pow10(k - 1));
    }
  }

  lemma {:induction false} ShiftUnit(k: nat)
    ensures Shift(1, k) == Pow10(k)
  {
    if k > 0 {
      ShiftUnit(k - 1);
    }
  }

  // ----- Reading back what was printed

  lemma {:induction false} ValConcat(a: string, b: string)
    ensures Val(a + b) == Shift(Val(a), |b|) + Val(b)
  {
    if b == [] {
      assert a + b == a;
    } else {
      var init := b[..|b| - 1];
      ValConcat(a, init);
      assert (a + b)[..|a + b| - 1] == a + init;
    }
  }

  lemma {:induction false} ValBound(s: string)
    ensures Val(s) < Pow10(|s|)
  {
    if s != [] {
      ValBound(s[..|s| - 1]);
    }
  }

  lemma {:induction false} ShiftZero(k: nat)
    ensures Shift(0, k) == 0
  {
    if k > 0 {
      ShiftZero(k - 1);
    }
  }

  lemma {:induction false} ValZeros(n: nat)
    ensures Val(Zeros(n)) == 0
  {
    if n > 0 {
      assert Zeros(n)[..n - 1] == Zeros(n - 1);
      ValZeros(n - 1);
    }
  }

  lemma {:induction false} ValStr(n: nat)
    ensures AllDigits(Str(n)) && Val(Str(n)) == n
  {
    if n < 10 {
      assert Str(n)[..0] == [];
    } else {
      ValStr(n / 10);
      assert Str(n)[..|Str(n)| - 1] == Str(n / 10);
    }
  }

  lemma ValPadded(n: nat, width: nat)
    ensures AllDigits(Padded(n, width)) && Val(Padded(n, width)) == n
    ensures |Padded(n, width)| >= width && |Padded(n, width)| > 0
  {
    ValStr(n);
    if |Str(n)| < width {
      ValZeros(width - |Str(n)|);
      ValConcat(Zeros(width - |Str(n)|), Str(n));
      ShiftZero(|Str(n)|);
    }
  }

  /** A number fits a width exactly when it is below that power of ten. */
  lemma {:induction false} StrFits(n: nat, width: nat)
    requires width > 0
    ensures |Str(n)| <= width <==> n < Pow10(width)
  {
    if n < 10 {
      Pow10Monotone(1, width);
      assert Pow10(1) == 10;
    } else if width == 1 {
      assert Pow10(1) == 10;
    } else {
      StrFits(n / 10, width - 1);
      assert Pow10(width) == 10 * Pow10(width - 1);
    }
  }

  lemma PaddedWidth(n: nat, width: nat)
    requires width > 0 && n < Pow10(width)
    ensures |Padded(n, width)| == width
  {
    StrFits(n, width);
  }

  lemma {:induction false} StrFront(n: nat)
    ensures Str(n)[0] == '0' ==> Str(n) == "0"
    ensures n > 0 ==> Str(n)[0] != '0'
  {
    if n >= 10 {
      StrFront(n / 10);
    }
  }

  /** Zeros stand in front only to reach the width. */
  lemma PaddedFront(n: nat, width: nat)
    ensures Padded(n, width)[0] == '0' ==> |Padded(n, width)| <= width || Padded(n, width) == "0"
  {
    StrFront(n);
  }

  /** Without leading zeros the shorter number is the smaller one. */
  lemma ShorterIsLess(a: string, b: string)
    requires AllDigits(a) && AllDigits(b) && a != [] && |a| < |b| && b[0] != '0'
    ensures Val(a) < Val(b)
  {
    ValBound(a);
    Pow10Monotone(|a|, |b| - 1);
    ValHead(b);
    ShiftMonotone(1, DigitValue(b[0]), |b| - 1);
    ShiftUnit(|b| - 1);
  }

  // ----- String order

  /** Python's `<` on strings: the first differing character decides. */
  predicate StrLess(a: string, b: string)
    decreases |a|
  {
    if b == [] then false
    else if a == [] then true
    else if a[0] != b[0] then a[0] < b[0]
    else StrLess(a[1..], b[1..])
  }

  lemma {:induction false} ValHead(s: string)
    requires s != []
    ensures Val(s) == Shift(DigitValue(s[0]), |s| - 1) + Val(s[1..])
  {
    assert s == s[..1] + s[1..];
    ValConcat(s[..1], s[1..]);
    assert s[..1][..0] == [];
  }

  lemma LeadingDigitDecides(x: nat, y: nat, k: nat, u: nat, v: nat)
    requires x < y && u < Pow10(k)
    ensures Shift(x, k) + u < Shift(y, k) + v
  {
    ShiftSum(x, 1, k);
    ShiftUnit(k);
    ShiftMonotone(x + 1, y, k);
  }

  /** On digit strings of one length, string order is numeric order. */
  lemma {:induction false} StrLessIsNumeric(a: string, b: string)
    requires AllDigits(a) && AllDigits(b) && |a| == |b|
    ensures StrLess(a, b) <==> Val(a) < Val(b)
    ensures a == b <==> Val(a) == Val(b)
    decreases |a|
  {
    if a != [] {
      ValHead(a);
      ValHead(b);
      ValBound(a[1..]);
      ValBound(b[1..]);
      var x, y := DigitValue(a[0]), DigitValue(b[0]);
      if x < y {
        LeadingDigitDecides(x, y, |a| - 1, Val(a[1..]), Val(b[1..]));
      } else if y < x {
        LeadingDigitDecides(y, x, |a| - 1, Val(b[1..]), Val(a[1..]));
      } else {
        assert a[0] == b[0];
        StrLessIsNumeric(a[1..], b[1..]);
        assert a == [a[0]] + a[1..] && b == [b[0]] + b[1..];
      }
    }
  }
}
