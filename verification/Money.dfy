/** Money and quantities: the two rounding functions, and the decimal strings
    on the wire (apps/api/core/money.py). */
module Money {
  import opened Ascii
  import opened Digits
  import opened Wrappers
  import Patterns

  /** A finite `Decimal`: sign, coefficient and exponent. Its value is the
      coefficient times ten to the exponent. */
  datatype Dec = Dec(neg: bool, coef: nat, exp: int)

  /** Two and four decimal places. */
  const AMOUNT_EXPONENT := -2
  const QTY_EXPONENT := -4

  /** The digits a coefficient may have in the module's own context. */
  const PRECISION: nat := 34

  // ----- Rounding

  /** `n / d`, a half going up. */
  function HalfUp(n: nat, d: nat): nat
    requires d > 0
  {
    if 2 * (n % d) >= d then n / d + 1 else n / d
  }

  /** The coefficient of `v` at the exponent `target`. */
  function Rounded(v: Dec, target: int): nat {
    if v.exp >= target then Moved(v.coef, v.exp - target)
    else HalfUp(v.coef, Pow10(target - v.exp))
  }

  /** A coefficient written with `k` more places. */
  function Moved(n: nat, k: nat): (m: nat)
    ensures m == Shift(n, k)
  {
    ShiftZero(k);
    ShiftMonotone(0, n, k);
    Shift(n, k)
  }

  /** `Decimal.quantize` with ROUND_HALF_UP: None is InvalidOperation, raised
      when the rounded coefficient has more digits than the context allows. */
  function Quantize(v: Dec, target: int): Option<Dec> {
    if |Str(Rounded(v, target))| <= PRECISION then Some(Dec(v.neg, Rounded(v, target), target)) else None
  }

  function QuantizeAmount(v: Dec): Option<Dec> {
    Quantize(v, AMOUNT_EXPONENT)
  }

  function QuantizeQty(v: Dec): Option<Dec> {
    Quantize(v, QTY_EXPONENT)
  }

  function Abs(n: int): nat {
    if n < 0 then -n else n
  }

  /** `at` is a closest multiple to `n`, and the larger one on a tie. */
  predicate NearestAway(n: nat, at: nat, unit: nat) {
    2 * Abs(n - at) <= unit && (2 * Abs(n - at) == unit ==> at > n)
  }

  lemma DivMod(n: nat, d: nat, q: nat)
    requires d > 0 && q == n / d
    ensures n == q * d + n % d
  {
  }

  lemma Distributes(a: int, b: int, d: int)
    ensures (a + b) * d == a * d + b * d
  {
  }

  lemma NonNegative(a: nat, d: nat)
    ensures a * d >= 0
  {
  }

  lemma TimesGap(a: int, b: int, d: nat)
    requires a >= b + 2
    ensures a * d >= b * d + 2 * d
  {
    NonNegative(a - b - 2, d);
    Distributes(b + 2, a - b - 2, d);
    Distributes(b, 2, d);
  }

  lemma TimesNext(a: int, d: nat)
    ensures (a + 1) * d == a * d + d
  {
  }

  /** Half-up rounding is the one nearest multiple with ties away from zero. */
  lemma HalfUpIsNearest(n: nat, d: nat, c: nat)
    requires d > 0
    ensures c == HalfUp(n, d) <==> NearestAway(n, c * d, d)
  {
    var q := n / d;
    DivMod(n, d, q);
    TimesNext(q, d);
    if c > q + 1 {
      TimesGap(c, q, d);
    } else if c < q {
      if c + 2 <= q { TimesGap(q, c, d); } else { TimesNext(c, d); }
    }
  }

  lemma {:induction false} ScaledNearest(n: nat, at: nat, unit: nat, j: nat)
    ensures NearestAway(n, at, unit) <==> NearestAway(Moved(n, j), Moved(at, j), Moved(unit, j))
  {
    if j > 0 {
      ScaledNearest(n, at, unit, j - 1);
    }
  }

  /** At any finer scale, the rounded coefficient is the half-up quotient. */
  lemma RoundedAt(v: Dec, target: int, e: int)
    requires e <= v.exp && e <= target
    ensures Rounded(v, target) == HalfUp(Moved(v.coef, v.exp - e), Pow10(target - e))
  {
    var c := Rounded(v, target);
    var k := target - e;
    ShiftUnit(k);
    if v.exp >= target {
      ScaledNearest(c, c, 1, k);
      ShiftTwice(v.coef, v.exp - target, k);
    } else {
      var j, m := v.exp - e, target - v.exp;
      ShiftUnit(m);
      ShiftIsTimes(c, m);
      HalfUpIsNearest(v.coef, Pow10(m), c);
      ScaledNearest(v.coef, Moved(c, m), Moved(1, m), j);
      ShiftTwice(c, m, j);
      ShiftTwice(1, m, j);
    }
    ShiftIsTimes(c, k);
    HalfUpIsNearest(Moved(v.coef, v.exp - e), Pow10(k), c);
  }

  /** No other coefficient is a nearest one, at any scale fine enough for both. */
  lemma CoefficientIsNearest(v: Dec, target: int, e: int, c: nat)
    requires e <= v.exp && e <= target
    ensures c == Rounded(v, target)
       <==> NearestAway(Moved(v.coef, v.exp - e), Moved(c, target - e), Moved(1, target - e))
  {
    RoundedAt(v, target, e);
    var k := target - e;
    ShiftUnit(k);
    ShiftIsTimes(c, k);
    HalfUpIsNearest(Moved(v.coef, v.exp - e), Pow10(k), c);
  }

  /** Both quantizers round to nearest with ties away from zero: a decimal is the
      result exactly when it has the sign and the target's scale, fits the
      context, and is the nearest one, the larger on a tie. */
  lemma RoundsToNearest(v: Dec, target: int, e: int, w: Dec)
    requires e <= v.exp && e <= target
    ensures Quantize(v, target) == Some(w)
       <==> && w.neg == v.neg && w.exp == target && |Str(w.coef)| <= PRECISION
            && NearestAway(Moved(v.coef, v.exp - e), Moved(w.coef, target - e), Moved(1, target - e))
  {
    CoefficientIsNearest(v, target, e, w.coef);
  }

  /** 0.005 becomes 0.01 every time, whatever the digit before it; and so for
      the fourth place of a quantity. */
  lemma HalvesGoUp(neg: bool, n: nat)
    requires |Str(n + 1)| <= PRECISION
    ensures QuantizeAmount(Dec(neg, 10 * n + 5, -3)) == Some(Dec(neg, n + 1, -2))
    ensures QuantizeQty(Dec(neg, 10 * n + 5, -5)) == Some(Dec(neg, n + 1, -4))
  {
    assert Pow10(1) == 10;
    assert (10 * n + 5) / 10 == n && (10 * n + 5) % 10 == 5;
  }

  function Sign(neg: bool, n: int): int {
    if neg then -n else n
  }

  /** The signed value in units of ten to the `e`. */
  function Units(v: Dec, e: int): int
    requires e <= v.exp
  {
    Shift(Sign(v.neg, v.coef), v.exp - e)
  }

  function Negate(v: Dec): Dec {
    v.(neg := !v.neg)
  }

  lemma HalfUpMonotone(n: nat, m: nat, d: nat)
    requires d > 0 && n <= m
    ensures HalfUp(n, d) <= HalfUp(m, d)
  {
    var q, r := n / d, m / d;
    DivMod(n, d, q);
    DivMod(m, d, r);
    if q > r {
      TimesNext(r, d);
      if q > r + 1 { TimesGap(q, r, d); }
    }
  }

  lemma {:induction false} ShiftNegative(n: int, k: nat)
    ensures Shift(-n, k) == -Shift(n, k)
  {
    if k > 0 {
      ShiftNegative(n, k - 1);
    }
  }

  /** The sign and the size of a value in units. */
  lemma UnitsSize(v: Dec, e: int)
    requires e <= v.exp
    ensures Units(v, e) == Sign(v.neg, Moved(v.coef, v.exp - e))
  {
    ShiftNegative(v.coef, v.exp - e);
  }

  /** The rounded size of a value, in units of ten to the `e`. */
  function RoundedSize(v: Dec, target: int, e: int): nat
    requires e <= target
  {
    Moved(Rounded(v, target), target - e)
  }

  lemma RoundedSizeMonotone(v: Dec, w: Dec, target: int, e: int)
    requires e <= v.exp && e <= w.exp && e <= target && Moved(v.coef, v.exp - e) <= Moved(w.coef, w.exp - e)
    ensures RoundedSize(v, target, e) <= RoundedSize(w, target, e)
  {
    RoundedAt(v, target, e);
    RoundedAt(w, target, e);
    HalfUpMonotone(Moved(v.coef, v.exp - e), Moved(w.coef, w.exp - e), Pow10(target - e));
    ShiftMonotone(Rounded(v, target), Rounded(w, target), target - e);
  }

  lemma ZeroRoundsToZero(v: Dec, target: int, e: int)
    requires e <= v.exp && e <= target && Moved(v.coef, v.exp - e) == 0
    ensures RoundedSize(v, target, e) == 0
  {
    RoundedAt(v, target, e);
    ShiftZero(target - e);
  }

  /** Rounding keeps the order of values, whatever their scales. */
  lemma QuantizeIsMonotone(v: Dec, w: Dec, target: int, e: int)
    requires e <= v.exp && e <= w.exp && e <= target && Units(v, e) <= Units(w, e)
    requires Quantize(v, target).Some? && Quantize(w, target).Some?
    ensures Units(Quantize(v, target).value, e) <= Units(Quantize(w, target).value, e)
  {
    var a, b := Moved(v.coef, v.exp - e), Moved(w.coef, w.exp - e);
    UnitsSize(v, e);
    UnitsSize(w, e);
    UnitsSize(Quantize(v, target).value, e);
    UnitsSize(Quantize(w, target).value, e);
    if a <= b { RoundedSizeMonotone(v, w, target, e); }
    if b <= a { RoundedSizeMonotone(w, v, target, e); }
    if a == 0 { ZeroRoundsToZero(v, target, e); }
    if b == 0 { ZeroRoundsToZero(w, target, e); }
    SignedOrder(v.neg, a, RoundedSize(v, target, e), w.neg, b, RoundedSize(w, target, e));
  }

  lemma SignedOrder(vn: bool, a: nat, x: nat, wn: bool, b: nat, y: nat)
    requires Sign(vn, a) <= Sign(wn, b)
    requires (a <= b ==> x <= y) && (b <= a ==> y <= x) && (a == 0 ==> x == 0) && (b == 0 ==> y == 0)
    ensures Sign(vn, x) <= Sign(wn, y)
  {
  }

  /** Rounding again changes nothing, and rounding treats both signs alike. */
  lemma QuantizeIsStable(v: Dec, target: int)
    ensures Quantize(Negate(v), target) == match Quantize(v, target) case None => None case Some(r) => Some(Negate(r))
    ensures Quantize(v, target).Some? ==> Quantize(Quantize(v, target).value, target) == Quantize(v, target)
    ensures v.exp == target && |Str(v.coef)| <= PRECISION ==> Quantize(v, target) == Some(v)
  {
  }

  /** The bound is on the value: rounding is refused exactly when the value is
      within half a unit of ten to the 34th units of the last place, or above. */
  lemma RefusedExactly(v: Dec, target: int, e: int, digits: nat, limit: nat)
    requires e <= v.exp && e <= target && digits == 34 && limit == Pow10(digits)
    ensures Quantize(v, target).None?
       <==> 2 * Moved(v.coef, v.exp - e) + Moved(1, target - e) >= 2 * Moved(limit, target - e)
  {
    var c, k := Rounded(v, target), target - e;
    CoefficientIsNearest(v, target, e, c);
    StrFits(c, digits);
    if c >= limit {
      ShiftMonotone(limit, c, k);
    } else {
      ShiftMonotone(c + 1, limit, k);
      ShiftSum(c, 1, k);
    }
  }

  // ----- Sums of rounded amounts

  function SumUnits(vs: seq<Dec>, e: int): int
    requires forall v :: v in vs ==> e <= v.exp
  {
    if vs == [] then 0 else SumUnits(vs[..|vs| - 1], e) + Units(vs[|vs| - 1], e)
  }

  /** The rounded amounts added up, in units of the last place. */
  function SumRounded(vs: seq<Dec>, target: int): int {
    if vs == [] then 0
    else
      var v := vs[|vs| - 1];
      SumRounded(vs[..|vs| - 1], target) + Sign(v.neg, Rounded(v, target))
  }

  /** One rounding is off by at most half a unit of the last place. */
  lemma RoundingError(v: Dec, target: int, e: int, r: int, unit: nat)
    requires e <= v.exp && e <= target && unit == Pow10(target - e)
    requires r == Sign(v.neg, Rounded(v, target))
    ensures 2 * Abs(r * unit - Units(v, e)) <= unit
  {
    var c := Rounded(v, target);
    RoundedAt(v, target, e);
    HalfUpIsNearest(Moved(v.coef, v.exp - e), unit, c);
    UnitsSize(v, e);
    NegativeTimes(c, unit);
  }

  lemma NegativeTimes(c: int, unit: int)
    ensures (-c) * unit == -(c * unit)
  {
  }

  lemma {:induction false} SumError(vs: seq<Dec>, target: int, e: int, unit: nat)
    requires forall v :: v in vs ==> e <= v.exp
    requires e <= target && unit == Pow10(target - e)
    ensures 2 * Abs(SumRounded(vs, target) * unit - SumUnits(vs, e)) <= |vs| * unit
  {
    if vs != [] {
      var init, v := vs[..|vs| - 1], vs[|vs| - 1];
      SumError(init, target, e, unit);
      var r := Sign(v.neg, Rounded(v, target));
      RoundingError(v, target, e, r, unit);
      OneMoreTerm(SumRounded(init, target), r, |init|, unit);
    }
  }

  lemma OneMoreTerm(s: int, r: int, n: nat, unit: nat)
    ensures (s + r) * unit == s * unit + r * unit
    ensures (n + 1) * unit == n * unit + unit
  {
  }

  /** Rounding each of n amounts and adding differs from rounding their sum by
      at most (n + 1) / 2 units of the last place. */
  lemma SumOfRoundedAmounts(vs: seq<Dec>, total: Dec, target: int, e: int)
    requires forall v :: v in vs ==> e <= v.exp
    requires e <= total.exp && e <= target && Units(total, e) == SumUnits(vs, e)
    ensures 2 * Abs(SumRounded(vs, target) - Sign(total.neg, Rounded(total, target))) <= |vs| + 1
  {
    var unit := Pow10(target - e);
    var r := Sign(total.neg, Rounded(total, target));
    SumError(vs, target, e, unit);
    RoundingError(total, target, e, r, unit);
    CancelUnit(SumRounded(vs, target), r, SumUnits(vs, e), |vs|, unit,
               SumRounded(vs, target) * unit, r * unit, |vs| * unit);
  }

  lemma CancelUnit(s: int, r: int, n: int, count: nat, unit: nat, su: int, ru: int, cu: int)
    requires unit > 0 && su == s * unit && ru == r * unit && cu == count * unit
    requires 2 * Abs(su - n) <= cu && 2 * Abs(ru - n) <= unit
    ensures 2 * Abs(s - r) <= count + 1
  {
    TimesNext(count, unit);
    AtMost(s, r, count + 1, unit, su, ru, cu + unit);
    AtMost(r, s, count + 1, unit, ru, su, cu + unit);
  }

  lemma AtMost(s: int, r: int, k: int, unit: nat, su: int, ru: int, ku: int)
    requires unit > 0 && su == s * unit && ru == r * unit && ku == k * unit
    requires 2 * su <= 2 * ru + ku
    ensures 2 * s <= 2 * r + k
  {
    var gap := 2 * s - 2 * r - k;
    assert gap * unit == 2 * su - 2 * ru - ku by {
      Distributes(s, s, unit);
      Distributes(r, r, unit);
      Distributes(gap, k, unit);
      Distributes(gap + k, 2 * r, unit);
    }
    if gap > 0 {
      NonNegative(gap - 1, unit);
      Distributes(gap - 1, 1, unit);
    }
  }

  // ----- On the wire

  /** `format(value, "f")`. */
  function Serialise(v: Dec): string {
    var body := Positional(Str(v.coef), v.coef == 0, v.exp);
    if v.neg then "-" + body else body
  }

  function Positional(digits: string, zero: bool, exp: int): string {
    if exp >= 0 then (if zero then "0" else digits + Zeros(exp))
    else
      var point := |digits| + exp;
      if point <= 0 then "0" + "." + (Zeros(-point) + digits) else digits[..point] + "." + digits[point..]
  }

  datatype Parsed = Finite(value: Dec) | NotFinite

  /** How many leading characters are digits. */
  function DigitRun(s: string): (n: nat)
    ensures n <= |s|
  {
    if s == [] || !IsDigit(s[0]) then 0 else 1 + DigitRun(s[1..])
  }

  function SignedBody(s: string): (bool, string) {
    if s != [] && (s[0] == '-' || s[0] == '+') then (s[0] == '-', s[1..]) else (false, s)
  }

  /** The exponent a number ends in; none is 0. */
  function ParseExponent(s: string): Option<int> {
    if s == [] then Some(0)
    else if s[0] != 'e' && s[0] != 'E' then None
    else
      var (neg, digits) := SignedBody(s[1..]);
      if digits != [] && AllDigits(digits) then Some(Sign(neg, Val(digits))) else None
  }

  predicate NamesNoNumber(body: string) {
    var b := Lower(body);
    || b == "inf" || b == "infinity"
    || (|b| >= 3 && b[..3] == "nan" && AllDigits(b[3..]))
    || (|b| >= 4 && b[..4] == "snan" && AllDigits(b[4..]))
  }

  /** The `Decimal` constructor on text. */
  function ParseNumber(s: string): Option<Parsed> {
    var (neg, body) := SignedBody(s);
    if NamesNoNumber(body) then Some(NotFinite)
    else ParseFinite(neg, body)
  }

  function ParseFinite(neg: bool, body: string): Option<Parsed> {
    ParseRest(neg, body[..DigitRun(body)], body[DigitRun(body)..])
  }

  /** What follows the digits before the point: the point and its digits, and
      an exponent. */
  function ParseRest(neg: bool, whole: string, rest: string): Option<Parsed> {
    if rest != [] && rest[0] == '.' then
      var places := DigitRun(rest[1..]);
      Assembled(neg, whole + rest[1..][..places], places, rest[1..][places..])
    else Assembled(neg, whole, 0, rest)
  }

  function Assembled(neg: bool, digits: string, places: nat, tail: string): Option<Parsed> {
    var exponent := ParseExponent(tail);
    if digits == [] || exponent.None? then None
    else Some(Finite(Dec(neg, Val(digits), exponent.value - places)))
  }

  datatype Raw =
    | FromDecimal(number: Parsed)
    | FromBool(truth: bool)
    | FromInt(whole: int)
    | FromText(text: string)
    | FromFloat
    | FromOther

  datatype ParseError = IsBoolean | IsEmpty | NotANumber | IsFloat | WrongType | IsNotFinite

  function OnlyFinite(p: Parsed): Result<Dec, ParseError> {
    if p.Finite? then Ok(p.value) else Err(IsNotFinite)
  }

  /** `_to_decimal`. */
  function ToDecimal(raw: Raw): Result<Dec, ParseError> {
    match raw
    case FromDecimal(p) => OnlyFinite(p)
    case FromBool(_) => Err(IsBoolean)
    case FromInt(n) => Ok(Dec(n < 0, Abs(n), 0))
    case FromText(s) =>
      var text := Patterns.Strip(s);
      if text == [] then Err(IsEmpty)
      else
        var p := ParseNumber(text);
        if p.None? then Err(NotANumber) else OnlyFinite(p.value)
    case FromFloat => Err(IsFloat)
    case FromOther => Err(WrongType)
  }

  /** Values that are not text: an integer keeps its value, a decimal that is a
      finite number is taken as it is, and truth values, binary floats and
      everything else are refused. */
  lemma RawAcceptedExactly(raw: Raw)
    requires !raw.FromText?
    ensures ToDecimal(raw).Ok? <==> raw.FromInt? || (raw.FromDecimal? && raw.number.Finite?)
    ensures raw.FromInt? ==> Units(ToDecimal(raw).value, 0) == raw.whole && ToDecimal(raw).value.exp == 0
    ensures raw.FromDecimal? && raw.number.Finite? ==> ToDecimal(raw) == Ok(raw.number.value)
    ensures raw.FromBool? ==> ToDecimal(raw) == Err(IsBoolean)
    ensures raw.FromFloat? ==> ToDecimal(raw) == Err(IsFloat)
    ensures raw.FromOther? ==> ToDecimal(raw) == Err(WrongType)
    ensures raw == FromDecimal(NotFinite) ==> ToDecimal(raw) == Err(IsNotFinite)
  {
  }

  lemma {:induction false} RunOfDigits(digits: string, rest: string)
    requires AllDigits(digits) && (rest == [] || !IsDigit(rest[0]))
    ensures DigitRun(digits + rest) == |digits|
  {
    if digits == [] {
      assert digits + rest == rest;
    } else {
      RunOfDigits(digits[1..], rest);
      assert (digits + rest)[1..] == digits[1..] + rest;
    }
  }

  lemma SplitsAtTail(neg: bool, whole: string, tail: string, body: string)
    requires AllDigits(whole) && body == whole + tail && (tail == [] || !IsDigit(tail[0]))
    ensures ParseFinite(neg, body) == ParseRest(neg, whole, tail)
  {
    RunOfDigits(whole, tail);
    assert body[..|whole|] == whole && body[|whole|..] == tail;
  }

  lemma SplitsAtPlaces(neg: bool, whole: string, frac: string, tail: string, rest: string)
    requires AllDigits(frac) && rest == ['.'] + (frac + tail) && (tail == [] || !IsDigit(tail[0]))
    ensures ParseRest(neg, whole, rest) == Assembled(neg, whole + frac, |frac|, tail)
  {
    var after := frac + tail;
    assert rest[1..] == after;
    RunOfDigits(frac, tail);
    assert after[..|frac|] == frac && after[|frac|..] == tail;
  }

  lemma ParsesWhole(neg: bool, digits: string)
    requires digits != [] && AllDigits(digits)
    ensures ParseFinite(neg, digits) == Some(Finite(Dec(neg, Val(digits), 0)))
  {
    assert digits + [] == digits;
    SplitsAtTail(neg, digits, [], digits);
  }

  predicate Plain(s: string) {
    s != [] && IsDigit(s[0]) && forall i :: 0 <= i < |s| ==> IsDigit(s[i]) || s[i] == '.'
  }

  lemma PointIsPlain(whole: string, frac: string, body: string)
    requires whole != [] && AllDigits(whole) && AllDigits(frac) && body == whole + "." + frac
    ensures Plain(body)
  {
    forall i | 0 <= i < |body| ensures IsDigit(body[i]) || body[i] == '.' {
      assert body[i] == if i < |whole| then whole[i] else if i == |whole| then '.' else frac[i - |whole| - 1];
    }
  }

  lemma ParsesPoint(neg: bool, whole: string, frac: string, body: string)
    requires whole != [] && AllDigits(whole) && AllDigits(frac) && body == whole + "." + frac
    ensures ParseFinite(neg, body) == Some(Finite(Dec(neg, Val(whole + frac), 0 - |frac|)))
  {
    var rest := PointRest(whole, frac, body);
    SplitsAtTail(neg, whole, rest, body);
    SplitsAtPlaces(neg, whole, frac, [], rest);
    AssembledPlain(neg, whole + frac, |frac|, ParseRest(neg, whole, rest));
  }

  lemma PointRest(whole: string, frac: string, body: string) returns (rest: string)
    requires body == whole + "." + frac
    ensures rest == ['.'] + (frac + []) && body == whole + rest && !IsDigit(rest[0])
  {
    rest := ['.'] + (frac + []);
    assert frac + [] == frac;
  }

  lemma AssembledPlain(neg: bool, digits: string, places: nat, p: Option<Parsed>)
    requires digits != [] && p == Assembled(neg, digits, places, [])
    ensures p == Some(Finite(Dec(neg, Val(digits), 0 - places)))
  {
  }

  lemma AllDigitsJoin(a: string, b: string)
    requires AllDigits(a) && AllDigits(b)
    ensures AllDigits(a + b)
  {
  }

  lemma ZeroDigit()
    ensures AllDigits("0") && Val("0") == 0
  {
    assert "0"[..0] == [];
  }

  lemma LeadingZeros(zeros: string, digits: string)
    requires Val(zeros) == 0
    ensures Val(zeros + digits) == Val(digits)
  {
    ValConcat(zeros, digits);
    ShiftZero(|digits|);
  }

  /** A decimal with a positive exponent prints its zeros. */
  lemma WholeForm(digits: string, n: nat, exp: nat, whole: string)
    requires digits != [] && AllDigits(digits) && Val(digits) == n && whole == Positional(digits, n == 0, exp)
    ensures whole != [] && AllDigits(whole) && Val(whole) == Moved(n, exp)
  {
    if n == 0 {
      ZeroDigit();
      ShiftZero(exp);
    } else {
      AllDigitsJoin(digits, Zeros(exp));
      ValConcat(digits, Zeros(exp));
      ValZeros(exp);
    }
  }

  /** A decimal with a negative exponent prints that many digits after the point. */
  lemma FractionForm(digits: string, zero: bool, exp: int) returns (whole: string, frac: string)
    requires digits != [] && AllDigits(digits) && exp < 0
    ensures Positional(digits, zero, exp) == whole + "." + frac
    ensures whole != [] && AllDigits(whole) && AllDigits(frac) && |frac| == 0 - exp
    ensures Val(whole + frac) == Val(digits)
  {
    var point := |digits| + exp;
    if point <= 0 {
      whole, frac := "0", Zeros(-point) + digits;
      ZeroDigit();
      AllDigitsJoin(Zeros(-point), digits);
      LeadingZeros(whole, frac);
      ValZeros(-point);
      LeadingZeros(Zeros(-point), digits);
    } else {
      whole, frac := digits[..point], digits[point..];
      assert whole + frac == digits;
    }
  }

  /** What a decimal prints as is a plain numeral, and reads back. */
  lemma PositionalReadsBack(neg: bool, digits: string, n: nat, exp: int, body: string)
    requires digits == Str(n) && body == Positional(digits, n == 0, exp)
    ensures Plain(body)
    ensures ParseFinite(neg, body) == Some(Finite(if exp <= 0 then Dec(neg, n, exp) else Dec(neg, Moved(n, exp), 0)))
  {
    ValStr(n);
    if exp >= 0 {
      WholeForm(digits, n, exp, body);
      ParsesWhole(neg, body);
    } else {
      var whole, frac := FractionForm(digits, n == 0, exp);
      PointIsPlain(whole, frac, body);
      ParsesPoint(neg, whole, frac, body);
    }
  }

  lemma PlainNamesNumber(body: string)
    requires body != [] && IsDigit(body[0])
    ensures !NamesNoNumber(body)
  {
    assert Lower(body)[0] == body[0];
  }

  lemma NothingToStrip(s: string)
    requires s != [] && !IsSpace(s[0]) && !IsSpace(s[|s| - 1])
    ensures Patterns.Strip(s) == s
  {
  }

  /** Reading back what was sent restores the value, and its scale too unless
      the exponent was positive, when the zeros are written out. The text is
      positional: no exponent, whatever the decimal. */
  lemma SerialiseRoundTrip(v: Dec)
    ensures ToDecimal(FromText(Serialise(v))) == Ok(if v.exp <= 0 then v else Dec(v.neg, Moved(v.coef, v.exp), 0))
    ensures forall c :: c in Serialise(v) ==> IsDigit(c) || c == '.' || c == '-'
  {
    var body := Positional(Str(v.coef), v.coef == 0, v.exp);
    PositionalReadsBack(v.neg, Str(v.coef), v.coef, v.exp, body);
    ReadsSigned(v.neg, body, Serialise(v));
  }

  lemma ReadsSigned(neg: bool, body: string, s: string)
    requires Plain(body) && s == if neg then "-" + body else body
    requires ParseFinite(neg, body).Some? && ParseFinite(neg, body).value.Finite?
    ensures ToDecimal(FromText(s)) == Ok(ParseFinite(neg, body).value.value)
    ensures forall c :: c in s ==> IsDigit(c) || c == '.' || c == '-'
  {
    SignInFront(neg, body, s);
    PlainNamesNumber(body);
    NothingToStrip(s);
  }

  lemma SignInFront(neg: bool, body: string, s: string)
    requires Plain(body) && s == if neg then "-" + body else body
    ensures SignedBody(s) == (neg, body)
    ensures s != [] && !IsSpace(s[0]) && !IsSpace(s[|s| - 1])
    ensures forall c :: c in s ==> IsDigit(c) || c == '.' || c == '-'
  {
    if neg {
      assert s[0] == '-' && s[1..] == body;
      assert s[|s| - 1] == body[|body| - 1];
      forall c | c in s ensures IsDigit(c) || c == '.' || c == '-' {
        assert c == '-' || c in body;
      }
    }
  }

  /** The form of what is sent: a minus sign for a negative decimal alone, the
      digits before the point without zeros in front, and after the point as
      many digits as the scale; no point for a scale of 0 or less. */
  lemma SerialisedForm(v: Dec) returns (whole: string, frac: string)
    ensures Serialise(v) ==
              (if v.neg then ['-'] else []) + (whole + if v.exp < 0 then ['.'] + frac else [])
    ensures whole != [] && AllDigits(whole) && (whole[0] == '0' ==> whole == "0")
    ensures AllDigits(frac) && |frac| == if v.exp < 0 then -v.exp else 0
  {
    var digits := Str(v.coef);
    ValStr(v.coef);
    StrFront(v.coef);
    var body := Positional(digits, v.coef == 0, v.exp);
    if v.exp >= 0 {
      whole, frac := body, [];
      WholeForm(digits, v.coef, v.exp, body);
      assert whole + [] == body;
    } else {
      var point := |digits| + v.exp;
      if point <= 0 {
        whole, frac := "0", Zeros(-point) + digits;
        AllDigitsJoin(Zeros(-point), digits);
      } else {
        whole, frac := digits[..point], digits[point..];
      }
      assert body == whole + (['.'] + frac);
    }
    assert ['-'] + body == "-" + body && [] + body == body;
  }
}
