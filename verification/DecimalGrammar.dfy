/** Which texts are amounts (apps/api/core/money.py), said as a grammar and
    without the parser. */
module DecimalGrammar {
  import opened Ascii
  import opened Digits
  import opened Money
  import opened Wrappers
  import Patterns

  datatype SignMark = NoSign | Plus | Minus

  function Signed(sign: SignMark, body: string): string {
    match sign
    case NoSign => body
    case Plus => ['+'] + body
    case Minus => ['-'] + body
  }

  /** The text an exponent is written as, and what it stands for. */
  datatype Exponent = Exponent(text: string, value: int)

  /** A sign, digits, a point and more digits, an exponent: all but one digit
      optional. */
  datatype Numeral = Numeral(sign: SignMark, whole: string, point: bool, frac: string, exponent: Exponent)

  predicate IsWritten(e: Exponent, letter: char, sign: SignMark, digits: string) {
    && (letter == 'e' || letter == 'E') && digits != [] && AllDigits(digits)
    && e.text == [letter] + Signed(sign, digits) && e.value == Sign(sign.Minus?, Val(digits))
  }

  ghost predicate GoodExponent(e: Exponent) {
    e == Exponent("", 0) || exists letter, sign, digits :: IsWritten(e, letter, sign, digits)
  }

  ghost predicate WellFormed(n: Numeral) {
    && AllDigits(n.whole) && AllDigits(n.frac) && n.whole + n.frac != []
    && (!n.point ==> n.frac == []) && GoodExponent(n.exponent)
  }

  function Tail(n: Numeral): string {
    if n.point then ['.'] + (n.frac + n.exponent.text) else n.exponent.text
  }

  function Body(n: Numeral): string {
    n.whole + Tail(n)
  }

  function Spell(n: Numeral): string {
    Signed(n.sign, Body(n))
  }

  // ----- Every numeral is read, and read as what it means

  lemma SignTaken(sign: SignMark, body: string, s: string)
    requires s == Signed(sign, body) && body != [] && body[0] != '+' && body[0] != '-'
    ensures SignedBody(s) == (sign.Minus?, body)
  {
    if !sign.NoSign? {
      assert s[1..] == body;
    }
  }

  lemma ReadsExponent(e: Exponent)
    requires GoodExponent(e)
    ensures ParseExponent(e.text) == Some(e.value)
    ensures e.text == [] || e.text[0] == 'e' || e.text[0] == 'E'
  {
    if e != Exponent("", 0) {
      var letter, sign, digits :| IsWritten(e, letter, sign, digits);
      assert e.text[1..] == Signed(sign, digits);
      assert IsDigit(digits[0]);
      SignTaken(sign, digits, e.text[1..]);
    }
  }

  lemma BodyStarts(n: Numeral, body: string)
    requires WellFormed(n) && body == Body(n)
    ensures body != [] && (IsDigit(body[0]) || body[0] == '.')
    ensures !NamesNoNumber(body)
  {
    assert Lower(body)[0] == body[0];
  }

  lemma ReadsBody(neg: bool, n: Numeral, digits: string, tail: string, body: string)
    requires WellFormed(n) && tail == Tail(n) && body == n.whole + tail && digits == n.whole + n.frac
    ensures ParseFinite(neg, body) == Assembled(neg, digits, |n.frac|, n.exponent.text)
  {
    ReadsExponent(n.exponent);
    SplitsAtTail(neg, n.whole, tail, body);
    if n.point {
      SplitsAtPlaces(neg, n.whole, n.frac, n.exponent.text, tail);
    } else {
      assert digits == n.whole;
    }
  }

  lemma AssembledIs(neg: bool, digits: string, places: nat, tail: string, x: int, p: Option<Parsed>)
    requires digits != [] && ParseExponent(tail) == Some(x) && p == Assembled(neg, digits, places, tail)
    ensures p == Some(Finite(Dec(neg, Val(digits), x - places)))
  {
  }

  lemma BodyMeans(neg: bool, n: Numeral, digits: string, body: string, p: Option<Parsed>)
    requires digits != [] && GoodExponent(n.exponent) && p == Assembled(neg, digits, |n.frac|, n.exponent.text)
    ensures p == Some(Finite(Dec(neg, Val(digits), n.exponent.value - |n.frac|)))
  {
    ReadsExponent(n.exponent);
    AssembledIs(neg, digits, |n.frac|, n.exponent.text, n.exponent.value, p);
  }

  lemma NumberIsItsBody(neg: bool, body: string, s: string)
    requires SignedBody(s) == (neg, body) && !NamesNoNumber(body)
    ensures ParseNumber(s) == ParseFinite(neg, body)
  {
  }

  lemma ReadsEveryNumeral(n: Numeral, digits: string, body: string, s: string, p: Option<Parsed>)
    requires WellFormed(n) && digits == n.whole + n.frac && body == Body(n) && s == Spell(n) && p == ParseNumber(s)
    ensures p == Some(Finite(Dec(n.sign.Minus?, Val(digits), n.exponent.value - |n.frac|)))
  {
    var neg := n.sign.Minus?;
    BodyStarts(n, body);
    SignTaken(n.sign, body, s);
    NumberIsItsBody(neg, body, s);
    ReadsBody(neg, n, digits, Tail(n), body);
    BodyMeans(neg, n, digits, body, p);
  }

  // ----- Nothing else is

  lemma {:induction false} RunIsDigits(s: string)
    ensures AllDigits(s[..DigitRun(s)])
  {
    if s != [] && IsDigit(s[0]) {
      RunIsDigits(s[1..]);
      assert s[..DigitRun(s)] == [s[0]] + s[1..][..DigitRun(s[1..])];
    }
  }

  lemma SignOf(s: string) returns (sign: SignMark)
    ensures s == Signed(sign, SignedBody(s).1) && SignedBody(s).0 == sign.Minus?
  {
    sign := if s == [] then NoSign else if s[0] == '-' then Minus else if s[0] == '+' then Plus else NoSign;
    assert !sign.NoSign? ==> s == [s[0]] + s[1..];
  }

  lemma ExponentOf(s: string) returns (e: Exponent)
    requires ParseExponent(s).Some?
    ensures GoodExponent(e) && e.text == s
  {
    e := Exponent(s, ParseExponent(s).value);
    if s != [] {
      var rest := s[1..];
      var sign := SignOf(rest);
      assert s == [s[0]] + rest;
      assert IsWritten(e, s[0], sign, SignedBody(rest).1);
    }
  }

  lemma PlacesOf(neg: bool, whole: string, rest: string) returns (point: bool, frac: string, tail: string)
    requires ParseRest(neg, whole, rest).Some?
    ensures AllDigits(frac) && (!point ==> frac == []) && rest == if point then ['.'] + (frac + tail) else tail
    ensures whole + frac != [] && ParseExponent(tail).Some?
  {
    point := rest != [] && rest[0] == '.';
    if point {
      var after := rest[1..];
      RunIsDigits(after);
      frac, tail := after[..DigitRun(after)], after[DigitRun(after)..];
      assert after == frac + tail;
    } else {
      frac, tail := [], rest;
    }
  }

  lemma RestOf(sign: SignMark, neg: bool, whole: string, rest: string) returns (n: Numeral)
    requires AllDigits(whole) && ParseRest(neg, whole, rest).Some?
    ensures WellFormed(n) && n.sign == sign && n.whole == whole && Tail(n) == rest
  {
    var point, frac, tail := PlacesOf(neg, whole, rest);
    var e := ExponentOf(tail);
    n := Numeral(sign, whole, point, frac, e);
  }

  lemma BodyOf(sign: SignMark, neg: bool, body: string) returns (n: Numeral)
    requires ParseFinite(neg, body).Some?
    ensures WellFormed(n) && n.sign == sign && Body(n) == body
  {
    var whole, rest := SplitBody(neg, body);
    n := RestOf(sign, neg, whole, rest);
  }

  lemma SplitBody(neg: bool, body: string) returns (whole: string, rest: string)
    ensures body == whole + rest && AllDigits(whole) && ParseFinite(neg, body) == ParseRest(neg, whole, rest)
  {
    RunIsDigits(body);
    whole, rest := body[..DigitRun(body)], body[DigitRun(body)..];
  }

  lemma ReadsOnlyNumerals(s: string) returns (n: Numeral)
    requires ParseNumber(s).Some? && ParseNumber(s).value.Finite?
    ensures WellFormed(n) && Spell(n) == s
  {
    var sign := SignOf(s);
    n := BodyOf(sign, SignedBody(s).0, SignedBody(s).1);
  }

  lemma TextIsNumber(s: string, text: string, p: Option<Parsed>, r: Result<Dec, ParseError>)
    requires text == Patterns.Strip(s) && p == ParseNumber(text) && r == ToDecimal(FromText(s))
    ensures r == if text == [] then Err(IsEmpty) else if p.None? then Err(NotANumber) else OnlyFinite(p.value)
  {
  }

  /** `n` is how `s` reads, without the white space around it. */
  ghost predicate Reads(n: Numeral, s: string) {
    WellFormed(n) && Spell(n) == Patterns.Strip(s)
  }

  /** A numeral is accepted, as what it means. */
  lemma NumeralAccepted(s: string, n: Numeral, digits: string, p: Option<Parsed>, r: Result<Dec, ParseError>)
    requires Reads(n, s) && digits == n.whole + n.frac
    requires p == ParseNumber(Patterns.Strip(s)) && r == ToDecimal(FromText(s))
    ensures r == Ok(Dec(n.sign.Minus?, Val(digits), n.exponent.value - |n.frac|))
  {
    var text := Patterns.Strip(s);
    BodyStarts(n, Body(n));
    ReadsEveryNumeral(n, digits, Body(n), text, p);
    TextIsNumber(s, text, p, r);
  }

  lemma AcceptedIsNumeral(s: string, text: string, p: Option<Parsed>, r: Result<Dec, ParseError>)
    requires text == Patterns.Strip(s) && p == ParseNumber(text) && r == ToDecimal(FromText(s)) && r.Ok?
    ensures exists n :: Reads(n, s)
  {
    TextIsNumber(s, text, p, r);
    var n := ReadsOnlyNumerals(text);
    assert Reads(n, s);
  }

  /** A text is an amount if and only if, without the white space around it, it
      is a numeral. Empty text, words, infinities and everything else are refused. */
  lemma TextAcceptedExactly(s: string)
    ensures ToDecimal(FromText(s)).Ok? <==> exists n :: Reads(n, s)
  {
    if n :| Reads(n, s) {
      NumeralAccepted(s, n, n.whole + n.frac, ParseNumber(Patterns.Strip(s)), ToDecimal(FromText(s)));
    } else if ToDecimal(FromText(s)).Ok? {
      AcceptedIsNumeral(s, Patterns.Strip(s), ParseNumber(Patterns.Strip(s)), ToDecimal(FromText(s)));
    }
  }

  // ----- Why a text is refused

  /** Infinity or not a number, in any case and with or without a sign and the
      digits that may follow the latter. */
  ghost predicate NamesSpecial(s: string) {
    exists sign, body :: s == Signed(sign, body) && IsSpecial(Lower(body))
  }

  predicate IsSpecial(b: string) {
    || b == "inf" || b == "infinity"
    || ("nan" <= b && AllDigits(b[3..])) || ("snan" <= b && AllDigits(b[4..]))
  }

  /** A text of white space is empty, the name of a special value is not finite,
      and anything else that is refused is not a number. */
  lemma TextRefusedExactly(s: string)
    ensures var r := ToDecimal(FromText(s));
            && (r == Err(IsEmpty) <==> Patterns.AllWhite(s))
            && (r == Err(IsNotFinite) <==> NamesSpecial(Patterns.Strip(s)))
            && (r.Err? ==> r.error.IsEmpty? || r.error.IsNotFinite? || r.error.NotANumber?)
  {
    WhiteExactly(s);
    if Patterns.Strip(s) == [] {
      NothingSpecial();
    } else {
      SpecialExactly(Patterns.Strip(s));
    }
  }

  lemma WhiteExactly(s: string)
    ensures Patterns.Strip(s) == [] <==> Patterns.AllWhite(s)
  {
    var a, c := Patterns.StripIs(s);
    var t := Patterns.Strip(s);
    if t == [] {
      assert s == a + c;
    } else {
      assert !Patterns.White(t[0]) && t[0] == s[|a|];
    }
  }

  lemma NothingSpecial()
    ensures !NamesSpecial([])
  {
    forall sign, body | [] == Signed(sign, body) ensures !IsSpecial(Lower(body)) {
      assert sign.NoSign? && body == [];
    }
  }

  lemma SpecialExactly(t: string)
    requires t != []
    ensures NamesNoNumber(SignedBody(t).1) <==> NamesSpecial(t)
  {
    var (neg, body) := SignedBody(t);
    if NamesNoNumber(body) {
      var sign := if body == t then NoSign else if neg then Minus else Plus;
      assert t == Signed(sign, body);
      SpecialByPrefix(Lower(body));
    }
    if sign, b :| t == Signed(sign, b) && IsSpecial(Lower(b)) {
      SpecialStarts(b);
      assert body == b;
      SpecialByPrefix(Lower(b));
    }
  }

  lemma SpecialByPrefix(b: string)
    ensures IsSpecial(b) <==>
              || b == "inf" || b == "infinity"
              || (|b| >= 3 && b[..3] == "nan" && AllDigits(b[3..]))
              || (|b| >= 4 && b[..4] == "snan" && AllDigits(b[4..]))
  {
  }

  lemma SpecialStarts(b: string)
    requires IsSpecial(Lower(b))
    ensures b != [] && b[0] != '+' && b[0] != '-'
  {
    var low := Lower(b);
    assert low[0] == 'i' || low[0] == 'n' || low[0] == 's';
  }
}
