/** IBAN structure and check digits (apps/api/core/iban.py): ISO 13616 with the
    MOD 97-10 system of ISO 7064. Characters are ASCII. */
module Iban {
  import opened Ascii
  import opened Digits
  import opened Mod97
  import opened Wrappers

  datatype IbanError = Required | BadShape | WrongLength(expected: nat, actual: nat) | BadCheckDigits

  predicate IsAlnum(c: char) {
    IsUpper(c) || IsDigit(c)
  }

  /** `normalise_iban`: white space out, letters up. */
  function Normalise(s: string): string {
    if s == [] then []
    else Normalise(s[..|s| - 1]) + if IsSpace(s[|s| - 1]) then [] else [Upper(s[|s| - 1])]
  }

  predicate Shape(s: string) {
    && 5 <= |s| <= 34
    && IsUpper(s[0]) && IsUpper(s[1]) && IsDigit(s[2]) && IsDigit(s[3])
    && forall i :: 4 <= i < |s| ==> IsAlnum(s[i])
  }

  // ----- The number an IBAN spells

  /** A letter stands for two digits, 10 to 35; a digit for itself. */
  function CharValue(c: char): (v: nat)
    ensures v <= 35
  {
    if IsUpper(c) then c as int - 'A' as int + 10 else DigitValue(c)
  }

  function Piece(c: char): string {
    if IsUpper(c) then Str(CharValue(c)) else [c]
  }

  predicate AllAlnum(s: string) {
    forall i :: 0 <= i < |s| ==> IsAlnum(s[i])
  }

  function Expand(s: string): string {
    if s == [] then [] else Expand(s[..|s| - 1]) + Piece(s[|s| - 1])
  }

  function Rearranged(iban: string): string
    requires |iban| >= 4
  {
    iban[4..] + iban[..4]
  }

  function CharWidth(c: char): nat {
    if IsUpper(c) then 2 else 1
  }

  /** The number an IBAN spells, read character by character: a letter moves
      what stands before it two places, a digit one. */
  function Number(s: string): int {
    if s == [] then 0 else Shift(Number(s[..|s| - 1]), CharWidth(s[|s| - 1])) + CharValue(s[|s| - 1])
  }

  /** How many digits a text expands to. */
  function Width(s: string): nat {
    if s == [] then 0 else Width(s[..|s| - 1]) + CharWidth(s[|s| - 1])
  }

  /** The whole expanded number modulo 97, with no chunks. */
  function Checksum(iban: string): int
    requires |iban| >= 4
  {
    Number(Rearranged(iban)) % 97
  }

  function Validate(lengths: map<string, nat>, value: string): Result<string, IbanError> {
    var iban := Normalise(value);
    if iban == [] then Err(Required)
    else if !Shape(iban) then Err(BadShape)
    else if iban[..2] in lengths && |iban| != lengths[iban[..2]] then
      Err(WrongLength(lengths[iban[..2]], |iban|))
    else if Checksum(iban) != 1 then Err(BadCheckDigits)
    else Ok(iban)
  }

  lemma PieceDigits(c: char)
    requires IsAlnum(c)
    ensures AllDigits(Piece(c)) && Val(Piece(c)) == CharValue(c) && |Piece(c)| == CharWidth(c)
  {
    if IsUpper(c) {
      ValStr(CharValue(c));
    } else {
      assert [c][..0] == [];
    }
  }

  /** The expanded digit string spells that number. */
  lemma {:induction false} ExpandSpells(s: string)
    requires AllAlnum(s)
    ensures AllDigits(Expand(s)) && Val(Expand(s)) == Number(s) && |Expand(s)| == Width(s)
  {
    if s != [] {
      var init, c := s[..|s| - 1], s[|s| - 1];
      ExpandSpells(init);
      PieceDigits(c);
      ValConcat(Expand(init), Piece(c));
    }
  }

  lemma {:induction false} WidthBounds(s: string)
    ensures |s| <= Width(s) <= 2 * |s|
  {
    if s != [] {
      WidthBounds(s[..|s| - 1]);
    }
  }

  // ----- The chunked loop

  /** One step of the loop: the nine-digit chunk joined to the remainder of
      what was read before stays below 97 * 10^9 and carries the remainder of
      the longer number. */
  lemma ChunkStep(n: nat, chunk: string)
    requires |chunk| <= 9
    ensures 0 <= Shift(n % 97, |chunk|) + Val(chunk) < 97_000_000_000
    ensures (Shift(n % 97, |chunk|) + Val(chunk)) % 97 == (Shift(n, |chunk|) + Val(chunk)) % 97
  {
    ShiftedRemainder(n, |chunk|, Val(chunk));
    ChunkBound(n % 97, chunk);
    ShiftMonotone(0, n % 97, |chunk|);
    ShiftZero(|chunk|);
  }

  /** `int(str(n) + chunk)`. */
  lemma JoinedValue(n: nat, chunk: string)
    requires AllDigits(chunk)
    ensures AllDigits(Str(n) + chunk) && Val(Str(n) + chunk) == Shift(n, |chunk|) + Val(chunk)
  {
    ValStr(n);
    ValConcat(Str(n), chunk);
  }

  lemma ChunkBound(remainder: nat, chunk: string)
    requires remainder < 97 && |chunk| <= 9
    ensures Shift(remainder, |chunk|) + Val(chunk) < 97_000_000_000
  {
    var k := |chunk|;
    ValBound(chunk);
    ShiftUnit(k);
    ShiftSum(remainder, 1, k);
    ShiftMonotone(remainder + 1, 97, k);
    ShiftTwice(97, k, 9 - k);
    GrowsWithShift(Shift(97, k), 9 - k);
    ShiftMonotone(0, 97, k);
    ShiftZero(k);
    assert Shift(97, 9) == 97_000_000_000;
  }

  lemma {:induction false} GrowsWithShift(n: nat, k: nat)
    ensures n <= Shift(n, k)
  {
    if k > 0 {
      GrowsWithShift(n, k - 1);
    }
  }

  /** What one turn of the loop reads: `joined` stands for all digits up to here. */
  lemma ChunkRead(expanded: string, index: nat, next: nat, remainder: nat, joined: string)
    requires AllDigits(expanded) && index <= next <= |expanded| && next - index <= 9
    requires remainder == Val(expanded[..index]) % 97 && joined == Str(remainder) + expanded[index..next]
    ensures joined != [] && AllDigits(joined)
    ensures Val(joined) % 97 == Val(expanded[..next]) % 97 && Val(joined) < 97_000_000_000
  {
    var prefix, chunk := expanded[..index], expanded[index..next];
    assert expanded[..next] == prefix + chunk;
    JoinedValue(remainder, chunk);
    ValConcat(prefix, chunk);
    ChunkStep(Val(prefix), chunk);
  }

  /** `_mod_97`, nine digits at a time. */
  method Mod97OfIban(iban: string) returns (remainder: nat)
    requires |iban| >= 4 && AllAlnum(iban)
    ensures remainder == Checksum(iban)
  {
    var expanded := Expand(Rearranged(iban));
    ExpandSpells(Rearranged(iban));
    remainder := 0;
    var index := 0;
    while index < |expanded|
      invariant 0 <= index <= |expanded|
      invariant remainder == Val(expanded[..index]) % 97
    {
      var next := if index + 9 <= |expanded| then index + 9 else |expanded|;
      var joined := Str(remainder) + expanded[index..next];
      ChunkRead(expanded, index, next, remainder, joined);
      remainder := Int(joined) % 97;
      index := next;
    }
    assert expanded[..|expanded|] == expanded;
  }

  /** `validate_iban`, over a registry of lengths by country. */
  method ValidateIban(lengths: map<string, nat>, value: string) returns (r: Result<string, IbanError>)
    ensures r == Validate(lengths, value)
  {
    var iban := Normalise(value);
    if iban == [] {
      return Err(Required);
    }
    if !Shape(iban) {
      return Err(BadShape);
    }
    var country := iban[..2];
    if country in lengths && |iban| != lengths[country] {
      return Err(WrongLength(lengths[country], |iban|));
    }
    var remainder := Mod97OfIban(iban);
    if remainder != 1 {
      return Err(BadCheckDigits);
    }
    return Ok(iban);
  }

  // ----- What a changed character does to the number

  lemma {:induction false} NumberConcat(a: string, b: string)
    ensures Width(a + b) == Width(a) + Width(b)
    ensures Number(a + b) == Shift(Number(a), Width(b)) + Number(b)
  {
    if b == [] {
      assert a + b == a;
    } else {
      var init, c := b[..|b| - 1], b[|b| - 1];
      assert (a + b)[..|a + b| - 1] == a + init;
      NumberConcat(a, init);
      ShiftSum(Shift(Number(a), Width(init)), Number(init), CharWidth(c));
      ShiftTwice(Number(a), Width(init), CharWidth(c));
    }
  }

  lemma NumberOfOne(c: char)
    ensures Number([c]) == CharValue(c) && Width([c]) == CharWidth(c)
  {
    assert [c][..0] == [];
    ShiftZero(CharWidth(c));
  }

  predicate SameClass(x: char, y: char) {
    (IsDigit(x) && IsDigit(y)) || (IsUpper(x) && IsUpper(y))
  }

  lemma SmallDifference(x: char, y: char)
    requires SameClass(x, y) && x != y
    ensures -97 < CharValue(x) - CharValue(y) < 97 && CharValue(x) != CharValue(y)
    ensures CharWidth(x) == CharWidth(y)
  {
  }

  lemma ValueDifference(x: char, y: char)
    requires SameClass(x, y) && x != y
    ensures !Divisible(CharValue(x) - CharValue(y))
  {
    SmallDifference(x, y);
  }

  /** Replacing one stretch by another of the same width moves the number by
      the difference of the two, shifted; ten being a unit, the shift never
      hides it. */
  lemma StretchReplaced(a: string, m: string, n: string, c: string, x: int, y: int, p: int, q: int)
    requires Width(m) == Width(n) && x == Number(a + m + c) && y == Number(a + n + c)
    requires p == Number(m) && q == Number(n)
    ensures Divisible(x - y) <==> Divisible(p - q)
  {
    var before := Shift(Number(a), Width(m));
    NumberOfThree(a, m, c, x, p, before);
    NumberOfThree(a, n, c, y, q, before);
    ShiftedDifference(before, p, q, Number(c), Width(c), x, y);
  }

  lemma NumberOfThree(a: string, m: string, c: string, x: int, p: int, before: int)
    requires x == Number(a + m + c) && p == Number(m) && before == Shift(Number(a), Width(m))
    ensures x == Shift(before + p, Width(c)) + Number(c)
  {
    NumberConcat(a, m);
    NumberConcat(a + m, c);
  }

  lemma ShiftedDifference(before: int, m: int, n: int, after: int, w: nat, x: int, y: int)
    requires x == Shift(before + m, w) + after && y == Shift(before + n, w) + after
    ensures Divisible(x - y) <==> Divisible(m - n)
  {
    ShiftSum(before + n, m - n, w);
    CancelShift(m - n, w);
  }

  lemma OneReplaced(r: string, i: nat, c: char)
    requires i < |r| && SameClass(r[i], c) && r[i] != c
    ensures !Divisible(Number(r) - Number(r[i := c]))
  {
    NumberOfOne(r[i]);
    NumberOfOne(c);
    ValueDifference(r[i], c);
    SplitAt(r, i, c);
    StretchReplaced(r[..i], [r[i]], [c], r[i + 1..], Number(r), Number(r[i := c]), CharValue(r[i]), CharValue(c));
  }

  lemma SplitAt(r: string, i: nat, c: char)
    requires i < |r|
    ensures r == r[..i] + [r[i]] + r[i + 1..]
    ensures r[i := c] == r[..i] + [c] + r[i + 1..]
  {
  }

  /** The number spelled by a character, a stretch and another character. */
  lemma Sandwich(x: char, b: string, y: char)
    requires IsAlnum(x) && IsAlnum(y)
    ensures Width([x] + b + [y]) == Width([x]) + Width(b) + Width([y])
    ensures Number([x] + b + [y]) ==
              Shift(CharValue(x), Width(b) + Width([y])) + Shift(Number(b), Width([y])) + CharValue(y)
  {
    NumberOfOne(x);
    NumberOfOne(y);
    NumberConcat([x], b);
    NumberConcat([x] + b, [y]);
    ShiftTwice(CharValue(x), Width(b), Width([y]));
    ShiftSum(Shift(CharValue(x), Width(b)), Number(b), Width([y]));
  }

  lemma SandwichDifference(x: char, b: string, y: char, m: int, n: int)
    requires SameClass(x, y) && m == Number([x] + b + [y]) && n == Number([y] + b + [x])
    ensures Width([x] + b + [y]) == Width([y] + b + [x])
    ensures m - n ==
              Shift(CharValue(x) - CharValue(y), Width(b) + CharWidth(x)) - (CharValue(x) - CharValue(y))
  {
    NumberOfOne(x);
    NumberOfOne(y);
    Sandwich(x, b, y);
    Sandwich(y, b, x);
    ShiftSum(CharValue(y), CharValue(x) - CharValue(y), Width(b) + CharWidth(x));
  }

  /** Two characters of one class, `d` places apart, exchanged. */
  lemma ExchangedEnds(x: char, y: char, d: nat, m: int, n: int)
    requires SameClass(x, y) && x != y && 1 <= d <= 95
    requires m - n == Shift(CharValue(x) - CharValue(y), d) - (CharValue(x) - CharValue(y))
    ensures !Divisible(m - n)
  {
    SmallDifference(x, y);
    ExchangedNumbers(m, n, CharValue(x) - CharValue(y), d);
  }

  lemma SandwichDistance(x: char, b: string) returns (d: nat)
    requires |b| <= 32
    ensures d == Width(b) + CharWidth(x) && 1 <= d <= 95
  {
    WidthBounds(b);
    d := Width(b) + CharWidth(x);
  }

  lemma ExchangedNumbers(m: int, n: int, e: int, d: nat)
    requires -97 < e < 97 && e != 0 && 1 <= d <= 95 && m - n == Shift(e, d) - e
    ensures !Divisible(m - n)
  {
    ShiftMovesUnits(e, d);
  }

  function Swapped(s: string, i: nat, j: nat): string
    requires i < |s| && j < |s|
  {
    s[i := s[j]][j := s[i]]
  }

  lemma SwapSplit(r: string, i: nat, j: nat) returns (a: string, b: string, c: string)
    requires AllAlnum(r) && i < j < |r|
    ensures r == a + ([r[i]] + b + [r[j]]) + c
    ensures Swapped(r, i, j) == a + ([r[j]] + b + [r[i]]) + c
    ensures AllAlnum(b) && |b| <= |r| - 2
  {
    a, b, c := r[..i], r[i + 1..j], r[j + 1..];
  }

  lemma EndsExchangedInside(r: string, t: string, a: string, x: char, b: string, y: char, c: string)
    requires SameClass(x, y) && x != y && AllAlnum(b) && |b| <= 32
    requires r == a + ([x] + b + [y]) + c && t == a + ([y] + b + [x]) + c
    ensures !Divisible(Number(r) - Number(t))
  {
    SandwichDifference(x, b, y, Number([x] + b + [y]), Number([y] + b + [x]));
    var d := SandwichDistance(x, b);
    ExchangedEnds(x, y, d, Number([x] + b + [y]), Number([y] + b + [x]));
    StretchReplaced(a, [x] + b + [y], [y] + b + [x], c, Number(r), Number(t),
                    Number([x] + b + [y]), Number([y] + b + [x]));
  }

  lemma TwoExchanged(r: string, i: nat, j: nat, t: string)
    requires AllAlnum(r) && i < j < |r| <= 34 && SameClass(r[i], r[j]) && r[i] != r[j] && t == Swapped(r, i, j)
    ensures !Divisible(Number(r) - Number(t))
  {
    var a, b, c := SwapSplit(r, i, j);
    EndsExchangedInside(r, t, a, r[i], b, r[j], c);
  }

  /** A letter and a digit that stand side by side: exchanging them goes
      unnoticed exactly when the letter's value is eleven times the digit. */
  lemma PairExchanged(x: char, y: char)
    requires IsUpper(x) && IsDigit(y)
    ensures Width([x, y]) == Width([y, x])
    ensures Divisible(Number([x, y]) - Number([y, x])) <==> CharValue(x) == 11 * CharValue(y)
  {
    NumberOfOne(x);
    NumberOfOne(y);
    NumberConcat([x], [y]);
    NumberConcat([y], [x]);
    assert [x] + [y] == [x, y] && [y] + [x] == [y, x];
    assert Shift(CharValue(x), 1) == 10 * CharValue(x) && Shift(CharValue(y), 2) == 100 * CharValue(y);
    NineTimes(CharValue(x) - 11 * CharValue(y));
  }

  lemma NineTimes(e: int)
    requires -89 <= e <= 35
    ensures Divisible(9 * e) <==> e == 0
  {
    if Divisible(9 * e) {
      MultipleIsDivisible(e, 54 * (9 * e / 97) - 5 * e);
    }
  }

  lemma NeighbourSplit(r: string, i: nat)
    requires i + 1 < |r|
    ensures r == r[..i] + [r[i], r[i + 1]] + r[i + 2..]
    ensures Swapped(r, i, i + 1) == r[..i] + [r[i + 1], r[i]] + r[i + 2..]
  {
  }

  lemma UnnoticedIsElevenfold(x: char, y: char)
    requires IsAlnum(x) && IsAlnum(y) && IsUpper(x) != IsUpper(y)
    ensures Unnoticed(x, y) <==>
              if IsUpper(x) then CharValue(x) == 11 * CharValue(y) else CharValue(y) == 11 * CharValue(x)
  {
  }

  lemma NeighboursExchanged(r: string, i: nat)
    requires AllAlnum(r) && i + 1 < |r| && IsUpper(r[i]) != IsUpper(r[i + 1])
    ensures Divisible(Number(r) - Number(Swapped(r, i, i + 1))) <==> Unnoticed(r[i], r[i + 1])
  {
    var x, y := r[i], r[i + 1];
    if IsUpper(x) {
      PairExchanged(x, y);
    } else {
      PairExchanged(y, x);
      NegativeProduct(1, Number([x, y]) - Number([y, x]));
    }
    NeighbourSplit(r, i);
    StretchReplaced(r[..i], [x, y], [y, x], r[i + 2..], Number(r), Number(Swapped(r, i, i + 1)),
                    Number([x, y]), Number([y, x]));
    UnnoticedIsElevenfold(x, y);
  }

  /** B and 1, M and 2, X and 3: the letter's value is eleven times the digit. */
  predicate Unnoticed(x: char, y: char) {
    (x, y) in UNNOTICED_PAIRS || (y, x) in UNNOTICED_PAIRS
  }

  const UNNOTICED_PAIRS := [('B', '1'), ('M', '2'), ('X', '3')]

  // ----- The promises about a valid IBAN

  lemma {:induction false} NormaliseConcat(a: string, b: string)
    ensures Normalise(a + b) == Normalise(a) + Normalise(b)
  {
    if b == [] {
      assert a + b == a;
    } else {
      assert (a + b)[..|a + b| - 1] == a + b[..|b| - 1];
      NormaliseConcat(a, b[..|b| - 1]);
    }
  }

  lemma {:induction false} AlreadyNormal(s: string)
    requires AllAlnum(s)
    ensures Normalise(s) == s
  {
    if s != [] {
      var init, last := s[..|s| - 1], s[|s| - 1];
      AlreadyNormal(init);
      NormalLast(s, init, last);
      assert init + [last] == s;
    }
  }

  lemma NormalLast(s: string, init: string, last: char)
    requires s != [] && init == s[..|s| - 1] && last == s[|s| - 1] && IsAlnum(last)
    ensures Normalise(s) == Normalise(init) + [last]
  {
  }

  lemma OneNormal(c: char)
    ensures Normalise([c]) == if IsSpace(c) then [] else [Upper(c)]
  {
    assert [c][..0] == [];
  }

  lemma {:induction false} NormaliseIdempotent(s: string)
    ensures Normalise(Normalise(s)) == Normalise(s)
  {
    if s != [] {
      NormaliseIdempotent(s[..|s| - 1]);
      var last := s[|s| - 1];
      if !IsSpace(last) {
        NormaliseConcat(Normalise(s[..|s| - 1]), [Upper(last)]);
        OneNormal(Upper(last));
      } else {
        assert Normalise(s) == Normalise(s[..|s| - 1]);
      }
    }
  }

  /** Where position `i` of an IBAN stands after rearrangement. */
  function Moved(iban: string, i: nat): nat
    requires |iban| >= 4 && i < |iban|
  {
    if i >= 4 then i - 4 else |iban| - 4 + i
  }

  lemma ShapeIsAlnum(s: string)
    requires Shape(s)
    ensures AllAlnum(s) && AllAlnum(Rearranged(s))
  {
    forall i | 0 <= i < |s| ensures IsAlnum(s[i]) {
      if i < 4 { assert i == 0 || i == 1 || i == 2 || i == 3; }
    }
  }

  lemma MovedUpdate(iban: string, i: nat, c: char)
    requires |iban| >= 4 && i < |iban|
    ensures Rearranged(iban)[Moved(iban, i)] == iban[i]
    ensures Rearranged(iban[i := c]) == Rearranged(iban)[Moved(iban, i) := c]
  {
  }

  predicate Accepts(lengths: map<string, nat>, s: string) {
    && Shape(s) && (s[..2] in lengths ==> |s| == lengths[s[..2]])
    && Number(Rearranged(s)) % 97 == 1
  }

  /** On text without white space or small letters that is all validation asks. */
  lemma ValidatePlain(lengths: map<string, nat>, s: string)
    requires AllAlnum(s)
    ensures Validate(lengths, s).Ok? <==> Accepts(lengths, s)
    ensures Validate(lengths, s).Ok? ==> Validate(lengths, s).value == s
  {
    AlreadyNormal(s);
  }

  lemma ValidIsPlain(lengths: map<string, nat>, s: string)
    requires Validate(lengths, s) == Ok(s)
    ensures Accepts(lengths, s) && AllAlnum(s) && AllAlnum(Rearranged(s))
  {
    ShapeIsAlnum(s);
    ValidatePlain(lengths, s);
  }

  /** Any one digit replaced by another digit, or any one letter by another
      letter, anywhere in a valid IBAN: it stops being valid. */
  lemma SubstitutionIsCaught(lengths: map<string, nat>, iban: string, i: nat, c: char)
    requires Validate(lengths, iban) == Ok(iban) && i < |iban| && SameClass(iban[i], c) && iban[i] != c
    ensures Validate(lengths, iban[i := c]).Err?
  {
    ValidIsPlain(lengths, iban);
    ValidatePlain(lengths, iban[i := c]);
    MovedUpdate(iban, i, c);
    OneReplaced(Rearranged(iban), Moved(iban, i), c);
    EqualRemainders(Number(Rearranged(iban)), Number(Rearranged(iban[i := c])));
  }

  /** Any two unequal digits, or any two unequal letters, exchanged at any
      distance in a valid IBAN: it stops being valid. */
  lemma ExchangeIsCaught(lengths: map<string, nat>, iban: string, i: nat, j: nat)
    requires Validate(lengths, iban) == Ok(iban) && i < |iban| && j < |iban|
    requires SameClass(iban[i], iban[j]) && iban[i] != iban[j]
    ensures Validate(lengths, Swapped(iban, i, j)).Err?
  {
    ValidIsPlain(lengths, iban);
    MovedSwap(iban, i, j);
    var t := Swapped(iban, i, j);
    ExchangeMovesNumber(Rearranged(iban), Moved(iban, i), Moved(iban, j), Rearranged(t));
    OtherNumberIsRefused(lengths, iban, t, Number(Rearranged(iban)), Number(Rearranged(t)));
  }

  lemma OtherNumberIsRefused(lengths: map<string, nat>, iban: string, t: string, m: int, n: int)
    requires |iban| >= 4 && |t| >= 4 && AllAlnum(t) && Accepts(lengths, iban)
    requires m == Number(Rearranged(iban)) && n == Number(Rearranged(t)) && !Divisible(m - n)
    ensures Validate(lengths, t).Err?
  {
    ValidatePlain(lengths, t);
    EqualRemainders(m, n);
  }

  lemma ExchangeMovesNumber(r: string, m: nat, n: nat, t: string)
    requires AllAlnum(r) && m < |r| <= 34 && n < |r| && SameClass(r[m], r[n]) && r[m] != r[n] && t == Swapped(r, m, n)
    ensures !Divisible(Number(r) - Number(t))
  {
    if m < n {
      TwoExchanged(r, m, n, t);
    } else {
      assert t == Swapped(r, n, m);
      TwoExchanged(r, n, m, t);
    }
  }

  lemma MovedSwap(iban: string, i: nat, j: nat)
    requires |iban| >= 4 && i < |iban| && j < |iban|
    ensures Rearranged(iban)[Moved(iban, i)] == iban[i] && Rearranged(iban)[Moved(iban, j)] == iban[j]
    ensures Rearranged(Swapped(iban, i, j)) == Swapped(Rearranged(iban), Moved(iban, i), Moved(iban, j))
  {
    MovedUpdate(iban, i, iban[j]);
    MovedUpdate(iban, j, iban[i]);
    MovedUpdate(iban[i := iban[j]], j, iban[i]);
  }

  /** A letter and a digit side by side in the account part, exchanged: the
      result is still accepted exactly for B1, M2 and X3, in either order. */
  lemma MixedNeighbours(lengths: map<string, nat>, iban: string, i: nat)
    requires Validate(lengths, iban) == Ok(iban) && 4 <= i && i + 1 < |iban| && IsUpper(iban[i]) != IsUpper(iban[i + 1])
    ensures Validate(lengths, Swapped(iban, i, i + 1)).Ok? <==> Unnoticed(iban[i], iban[i + 1])
  {
    ValidIsPlain(lengths, iban);
    MovedSwap(iban, i, i + 1);
    NeighboursExchanged(Rearranged(iban), i - 4);
    SwapKeepsShape(iban, i);
    var t := Swapped(iban, i, i + 1);
    SameShapeAccepted(lengths, iban, t, Number(Rearranged(iban)), Number(Rearranged(t)));
  }

  lemma SameShapeAccepted(lengths: map<string, nat>, iban: string, t: string, m: int, n: int)
    requires Accepts(lengths, iban) && Shape(t) && |t| == |iban| && t[..2] == iban[..2]
    requires m == Number(Rearranged(iban)) && n == Number(Rearranged(t))
    ensures Validate(lengths, t).Ok? <==> Divisible(m - n)
  {
    ShapeIsAlnum(t);
    ValidatePlain(lengths, t);
    EqualRemainders(m, n);
  }

  lemma SwapKeepsShape(s: string, i: nat)
    requires Shape(s) && 4 <= i && i + 1 < |s|
    ensures Shape(Swapped(s, i, i + 1)) && Swapped(s, i, i + 1)[..2] == s[..2]
  {
  }

  /** For every country and account part the valid check digits are exactly one
      residue class modulo 97: there is always a pair, and never more than two. */
  lemma CheckDigitsExist(lengths: map<string, nat>, country: string, account: string) returns (r: nat)
    requires IsCountry(country) && 1 <= |account| <= 30 && AllAlnum(account)
    requires country in lengths ==> lengths[country] == |account| + 4
    ensures r < 97
    ensures forall k: nat :: k < 100 ==>
              (Validate(lengths, country + Padded(k, 2) + account).Ok? <==> k % 97 == r)
  {
    var base := Number(account + country) * 100;
    r := (1 - base) % 97;
    forall k: nat | k < 100
      ensures Validate(lengths, country + Padded(k, 2) + account).Ok? <==> k % 97 == r
    {
      OnePair(lengths, country, account, k, base);
    }
  }

  predicate IsCountry(country: string) {
    |country| == 2 && IsUpper(country[0]) && IsUpper(country[1])
  }

  lemma SolveForPair(base: int, k: int)
    ensures (base + k) % 97 == 1 <==> k % 97 == (1 - base) % 97
  {
    EqualRemainders(base + k, 1);
    EqualRemainders(k, 1 - base);
  }

  lemma OnePair(lengths: map<string, nat>, country: string, account: string, k: nat, base: int)
    requires IsCountry(country) && 1 <= |account| <= 30 && AllAlnum(account)
    requires country in lengths ==> lengths[country] == |account| + 4
    requires k < 100 && base == Number(account + country) * 100
    ensures Validate(lengths, country + Padded(k, 2) + account).Ok? <==> k % 97 == (1 - base) % 97
  {
    PairResidue(account + country, k, base);
    PairDigits(k);
    AssembledShape(country, Padded(k, 2), account);
    ValidatePlain(lengths, country + Padded(k, 2) + account);
  }

  lemma PairResidue(s: string, k: nat, base: int)
    requires k < 100 && base == Number(s) * 100
    ensures Number(s + Padded(k, 2)) % 97 == 1 <==> k % 97 == (1 - base) % 97
  {
    PairDigits(k);
    PairAppended(s, Padded(k, 2));
    SolveForPair(base, k);
  }

  lemma PairAppended(s: string, pair: string)
    requires Width(pair) == 2
    ensures Number(s + pair) == Number(s) * 100 + Number(pair)
  {
    NumberConcat(s, pair);
    TwoPlaces(Number(s));
  }

  lemma TwoPlaces(n: int)
    ensures Shift(n, 2) == n * 100
  {
  }

  lemma PairDigits(k: nat)
    requires k < 100
    ensures |Padded(k, 2)| == 2 && AllDigits(Padded(k, 2)) && Number(Padded(k, 2)) == k
    ensures Width(Padded(k, 2)) == 2
  {
    assert Pow10(2) == 100;
    ValPadded(k, 2);
    PaddedWidth(k, 2);
    DigitsStandForThemselves(Padded(k, 2));
  }

  lemma AssembledShape(country: string, pair: string, account: string)
    requires IsCountry(country) && |pair| == 2 && AllDigits(pair) && 1 <= |account| <= 30 && AllAlnum(account)
    ensures Shape(country + pair + account) && AllAlnum(country + pair + account)
    ensures (country + pair + account)[..2] == country
    ensures Rearranged(country + pair + account) == account + country + pair
  {
  }

  lemma {:induction false} DigitsStandForThemselves(s: string)
    requires AllDigits(s)
    ensures Number(s) == Val(s) && Width(s) == |s|
  {
    if s != [] {
      DigitsStandForThemselves(s[..|s| - 1]);
      assert IsDigit(s[|s| - 1]);
      assert Shift(Number(s[..|s| - 1]), 1) == 10 * Number(s[..|s| - 1]);
    }
  }

  // ----- format_iban

  /** Groups of four joined by one space. */
  function Grouped(s: string): string {
    if |s| <= 4 then s else s[..4] + " " + Grouped(s[4..])
  }

  function FormatIban(value: string): string {
    Grouped(Normalise(value))
  }

  lemma {:induction false} GroupedNormalises(s: string)
    ensures Normalise(Grouped(s)) == Normalise(s)
  {
    if |s| > 4 {
      GroupedNormalises(s[4..]);
      NormaliseConcat(s[..4], " ");
      NormaliseConcat(s[..4] + " ", Grouped(s[4..]));
      NormaliseConcat(s[..4], s[4..]);
      assert s == s[..4] + s[4..];
      OneNormal(' ');
    }
  }

  /** Every fifth character shown is a space and the rest are the IBAN in order. */
  lemma {:induction false} GroupsOfFour(s: string, i: nat)
    requires i < |Grouped(s)|
    ensures i % 5 == 4 ==> Grouped(s)[i] == ' '
    ensures i % 5 != 4 ==> i - i / 5 < |s| && Grouped(s)[i] == s[i - i / 5]
    ensures s != [] ==> |Grouped(s)| == |s| + (|s| - 1) / 4
  {
    if |s| > 4 {
      GroupsOfFour(s[4..], if i >= 5 then i - 5 else 0);
    }
  }

  /** Display and typing agree: the grouped form validates as the original. */
  lemma FormatRoundTrip(lengths: map<string, nat>, value: string)
    ensures Normalise(FormatIban(value)) == Normalise(value)
    ensures Validate(lengths, FormatIban(value)) == Validate(lengths, value)
  {
    GroupedNormalises(Normalise(value));
    NormaliseIdempotent(value);
  }
}

/** The registry the program ships. The laws above hold for every registry. */
module IbanRegistry {
  import Iban
  import opened Wrappers

  /** Lengths by country; a country not listed is checked on shape and digits alone. */
  const IBAN_LENGTHS: map<string, nat> := map[
    "AD" := 24, "AE" := 23, "AL" := 28, "AT" := 20, "AZ" := 28, "BA" := 20, "BE" := 16, "BG" := 22,
    "BH" := 22, "BR" := 29, "BY" := 28, "CH" := 21, "CR" := 22, "CY" := 28, "CZ" := 24, "DE" := 22,
    "DK" := 18, "DO" := 28, "EE" := 20, "EG" := 29, "ES" := 24, "FI" := 18, "FO" := 18, "FR" := 27,
    "GB" := 22, "GE" := 22, "GI" := 23, "GL" := 18, "GR" := 27, "GT" := 28, "HR" := 21, "HU" := 28,
    "IE" := 22, "IL" := 23, "IS" := 26, "IT" := 27, "JO" := 30, "KW" := 30, "KZ" := 20, "LB" := 28,
    "LC" := 32, "LI" := 21, "LT" := 20, "LU" := 20, "LV" := 21, "MC" := 27, "MD" := 24, "ME" := 22,
    "MK" := 19, "MR" := 27, "MT" := 31, "MU" := 30, "NL" := 18, "NO" := 15, "PK" := 24, "PL" := 28,
    "PS" := 29, "PT" := 25, "QA" := 29, "RO" := 24, "RS" := 22, "SA" := 24, "SE" := 24, "SI" := 19,
    "SK" := 24, "SM" := 27, "ST" := 25, "SV" := 28, "TL" := 23, "TN" := 24, "TR" := 26, "UA" := 29,
    "VA" := 22, "VG" := 24, "XK" := 20
  ]

  method ValidateIban(value: string) returns (r: Result<string, Iban.IbanError>)
    ensures r == Iban.Validate(IBAN_LENGTHS, value)
  {
    r := Iban.ValidateIban(IBAN_LENGTHS, value);
  }
}
