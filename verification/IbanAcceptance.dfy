/** Which texts are accepted as an IBAN and why others are refused, said by
    their characters (apps/api/core/iban.py). */
module IbanAcceptance {
  import opened Digits
  import opened Iban
  import opened Wrappers
  import Patterns

  // ----- What normalising keeps

  /** The capital of a small letter is 32 below it; anything else is its own. */
  function Capital(c: char): char {
    if 97 <= c as int <= 122 then (c as int - 32) as char else c
  }

  /** The characters that count: in order, without white space, as capitals. */
  function Solid(s: string): string {
    if s == [] then []
    else (if Patterns.White(s[0]) then [] else [Capital(s[0])]) + Solid(s[1..])
  }

  lemma {:induction false} NormaliseIsSolid(s: string)
    ensures Normalise(s) == Solid(s)
  {
    if s != [] {
      NormaliseIsSolid(s[1..]);
      assert s == [s[0]] + s[1..];
      NormaliseConcat([s[0]], s[1..]);
      OneIsSolid(s[0]);
    }
  }

  lemma OneIsSolid(c: char)
    ensures Normalise([c]) == if Patterns.White(c) then [] else [Capital(c)]
  {
    OneNormal(c);
  }

  /** `at` lists, from left to right, every place of `s` without white space. */
  predicate Places(s: string, at: seq<nat>) {
    && (forall j :: 0 <= j < |at| ==> at[j] < |s| && !Patterns.White(s[at[j]]))
    && (forall i, j :: 0 <= i < j < |at| ==> at[i] < at[j])
    && (forall k :: 0 <= k < |s| && !Patterns.White(s[k]) ==> k in at)
  }

  /** Normalising keeps exactly the characters that are no white space, in their
      order, and turns small letters into capitals. */
  lemma {:induction false} NormaliseIs(s: string) returns (at: seq<nat>)
    ensures Places(s, at) && |Normalise(s)| == |at|
    ensures forall j :: 0 <= j < |at| ==> Normalise(s)[j] == Capital(s[at[j]])
  {
    at := [];
    if s != [] {
      var n := |s| - 1;
      at := NormaliseIs(s[..n]);
      assert s == s[..n] + [s[n]];
      NormaliseConcat(s[..n], [s[n]]);
      OneIsSolid(s[n]);
      if !Patterns.White(s[n]) { at := at + [n]; }
    }
  }

  /** Texts that differ only in the case of letters and in white space, anywhere,
      are judged alike. */
  lemma AlikeTextsAgree(lengths: map<string, nat>, s: string, t: string)
    ensures Solid(s) == Solid(t) <==> Normalise(s) == Normalise(t)
    ensures Solid(s) == Solid(t) ==> Validate(lengths, s) == Validate(lengths, t)
  {
    NormaliseIsSolid(s);
    NormaliseIsSolid(t);
  }

  // ----- What is accepted

  /** Two letters, two digits, then one to thirty letters or digits. */
  predicate LooksLikeOne(s: string) {
    && 5 <= |s| <= 34
    && 'A' <= s[0] <= 'Z' && 'A' <= s[1] <= 'Z' && '0' <= s[2] <= '9' && '0' <= s[3] <= '9'
    && forall i :: 4 <= i < |s| ==> 'A' <= s[i] <= 'Z' || '0' <= s[i] <= '9'
  }

  /** A digit stands for itself, a letter for two digits of a value from 10
      for A to 35 for Z. */
  predicate StandsFor(c: char, digits: string) {
    if 'A' <= c <= 'Z' then |digits| == 2 && AllDigits(digits) && Val(digits) == c as int - 65 + 10
    else digits == [c]
  }

  function Width2(c: char): nat {
    if 'A' <= c <= 'Z' then 2 else 1
  }

  /** `digits` spells `s`, character by character. */
  predicate Spelled(s: string, digits: string)
    decreases |s|
  {
    if s == [] then digits == []
    else
      var k := Width2(s[|s| - 1]);
      && k <= |digits| && StandsFor(s[|s| - 1], digits[|digits| - k..])
      && Spelled(s[..|s| - 1], digits[..|digits| - k])
  }

  lemma {:induction false} ExpandIsSpelled(s: string)
    requires AllAlnum(s)
    ensures Spelled(s, Expand(s))
    decreases |s|
  {
    if s != [] {
      var init, c := s[..|s| - 1], s[|s| - 1];
      ExpandIsSpelled(init);
      PieceDigits(c);
      var e := Expand(s);
      assert e == Expand(init) + Piece(c);
      assert e[..|e| - |Piece(c)|] == Expand(init) && e[|e| - |Piece(c)|..] == Piece(c);
    }
  }

  lemma {:induction false} SpelledOnce(s: string, d: string, e: string)
    requires Spelled(s, d) && Spelled(s, e)
    ensures d == e
    decreases |s|
  {
    if s != [] {
      var k := Width2(s[|s| - 1]);
      StandsForOne(s[|s| - 1], d[|d| - k..], e[|e| - k..]);
      SpelledOnce(s[..|s| - 1], d[..|d| - k], e[..|e| - k]);
      SameEnds(d, e, k);
    }
  }

  lemma StandsForOne(c: char, x: string, y: string)
    requires StandsFor(c, x) && StandsFor(c, y)
    ensures x == y
  {
    if 'A' <= c <= 'Z' { StrLessIsNumeric(x, y); }
  }

  lemma SameEnds(d: string, e: string, k: nat)
    requires k <= |d| && k <= |e| && d[..|d| - k] == e[..|e| - k] && d[|d| - k..] == e[|e| - k..]
    ensures d == e
  {
    assert d == d[..|d| - k] + d[|d| - k..] && e == e[..|e| - k] + e[|e| - k..];
  }

  /** The digits of the IBAN with its first four characters moved to the end
      leave the remainder 1 when divided by 97. */
  ghost predicate ChecksOut(s: string)
    requires |s| >= 4
  {
    exists digits :: Spelled(s[4..] + s[..4], digits) && Val(digits) % 97 == 1
  }

  lemma ChecksOutExactly(s: string)
    requires LooksLikeOne(s)
    ensures ChecksOut(s) <==> Checksum(s) == 1
  {
    ShapeIsAlnum(s);
    var r := Rearranged(s);
    ExpandIsSpelled(r);
    ExpandSpells(r);
    if digits :| Spelled(s[4..] + s[..4], digits) && Val(digits) % 97 == 1 {
      SpelledOnce(r, digits, Expand(r));
    }
  }

  predicate LengthFits(lengths: map<string, nat>, s: string)
    requires |s| >= 2
  {
    s[..2] in lengths ==> |s| == lengths[s[..2]]
  }

  /** Every answer of the validator, exactly: nothing but white space is
      required to be something; then the shape, the length of the country, and
      the check digits are asked for in this order. */
  lemma ValidateExactly(lengths: map<string, nat>, value: string)
    ensures var s, r := Solid(value), Validate(lengths, value);
            && (r == Err(Required) <==> s == [])
            && (r == Err(BadShape) <==> s != [] && !LooksLikeOne(s))
            && (LooksLikeOne(s) ==>
                  && ((exists n, m :: r == Err(WrongLength(n, m))) <==> !LengthFits(lengths, s))
                  && (!LengthFits(lengths, s) ==> r == Err(WrongLength(lengths[s[..2]], |s|)))
                  && (r == Err(BadCheckDigits) <==> LengthFits(lengths, s) && !ChecksOut(s))
                  && (r.Ok? <==> LengthFits(lengths, s) && ChecksOut(s)))
            && (r.Ok? ==> LooksLikeOne(s) && r == Ok(s))
  {
    NormaliseIsSolid(value);
    var s := Solid(value);
    if LooksLikeOne(s) { ChecksOutExactly(s); }
    assert Shape(s) <==> LooksLikeOne(s);
  }

  // ----- What is displayed

  /** The display form: the characters that count, a space after every four. */
  lemma FormatExactly(value: string, i: nat)
    ensures var s, shown := Solid(value), FormatIban(value);
            && |shown| == |s| + (if s == [] then 0 else (|s| - 1) / 4)
            && (i < |shown| && i % 5 == 4 ==> shown[i] == ' ')
            && (i < |shown| && i % 5 != 4 ==> i - i / 5 < |s| && shown[i] == s[i - i / 5])
  {
    NormaliseIsSolid(value);
    if Solid(value) != [] {
      GroupsOfFour(Solid(value), 0);
      if i < |FormatIban(value)| { GroupsOfFour(Solid(value), i); }
    }
  }
}
