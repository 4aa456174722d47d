/** Calendar dates, as far as numbering needs them. */
module Calendar {

  datatype RawDate = Date(year: int, month: int, day: int)

  /** The range of `datetime.date`. */
  type Date = d: RawDate | 1 <= d.year <= 9999 && 1 <= d.month <= 12 && 1 <= d.day <= 31
    witness Date(1, 1, 1)

  function DayKey(d: Date): int {
    d.year * 10000 + d.month * 100 + d.day
  }

  predicate Before(a: Date, b: Date) {
    DayKey(a) < DayKey(b)
  }
}

/** Number patterns: validation, and the one function that turns a sequence
    value into a document number (apps/api/services/number_series.py). */
module Patterns {
  import opened Digits
  import opened Calendar
  import opened Wrappers

  datatype Token = YYYY | YY | MM | SEQ

  function Text(t: Token): (s: string)
    ensures |s| >= 4 && s[0] == '{'
    ensures forall i :: 1 <= i < |s| ==> s[i] != '{' && !IsDigit(s[i])
  {
    match t
    case YYYY => "{YYYY}"
    case YY => "{YY}"
    case MM => "{MM}"
    case SEQ => "{SEQ}"
  }

  const ALL_TOKENS := {YYYY, YY, MM, SEQ}

  /** How a series treats the turn of the year. The column is text, so a
      third value is representable and the code branches on it. */
  datatype Reset = Yearly | Never | Unknown(name: string)

  const MIN_PADDING := 1
  const MAX_PADDING := 12

  // ----- String primitives

  /** Python's `t in s`. */
  predicate Contains(s: string, t: string) {
    t <= s || (s != [] && Contains(s[1..], t))
  }

  /** Python's `s.replace(t, by)` for a non-empty `t`. */
  function Replace(s: string, t: string, with: string): string
    requires t != []
  {
    if s == [] then []
    else if t <= s then with + Replace(s[|t|..], t, with)
    else [s[0]] + Replace(s[1..], t, with)
  }

  function StripLeft(s: string): string {
    if s != [] && IsSpace(s[0]) then StripLeft(s[1..]) else s
  }

  function StripRight(s: string): string {
    if s != [] && IsSpace(s[|s| - 1]) then StripRight(s[..|s| - 1]) else s
  }

  function Strip(s: string): string {
    StripRight(StripLeft(s))
  }

  // ----- What the two string primitives mean

  /** A substring, wherever it stands. */
  predicate OccursAt(s: string, t: string, i: nat) {
    i + |t| <= |s| && s[i..i + |t|] == t
  }

  lemma DropSlice(s: string, i: nat, j: nat)
    requires i <= j < |s|
    ensures s[1..][i..j] == s[i + 1..j + 1]
  {
  }

  lemma {:induction false} ContainsExactly(s: string, t: string)
    ensures Contains(s, t) <==> exists i :: OccursAt(s, t, i)
  {
    if t <= s {
      assert OccursAt(s, t, 0);
    } else if s != [] {
      ContainsExactly(s[1..], t);
      if i: nat :| OccursAt(s[1..], t, i) {
        DropSlice(s, i, i + |t|);
        assert OccursAt(s, t, i + 1);
      }
      if i: nat :| OccursAt(s, t, i) {
        assert i > 0;
        DropSlice(s, i - 1, i - 1 + |t|);
        assert OccursAt(s[1..], t, i - 1);
      }
    }
  }

  /** Tab to carriage return, the four separators, and the space. */
  predicate White(c: char) {
    9 <= c as int <= 13 || 28 <= c as int <= 32
  }

  predicate AllWhite(s: string) {
    forall i :: 0 <= i < |s| ==> White(s[i])
  }

  /** `r` is `s` without the white space at its ends, and without more. */
  predicate IsStripped(s: string, a: string, r: string, c: string) {
    && s == a + r + c && AllWhite(a) && AllWhite(c)
    && (r != [] ==> !White(r[0]) && !White(r[|r| - 1]))
  }

  lemma {:induction false} StripLeftIs(s: string) returns (a: string)
    ensures s == a + StripLeft(s) && AllWhite(a)
    ensures StripLeft(s) != [] ==> !IsSpace(StripLeft(s)[0])
  {
    a := [];
    if s != [] && IsSpace(s[0]) {
      var b := StripLeftIs(s[1..]);
      a := [s[0]] + b;
      assert s == [s[0]] + s[1..];
    }
  }

  lemma {:induction false} StripRightIs(s: string) returns (c: string)
    ensures s == StripRight(s) + c && AllWhite(c)
    ensures StripRight(s) != [] ==> StripRight(s)[0] == s[0] && !IsSpace(StripRight(s)[|StripRight(s)| - 1])
  {
    c := [];
    if s != [] && IsSpace(s[|s| - 1]) {
      var b := StripRightIs(s[..|s| - 1]);
      c := b + [s[|s| - 1]];
      assert s == s[..|s| - 1] + [s[|s| - 1]];
    }
  }

  /** `str.strip`. */
  lemma StripIs(s: string) returns (a: string, c: string)
    ensures IsStripped(s, a, Strip(s), c)
  {
    a := StripLeftIs(s);
    c := StripRightIs(StripLeft(s));
  }

  // ----- Braced groups: the regular expression \{[^{}]*\}

  predicate IsBrace(c: char) {
    c == '{' || c == '}'
  }

  function PlainPrefix(s: string): (n: nat)
    ensures n <= |s|
    ensures forall i :: 0 <= i < n ==> !IsBrace(s[i])
    ensures n < |s| ==> IsBrace(s[n])
  {
    if s == [] || IsBrace(s[0]) then 0 else 1 + PlainPrefix(s[1..])
  }

  /** `findall`: leftmost matches, not overlapping. */
  function Braced(s: string): seq<string> {
    if s == [] then []
    else
      var n := PlainPrefix(s[1..]);
      if s[0] == '{' && n + 1 < |s| && s[n + 1] == '}'
      then [s[..n + 2]] + Braced(s[n + 2..])
      else Braced(s[1..])
  }

  /** A brace pair with nothing braced between, wherever it stands. */
  predicate IsGroup(s: string, i: int, j: int) {
    0 <= i < j < |s| && s[i] == '{' && s[j] == '}' && forall m :: i < m < j ==> !IsBrace(s[m])
  }

  /** The scanner misses no group and invents none. */
  lemma {:induction false} BracedFindsEveryGroup(s: string, g: string)
    ensures g in Braced(s) <==> HasGroup(s, g)
    decreases |s|
  {
    if s != [] {
      var n := PlainPrefix(s[1..]);
      BracedStep(s, n, g);
      if s[0] == '{' && n + 1 < |s| && s[n + 1] == '}' {
        BracedFindsEveryGroup(s[n + 2..], g);
        GroupAtFront(s, n, g);
      } else {
        BracedFindsEveryGroup(s[1..], g);
        NoGroupAtFront(s, n, g);
      }
    }
  }

  lemma BracedStep(s: string, n: nat, g: string)
    requires s != [] && n == PlainPrefix(s[1..])
    ensures g in Braced(s) <==>
              if s[0] == '{' && n + 1 < |s| && s[n + 1] == '}' then g == s[..n + 2] || g in Braced(s[n + 2..])
              else g in Braced(s[1..])
  {
  }

  ghost predicate HasGroup(s: string, g: string) {
    exists i, j :: IsGroup(s, i, j) && s[i..j + 1] == g
  }

  lemma GroupAtFront(s: string, n: nat, g: string)
    requires s != [] && n == PlainPrefix(s[1..]) && s[0] == '{' && n + 1 < |s| && s[n + 1] == '}'
    ensures HasGroup(s, g) <==> g == s[..n + 2] || HasGroup(s[n + 2..], g)
  {
    FrontIsGroup(s, n);
    if HasGroup(s[n + 2..], g) {
      var i, j :| IsGroup(s[n + 2..], i, j) && s[n + 2..][i..j + 1] == g;
      GroupShift(s, n + 2, i, j);
    }
    if HasGroup(s, g) {
      var i, j :| IsGroup(s, i, j) && s[i..j + 1] == g;
      if i >= n + 2 {
        GroupUnshift(s, n + 2, i, j);
      } else {
        GroupBody(s, j);
      }
    }
  }

  lemma FrontIsGroup(s: string, n: nat)
    requires s != [] && n == PlainPrefix(s[1..]) && s[0] == '{' && n + 1 < |s| && s[n + 1] == '}'
    ensures IsGroup(s, 0, n + 1) && s[0..n + 1 + 1] == s[..n + 2]
  {
    forall m | 0 < m < n + 1 ensures !IsBrace(s[m]) { assert s[m] == s[1..][m - 1]; }
  }

  lemma GroupBody(s: string, j: int)
    requires IsGroup(s, 0, j)
    ensures PlainPrefix(s[1..]) == j - 1
  {
    assert s[1..][j - 1] == s[j];
    forall m | 0 <= m < j - 1 ensures !IsBrace(s[1..][m]) { assert s[1..][m] == s[m + 1]; }
  }

  lemma NoGroupAtFront(s: string, n: nat, g: string)
    requires s != [] && n == PlainPrefix(s[1..]) && !(s[0] == '{' && n + 1 < |s| && s[n + 1] == '}')
    ensures HasGroup(s, g) <==> HasGroup(s[1..], g)
  {
    if HasGroup(s[1..], g) {
      var i, j :| IsGroup(s[1..], i, j) && s[1..][i..j + 1] == g;
      GroupShift(s, 1, i, j);
    }
    if HasGroup(s, g) {
      var i, j :| IsGroup(s, i, j) && s[i..j + 1] == g;
      if i == 0 { GroupBody(s, j); }
      GroupUnshift(s, 1, i, j);
    }
  }

  lemma GroupUnshift(s: string, step: nat, i: int, j: int)
    requires step <= |s| && IsGroup(s, i, j) && i >= step
    ensures IsGroup(s[step..], i - step, j - step) && s[step..][i - step..j - step + 1] == s[i..j + 1]
  {
    forall m | i - step < m < j - step ensures !IsBrace(s[step..][m]) { assert s[step..][m] == s[m + step]; }
  }

  lemma GroupShift(s: string, step: nat, i: int, j: int)
    requires step <= |s| && IsGroup(s[step..], i, j)
    ensures IsGroup(s, i + step, j + step) && s[i + step..j + step + 1] == s[step..][i..j + 1]
  {
    forall m | i + step < m < j + step ensures !IsBrace(s[m]) { assert s[m] == s[step..][m - step]; }
  }

  // ----- validate_pattern

  datatype PatternError =
    | EmptyPattern
    | UnknownTokens(tokens: set<string>)
    | NoSequence
    | BadReset
    | NoYear

  function UnknownIn(s: string): set<string> {
    set g | g in Braced(s) && g !in (set t | t in ALL_TOKENS :: Text(t))
  }

  function ValidatePattern(pattern: string, reset: Reset): Result<string, PatternError> {
    var candidate := Strip(pattern);
    if candidate == [] then Err(EmptyPattern)
    else if UnknownIn(candidate) != {} then Err(UnknownTokens(UnknownIn(candidate)))
    else if !Contains(candidate, Text(SEQ)) then Err(NoSequence)
    else if reset.Unknown? then Err(BadReset)
    else if reset.Yearly? && !Contains(candidate, Text(YYYY)) && !Contains(candidate, Text(YY)) then Err(NoYear)
    else Ok(candidate)
  }

  predicate ValidatePadding(padding: int) {
    MIN_PADDING <= padding <= MAX_PADDING
  }

  /** Acceptance, said without the scanner: every brace pair that encloses no
      brace spells a token, the counter occurs, and a yearly series has a year. */
  lemma AcceptedPatterns(pattern: string, reset: Reset)
    ensures ValidatePattern(pattern, reset).Ok? <==>
              var c := Strip(pattern);
              && (forall i, j :: IsGroup(c, i, j) ==> exists t :: c[i..j + 1] == Text(t))
              && Contains(c, Text(SEQ))
              && (reset == Never || (reset == Yearly && (Contains(c, Text(YYYY)) || Contains(c, Text(YY)))))
    ensures ValidatePattern(pattern, reset).Ok? ==> ValidatePattern(pattern, reset).value == Strip(pattern)
  {
    var c := Strip(pattern);
    if UnknownIn(c) == {} {
      forall i, j | IsGroup(c, i, j) ensures exists t :: c[i..j + 1] == Text(t) {
        BracedFindsEveryGroup(c, c[i..j + 1]);
        assert c[i..j + 1] !in UnknownIn(c);
      }
    } else {
      var g :| g in UnknownIn(c);
      BracedFindsEveryGroup(c, g);
      var i, j :| IsGroup(c, i, j) && c[i..j + 1] == g;
      forall t ensures g != Text(t) { EveryToken(t); }
    }
  }

  ghost predicate KnownGroups(c: string) {
    forall i, j :: IsGroup(c, i, j) ==> exists t :: c[i..j + 1] == Text(t)
  }

  /** Why a pattern is refused: the first of the five reasons that applies, and
      for unknown tokens exactly which. */
  lemma RefusedPatterns(pattern: string, reset: Reset, c: string, e: PatternError)
    requires c == Strip(pattern) && ValidatePattern(pattern, reset) == Err(e)
    ensures e.EmptyPattern? <==> c == []
    ensures e.UnknownTokens? <==> !KnownGroups(c)
    ensures e.UnknownTokens? ==> forall g :: g in e.tokens <==> HasGroup(c, g) && forall t :: g != Text(t)
    ensures e.NoSequence? <==> c != [] && KnownGroups(c) && forall i :: !OccursAt(c, "{SEQ}", i)
    ensures e.BadReset? ==> reset.Unknown?
    ensures e.NoYear? ==> reset.Yearly? && forall i :: !OccursAt(c, "{YYYY}", i) && !OccursAt(c, "{YY}", i)
  {
    ContainsExactly(c, Text(SEQ));
    ContainsExactly(c, Text(YYYY));
    ContainsExactly(c, Text(YY));
    UnknownsExactly(c);
  }

  lemma UnknownsExactly(c: string)
    ensures forall g :: g in UnknownIn(c) <==> HasGroup(c, g) && forall t :: g != Text(t)
    ensures UnknownIn(c) == {} <==> KnownGroups(c)
  {
    forall g ensures g in UnknownIn(c) <==> HasGroup(c, g) && forall t :: g != Text(t) {
      BracedFindsEveryGroup(c, g);
      forall t ensures t in ALL_TOKENS { EveryToken(t); }
    }
    if UnknownIn(c) == {} {
      forall i, j | IsGroup(c, i, j) ensures exists t :: c[i..j + 1] == Text(t) {
        assert c[i..j + 1] !in UnknownIn(c);
      }
    } else {
      var g :| g in UnknownIn(c);
      var i, j :| IsGroup(c, i, j) && c[i..j + 1] == g;
    }
  }

  // ----- format_number

  /** `format_number`: four replacements, one after the other. */
  function FormatNumber(pattern: string, value: nat, date: Date, padding: nat): string {
    var a := Replace(pattern, Text(YYYY), Substitute(YYYY, value, date, padding));
    var b := Replace(a, Text(YY), Substitute(YY, value, date, padding));
    var c := Replace(b, Text(MM), Substitute(MM, value, date, padding));
    Replace(c, Text(SEQ), Substitute(SEQ, value, date, padding))
  }

  function Substitute(t: Token, value: nat, date: Date, padding: nat): string {
    match t
    case YYYY => Padded(date.year, 4)
    case YY => Padded(date.year % 100, 2)
    case MM => Padded(date.month, 2)
    case SEQ => Padded(value, padding)
  }

  lemma TokenAtUnique(s: string, t: Token, u: Token)
    requires Text(t) <= s && Text(u) <= s
    ensures t == u
  {
    assert Text(t)[1] == s[1] && Text(u)[1] == s[1];
    assert Text(t)[3] == s[3] && Text(u)[3] == s[3];
  }

  /** One pass over the pattern, token by token: the tokens in `among` are
      rendered and everything else is copied. This is the reference reading. */
  function Render(p: string, among: set<Token>, env: Token -> string): string {
    if p == [] then []
    else if YYYY in among && Text(YYYY) <= p then env(YYYY) + Render(p[6..], among, env)
    else if YY in among && Text(YY) <= p then env(YY) + Render(p[4..], among, env)
    else if MM in among && Text(MM) <= p then env(MM) + Render(p[4..], among, env)
    else if SEQ in among && Text(SEQ) <= p then env(SEQ) + Render(p[5..], among, env)
    else [p[0]] + Render(p[1..], among, env)
  }

  predicate Numeric(env: Token -> string) {
    forall t :: env(t) != [] && AllDigits(env(t))
  }

  function Env(value: nat, date: Date, padding: nat): Token -> string {
    t => Substitute(t, value, date, padding)
  }

  lemma EnvNumeric(value: nat, date: Date, padding: nat)
    ensures Numeric(Env(value, date, padding))
  {
    forall t ensures Env(value, date, padding)(t) != [] && AllDigits(Env(value, date, padding)(t)) {
      ValPadded(date.year, 4);
      ValPadded(date.year % 100, 2);
      ValPadded(date.month, 2);
      ValPadded(value, padding);
    }
  }

  /** What `Render` does at a token and at anything else. */
  lemma RenderStep(p: string, among: set<Token>, env: Token -> string, t: Token)
    ensures t in among && Text(t) <= p ==> Render(p, among, env) == env(t) + Render(p[|Text(t)|..], among, env)
    ensures p != [] && (forall u :: u in among ==> !(Text(u) <= p)) ==>
              Render(p, among, env) == [p[0]] + Render(p[1..], among, env)
  {
    if t in among && Text(t) <= p {
      forall u | Text(u) <= p ensures u == t { TokenAtUnique(p, t, u); }
    }
  }

  lemma {:induction false} RenderNothing(p: string, env: Token -> string)
    ensures Render(p, {}, env) == p
  {
    if p != [] {
      RenderNothing(p[1..], env);
      assert p == [p[0]] + p[1..];
    }
  }

  /** Text without braces or digits that begins a rendering begins the pattern. */
  lemma {:induction false} RenderedPrefix(b: string, p: string, among: set<Token>, env: Token -> string)
    requires Numeric(env)
    requires forall i :: 0 <= i < |b| ==> b[i] != '{' && !IsDigit(b[i])
    ensures b <= Render(p, among, env) <==> b <= p
    decreases |b|
  {
    if b != [] {
      if p != [] {
        if t :| t in among && Text(t) <= p {
          RenderStep(p, among, env, t);
          assert Render(p, among, env)[0] == env(t)[0];
          assert IsDigit(env(t)[0]);
          assert p[0] == '{';
        } else {
          RenderStep(p, among, env, YY);
          RenderedPrefix(b[1..], p[1..], among, env);
          assert b == [b[0]] + b[1..];
          assert Render(p, among, env)[1..] == Render(p[1..], among, env);
        }
      }
    }
  }

  lemma SkipsFirst(c: char, s: string, t: Token, with: string)
    requires s != [] && s[0] == c != '{'
    ensures Replace(s, Text(t), with) == [c] + Replace(s[1..], Text(t), with)
  {
    assert !(Text(t) <= s);
  }

  lemma {:induction false} ReplaceSkipsDigits(d: string, rest: string, t: Token, with: string)
    requires AllDigits(d)
    ensures Replace(d + rest, Text(t), with) == d + Replace(rest, Text(t), with)
  {
    if d == [] {
      assert d + rest == rest;
    } else {
      SkipsFirst(d[0], d + rest, t, with);
      assert (d + rest)[1..] == d[1..] + rest;
      ReplaceSkipsDigits(d[1..], rest, t, with);
      assert [d[0]] + (d[1..] + Replace(rest, Text(t), with)) == d + Replace(rest, Text(t), with);
    }
  }

  /** A stretch with no opening brace is copied by `Render`. */
  lemma {:induction false} RenderCopies(b: string, rest: string, among: set<Token>, env: Token -> string)
    requires forall i :: 0 <= i < |b| ==> b[i] != '{'
    ensures Render(b + rest, among, env) == b + Render(rest, among, env)
  {
    if b == [] {
      assert b + rest == rest;
    } else {
      assert (b + rest)[1..] == b[1..] + rest;
      CopiesFirst(b + rest, among, env);
      RenderCopies(b[1..], rest, among, env);
      assert [b[0]] + (b[1..] + Render(rest, among, env)) == b + Render(rest, among, env);
    }
  }

  lemma CopiesFirst(p: string, among: set<Token>, env: Token -> string)
    requires p != [] && p[0] != '{'
    ensures Render(p, among, env) == [p[0]] + Render(p[1..], among, env)
  {
    RenderStep(p, among, env, YY);
  }

  lemma CopyBody(t: string, rest: string, among: set<Token>, env: Token -> string)
    requires t != [] && forall i :: 1 <= i < |t| ==> t[i] != '{'
    ensures [t[0]] + Render((t + rest)[1..], among, env) == t + Render(rest, among, env)
  {
    assert (t + rest)[1..] == t[1..] + rest;
    RenderCopies(t[1..], rest, among, env);
    assert t == [t[0]] + t[1..];
  }

  lemma RenderUntouchedToken(p: string, t: Token, among: set<Token>, env: Token -> string)
    requires Text(t) <= p && t !in among
    ensures Render(p, among, env) == Text(t) + Render(p[|Text(t)|..], among, env)
  {
    forall u | u in among ensures !(Text(u) <= p) {
      if Text(u) <= p { TokenAtUnique(p, t, u); }
    }
    var rest := p[|Text(t)|..];
    RenderStep(p, among, env, t);
    CopyBody(Text(t), rest, among, env);
    assert p == Text(t) + rest;
  }

  lemma PrefixSplit(t: string, c: char, rest: string)
    requires t != []
    ensures t <= [c] + rest <==> t[0] == c && t[1..] <= rest
  {
    assert t == [t[0]] + t[1..];
    if t <= [c] + rest { assert ([c] + rest)[1..] == rest; }
  }

  lemma EveryToken(t: Token)
    ensures t in ALL_TOKENS
  {
    match t case YYYY => case YY => case MM => case SEQ =>
  }

  /** One `replace` adds one token to the set already rendered. */
  lemma {:induction false} ReplaceAddsToken(p: string, t: Token, among: set<Token>, env: Token -> string)
    requires Numeric(env) && t !in among
    ensures Replace(Render(p, among, env), Text(t), env(t)) == Render(p, among + {t}, env)
    decreases |p|
  {
    var more := among + {t};
    if p == [] {
    } else if u :| u in among && Text(u) <= p {
      var rest := p[|Text(u)|..];
      RenderStep(p, among, env, u);
      RenderStep(p, more, env, u);
      ReplaceAddsToken(rest, t, among, env);
      ReplaceSkipsDigits(env(u), Render(rest, among, env), t, env(t));
    } else if Text(t) <= p {
      var rest := p[|Text(t)|..];
      RenderUntouchedToken(p, t, among, env);
      RenderStep(p, more, env, t);
      ReplaceAddsToken(rest, t, among, env);
      var r := Text(t) + Render(rest, among, env);
      assert r[|Text(t)|..] == Render(rest, among, env);
    } else {
      RenderStep(p, among, env, t);
      RenderStep(p, more, env, t);
      ReplaceSkipsPlain(p[0], p[1..], p, t, among, env);
      ReplaceAddsToken(p[1..], t, among, env);
    }
  }

  /** A character that begins no token in the pattern begins none in what has
      been rendered so far, so the replacement copies it. */
  lemma ReplaceSkipsPlain(c: char, rest: string, p: string, t: Token, among: set<Token>, env: Token -> string)
    requires Numeric(env) && p == [c] + rest && !(Text(t) <= p)
    ensures Replace([c] + Render(rest, among, env), Text(t), env(t))
              == [c] + Replace(Render(rest, among, env), Text(t), env(t))
  {
    var tail := Render(rest, among, env);
    RenderedPrefix(Text(t)[1..], rest, among, env);
    PrefixSplit(Text(t), c, tail);
    PrefixSplit(Text(t), c, rest);
    assert ([c] + tail)[1..] == tail;
  }

  /** The four sequential replacements are one token-by-token rendering, for
      every pattern: no replacement can create or destroy a later token. */
  lemma FormatIsOnePass(pattern: string, value: nat, date: Date, padding: nat)
    ensures FormatNumber(pattern, value, date, padding) == Render(pattern, ALL_TOKENS, Env(value, date, padding))
  {
    var env := Env(value, date, padding);
    EnvNumeric(value, date, padding);
    RenderNothing(pattern, env);
    ReplaceAddsToken(pattern, YYYY, {}, env);
    ReplaceAddsToken(pattern, YY, {} + {YYYY}, env);
    ReplaceAddsToken(pattern, MM, {} + {YYYY} + {YY}, env);
    ReplaceAddsToken(pattern, SEQ, {} + {YYYY} + {YY} + {MM}, env);
    assert {} + {YYYY} + {YY} + {MM} + {SEQ} == ALL_TOKENS;
  }

  // ----- What a number shows

  /** The text of a token, said by what it reads as: digits; two or four of
      them for the parts of the date; for the counter at least the padding, and
      zeros in front only to reach it. */
  predicate Reads(t: Token, s: string, value: nat, date: Date, padding: nat) {
    && s != [] && AllDigits(s)
    && match t
       case YYYY => |s| == 4 && Val(s) == date.year
       case YY => |s| == 2 && Val(s) == date.year % 100
       case MM => |s| == 2 && Val(s) == date.month
       case SEQ => Val(s) == value && |s| >= padding && (s[0] == '0' ==> |s| <= padding || s == "0")
  }

  /** The token a pattern begins with. */
  function FrontToken(p: string): Option<Token> {
    if Text(YYYY) <= p then Some(YYYY)
    else if Text(YY) <= p then Some(YY)
    else if Text(MM) <= p then Some(MM)
    else if Text(SEQ) <= p then Some(SEQ)
    else None
  }

  lemma FrontTokenIs(p: string)
    ensures forall t :: Text(t) <= p <==> FrontToken(p) == Some(t)
  {
    forall t | Text(t) <= p ensures FrontToken(p) == Some(t) {
      forall u | Text(u) <= p ensures u == t { TokenAtUnique(p, t, u); }
    }
  }

  /** `n` is the pattern with each token replaced by a text that reads as it
      should, and everything else as it stands. */
  ghost predicate Shows(p: string, n: string, value: nat, date: Date, padding: nat)
    decreases |p|
  {
    if p == [] then n == []
    else
      match FrontToken(p)
      case Some(t) =>
        exists k: nat :: k <= |n| && Reads(t, n[..k], value, date, padding)
                         && Shows(p[|Text(t)|..], n[k..], value, date, padding)
      case None => n != [] && n[0] == p[0] && Shows(p[1..], n[1..], value, date, padding)
  }

  lemma TokensRead(value: nat, date: Date, padding: nat, t: Token)
    ensures Reads(t, Substitute(t, value, date, padding), value, date, padding)
  {
    FixedWidths(value, date, padding);
    ValPadded(date.year, 4);
    ValPadded(date.year % 100, 2);
    ValPadded(date.month, 2);
    ValPadded(value, padding);
    PaddedFront(value, padding);
  }

  /** No other text reads the same way. */
  lemma OneReading(t: Token, s: string, r: string, value: nat, date: Date, padding: nat)
    requires Reads(t, s, value, date, padding) && Reads(t, r, value, date, padding)
    ensures s == r
  {
    if |s| == |r| {
      StrLessIsNumeric(s, r);
    } else if |s| < |r| {
      ShorterIsLess(s, r);
    } else {
      ShorterIsLess(r, s);
    }
  }

  /** The number of a document is exactly what the pattern says it shows, with
      the tokens written as they are documented. */
  lemma NumberShowsExactly(pattern: string, value: nat, date: Date, padding: nat, n: string)
    ensures n == FormatNumber(pattern, value, date, padding) <==> Shows(pattern, n, value, date, padding)
    ensures Text(YYYY) == "{YYYY}" && Text(YY) == "{YY}" && Text(MM) == "{MM}" && Text(SEQ) == "{SEQ}"
  {
    FormatIsOnePass(pattern, value, date, padding);
    RenderShows(pattern, value, date, padding, n);
  }

  lemma {:induction false} RenderShows(p: string, value: nat, date: Date, padding: nat, n: string)
    ensures n == Render(p, ALL_TOKENS, Env(value, date, padding)) <==> Shows(p, n, value, date, padding)
    decreases |p|
  {
    var env := Env(value, date, padding);
    FrontTokenIs(p);
    if p == [] {
    } else if FrontToken(p).Some? {
      var t := FrontToken(p).value;
      var rest := p[|Text(t)|..];
      EveryToken(t);
      RenderStep(p, ALL_TOKENS, env, t);
      TokensRead(value, date, padding, t);
      forall k: nat | k <= |n| && Reads(t, n[..k], value, date, padding)
        ensures n == env(t) + Render(rest, ALL_TOKENS, env) <==> Shows(rest, n[k..], value, date, padding)
      {
        OneReading(t, n[..k], env(t), value, date, padding);
        RenderShows(rest, value, date, padding, n[k..]);
        SplitAt(n, k, env(t), Render(rest, ALL_TOKENS, env));
      }
      if n == env(t) + Render(rest, ALL_TOKENS, env) { SplitAt(n, |env(t)|, env(t), Render(rest, ALL_TOKENS, env)); }
    } else {
      RenderStep(p, ALL_TOKENS, env, SEQ);
      if n != [] {
        RenderShows(p[1..], value, date, padding, n[1..]);
        assert n == [n[0]] + n[1..];
      }
    }
  }

  lemma SplitAt(n: string, k: nat, s: string, tail: string)
    requires k <= |n| && k == |s|
    ensures n == s + tail <==> n[..k] == s && n[k..] == tail
  {
    assert n == n[..k] + n[k..];
  }

  /** Between plain text the counter stands as it reads: `a{SEQ}b`. */
  lemma CounterBetween(a: string, b: string, value: nat, date: Date, padding: nat) returns (s: string)
    requires forall i :: 0 <= i < |a| ==> a[i] != '{'
    requires forall i :: 0 <= i < |b| ==> b[i] != '{'
    ensures FormatNumber(a + ("{SEQ}" + b), value, date, padding) == a + (s + b)
    ensures s != [] && AllDigits(s) && Val(s) == value && |s| >= padding
    ensures s[0] == '0' ==> |s| <= padding || s == "0"
  {
    var env := Env(value, date, padding);
    s := env(SEQ);
    TokensRead(value, date, padding, SEQ);
    FormatIsOnePass(a + ("{SEQ}" + b), value, date, padding);
    RenderCopies(a, "{SEQ}" + b, ALL_TOKENS, env);
    RenderStep("{SEQ}" + b, ALL_TOKENS, env, SEQ);
    assert ("{SEQ}" + b)[5..] == b;
    RenderCopies(b, [], ALL_TOKENS, env);
    assert b + [] == b;
  }

  // ----- When two numbers are the same number

  /** Occurrences found by substring search are those the renderer meets. */
  lemma {:induction false} OccursPast(p: string, t: Token, u: Token)
    requires Text(u) <= p
    ensures Contains(p, Text(t)) <==> t == u || Contains(p[|Text(u)|..], Text(t))
  {
    if t != u && Text(t) <= p { TokenAtUnique(p, t, u); }
    OccursAfterPlain(Text(u)[1..], p[|Text(u)|..], t);
    assert p[1..] == Text(u)[1..] + p[|Text(u)|..];
  }

  lemma {:induction false} OccursAfterPlain(b: string, rest: string, t: Token)
    requires forall i :: 0 <= i < |b| ==> b[i] != '{'
    ensures Contains(b + rest, Text(t)) <==> Contains(rest, Text(t))
  {
    if b == [] {
      assert b + rest == rest;
    } else {
      assert !(Text(t) <= b + rest) by { assert (b + rest)[0] == b[0]; }
      assert (b + rest)[1..] == b[1..] + rest;
      OccursAfterPlain(b[1..], rest, t);
    }
  }

  /** A longer counter text makes a longer number, if the counter occurs. */
  lemma {:induction false} RenderLength(p: string, e: Token -> string, f: Token -> string)
    requires |e(YYYY)| == |f(YYYY)| && |e(YY)| == |f(YY)| && |e(MM)| == |f(MM)|
    requires |e(SEQ)| < |f(SEQ)|
    ensures |Render(p, ALL_TOKENS, e)| <= |Render(p, ALL_TOKENS, f)|
    ensures Contains(p, Text(SEQ)) ==> |Render(p, ALL_TOKENS, e)| < |Render(p, ALL_TOKENS, f)|
    decreases |p|
  {
    if p == [] {
    } else if t :| t in ALL_TOKENS && Text(t) <= p {
      RenderStep(p, ALL_TOKENS, e, t);
      RenderStep(p, ALL_TOKENS, f, t);
      OccursPast(p, SEQ, t);
      RenderLength(p[|Text(t)|..], e, f);
    } else {
      RenderStep(p, ALL_TOKENS, e, SEQ);
      RenderStep(p, ALL_TOKENS, f, SEQ);
      RenderLength(p[1..], e, f);
    }
  }

  /** Renderings of one shape agree exactly when every occurring token agrees. */
  lemma {:induction false} RenderAligned(p: string, e: Token -> string, f: Token -> string)
    requires forall t :: |e(t)| == |f(t)|
    ensures |Render(p, ALL_TOKENS, e)| == |Render(p, ALL_TOKENS, f)|
    ensures Render(p, ALL_TOKENS, e) == Render(p, ALL_TOKENS, f) <==>
              forall t :: Contains(p, Text(t)) ==> e(t) == f(t)
    decreases |p|
  {
    if p == [] {
      assert forall t :: !Contains(p, Text(t));
    } else if t :| t in ALL_TOKENS && Text(t) <= p {
      var rest := p[|Text(t)|..];
      RenderStep(p, ALL_TOKENS, e, t);
      RenderStep(p, ALL_TOKENS, f, t);
      RenderAligned(rest, e, f);
      forall u ensures Contains(p, Text(u)) <==> u == t || Contains(rest, Text(u)) { OccursPast(p, u, t); }
      SplitEqual(e(t), Render(rest, ALL_TOKENS, e), f(t), Render(rest, ALL_TOKENS, f));
    } else {
      RenderStep(p, ALL_TOKENS, e, SEQ);
      RenderStep(p, ALL_TOKENS, f, SEQ);
      RenderAligned(p[1..], e, f);
      forall u ensures Contains(p, Text(u)) <==> Contains(p[1..], Text(u)) { EveryToken(u); }
      SplitEqual([p[0]], Render(p[1..], ALL_TOKENS, e), [p[0]], Render(p[1..], ALL_TOKENS, f));
    }
  }

  lemma SplitEqual(a: string, b: string, c: string, d: string)
    requires |a| == |c|
    ensures a + b == c + d <==> a == c && b == d
  {
    if a + b == c + d {
      assert a == (a + b)[..|a|] && b == (a + b)[|a|..];
      assert c == (c + d)[..|c|] && d == (c + d)[|c|..];
    }
  }

  lemma PaddedInjective(m: nat, n: nat, width: nat)
    ensures Padded(m, width) == Padded(n, width) <==> m == n
  {
    ValPadded(m, width);
    ValPadded(n, width);
  }

  lemma FixedWidths(value: nat, date: Date, padding: nat)
    ensures |Substitute(YYYY, value, date, padding)| == 4
    ensures |Substitute(YY, value, date, padding)| == 2
    ensures |Substitute(MM, value, date, padding)| == 2
  {
    assert Pow10(2) == 100 && Pow10(4) == 10000;
    PaddedWidth(date.year, 4);
    PaddedWidth(date.year % 100, 2);
    PaddedWidth(date.month, 2);
  }

  predicate TokenAgrees(t: Token, v: nat, d: Date, w: nat, e: Date) {
    match t
    case YYYY => d.year == e.year
    case YY => d.year % 100 == e.year % 100
    case MM => d.month == e.month
    case SEQ => v == w
  }

  /** The exact law of repeats for one pattern and padding: two numbers are
      equal just when the counters are equal and every date token that occurs
      prints the same. Values longer than the padding are covered. */
  lemma SameNumber(pattern: string, padding: nat, v: nat, d: Date, w: nat, e: Date)
    requires Contains(pattern, Text(SEQ))
    ensures FormatNumber(pattern, v, d, padding) == FormatNumber(pattern, w, e, padding) <==>
              && v == w
              && (Contains(pattern, Text(YYYY)) ==> d.year == e.year)
              && (Contains(pattern, Text(YY)) ==> d.year % 100 == e.year % 100)
              && (Contains(pattern, Text(MM)) ==> d.month == e.month)
  {
    var f, g := Env(v, d, padding), Env(w, e, padding);
    FormatIsOnePass(pattern, v, d, padding);
    FormatIsOnePass(pattern, w, e, padding);
    SameWidths(v, d, w, e, padding, f, g);
    SameTexts(v, d, w, e, padding, f, g);
    SameRendering(pattern, f, g);
  }

  lemma SameWidths(v: nat, d: Date, w: nat, e: Date, padding: nat, f: Token -> string, g: Token -> string)
    requires f == Env(v, d, padding) && g == Env(w, e, padding)
    ensures forall t :: t != SEQ ==> |f(t)| == |g(t)|
  {
    FixedWidths(v, d, padding);
    FixedWidths(w, e, padding);
  }

  lemma SameTexts(v: nat, d: Date, w: nat, e: Date, padding: nat, f: Token -> string, g: Token -> string)
    requires f == Env(v, d, padding) && g == Env(w, e, padding)
    ensures forall t :: f(t) == g(t) <==> TokenAgrees(t, v, d, w, e)
  {
    PaddedInjective(v, w, padding);
    PaddedInjective(d.year, e.year, 4);
    PaddedInjective(d.year % 100, e.year % 100, 2);
    PaddedInjective(d.month, e.month, 2);
  }

  /** Renderings whose widths differ in the counter at most. */
  lemma SameRendering(p: string, f: Token -> string, g: Token -> string)
    requires Contains(p, Text(SEQ)) && forall t :: t != SEQ ==> |f(t)| == |g(t)|
    ensures Render(p, ALL_TOKENS, f) == Render(p, ALL_TOKENS, g) <==> forall t :: Contains(p, Text(t)) ==> f(t) == g(t)
  {
    if |f(SEQ)| < |g(SEQ)| {
      RenderLength(p, f, g);
    } else if |g(SEQ)| < |f(SEQ)| {
      RenderLength(p, g, f);
    } else {
      RenderAligned(p, f, g);
    }
  }
}
