/** Exactly which runs of one number series collide, and a collision that an
    accepted edit leads to. */
module SeriesCollisions {
  import opened Digits
  import opened Calendar
  import opened Patterns
  import opened NumberSeries
  import opened SeriesRuns
  import opened SeriesLaws
  import opened SeriesOrder
  import opened Wrappers

  // ----- The exact condition over a run

  function CountYear(dates: seq<Date>, year: int): nat {
    if dates == [] then 0
    else CountYear(dates[..|dates| - 1], year) + if dates[|dates| - 1].year == year then 1 else 0
  }

  /** The how-manieth document of its year number `k` is. */
  function Ordinal(dates: seq<Date>, k: nat): nat
    requires k < |dates|
  {
    CountYear(dates[..k + 1], dates[k].year)
  }

  /** Two documents that the printed number cannot tell apart: the same place in
      their years, and years that differ by whole centuries. */
  predicate Twins(pattern: string, dates: seq<Date>, i: nat, j: nat)
    requires i < |dates| && j < |dates|
  {
    CenturyTwin(pattern, dates[i], dates[j]) && Ordinal(dates, i) == Ordinal(dates, j)
  }

  predicate NoTwins(pattern: string, dates: seq<Date>) {
    forall i, j :: 0 <= i < j < |dates| ==> !Twins(pattern, dates, i, j)
  }

  /** The state of a yearly series in which every one of `dates` was numbered by
      its place in its year. */
  ghost predicate Numbered(s: Series, pattern: string, padding: nat, dates: seq<Date>) {
    && Uncollided(s, pattern, padding, Yearly, dates) && Settled(s) && Witnessed(s)
    && (forall k :: 0 <= k < |dates| ==> s.issued[k].value == Ordinal(dates, k))
    && forall d: Date :: NextIn(s, PeriodKey(d)) == CountYear(dates, d.year) + 1
  }

  lemma OrdinalsOfPrefix(before: seq<Date>, d: Date, dates: seq<Date>)
    requires dates == before + [d]
    ensures forall k :: 0 <= k < |before| ==> Ordinal(dates, k) == Ordinal(before, k)
    ensures Ordinal(dates, |before|) == CountYear(before, d.year) + 1
    ensures forall year :: CountYear(dates, year) == CountYear(before, year) + if d.year == year then 1 else 0
  {
    assert dates[..|dates| - 1] == before && dates[..|before| + 1] == dates;
    forall k | 0 <= k < |before| ensures Ordinal(dates, k) == Ordinal(before, k) {
      assert dates[..k + 1] == before[..k + 1];
    }
  }

  lemma NextOrdinal(s: Series, d: Date, pattern: string, padding: nat, before: seq<Date>)
    requires Numbered(s, pattern, padding, before)
    ensures PlanValue(s, d) == CountYear(before, d.year) + 1
  {
    YearlyExtendedIsSettled(s, d, PlanNumber(s, d));
  }

  lemma NextCollides(s: Series, d: Date, pattern: string, padding: nat, before: seq<Date>, dates: seq<Date>)
    requires Numbered(s, pattern, padding, before) && dates == before + [d]
    ensures Allocate(s, d).1.Collision? <==> exists k :: 0 <= k < |before| && Twins(pattern, dates, k, |before|)
  {
    NextOrdinal(s, d, pattern, padding, before);
    OrdinalsOfPrefix(before, d, dates);
    YearlyCollision(s, d);
    forall k | 0 <= k < |before|
      ensures Twins(pattern, dates, k, |before|) <==>
                s.issued[k].value == PlanValue(s, d) && CenturyTwin(pattern, s.issued[k].date, d)
    {
      assert s.issued[k].date == before[k] == dates[k];
    }
  }

  lemma NextNumbered(s: Series, d: Date, pattern: string, padding: nat, before: seq<Date>, dates: seq<Date>)
    requires Numbered(s, pattern, padding, before) && dates == before + [d] && Allocate(s, d).1.Issued?
    ensures Numbered(Allocate(s, d).0, pattern, padding, dates)
  {
    var plan := PlanNumber(s, d);
    NextOrdinal(s, d, pattern, padding, before);
    ExtendedUncollided(s, d, pattern, padding, Yearly, before);
    YearlyExtendedIsSettled(s, d, plan);
    ExtendedIsWitnessed(s, d, plan, Allocate(s, d).0);
    ExtendedPlaces(s, d, plan, Allocate(s, d).0, before, dates);
  }

  lemma ExtendedPlaces(s: Series, d: Date, plan: Plan, after: Series, before: seq<Date>, dates: seq<Date>)
    requires Inv(s) && s.reset.Yearly? && Settled(s) && PlansFor(plan, s, d) && after == Extended(s, d, plan)
    requires dates == before + [d] && |s.issued| == |before| && plan.value == CountYear(before, d.year) + 1
    requires forall k :: 0 <= k < |before| ==> s.issued[k].value == Ordinal(before, k)
    requires forall e: Date :: NextIn(s, PeriodKey(e)) == CountYear(before, e.year) + 1
    ensures forall k :: 0 <= k < |dates| ==> after.issued[k].value == Ordinal(dates, k)
    ensures forall e: Date :: NextIn(after, PeriodKey(e)) == CountYear(dates, e.year) + 1
  {
    OrdinalsOfPrefix(before, d, dates);
    forall e: Date ensures NextIn(after, PeriodKey(e)) == CountYear(dates, e.year) + 1 {
      YearlyTakeExtends(s, d, plan, PeriodKey(e));
      PeriodOrder(d, e);
    }
    forall k | 0 <= k < |dates| ensures after.issued[k].value == Ordinal(dates, k) {
      assert after.issued[k] == if k < |before| then s.issued[k] else RowFor(plan, d);
    }
  }

  lemma NoTwinsOneMore(pattern: string, before: seq<Date>, d: Date, dates: seq<Date>)
    requires dates == before + [d]
    ensures NoTwins(pattern, dates) <==>
              NoTwins(pattern, before) && forall k :: 0 <= k < |before| ==> !Twins(pattern, dates, k, |before|)
  {
    OrdinalsOfPrefix(before, d, dates);
    forall i, j | 0 <= i < j < |before| ensures Twins(pattern, dates, i, j) <==> Twins(pattern, before, i, j) {
      assert dates[i] == before[i] && dates[j] == before[j];
    }
  }

  lemma {:induction false} NumberedExactly(first: Series, pattern: string, padding: nat, dates: seq<Date>)
    requires Numbered(first, pattern, padding, [])
    ensures NoTwins(pattern, dates) ==> Numbered(Run(first, Takes(dates)), pattern, padding, dates)
    ensures !NoTwins(pattern, dates) ==> |Run(first, Takes(dates)).issued| < |dates|
  {
    if dates == [] {
      assert Takes(dates) == [];
    } else {
      var n := |dates| - 1;
      var before, d := dates[..n], dates[n];
      assert dates == before + [d];
      NumberedExactly(first, pattern, padding, before);
      TakesOneMore(first, before, d, dates);
      NoTwinsOneMore(pattern, before, d, dates);
      var s := Run(first, Takes(before));
      if NoTwins(pattern, before) {
        NextCollides(s, d, pattern, padding, before, dates);
        if Allocate(s, d).1.Issued? {
          NextNumbered(s, d, pattern, padding, before, dates);
        }
      } else {
        var plan := TakeExtendsOrNot(s, d, false);
      }
    }
  }

  /** A yearly series under one pattern gives every document of a run its number
      exactly when no two of them have the same place in years that the pattern
      cannot tell apart. */
  lemma EveryDocumentNumberedExactly(pattern: string, padding: nat, start: pos, dates: seq<Date>)
    requires ValidatePattern(pattern, Yearly).Ok?
    ensures |Run(Fresh(pattern, padding, Yearly, start), Takes(dates)).issued| == |dates| <==> NoTwins(pattern, dates)
  {
    FreshInv(pattern, padding, Yearly, start);
    NumberedExactly(Fresh(pattern, padding, Yearly, start), pattern, padding, dates);
  }

  // ----- A collision after an accepted edit

  lemma FirstCharacterStays(pattern: string, v: nat, d: Date, padding: nat)
    requires pattern != [] && pattern[0] != '{'
    ensures FormatNumber(pattern, v, d, padding) != [] && FormatNumber(pattern, v, d, padding)[0] == pattern[0]
  {
    FormatIsOnePass(pattern, v, d, padding);
    CopiesFirst(pattern, {YYYY, YY, MM, SEQ}, Env(v, d, padding));
  }

  /** Two documents of one year, one post-dated into a later year, and then a
      switch to continuous numbering under another pattern, accepted on a day of
      the first year: the next document of that day cannot be numbered. */
  lemma AcceptedEditCanCollide(p: string, q: string, padding: nat, start: pos, a: Date, b: Date)
    requires ValidatePattern(p, Yearly).Ok? && Contains(p, Text(YYYY)) && ValidatePattern(q, Never).Ok?
    requires ValidatePadding(padding) && a.year < b.year
    requires p != [] && q != [] && p[0] != '{' && q[0] != '{' && p[0] != q[0]
    ensures var s := Run(Fresh(p, padding, Yearly, start), Takes([a, a, b]));
            var c := Changes(Some(q), None, Some(Never), None, None);
            Edit(s, c, a).1.Saved? && Allocate(Edit(s, c, a).0, a).1.Collision?
  {
    var dates := [a, a, b];
    FreshInv(p, padding, Yearly, start);
    NumberedExactly(Fresh(p, padding, Yearly, start), p, padding, dates);
    assert NoTwins(p, dates);
    PlacesOfThree(a, b, dates);
    PostDatedEdit(Run(Fresh(p, padding, Yearly, start), Takes(dates)), p, q, padding, a, b, dates);
  }

  lemma PlacesOfThree(a: Date, b: Date, dates: seq<Date>)
    requires dates == [a, a, b] && a.year != b.year
    ensures Ordinal(dates, 1) == 2 && CountYear(dates, b.year) == 1
  {
    OrdinalsOfPrefix([], a, [a]);
    OrdinalsOfPrefix([a], a, [a, a]);
    OrdinalsOfPrefix([a, a], b, dates);
    assert CountYear([a, a], b.year) == CountYear([a], b.year) == CountYear([], b.year) == 0;
  }

  lemma PostDatedEdit(s: Series, p: string, q: string, padding: nat, a: Date, b: Date, dates: seq<Date>)
    requires Numbered(s, p, padding, dates) && dates == [a, a, b] && a.year < b.year
    requires Ordinal(dates, 1) == 2 && CountYear(dates, b.year) == 1
    requires ValidatePattern(q, Never).Ok? && ValidatePadding(padding)
    requires p != [] && q != [] && p[0] != '{' && q[0] != '{' && p[0] != q[0]
    ensures var c := Changes(Some(q), None, Some(Never), None, None);
            Edit(s, c, a).1.Saved? && Allocate(Edit(s, c, a).0, a).1.Collision?
  {
    CurrentIsLatest(s, p, padding, a, b, dates);
    var c := Changes(Some(q), None, Some(Never), None, None);
    var probe := Proposed(s, c);
    FirstCharacterStays(q, probe.nextValue, a, padding);
    forall k | 0 <= k < |s.issued| ensures s.issued[k].number != PlanNumber(probe, a).number {
      FirstCharacterStays(p, s.issued[k].value, s.issued[k].date, padding);
    }
    assert Edit(s, c, a) == (probe, Saved);
    assert s.issued[1].period == PeriodKey(a) && s.issued[1].value == 2;
    assert Violates(probe.issued[1], RowFor(PlanNumber(probe, a), a));
  }

  lemma CurrentIsLatest(s: Series, p: string, padding: nat, a: Date, b: Date, dates: seq<Date>)
    requires Numbered(s, p, padding, dates) && dates == [a, a, b] && a.year < b.year && CountYear(dates, b.year) == 1
    ensures s.currentPeriod == Some(PeriodKey(b)) && s.nextValue == 2
  {
    assert s.issued[2].date == b;
    var k :| 0 <= k < |s.issued| && s.issued[k].period == s.currentPeriod.value;
    assert s.issued[k].date == dates[k];
    PeriodOrder(a, b);
    assert NextIn(s, PeriodKey(b)) == 2;
  }

  /** `A-{YYYY}-{SEQ}`, or another capital letter in front, is accepted. */
  lemma LetterPatternAccepted(x: char, p: string, reset: Reset)
    requires 'A' <= x <= 'Z' && p == [x] + "-{YYYY}-{SEQ}" && !reset.Unknown?
    ensures ValidatePattern(p, reset) == Ok(p) && Contains(p, Text(YYYY))
  {
    LetterPatternTokens(x, p);
    LetterPatternGroups(x, p);
    AcceptedPatterns(p, reset);
  }

  lemma LetterPatternTokens(x: char, p: string)
    requires 'A' <= x <= 'Z' && p == [x] + "-{YYYY}-{SEQ}"
    ensures p != [] && Strip(p) == p && Contains(p, Text(YYYY)) && Contains(p, Text(SEQ))
  {
    ContainsWithin(p[..2], Text(YYYY), p[8..], Text(YYYY));
    ContainsWithin(p[..9], Text(SEQ), [], Text(SEQ));
    assert p == p[..2] + Text(YYYY) + p[8..] && p == p[..9] + Text(SEQ) + [];
  }

  lemma LetterPatternGroups(x: char, p: string)
    requires 'A' <= x <= 'Z' && p == [x] + "-{YYYY}-{SEQ}"
    ensures forall i, j :: IsGroup(p, i, j) ==> exists t :: p[i..j + 1] == Text(t)
  {
    forall i, j | IsGroup(p, i, j) ensures exists t :: p[i..j + 1] == Text(t) {
      assert (i == 2 || i == 9) && (j == 7 || j == 13);
      assert p[7] == '}' && p[2..8] == Text(YYYY) && p[9..14] == Text(SEQ);
    }
  }

  /** For instance from `A-{YYYY}-{SEQ}` to `B-{YYYY}-{SEQ}` in 2026, with one
      document post-dated into 2027. */
  lemma AcceptedEditCollides(p: string, q: string, padding: nat, start: pos)
    requires p == ['A'] + "-{YYYY}-{SEQ}" && q == ['B'] + "-{YYYY}-{SEQ}" && ValidatePadding(padding)
    ensures var a, b: Date := Date(2026, 12, 30), Date(2027, 1, 2);
            var s := Run(Fresh(p, padding, Yearly, start), Takes([a, a, b]));
            var c := Changes(Some(q), None, Some(Never), None, None);
            Edit(s, c, a).1.Saved? && Allocate(Edit(s, c, a).0, a).1.Collision?
  {
    LetterPatternAccepted('A', p, Yearly);
    LetterPatternAccepted('B', q, Never);
    AcceptedEditCanCollide(p, q, padding, start, Date(2026, 12, 30), Date(2027, 1, 2));
  }

  // ----- A run without a warning that is out of order

  /** The rows of documents dated `a`, one for each of `values`. */
  function RowsOf(p: string, padding: nat, a: Date, values: seq<nat>): seq<Allocation> {
    seq(|values|, k requires 0 <= k < |values| =>
      Allocation(PeriodKey(a), values[k], FormatNumber(p, values[k], a, padding), a))
  }

  function Standing(p: string, padding: nat, reset: Reset, next: nat, current: Date, a: Date,
                    values: seq<nat>): Series {
    Series(p, padding, reset, next, Some(PeriodKey(current)), true, RowsOf(p, padding, a, values))
  }

  lemma OtherNumbers(p: string, padding: nat, reset: Reset, a: Date, values: seq<nat>, v: nat, d: Date)
    requires ValidatePattern(p, reset).Ok? && v !in values
    ensures forall k :: 0 <= k < |values| ==> RowsOf(p, padding, a, values)[k].number != FormatNumber(p, v, d, padding)
  {
    AcceptedHasTokens(p, reset);
    forall k | 0 <= k < |values| ensures FormatNumber(p, values[k], a, padding) != FormatNumber(p, v, d, padding) {
      assert values[k] in values;
      SameNumber(p, padding, values[k], a, v, d);
    }
  }

  lemma NoneIsLater(p: string, padding: nat, a: Date, values: seq<nat>, s: Series, d: Date)
    requires s.issued == RowsOf(p, padding, a, values) && !Before(d, a)
    ensures PlanNumber(s, d).warning.None?
  {
    WarnsExactlyWhenOutOfOrder(s, d);
  }

  /** A document dated `a` is numbered by the counter, wherever that stands. */
  lemma NumberedByCounter(s: Series, p: string, padding: nat, reset: Reset, next: pos, current: Date, a: Date,
                          values: seq<nat>)
    requires ValidatePattern(p, reset).Ok? && next !in values
    requires s == Standing(p, padding, reset, next, current, a, values)
    requires a == current || (reset.Never? && a.year < current.year)
    ensures Step(s, Take(a, false)) == Standing(p, padding, reset, next + 1, current, a, values + [next])
    ensures PlanNumber(s, a).warning.None?
  {
    PeriodOrder(a, current);
    PeriodOrder(current, a);
    OtherNumbers(p, padding, reset, a, values, next, a);
    NoneIsLater(p, padding, a, values, s, a);
    var row := RowFor(PlanNumber(s, a), a);
    assert !Collides(s.issued, row);
    assert RowsOf(p, padding, a, values + [next]) == RowsOf(p, padding, a, values) + [row];
  }

  lemma ModeAccepted(p: string)
    requires ValidatePattern(p, Yearly).Ok?
    ensures ValidatePattern(p, Never).Ok?
  {
  }

  lemma CounterRaised(s: Series, p: string, padding: nat, a: Date)
    requires ValidatePattern(p, Yearly).Ok? && ValidatePadding(padding)
               && s == Standing(p, padding, Yearly, 2, a, a, [1])
    ensures Step(s, Change(Changes(None, None, None, Some(3), None), a)) == Standing(p, padding, Yearly, 3, a, a, [1])
  {
    OtherNumbers(p, padding, Yearly, a, [1], 3, a);
    HighestBounds(s.issued, PeriodKey(a));
    PeriodOrder(a, a);
  }

  lemma FirstOfNextYear(s: Series, p: string, padding: nat, a: Date, b: Date)
    requires a.year < b.year && s == Standing(p, padding, Yearly, 4, a, a, [1, 3])
    ensures PlanValue(s, b) == 1
  {
    PeriodOrder(a, b);
    HighestBounds(s.issued, PeriodKey(b));
    assert forall k :: 0 <= k < |s.issued| ==> s.issued[k].period == PeriodKey(a);
  }

  lemma SwallowedTwin(s: Series, p: string, padding: nat, a: Date, b: Date)
    requires ValidatePattern(p, Yearly).Ok? && CenturyTwin(p, a, b) && a.year < b.year
    requires s == Standing(p, padding, Yearly, 4, a, a, [1, 3])
    ensures Step(s, Take(b, true)) == Standing(p, padding, Yearly, 2, b, a, [1, 3])
    ensures PlanNumber(s, b).warning.None?
  {
    FirstOfNextYear(s, p, padding, a, b);
    AcceptedHasTokens(p, Yearly);
    SameNumber(p, padding, 1, a, 1, b);
    assert Violates(s.issued[0], RowFor(PlanNumber(s, b), b));
    NoneIsLater(p, padding, a, [1, 3], s, b);
    PeriodOrder(b, a);
  }

  lemma SwitchedToContinuous(s: Series, p: string, padding: nat, a: Date, b: Date)
    requires ValidatePattern(p, Yearly).Ok? && ValidatePadding(padding) && a.year < b.year
    requires s == Standing(p, padding, Yearly, 2, b, a, [1, 3])
    ensures Step(s, Change(Changes(None, None, Some(Never), None, None), b))
              == Standing(p, padding, Never, 2, b, a, [1, 3])
  {
    ModeAccepted(p);
    OtherNumbers(p, padding, Never, a, [1, 3], 2, b);
    PeriodOrder(a, b);
    HighestBounds(s.issued, PeriodKey(b));
    assert forall k :: 0 <= k < |s.issued| ==> s.issued[k].period == PeriodKey(a);
  }

  lemma FirstStands(p: string, padding: nat, start: pos, a: Date)
    requires ValidatePattern(p, Yearly).Ok?
    ensures Step(Fresh(p, padding, Yearly, start), Take(a, false)) == Standing(p, padding, Yearly, 2, a, a, [1])
  {
    var s := Fresh(p, padding, Yearly, start);
    assert PlanValue(s, a) == 1;
    assert s.issued + [RowFor(PlanNumber(s, a), a)] == RowsOf(p, padding, a, [1]);
  }

  /** The six operations: number, raise the counter, number, commit a collision
      of the century twin, switch to continuous numbering, number again. */
  function OrderBreaker(a: Date, b: Date): seq<Op> {
    [Take(a, false), Change(Changes(None, None, None, Some(3), None), a), Take(a, false), Take(b, true),
     Change(Changes(None, None, Some(Never), None, None), b), Take(a, false)]
  }

  /** The first `i` operations met no warning and led to `t`. */
  predicate Reaches(s: Series, ops: seq<Op>, i: nat, t: Series)
    requires i <= |ops|
  {
    Run(s, ops[..i]) == t && NoWarnings(s, ops[..i])
  }

  lemma NextReached(s: Series, ops: seq<Op>, i: nat, t: Series)
    requires i < |ops| && Reaches(s, ops, i, t) && (ops[i].Take? ==> PlanNumber(t, ops[i].date).warning.None?)
    ensures Reaches(s, ops, i + 1, Step(t, ops[i]))
  {
    assert ops[..i + 1] == ops[..i] + [ops[i]];
    RunOfFront(s, ops[..i + 1], ops[..i], ops[i]);
  }

  /** Under every pattern that repeats after a century, these six operations
      meet no warning and end out of order: 1, 3, 2 in one year. */
  lemma OrderCanBreak(p: string, padding: nat, start: pos, a: Date, b: Date)
    requires ValidatePattern(p, Yearly).Ok? && ValidatePadding(padding) && CenturyTwin(p, a, b) && a.year < b.year
    ensures var s := Fresh(p, padding, Yearly, start);
            && NoWarnings(s, OrderBreaker(a, b))
            && ValuesIn(Run(s, OrderBreaker(a, b)).issued, PeriodKey(a)) == [1, 3, 2]
            && !InOrder(Run(s, OrderBreaker(a, b)).issued)
  {
    var s, ops := Fresh(p, padding, Yearly, start), OrderBreaker(a, b);
    FirstFour(s, p, padding, start, a, b, ops);
    LastTwo(s, p, padding, a, b, ops);
    assert ops[..6] == ops;
    OneThreeTwo(p, padding, a, Run(s, ops).issued);
  }

  lemma FirstFour(s: Series, p: string, padding: nat, start: pos, a: Date, b: Date, ops: seq<Op>)
    requires ValidatePattern(p, Yearly).Ok? && ValidatePadding(padding) && CenturyTwin(p, a, b) && a.year < b.year
    requires s == Fresh(p, padding, Yearly, start) && |ops| == 6
    requires ops[0] == ops[2] == Take(a, false) && ops[3] == Take(b, true)
    requires ops[1] == Change(Changes(None, None, None, Some(3), None), a)
    ensures Reaches(s, ops, 4, Standing(p, padding, Yearly, 2, b, a, [1, 3]))
  {
    First(s, p, padding, start, a, ops);
    Second(s, p, padding, a, ops, Standing(p, padding, Yearly, 2, a, a, [1]));
    NextByCounter(s, p, padding, Yearly, 3, a, a, [1], ops, 2, [1, 3]);
    Fourth(s, p, padding, a, b, ops, Standing(p, padding, Yearly, 4, a, a, [1, 3]));
  }

  lemma LastTwo(s: Series, p: string, padding: nat, a: Date, b: Date, ops: seq<Op>)
    requires ValidatePattern(p, Yearly).Ok? && ValidatePadding(padding) && a.year < b.year && |ops| == 6
    requires ops[4] == Change(Changes(None, None, Some(Never), None, None), b) && ops[5] == Take(a, false)
    requires Reaches(s, ops, 4, Standing(p, padding, Yearly, 2, b, a, [1, 3]))
    ensures Reaches(s, ops, 6, Standing(p, padding, Never, 3, b, a, [1, 3, 2]))
  {
    Fifth(s, p, padding, a, b, ops, Standing(p, padding, Yearly, 2, b, a, [1, 3]));
    ModeAccepted(p);
    NextByCounter(s, p, padding, Never, 2, b, a, [1, 3], ops, 5, [1, 3, 2]);
  }

  lemma First(s: Series, p: string, padding: nat, start: pos, a: Date, ops: seq<Op>)
    requires ValidatePattern(p, Yearly).Ok? && s == Fresh(p, padding, Yearly, start)
    requires |ops| > 0 && ops[0] == Take(a, false)
    ensures Reaches(s, ops, 1, Standing(p, padding, Yearly, 2, a, a, [1]))
  {
    FirstStands(p, padding, start, a);
    assert Reaches(s, ops, 0, s);
    NextReached(s, ops, 0, s);
  }

  lemma Second(s: Series, p: string, padding: nat, a: Date, ops: seq<Op>, s1: Series)
    requires ValidatePattern(p, Yearly).Ok? && ValidatePadding(padding)
    requires |ops| > 1 && ops[1] == Change(Changes(None, None, None, Some(3), None), a)
    requires s1 == Standing(p, padding, Yearly, 2, a, a, [1]) && Reaches(s, ops, 1, s1)
    ensures Reaches(s, ops, 2, Standing(p, padding, Yearly, 3, a, a, [1]))
  {
    CounterRaised(s1, p, padding, a);
    NextReached(s, ops, 1, s1);
  }

  lemma Fourth(s: Series, p: string, padding: nat, a: Date, b: Date, ops: seq<Op>, s3: Series)
    requires ValidatePattern(p, Yearly).Ok? && CenturyTwin(p, a, b) && a.year < b.year
    requires |ops| > 3 && ops[3] == Take(b, true)
    requires s3 == Standing(p, padding, Yearly, 4, a, a, [1, 3]) && Reaches(s, ops, 3, s3)
    ensures Reaches(s, ops, 4, Standing(p, padding, Yearly, 2, b, a, [1, 3]))
  {
    SwallowedTwin(s3, p, padding, a, b);
    NextReached(s, ops, 3, s3);
  }

  lemma Fifth(s: Series, p: string, padding: nat, a: Date, b: Date, ops: seq<Op>, s4: Series)
    requires ValidatePattern(p, Yearly).Ok? && ValidatePadding(padding) && a.year < b.year
    requires |ops| > 4 && ops[4] == Change(Changes(None, None, Some(Never), None, None), b)
    requires s4 == Standing(p, padding, Yearly, 2, b, a, [1, 3]) && Reaches(s, ops, 4, s4)
    ensures Reaches(s, ops, 5, Standing(p, padding, Never, 2, b, a, [1, 3]))
  {
    SwitchedToContinuous(s4, p, padding, a, b);
    NextReached(s, ops, 4, s4);
  }

  /** The third operation, and the sixth. */
  lemma NextByCounter(s: Series, p: string, padding: nat, reset: Reset, next: pos, current: Date, a: Date,
                      values: seq<nat>, ops: seq<Op>, i: nat, all: seq<nat>)
    requires ValidatePattern(p, reset).Ok? && next !in values && all == values + [next]
    requires a == current || (reset.Never? && a.year < current.year)
    requires i < |ops| && ops[i] == Take(a, false)
    requires Reaches(s, ops, i, Standing(p, padding, reset, next, current, a, values))
    ensures Reaches(s, ops, i + 1, Standing(p, padding, reset, next + 1, current, a, all))
  {
    var t := Standing(p, padding, reset, next, current, a, values);
    NumberedByCounter(t, p, padding, reset, next, current, a, values);
    NextReached(s, ops, i, t);
  }

  lemma {:induction false} ValuesOfRows(p: string, padding: nat, a: Date, values: seq<nat>)
    ensures ValuesIn(RowsOf(p, padding, a, values), PeriodKey(a)) == values
  {
    if values != [] {
      var rows, init := RowsOf(p, padding, a, values), values[..|values| - 1];
      assert rows[..|rows| - 1] == RowsOf(p, padding, a, init);
      ValuesOfRows(p, padding, a, init);
      assert values == init + [values[|values| - 1]];
    }
  }

  lemma OneThreeTwo(p: string, padding: nat, a: Date, issued: seq<Allocation>)
    requires issued == RowsOf(p, padding, a, [1, 3, 2])
    ensures ValuesIn(issued, PeriodKey(a)) == [1, 3, 2] && !InOrder(issued)
  {
    ValuesOfRows(p, padding, a, [1, 3, 2]);
    assert issued[1].value == 3 && issued[2].value == 2 && issued[1].period == issued[2].period == PeriodKey(a);
    PeriodOrder(a, a);
  }
}
