/** The promises of the number-series engine, over every run. */
module SeriesLaws {
  import opened Digits
  import opened Calendar
  import opened Patterns
  import opened NumberSeries
  import opened SeriesRuns
  import opened Wrappers

  // ----- Mode switches and the turn of the year

  lemma CurrentPeriodNeverGoesBack(s: Series, op: Op)
    requires Inv(s) && s.currentPeriod.Some?
    ensures Step(s, op).currentPeriod.Some?
    ensures !StrLess(Step(s, op).currentPeriod.value, s.currentPeriod.value)
  {
    var y: Date :| s.currentPeriod.value == PeriodKey(y);
    PeriodOrder(y, y);
    if op.Take? { PeriodOrder(op.date, y); PeriodOrder(y, op.date); }
  }

  lemma {:induction false} CurrentPeriodNeverGoesBackInRuns(s: Series, ops: seq<Op>)
    requires Inv(s) && s.currentPeriod.Some?
    ensures Run(s, ops).currentPeriod.Some?
    ensures !StrLess(Run(s, ops).currentPeriod.value, s.currentPeriod.value)
  {
    var y: Date :| s.currentPeriod.value == PeriodKey(y);
    if ops == [] {
      PeriodOrder(y, y);
    } else {
      var mid := Run(s, ops[..|ops| - 1]);
      CurrentPeriodNeverGoesBackInRuns(s, ops[..|ops| - 1]);
      RunKeepsInv(s, ops[..|ops| - 1]);
      RunKeepsInv(s, ops);
      CurrentPeriodNeverGoesBack(mid, ops[|ops| - 1]);
      var m: Date :| mid.currentPeriod.value == PeriodKey(m);
      var n: Date :| Run(s, ops).currentPeriod.value == PeriodKey(n);
      PeriodOrder(m, y);
      PeriodOrder(n, m);
      PeriodOrder(n, y);
    }
  }

  /** A switch in either direction leaves the current year's next value alone,
      and under a yearly reset every later year opens at 1 and says so. */
  lemma SwitchTakesEffectAtTheBoundary(s: Series, d: Date)
    requires Inv(s) && s.currentPeriod.Some?
    ensures PeriodKey(d) == s.currentPeriod.value ==>
              && PlanValue(s.(reset := Yearly), d) == PlanValue(s.(reset := Never), d) == s.nextValue
              && !PlanNumber(s.(reset := Yearly), d).startsNewPeriod
    ensures StrLess(s.currentPeriod.value, PeriodKey(d)) ==>
              && PlanValue(s.(reset := Yearly), d) == 1
              && PlanNumber(s.(reset := Yearly), d).startsNewPeriod
              && PlanValue(s.(reset := Never), d) == s.nextValue
  {
    HighestBounds(s.issued, PeriodKey(d));
    var y: Date :| s.currentPeriod.value == PeriodKey(y);
    PeriodOrder(y, d);
    PeriodOrder(d, y);
    PeriodOrder(y, y);
    assert !StrLess(PeriodKey(y), PeriodKey(y));
  }

  // ----- Gap-free sequences

  /** The values issued in one period, in the order they were issued. */
  function ValuesIn(issued: seq<Allocation>, period: string): seq<nat> {
    if issued == [] then []
    else
      var last := issued[|issued| - 1];
      ValuesIn(issued[..|issued| - 1], period) + if last.period == period then [last.value] else []
  }

  function Consecutive(from: nat, count: nat): (r: seq<nat>)
    ensures |r| == count
  {
    seq(count, i requires i >= 0 => from + i)
  }

  /** What the next document of a period will be numbered, on a yearly series. */
  function NextIn(s: Series, period: string): nat {
    if s.currentPeriod == Some(period) then s.nextValue else HighestIn(s.issued, period) + 1
  }

  /** The counter of the current period is the one its allocations imply. */
  predicate Settled(s: Series) {
    s.currentPeriod.Some? ==> s.nextValue == HighestIn(s.issued, s.currentPeriod.value) + 1
  }

  /** Sent, and other than what is there. */
  predicate Alters<T(==)>(sent: Option<T>, present: T) {
    sent.Some? && sent.value != present
  }

  /** An operation that keeps counting: a collision is rolled back, and an edit
      alters neither the counter nor the mode. */
  predicate KeepsCounting(s: Series, op: Op) {
    match op
    case Take(_, swallow) => !swallow
    case Change(c, _) => !Alters(c.reset, s.reset) && !Alters(c.nextValue, s.nextValue)
  }

  predicate AllKeepCounting(s: Series, ops: seq<Op>) {
    forall i :: 0 <= i < |ops| ==> KeepsCounting(Run(s, ops[..i]), ops[i])
  }

  lemma KeepCountingOfFront(s: Series, ops: seq<Op>, front: seq<Op>)
    requires AllKeepCounting(s, ops) && ops != [] && front == ops[..|ops| - 1]
    ensures AllKeepCounting(s, front)
  {
    forall i | 0 <= i < |front| ensures KeepsCounting(Run(s, front[..i]), front[i]) {
      assert front[..i] == ops[..i] && front[i] == ops[i];
    }
  }

  /** The series after a successful allocation of `plan`. */
  function Extended(s: Series, d: Date, plan: Plan): Series {
    MoveCounter(s, plan).(issued := s.issued + [RowFor(plan, d)])
  }

  predicate PlansFor(plan: Plan, s: Series, d: Date) {
    plan.period == PeriodKey(d) && plan.value == PlanValue(s, d)
  }

  lemma TakeExtendsOrNot(s: Series, d: Date, swallow: bool) returns (plan: Plan)
    ensures PlansFor(plan, s, d) && plan == PlanNumber(s, d)
    ensures Step(s, Take(d, swallow)) == s || Step(s, Take(d, swallow)) == Extended(s, d, plan)
            || (swallow && Step(s, Take(d, swallow)) == MoveCounter(s, plan))
  {
    plan := PlanNumber(s, d);
  }

  lemma ExtendedCounts(s: Series, d: Date, plan: Plan, p: string)
    requires PlansFor(plan, s, d)
    ensures ValuesIn(Extended(s, d, plan).issued, p) ==
              ValuesIn(s.issued, p) + if plan.period == p then [plan.value] else []
    ensures HighestIn(Extended(s, d, plan).issued, p) ==
              if plan.period == p && plan.value > HighestIn(s.issued, p) then plan.value else HighestIn(s.issued, p)
  {
    var t := Extended(s, d, plan);
    assert t.issued[..|t.issued| - 1] == s.issued;
  }

  lemma YearlyTakeExtends(s: Series, d: Date, plan: Plan, p: string)
    requires Inv(s) && s.reset.Yearly? && Settled(s) && PlansFor(plan, s, d)
    ensures var t := Extended(s, d, plan);
            && t.reset == Yearly && Settled(t)
            && (plan.period == p ==>
                  ValuesIn(t.issued, p) == ValuesIn(s.issued, p) + [NextIn(s, p)] && NextIn(t, p) == NextIn(s, p) + 1)
            && (plan.period != p ==>
                  ValuesIn(t.issued, p) == ValuesIn(s.issued, p) && NextIn(t, p) == NextIn(s, p))
  {
    YearlyExtendedIsSettled(s, d, plan);
    ExtendedCounts(s, d, plan, p);
  }

  /** A yearly plan is the next value of its period, and the counter stays settled. */
  lemma YearlyExtendedIsSettled(s: Series, d: Date, plan: Plan)
    requires Inv(s) && s.reset.Yearly? && Settled(s) && PlansFor(plan, s, d)
    ensures plan.value == NextIn(s, plan.period)
    ensures Extended(s, d, plan).reset == Yearly && Settled(Extended(s, d, plan))
  {
    ExtendedCounts(s, d, plan, plan.period);
    if s.currentPeriod.Some? {
      ExtendedCounts(s, d, plan, s.currentPeriod.value);
      var y: Date :| s.currentPeriod.value == PeriodKey(y);
      PeriodOrder(y, d);
      PeriodOrder(d, y);
    }
  }

  /** `t` issued the next `n` values of period `p` after `s`, in order. */
  predicate CountedOn(s: Series, t: Series, p: string, n: nat) {
    && t.reset == Yearly && Settled(t)
    && ValuesIn(t.issued, p) == ValuesIn(s.issued, p) + Consecutive(NextIn(s, p), n)
    && NextIn(t, p) == NextIn(s, p) + n
  }

  lemma CountOneMore(s: Series, mid: Series, p: string, n: nat, d: Date) returns (m: nat)
    requires Inv(mid) && CountedOn(s, mid, p, n)
    ensures CountedOn(s, Step(mid, Take(d, false)), p, m)
  {
    m := n;
    var plan := TakeExtendsOrNot(mid, d, false);
    YearlyTakeExtends(mid, d, plan, p);
    if Step(mid, Take(d, false)) != mid && plan.period == p {
      m := n + 1;
      CountedOneMore(s, mid, Extended(mid, d, plan), p, n);
    }
  }

  lemma CountedOneMore(s: Series, mid: Series, after: Series, p: string, n: nat)
    requires CountedOn(s, mid, p, n) && after.reset == Yearly && Settled(after)
    requires ValuesIn(after.issued, p) == ValuesIn(mid.issued, p) + [NextIn(mid, p)]
               && NextIn(after, p) == NextIn(mid, p) + 1
    ensures CountedOn(s, after, p, n + 1)
  {
    var from := NextIn(s, p);
    assert Consecutive(from, n) + [from + n] == Consecutive(from, n + 1);
    SeqAssoc(ValuesIn(s.issued, p), Consecutive(from, n), [from + n]);
  }

  lemma SeqAssoc(a: seq<nat>, b: seq<nat>, c: seq<nat>)
    ensures a + b + c == a + (b + c)
  {
  }

  lemma EditCountsNothing(mid: Series, c: Changes, today: Date)
    requires KeepsCounting(mid, Change(c, today))
    ensures var t := Step(mid, Change(c, today));
            t.issued == mid.issued && t.nextValue == mid.nextValue && t.currentPeriod == mid.currentPeriod
              && t.reset == mid.reset
  {
  }

  /** On a yearly series each period continues from its own next value without
      a gap or a repeat, whatever the order of document dates. */
  lemma {:induction false} YearlyIsConsecutive(s: Series, ops: seq<Op>, p: string) returns (n: nat)
    requires Inv(s) && s.reset.Yearly? && Settled(s)
    requires AllKeepCounting(s, ops)
    ensures Inv(Run(s, ops)) && CountedOn(s, Run(s, ops), p, n)
  {
    if ops == [] {
      n := 0;
      assert ValuesIn(s.issued, p) == ValuesIn(s.issued, p) + Consecutive(NextIn(s, p), 0);
    } else {
      var front := ops[..|ops| - 1];
      var op := ops[|ops| - 1];
      KeepCountingOfFront(s, ops, front);
      n := YearlyIsConsecutive(s, front, p);
      n := CountOneStep(s, Run(s, front), p, n, op);
    }
  }

  lemma CountOneStep(s: Series, mid: Series, p: string, n: nat, op: Op) returns (m: nat)
    requires Inv(mid) && CountedOn(s, mid, p, n) && KeepsCounting(mid, op)
    ensures Inv(Step(mid, op)) && CountedOn(s, Step(mid, op), p, m)
  {
    m := n;
    StepKeepsInv(mid, op);
    if op.Take? {
      m := CountOneMore(s, mid, p, n, op.date);
    } else {
      EditCountsNothing(mid, op.changes, op.today);
    }
  }

  /** From creation on, the values issued in each period are 1, 2, .., n. */
  lemma YearlyIsGapFree(pattern: string, padding: nat, start: pos, ops: seq<Op>, p: string)
    requires ValidatePattern(pattern, Yearly).Ok?
    requires AllKeepCounting(Fresh(pattern, padding, Yearly, start), ops)
    ensures exists n: nat :: ValuesIn(Run(Fresh(pattern, padding, Yearly, start), ops).issued, p) == Consecutive(1, n)
  {
    FreshInv(pattern, padding, Yearly, start);
    CountedFromOne(Fresh(pattern, padding, Yearly, start), ops, p);
  }

  lemma CountedFromOne(s: Series, ops: seq<Op>, p: string)
    requires Inv(s) && s.reset.Yearly? && s.currentPeriod.None? && s.issued == [] && AllKeepCounting(s, ops)
    ensures exists n: nat :: ValuesIn(Run(s, ops).issued, p) == Consecutive(1, n)
  {
    var n := YearlyIsConsecutive(s, ops, p);
    FromNothing(s, Run(s, ops), p, n);
  }

  lemma FromNothing(s: Series, t: Series, p: string, n: nat)
    requires s.currentPeriod.None? && s.issued == [] && CountedOn(s, t, p, n)
    ensures ValuesIn(t.issued, p) == Consecutive(1, n)
  {
    assert NextIn(s, p) == 1 && ValuesIn(s.issued, p) == [];
    assert [] + Consecutive(1, n) == Consecutive(1, n);
  }

  /** On a continuous series the values count on from the counter in issue
      order, whatever the dates say. */
  lemma {:induction false} ContinuousIsConsecutive(s: Series, ops: seq<Op>)
    requires s.reset.Never?
    requires AllKeepCounting(s, ops)
    ensures var t := Run(s, ops);
            && t.reset.Never? && s.issued <= t.issued
            && t.nextValue == s.nextValue + |t.issued| - |s.issued|
            && forall k :: |s.issued| <= k < |t.issued| ==> t.issued[k].value == s.nextValue + k - |s.issued|
  {
    if ops != [] {
      KeepCountingOfFront(s, ops, ops[..|ops| - 1]);
      ContinuousIsConsecutive(s, ops[..|ops| - 1]);
    }
  }

  // ----- Collisions

  /** Every number on file was printed with the pattern the series has now. */
  ghost predicate OnePattern(s: Series) {
    forall k :: 0 <= k < |s.issued| ==>
      s.issued[k].number == FormatNumber(s.pattern, s.issued[k].value, s.issued[k].date, s.padding)
  }

  /** A different year that a two-digit year token cannot tell apart. */
  predicate CenturyTwin(pattern: string, a: Date, b: Date) {
    && !Contains(pattern, Text(YYYY))
    && a.year != b.year && a.year % 100 == b.year % 100
    && (Contains(pattern, Text(MM)) ==> a.month == b.month)
  }

  lemma {:induction false} ContainsWithin(a: string, b: string, c: string, t: string)
    requires Contains(b, t)
    ensures Contains(a + b + c, t)
  {
    if a == [] {
      assert a + b + c == b + c;
      if !(t <= b) {
        assert (b + c)[1..] == [] + b[1..] + c;
        ContainsWithin([], b[1..], c, t);
      }
    } else {
      assert (a + b + c)[1..] == a[1..] + b + c;
      ContainsWithin(a[1..], b, c, t);
    }
  }

  lemma AcceptedHasTokens(pattern: string, reset: Reset)
    requires ValidatePattern(pattern, reset).Ok?
    ensures Contains(pattern, Text(SEQ))
    ensures reset.Yearly? ==> Contains(pattern, Text(YYYY)) || Contains(pattern, Text(YY))
  {
    var a, c := StripIs(pattern);
    ContainsWithin(a, Strip(pattern), c, Text(SEQ));
    if Contains(Strip(pattern), Text(YYYY)) { ContainsWithin(a, Strip(pattern), c, Text(YYYY)); }
    if Contains(Strip(pattern), Text(YY)) { ContainsWithin(a, Strip(pattern), c, Text(YY)); }
  }

  /** Exactly when a yearly series under one pattern collides: the pattern has
      only a two-digit year and another century's twin holds the same value. */
  lemma YearlyCollision(s: Series, d: Date)
    requires Inv(s) && s.reset.Yearly? && OnePattern(s) && s.active
    ensures Allocate(s, d).1.Collision? <==>
              exists k :: 0 <= k < |s.issued| &&
                s.issued[k].value == PlanValue(s, d) && CenturyTwin(s.pattern, s.issued[k].date, d)
  {
    AcceptedHasTokens(s.pattern, s.reset);
    PlannedValueIsNew(s, d);
    var row := RowFor(PlanNumber(s, d), d);
    forall k | 0 <= k < |s.issued|
      ensures Violates(s.issued[k], row) <==>
                s.issued[k].value == PlanValue(s, d) && CenturyTwin(s.pattern, s.issued[k].date, d)
    {
      var a := s.issued[k];
      PeriodOrder(a.date, d);
      SameNumber(s.pattern, s.padding, a.value, a.date, PlanValue(s, d), d);
    }
  }

  /** No two of these years differ by whole centuries, or the year is printed in full. */
  predicate YearsTellApart(pattern: string, dates: seq<Date>) {
    Contains(pattern, Text(YYYY)) ||
    forall i, j :: 0 <= i < |dates| && 0 <= j < |dates| && dates[i].year % 100 == dates[j].year % 100 ==>
      dates[i].year == dates[j].year
  }

  function Takes(dates: seq<Date>): seq<Op> {
    seq(|dates|, i requires 0 <= i < |dates| => Take(dates[i], false))
  }

  /** The state a run of uncollided allocations is in. */
  ghost predicate Uncollided(s: Series, pattern: string, padding: nat, reset: Reset, dates: seq<Date>) {
    && Inv(s) && OnePattern(s) && s.active
    && s.pattern == pattern && s.padding == padding && s.reset == reset
    && |s.issued| == |dates|
    && (forall k :: 0 <= k < |dates| ==> s.issued[k].date == dates[k])
    && (reset.Never? ==> forall k :: 0 <= k < |s.issued| ==> s.issued[k].value < s.nextValue)
  }

  lemma ExtendedUncollided(s: Series, d: Date, pattern: string, padding: nat, reset: Reset, dates: seq<Date>)
    requires Uncollided(s, pattern, padding, reset, dates) && Allocate(s, d).1.Issued?
    ensures Uncollided(Allocate(s, d).0, pattern, padding, reset, dates + [d])
  {
    AllocateKeepsInv(s, d);
    ExtendedKeeps(s, d, PlanNumber(s, d), Allocate(s, d).0, pattern, dates);
  }

  lemma ExtendedKeeps(s: Series, d: Date, plan: Plan, after: Series, pattern: string, dates: seq<Date>)
    requires plan == PlanNumber(s, d) && after == Extended(s, d, plan)
    requires OnePattern(s) && |s.issued| == |dates| && (forall k :: 0 <= k < |dates| ==> s.issued[k].date == dates[k])
    requires s.reset.Never? ==> forall k :: 0 <= k < |s.issued| ==> s.issued[k].value < s.nextValue
    ensures OnePattern(after) && |after.issued| == |dates + [d]|
    ensures forall k :: 0 <= k < |dates + [d]| ==> after.issued[k].date == (dates + [d])[k]
    ensures after.reset.Never? ==> forall k :: 0 <= k < |after.issued| ==> after.issued[k].value < after.nextValue
  {
  }

  lemma YearsOfPrefix(pattern: string, before: seq<Date>, d: Date)
    requires YearsTellApart(pattern, before + [d])
    ensures YearsTellApart(pattern, before)
  {
    if !Contains(pattern, Text(YYYY)) {
      forall i, j | 0 <= i < |before| && 0 <= j < |before| && before[i].year % 100 == before[j].year % 100
        ensures before[i].year == before[j].year
      {
        assert (before + [d])[i] == before[i] && (before + [d])[j] == before[j];
      }
    }
  }

  lemma {:induction false} AllSucceed(first: Series, pattern: string, padding: nat, reset: Reset, dates: seq<Date>)
    requires Uncollided(first, pattern, padding, reset, [])
    requires reset.Yearly? ==> YearsTellApart(pattern, dates)
    ensures Uncollided(Run(first, Takes(dates)), pattern, padding, reset, dates)
  {
    if dates == [] {
      assert Takes(dates) == [];
    } else {
      var n := |dates| - 1;
      var before, d := dates[..n], dates[n];
      assert dates == before + [d];
      if reset.Yearly? { YearsOfPrefix(pattern, before, d); }
      AllSucceed(first, pattern, padding, reset, before);
      TakesOneMore(first, before, d, dates);
      NextUncollided(Run(first, Takes(before)), Run(first, Takes(dates)), d, pattern, padding, reset, before, dates);
    }
  }

  /** With pattern, padding and mode fixed from creation no allocation ever
      collides: every requested document gets its number. */
  lemma EveryAllocationSucceeds(pattern: string, padding: nat, reset: Reset, start: pos, dates: seq<Date>)
    requires ValidatePattern(pattern, reset).Ok?
    requires reset.Yearly? ==> YearsTellApart(pattern, dates)
    ensures Uncollided(Run(Fresh(pattern, padding, reset, start), Takes(dates)), pattern, padding, reset, dates)
  {
    FreshInv(pattern, padding, reset, start);
    AllSucceed(Fresh(pattern, padding, reset, start), pattern, padding, reset, dates);
  }

  lemma TakesOneMore(first: Series, before: seq<Date>, d: Date, dates: seq<Date>)
    requires dates == before + [d]
    ensures Run(first, Takes(dates)) == Step(Run(first, Takes(before)), Take(d, false))
  {
    assert Takes(dates)[..|before|] == Takes(before);
  }

  lemma NextUncollided(s: Series, after: Series, d: Date, pattern: string, padding: nat, reset: Reset,
                       before: seq<Date>, dates: seq<Date>)
    requires dates == before + [d] && after == Step(s, Take(d, false))
    requires reset.Yearly? ==> YearsTellApart(pattern, dates)
    requires Uncollided(s, pattern, padding, reset, before)
    ensures Uncollided(after, pattern, padding, reset, dates)
  {
    NextSucceeds(s, d, pattern, padding, reset, before);
    ExtendedUncollided(s, d, pattern, padding, reset, before);
  }

  lemma NextSucceeds(s: Series, d: Date, pattern: string, padding: nat, reset: Reset, before: seq<Date>)
    requires Uncollided(s, pattern, padding, reset, before)
    requires reset.Yearly? ==> YearsTellApart(pattern, before + [d])
    ensures Allocate(s, d).1.Issued?
  {
    if reset.Yearly? {
      YearlyCollision(s, d);
      var all := before + [d];
      forall k | 0 <= k < |s.issued| ensures !CenturyTwin(pattern, s.issued[k].date, d) {
        assert s.issued[k].date == all[k] && all[|before|] == d;
      }
    } else {
      ContinuousNeverCollides(s, d);
    }
  }

  lemma ContinuousNeverCollides(s: Series, d: Date)
    requires Inv(s) && s.reset.Never? && OnePattern(s) && s.active
    requires forall k :: 0 <= k < |s.issued| ==> s.issued[k].value < s.nextValue
    ensures Allocate(s, d).1.Issued?
  {
    AcceptedHasTokens(s.pattern, s.reset);
    forall k | 0 <= k < |s.issued| ensures !Violates(s.issued[k], RowFor(PlanNumber(s, d), d)) {
      SameNumber(s.pattern, s.padding, s.issued[k].value, s.issued[k].date, s.nextValue, d);
    }
  }

  lemma NoOtherToken(a: string, u: Token, c: string, v: Token, t: Token)
    requires forall i :: 0 <= i < |a| ==> a[i] != '{'
    requires forall i :: 0 <= i < |c| ==> c[i] != '{'
    requires t != u && t != v
    ensures !Contains(a + (Text(u) + (c + Text(v))), Text(t))
  {
    var q := Text(u) + (c + Text(v));
    OccursAfterPlain(a, q, t);
    OccursPast(q, t, u);
    assert q[|Text(u)|..] == c + Text(v);
    OccursAfterPlain(c, Text(v), t);
    OccursPast(Text(v), t, v);
    assert Text(v)[|Text(v)|..] == [];
  }

  /** `AR-{YY}-{SEQ}` is accepted for a yearly series. */
  lemma TwoDigitPatternIsAccepted(c: string)
    requires c == "AR-{YY}-{SEQ}"
    ensures ValidatePattern(c, Yearly) == Ok(c)
  {
    TwoDigitTokens(c);
    TwoDigitGroups(c);
    AcceptedPatterns(c, Yearly);
  }

  lemma TwoDigitTokens(c: string)
    requires c == "AR-{YY}-{SEQ}"
    ensures c != [] && Strip(c) == c && Contains(c, Text(YY)) && Contains(c, Text(SEQ))
  {
    ContainsWithin(c[..3], Text(YY), c[7..], Text(YY));
    ContainsWithin(c[..8], Text(SEQ), [], Text(SEQ));
    assert c == c[..3] + Text(YY) + c[7..] && c == c[..8] + Text(SEQ) + [];
  }

  lemma TwoDigitGroups(c: string)
    requires c == "AR-{YY}-{SEQ}"
    ensures forall i, j :: IsGroup(c, i, j) ==> exists t :: c[i..j + 1] == Text(t)
  {
    forall i, j | IsGroup(c, i, j) ensures exists t :: c[i..j + 1] == Text(t) {
      assert (i == 3 || i == 8) && (j == 6 || j == 12);
      assert c[6] == '}' && c[3..7] == Text(YY) && c[8..13] == Text(SEQ);
    }
  }

  /** .. and prints neither a full year nor a month. */
  lemma TwoDigitPatternHasNoFullYear(p: string)
    requires p == "AR-" + (Text(YY) + ("-" + Text(SEQ)))
    ensures !Contains(p, Text(YYYY)) && !Contains(p, Text(MM))
  {
    NoOtherToken("AR-", YY, "-", SEQ, YYYY);
    NoOtherToken("AR-", YY, "-", SEQ, MM);
  }

  lemma AfterTheFirst(p: string, padding: nat, start: pos, a: Date) returns (s: Series)
    requires ValidatePattern(p, Yearly).Ok?
    ensures s == Step(Fresh(p, padding, Yearly, start), Take(a, false))
    ensures Uncollided(s, p, padding, Yearly, [a])
    ensures s.currentPeriod == Some(PeriodKey(a)) && s.issued[0].value == 1
  {
    var blank := Fresh(p, padding, Yearly, start);
    FreshInv(p, padding, Yearly, start);
    NextSucceeds(blank, a, p, padding, Yearly, []);
    ExtendedUncollided(blank, a, p, padding, Yearly, []);
    assert [] + [a] == [a];
    s := Allocate(blank, a).0;
  }

  /** A year token is not enough: every accepted pattern without a four-digit
      year collides with itself a century later. The counter has then already
      moved, so a caller that commits instead of rolling back starts the new
      year at 2. */
  lemma TwoDigitYearsCollide(p: string, padding: nat, start: pos, a: Date, b: Date, c: Date)
    requires ValidatePattern(p, Yearly).Ok? && CenturyTwin(p, a, b) && a.year < b.year && c.year == b.year
    ensures var s := Step(Fresh(p, padding, Yearly, start), Take(a, false));
            && Allocate(s, b).1.Collision?
            && var t := Step(Step(s, Take(b, true)), Take(c, false));
               ValuesIn(t.issued, PeriodKey(c)) == [2]
  {
    var s := AfterTheFirst(p, padding, start, a);
    assert s.issued[0].date == a;
    FirstOfAYear(s, a, b);
    YearlyCollision(s, b);
    assert CenturyTwin(s.pattern, s.issued[0].date, b);
    CommittedCollision(s, a, b, c);
  }

  /** A collision that the caller commits leaves a gap in the period of the
      document, exactly unless that lies before the current one: there the
      counter is not moved. */
  lemma CommittedCollisionGap(s: Series, d: Date)
    requires Inv(s) && s.reset.Yearly? && Settled(s) && Allocate(s, d).1.Collision?
    ensures var t := Step(s, Take(d, true));
            var backdated := s.currentPeriod.Some? && StrLess(PeriodKey(d), s.currentPeriod.value);
            && t.issued == s.issued
            && (Settled(t) <==> backdated)
            && NextIn(t, PeriodKey(d)) == NextIn(s, PeriodKey(d)) + (if backdated then 0 else 1)
            && (forall p :: p != PeriodKey(d) ==> NextIn(t, p) == NextIn(s, p))
  {
    if s.currentPeriod.Some? {
      var y: Date :| s.currentPeriod.value == PeriodKey(y);
      PeriodOrder(y, d);
      PeriodOrder(d, y);
    }
  }

  lemma CommittedCollision(s: Series, a: Date, b: Date, c: Date)
    requires Inv(s) && OnePattern(s) && s.active && s.reset.Yearly? && s.currentPeriod == Some(PeriodKey(a))
    requires a.year < b.year == c.year && |s.issued| == 1 && s.issued[0].date == a && s.issued[0].value == 1
    requires Allocate(s, b).1.Collision?
    ensures ValuesIn(Step(Step(s, Take(b, true)), Take(c, false)).issued, PeriodKey(c)) == [2]
  {
    AllocateKeepsInv(s, b);
    CollisionMoves(s, a, b);
    PeriodOrder(b, c);
    SecondOfTheYear(Allocate(s, b).0, a, c);
  }

  lemma CollisionMoves(s: Series, a: Date, b: Date)
    requires Inv(s) && s.reset.Yearly? && s.currentPeriod == Some(PeriodKey(a)) && a.year < b.year
    requires Allocate(s, b).1.Collision?
    ensures Allocate(s, b).0 == s.(nextValue := 2, currentPeriod := Some(PeriodKey(b)))
  {
    FirstOfAYear(s, a, b);
    PeriodOrder(b, a);
  }

  lemma SecondOfTheYear(s: Series, a: Date, c: Date)
    requires Inv(s) && s.reset.Yearly? && OnePattern(s) && s.active && a.year != c.year
    requires s.currentPeriod == Some(PeriodKey(c)) && s.nextValue == 2
    requires |s.issued| == 1 && s.issued[0].date == a && s.issued[0].value == 1
    ensures ValuesIn(Step(s, Take(c, false)).issued, PeriodKey(c)) == [2]
  {
    YearlyCollision(s, c);
    PeriodOrder(c, c);
    PeriodOrder(a, c);
    var plan := TakeExtendsOrNot(s, c, false);
    ExtendedCounts(s, c, plan, PeriodKey(c));
    assert s.issued[..0] == [];
  }

  lemma FirstOfAYear(s: Series, a: Date, d: Date)
    requires Inv(s) && s.reset.Yearly? && s.currentPeriod == Some(PeriodKey(a)) && a.year < d.year
    ensures PlanValue(s, d) == 1
  {
    PeriodOrder(a, d);
    SwitchTakesEffectAtTheBoundary(s, d);
    assert s.(reset := Yearly) == s;
  }

  /** For instance under `AR-{YY}-{SEQ}`: 2126 repeats the first number of 2026. */
  lemma TwoDigitInstance(p: string, padding: nat, start: pos)
    requires p == "AR-{YY}-{SEQ}"
    ensures ValidatePattern(p, Yearly).Ok?
    ensures var a, b: Date := Date(2026, 1, 1), Date(2126, 1, 1);
            var s := Step(Fresh(p, padding, Yearly, start), Take(a, false));
            && CenturyTwin(p, a, b) && Allocate(s, b).1.Collision?
            && ValuesIn(Step(Step(s, Take(b, true)), Take(b, false)).issued, PeriodKey(b)) == [2]
  {
    TwoDigitPatternIsAccepted(p);
    assert p == "AR-" + (Text(YY) + ("-" + Text(SEQ)));
    TwoDigitPatternHasNoFullYear(p);
    TwoDigitYearsCollide(p, padding, start, Date(2026, 1, 1), Date(2126, 1, 1), Date(2126, 1, 1));
  }

  /** The current period has issued something. Only a committed collision can
      move the counter into a period without leaving a row there. */
  predicate Witnessed(s: Series) {
    s.currentPeriod.Some? ==> exists k :: 0 <= k < |s.issued| && s.issued[k].period == s.currentPeriod.value
  }

  // ----- Edits

  /** After an accepted edit the next number for the day of the edit is new.
      The allocation itself can still fail in exactly one way: the day lies
      before the current period of a continuous series and its period already
      holds that value under another number. */
  lemma AcceptedEditIssuesANewNumber(s: Series, c: Changes, today: Date)
    requires Inv(s) && Edit(s, c, today).1.Saved?
    ensures var t := Edit(s, c, today).0;
            && (forall k :: 0 <= k < |s.issued| ==> s.issued[k].number != PlanNumber(t, today).number)
            && (t.active ==>
                  (Allocate(t, today).1.Collision? <==>
                    && t.reset.Never? && t.currentPeriod.Some? && StrLess(PeriodKey(today), t.currentPeriod.value)
                    && exists k :: 0 <= k < |t.issued| &&
                         t.issued[k].period == PeriodKey(today) && t.issued[k].value == t.nextValue))
  {
    var t := Edit(s, c, today).0;
    EditKeepsInv(s, c, today);
    var row := RowFor(PlanNumber(t, today), today);
    assert PlanNumber(t, today) == PlanNumber(Proposed(s, c), today);
    if t.reset.Yearly? || t.currentPeriod.None? || !StrLess(PeriodKey(today), t.currentPeriod.value) {
      PlannedValueIsNew(t, today);
      forall k | 0 <= k < |t.issued| ensures !Violates(t.issued[k], row) { }
    } else {
      assert row.value == t.nextValue;
    }
  }
}
