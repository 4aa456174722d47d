/** What one plan, allocation or edit of a number series does, said by the rows
    and without the engine (apps/api/services/number_series.py,
    apps/api/routers/number_series.py). */
module SeriesOutcomes {
  import opened Digits
  import opened Calendar
  import opened Patterns
  import opened NumberSeries
  import opened SeriesRuns
  import opened Wrappers

  /** Calendar order: by year, then month, then day. */
  lemma BeforeIsCalendarOrder(a: Date, b: Date)
    ensures Before(a, b) <==>
              || a.year < b.year
              || (a.year == b.year && a.month < b.month)
              || (a.year == b.year && a.month == b.month && a.day < b.day)
  {
  }

  /** The period of a document is its year in four digits. */
  lemma PeriodIsTheYear(d: Date)
    ensures |PeriodKey(d)| == 4 && AllDigits(PeriodKey(d)) && Val(PeriodKey(d)) == d.year
  {
    assert Pow10(4) == 10000;
    ValPadded(d.year, 4);
    PaddedWidth(d.year, 4);
  }

  // ----- plan_number

  /** A document of another year than the current period. */
  predicate OtherPeriod(s: Series, d: Date) {
    s.currentPeriod != Some(PeriodKey(d))
  }

  /** `v` is one more than the highest value of the period. */
  predicate Next(issued: seq<Allocation>, period: string, v: nat) {
    && v >= 1
    && (forall k :: 0 <= k < |issued| && issued[k].period == period ==> issued[k].value < v)
    && (v > 1 ==> exists k :: 0 <= k < |issued| && issued[k].period == period && issued[k].value == v - 1)
  }

  lemma HighestIsNext(issued: seq<Allocation>, period: string, v: nat)
    ensures Next(issued, period, v) <==> v == HighestIn(issued, period) + 1
  {
    HighestBounds(issued, period);
  }

  lemma {:induction false} StrOrder(a: string, b: string)
    ensures a != b ==> StrLess(a, b) || StrLess(b, a)
    ensures !StrLess(a, a)
    decreases |a|
  {
    if a != [] && b != [] && a[0] == b[0] {
      StrOrder(a[1..], b[1..]);
      assert a == [a[0]] + a[1..] && b == [b[0]] + b[1..];
    }
    if a != [] { StrOrder(a[1..], a[1..]); }
  }

  /** Which value the next document gets: on a yearly series one more than the
      highest of its year, unless that is the current period; otherwise what
      the counter says. */
  lemma PlannedValueExactly(s: Series, d: Date)
    ensures s.reset.Yearly? && OtherPeriod(s, d) ==> Next(s.issued, PeriodKey(d), PlanValue(s, d))
    ensures !(s.reset.Yearly? && OtherPeriod(s, d)) ==> PlanValue(s, d) == s.nextValue
  {
    HighestIsNext(s.issued, PeriodKey(d), HighestIn(s.issued, PeriodKey(d)) + 1);
    if s.currentPeriod.Some? { StrOrder(s.currentPeriod.value, PeriodKey(d)); }
    StrOrder(PeriodKey(d), PeriodKey(d));
  }

  /** The whole plan. */
  lemma PlanExactly(s: Series, d: Date)
    ensures var plan := PlanNumber(s, d);
            && plan.value == PlanValue(s, d) && plan.period == PeriodKey(d)
            && Shows(s.pattern, plan.number, plan.value, d, s.padding)
            && (plan.warning.None? <==> forall k :: 0 <= k < |s.issued| ==> !Before(d, s.issued[k].date))
            && (plan.warning.Some? ==>
                  exists k :: 0 <= k < |s.issued| && IsNewest(s.issued, k)
                    && plan.warning.value == DocumentDateBeforeLatest(s.issued[k].date, s.issued[k].number))
            && (plan.startsNewPeriod <==>
                  && s.reset.Yearly? && s.currentPeriod.Some? && StrLess(s.currentPeriod.value, PeriodKey(d))
                  && Next(s.issued, PeriodKey(d), 1))
  {
    var plan := PlanNumber(s, d);
    NumberShowsExactly(s.pattern, plan.value, d, s.padding, plan.number);
    LatestIsMaximal(s.issued);
    HighestIsNext(s.issued, PeriodKey(d), 1);
    if s.currentPeriod.Some? { StrOrder(s.currentPeriod.value, PeriodKey(d)); }
    WarnsExactlyWhenOutOfOrder(s, d);
    forall k | 0 <= k < |s.issued| ensures s.issued[k] in s.issued {
    }
  }

  // ----- allocate_number

  /** Some row has the number, or the value in the period. */
  predicate Taken(issued: seq<Allocation>, number: string, period: string, value: nat) {
    exists k :: 0 <= k < |issued| &&
      (issued[k].number == number || (issued[k].period == period && issued[k].value == value))
  }

  /** The document lies before the current period. */
  predicate BeforeCurrent(s: Series, d: Date) {
    s.currentPeriod.Some? && StrLess(PeriodKey(d), s.currentPeriod.value)
  }

  /** An allocation, exactly: there is no series to allocate from if and only if
      it is not active, and then nothing changes; it collides if and only if
      the planned number, or the planned value in its period, is on file;
      otherwise one row is added, with what was planned. The counter and the
      period move on in both cases, except for a document before the current
      period, which moves the counter of a continuous series alone. */
  lemma AllocateExactly(s: Series, d: Date)
    ensures var (after, outcome) := Allocate(s, d);
            var plan := PlanNumber(s, d);
            && (outcome.SeriesMissing? <==> !s.active)
            && (outcome.SeriesMissing? ==> after == s)
            && (outcome.Collision? <==> s.active && Taken(s.issued, plan.number, PeriodKey(d), PlanValue(s, d)))
            && (outcome.Collision? ==> outcome.number == plan.number && after.issued == s.issued)
            && (outcome.Issued? ==>
                  && outcome.plan == plan
                  && after.issued == s.issued + [Allocation(PeriodKey(d), PlanValue(s, d), plan.number, d)])
            && after.pattern == s.pattern && after.padding == s.padding && after.reset == s.reset
            && after.active == s.active
            && (s.active ==>
                  && after.currentPeriod == (if BeforeCurrent(s, d) then s.currentPeriod else Some(PeriodKey(d)))
                  && after.nextValue ==
                       if BeforeCurrent(s, d) && !s.reset.Never? then s.nextValue else PlanValue(s, d) + 1)
  {
    var row := RowFor(PlanNumber(s, d), d);
    assert Collides(s.issued, row) <==> Taken(s.issued, row.number, row.period, row.value);
    if s.currentPeriod.Some? {
      StrOrder(s.currentPeriod.value, PeriodKey(d));
      StrAsymmetric(s.currentPeriod.value, PeriodKey(d));
    }
  }

  lemma {:induction false} StrAsymmetric(a: string, b: string)
    ensures StrLess(a, b) ==> !StrLess(b, a)
    decreases |a|
  {
    if a != [] && b != [] && a[0] == b[0] { StrAsymmetric(a[1..], b[1..]); }
  }

  predicate Activates(op: Op) {
    op.Change? && op.changes.active == Some(true)
  }

  /** A deactivated series issues nothing, whatever is asked of it and whatever
      else is edited, until an edit activates it. */
  lemma {:induction false} InactiveIssuesNothing(s: Series, ops: seq<Op>)
    requires !s.active && forall op :: op in ops ==> !Activates(op)
    ensures Run(s, ops).issued == s.issued && !Run(s, ops).active && Run(s, ops).currentPeriod == s.currentPeriod
  {
    if ops != [] {
      InactiveIssuesNothing(s, ops[..|ops| - 1]);
      assert ops[|ops| - 1] in ops;
      AllocateExactly(Run(s, ops[..|ops| - 1]), Date(1, 1, 1));
    }
  }

  // ----- update_number_series

  /** What a field is to be after an edit. */
  function Proposal<T>(sent: Option<T>, present: T): T {
    match sent
    case None => present
    case Some(v) => v
  }

  /** The counter is above every value of the current period. */
  predicate CounterIsFree(s: Series, next: nat) {
    s.currentPeriod.Some? ==>
      && next >= 1
      && forall k :: 0 <= k < |s.issued| && s.issued[k].period == s.currentPeriod.value ==> s.issued[k].value < next
  }

  predicate NumberIsFree(s: Series, number: string) {
    forall k :: 0 <= k < |s.issued| ==> s.issued[k].number != number
  }

  lemma CounterIsFreeExactly(s: Series, next: nat)
    requires s.currentPeriod.Some?
    ensures CounterIsFree(s, next) <==> next > HighestIn(s.issued, s.currentPeriod.value)
  {
    HighestBounds(s.issued, s.currentPeriod.value);
  }

  /** An edit, exactly: it is saved if and only if the pattern is accepted in
      the mode, the padding is 1 to 12, the counter is above every value of the
      current period and the next number under the new settings is not on
      file; the first of these that fails is the refusal. Saved, each field
      sent is as sent and the rest as it was; refused, nothing changes. */
  lemma EditExactly(s: Series, c: Changes, today: Date)
    ensures var (after, outcome) := Edit(s, c, today);
            var pattern, reset := Proposal(c.pattern, s.pattern), Proposal(c.reset, s.reset);
            var padding, next := Proposal(c.padding, s.padding), Proposal(c.nextValue, s.nextValue);
            var accepted := ValidatePattern(pattern, reset).Ok?;
            && (outcome.BadPattern? <==> !accepted)
            && (outcome.BadPadding? <==> accepted && !(1 <= padding <= 12))
            && (accepted && 1 <= padding <= 12 ==>
                  var probe := Series(pattern, padding, reset, next, s.currentPeriod, s.active, s.issued);
                  var number := FormatNumber(pattern, PlanValue(probe, today), today, padding);
                  && (outcome.ReissuesValue? <==> !CounterIsFree(s, next))
                  && (outcome.ReissuesNumber? <==> CounterIsFree(s, next) && !NumberIsFree(s, number))
                  && (outcome.ReissuesNumber? ==> outcome.number == number)
                  && (outcome.Saved? <==> CounterIsFree(s, next) && NumberIsFree(s, number)))
            && (outcome.Saved? ==>
                  && 1 <= padding <= 12
                  && after == Series(pattern, padding, reset, next, s.currentPeriod, Proposal(c.active, s.active),
                                     s.issued))
            && (!outcome.Saved? ==> after == s)
  {
    if s.currentPeriod.Some? { CounterIsFreeExactly(s, Proposal(c.nextValue, s.nextValue)); }
  }

  // ----- preview_number

  /** Previewing other settings tells what an allocation issues, or collides on,
      once an edit has saved exactly those; with the settings it has, what the
      series issues now. */
  lemma PreviewTellsTheNext(s: Series, pattern: string, padding: nat, reset: Reset, today: Date, d: Date)
    ensures var plan := Preview(Some(s), pattern, padding, reset, d);
            var (edited, saved) := Edit(s, Changes(Some(pattern), Some(padding), Some(reset), None, None), today);
            saved.Saved? && s.active ==>
              match Allocate(edited, d).1
              case SeriesMissing => false
              case Collision(number) => number == plan.number
              case Issued(issued) => issued == plan
    ensures s.active ==>
              var plan := Preview(Some(s), s.pattern, s.padding, s.reset, d);
              match Allocate(s, d).1
              case SeriesMissing => false
              case Collision(number) => number == plan.number
              case Issued(issued) => issued == plan
  {
    assert s.(pattern := s.pattern, padding := s.padding, reset := s.reset) == s;
  }

  /** The preview before there is a series is what one that starts at 1 issues. */
  lemma PreviewOfNewSeries(pattern: string, padding: nat, reset: Reset, d: Date)
    ensures var plan := Preview(None, pattern, padding, reset, d);
            && Allocate(Fresh(pattern, padding, reset, 1), d).1 == Issued(plan)
            && plan.value == 1 && Shows(pattern, plan.number, 1, d, padding)
  {
    NumberShowsExactly(pattern, 1, d, padding, Preview(None, pattern, padding, reset, d).number);
  }
}
