/** What holds over whole runs of allocations and edits of one number series. */
module SeriesRuns {
  import opened Digits
  import opened Calendar
  import opened Patterns
  import opened NumberSeries
  import opened Wrappers

  /** One committed operation. After a `NumberCollision` the caller either rolls
      back or, when `swallow` is set, commits what is left: a moved counter. */
  datatype Op =
    | Take(date: Date, swallow: bool)
    | Change(changes: Changes, today: Date)

  function Step(s: Series, op: Op): Series {
    match op
    case Take(d, swallow) =>
      var (after, outcome) := Allocate(s, d);
      if outcome.Collision? && !swallow then s else after
    case Change(c, today) => Edit(s, c, today).0
  }

  function Run(s: Series, ops: seq<Op>): Series {
    if ops == [] then s else Step(Run(s, ops[..|ops| - 1]), ops[|ops| - 1])
  }

  // ----- The invariant of every run

  predicate Distinct(issued: seq<Allocation>) {
    forall i, j :: 0 <= i < j < |issued| ==> !Violates(issued[i], issued[j])
  }

  ghost predicate Inv(s: Series) {
    && s.nextValue >= 1
    && ValidatePattern(s.pattern, s.reset).Ok?
    && (forall k :: 0 <= k < |s.issued| ==> s.issued[k].period == PeriodKey(s.issued[k].date) && s.issued[k].value >= 1)
    && InPeriods(s)
    && Distinct(s.issued)
  }

  /** No allocation lies after the current period, and the counter exceeds
      every value issued in it. */
  ghost predicate InPeriods(s: Series) {
    match s.currentPeriod
    case None => s.issued == []
    case Some(c) =>
      && (exists y: Date :: c == PeriodKey(y))
      && forall k :: 0 <= k < |s.issued| ==>
           && !StrLess(c, s.issued[k].period)
           && (s.issued[k].period == c ==> s.issued[k].value < s.nextValue)
  }

  /** How a period compares with the current one, as years. */
  lemma PeriodLaws()
    ensures forall a: Date, b: Date :: StrLess(PeriodKey(a), PeriodKey(b)) <==> a.year < b.year
    ensures forall a: Date, b: Date :: PeriodKey(a) == PeriodKey(b) <==> a.year == b.year
  {
    forall a: Date, b: Date
      ensures StrLess(PeriodKey(a), PeriodKey(b)) <==> a.year < b.year
      ensures PeriodKey(a) == PeriodKey(b) <==> a.year == b.year
    {
      PeriodOrder(a, b);
    }
  }

  /** The planned value is new in its period; only a back-dated document on a
      continuous series can plan a value its period already has. */
  lemma PlannedValueIsNew(s: Series, d: Date)
    requires Inv(s)
    requires s.reset.Yearly? || s.currentPeriod.None? || !StrLess(PeriodKey(d), s.currentPeriod.value)
    ensures PlanValue(s, d) >= 1
    ensures forall k :: 0 <= k < |s.issued| && s.issued[k].period == PeriodKey(d) ==>
              s.issued[k].value < PlanValue(s, d)
  {
    HighestBounds(s.issued, PeriodKey(d));
    PeriodLaws();
  }

  /** Moving the counter for a plan, with or without the row it was for. */
  lemma CounterStaysAhead(s: Series, d: Date, plan: Plan)
    requires Inv(s) && plan.period == PeriodKey(d) && plan.value == PlanValue(s, d)
    ensures InPeriods(MoveCounter(s, plan))
    ensures InPeriods(MoveCounter(s, plan).(issued := s.issued + [RowFor(plan, d)]))
  {
    HighestBounds(s.issued, PeriodKey(d));
    if s.currentPeriod.Some? {
      var y: Date :| s.currentPeriod.value == PeriodKey(y);
      PeriodOrder(y, d);
      PeriodOrder(d, y);
      forall k | 0 <= k < |s.issued|
        ensures !(StrLess(PeriodKey(y), PeriodKey(d)) && StrLess(PeriodKey(d), s.issued[k].period))
        ensures StrLess(PeriodKey(y), PeriodKey(d)) ==> s.issued[k].period != PeriodKey(d)
      {
        PeriodOrder(y, s.issued[k].date);
        PeriodOrder(d, s.issued[k].date);
      }
    }
    PeriodOrder(d, d);
  }

  lemma AllocateKeepsInv(s: Series, d: Date)
    requires Inv(s)
    ensures Inv(Allocate(s, d).0)
  {
    var plan := PlanNumber(s, d);
    CounterStaysAhead(s, d, plan);
    assert plan.value >= 1;
    if s.active && !Collides(s.issued, RowFor(plan, d)) {
      OneMoreIsDistinct(s.issued, RowFor(plan, d));
    }
  }

  lemma OneMoreIsDistinct(issued: seq<Allocation>, row: Allocation)
    requires Distinct(issued) && !Collides(issued, row)
    ensures Distinct(issued + [row])
  {
  }

  lemma EditKeepsInv(s: Series, c: Changes, today: Date)
    requires Inv(s)
    ensures Inv(Edit(s, c, today).0)
  {
    if s.currentPeriod.Some? {
      HighestBounds(s.issued, s.currentPeriod.value);
    }
  }

  lemma StepKeepsInv(s: Series, op: Op)
    requires Inv(s)
    ensures Inv(Step(s, op))
  {
    match op
    case Take(d, swallow) => AllocateKeepsInv(s, d);
    case Change(c, today) => EditKeepsInv(s, c, today);
  }

  /** Over every run mixing allocations, collisions and accepted edits. */
  lemma {:induction false} RunKeepsInv(s: Series, ops: seq<Op>)
    requires Inv(s)
    ensures Inv(Run(s, ops))
  {
    if ops != [] {
      RunKeepsInv(s, ops[..|ops| - 1]);
      StepKeepsInv(Run(s, ops[..|ops| - 1]), ops[|ops| - 1]);
    }
  }

  lemma FreshInv(pattern: string, padding: nat, reset: Reset, start: pos)
    requires ValidatePattern(pattern, reset).Ok?
    ensures Inv(Fresh(pattern, padding, reset, start))
  {
  }
}
