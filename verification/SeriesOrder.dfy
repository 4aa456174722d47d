/** When the order of issue, of document dates and of numbers agree, over runs
    of one number series that met no out-of-order warning. */
module SeriesOrder {
  import opened Digits
  import opened Calendar
  import opened Patterns
  import opened NumberSeries
  import opened SeriesRuns
  import opened SeriesLaws
  import opened Wrappers

  /** Issue order, document-date order and (period, value) order all agree. */
  predicate InOrder(issued: seq<Allocation>) {
    forall i, j :: 0 <= i < j < |issued| ==>
      && !Before(issued[j].date, issued[i].date)
      && (StrLess(issued[i].period, issued[j].period) ||
          (issued[i].period == issued[j].period && issued[i].value < issued[j].value))
  }

  predicate NoWarnings(s: Series, ops: seq<Op>) {
    forall i :: 0 <= i < |ops| && ops[i].Take? ==> PlanNumber(Run(s, ops[..i]), ops[i].date).warning.None?
  }

  /** The document lies before the current period of a continuous series. */
  predicate Behind(s: Series, op: Op) {
    op.Take? && s.reset.Never? && s.currentPeriod.Some? && StrLess(PeriodKey(op.date), s.currentPeriod.value)
  }

  /** .. and gets a number although the counter does not exceed what its period
      has issued. */
  predicate OutOfTurn(s: Series, op: Op) {
    && Behind(s, op) && s.nextValue <= HighestIn(s.issued, PeriodKey(op.date))
    && Allocate(s, op.date).1.Issued?
  }

  predicate AllInTurn(s: Series, ops: seq<Op>) {
    forall i :: 0 <= i < |ops| ==> !OutOfTurn(Run(s, ops[..i]), ops[i])
  }

  predicate After(a: Allocation, row: Allocation) {
    && !Before(row.date, a.date)
    && (StrLess(a.period, row.period) || (a.period == row.period && a.value < row.value))
  }

  lemma AppendedInOrder(issued: seq<Allocation>, row: Allocation)
    requires InOrder(issued)
    ensures InOrder(issued + [row]) <==> forall k :: 0 <= k < |issued| ==> After(issued[k], row)
  {
    var all := issued + [row];
    assert all[|issued|] == row;
    forall k | 0 <= k < |issued| ensures all[k] == issued[k] {
    }
  }

  lemma OneMoreInOrder(issued: seq<Allocation>, row: Allocation)
    requires InOrder(issued) && row.period == PeriodKey(row.date)
    requires forall k :: 0 <= k < |issued| ==>
               issued[k].period == PeriodKey(issued[k].date) && !Before(row.date, issued[k].date)
    requires row.value >= 1
    ensures InOrder(issued + [row]) <==> row.value > HighestIn(issued, row.period)
  {
    AppendedInOrder(issued, row);
    HighestBounds(issued, row.period);
    forall k | 0 <= k < |issued|
      ensures After(issued[k], row) <==> issued[k].period != row.period || issued[k].value < row.value
    {
      PeriodOrder(issued[k].date, row.date);
    }
  }

  lemma InTurnPlansNew(s: Series, op: Op)
    requires Inv(s) && op.Take?
    ensures !Behind(s, op) ==> PlanValue(s, op.date) > HighestIn(s.issued, PeriodKey(op.date))
    ensures Behind(s, op) ==> PlanValue(s, op.date) == s.nextValue
    ensures PlanValue(s, op.date) >= 1
  {
    if !Behind(s, op) { PlannedValueIsNew(s, op.date); }
    HighestBounds(s.issued, PeriodKey(op.date));
  }

  lemma IssuedIsNewest(s: Series, op: Op, after: Series)
    requires Inv(s) && InOrder(s.issued) && op.Take? && PlanNumber(s, op.date).warning.None?
    requires Allocate(s, op.date).1.Issued? && after == Allocate(s, op.date).0
    ensures InOrder(after.issued) <==> !OutOfTurn(s, op)
  {
    WarnsExactlyWhenOutOfOrder(s, op.date);
    InTurnPlansNew(s, op);
    var row := RowFor(PlanNumber(s, op.date), op.date);
    assert after.issued == s.issued + [row];
    forall k | 0 <= k < |s.issued| ensures !Before(row.date, s.issued[k].date) {
      assert s.issued[k] in s.issued;
    }
    OneMoreInOrder(s.issued, row);
  }

  lemma OrderedStepExactly(s: Series, op: Op)
    requires Inv(s) && InOrder(s.issued) && (op.Take? ==> PlanNumber(s, op.date).warning.None?)
    ensures InOrder(Step(s, op).issued) <==> !OutOfTurn(s, op)
  {
    if op.Take? {
      if Allocate(s, op.date).1.Issued? {
        IssuedIsNewest(s, op, Allocate(s, op.date).0);
      } else {
        assert Step(s, op).issued == s.issued;
      }
    }
  }

  lemma StepKeepsIssued(s: Series, op: Op)
    ensures s.issued <= Step(s, op).issued
  {
  }

  lemma PrefixInOrder(issued: seq<Allocation>, all: seq<Allocation>)
    requires issued <= all && InOrder(all)
    ensures InOrder(issued)
  {
  }

  lemma RunOfFront(s: Series, ops: seq<Op>, front: seq<Op>, op: Op)
    requires ops == front + [op]
    ensures Run(s, ops) == Step(Run(s, front), op)
    ensures NoWarnings(s, ops) <==>
              NoWarnings(s, front) && (op.Take? ==> PlanNumber(Run(s, front), op.date).warning.None?)
    ensures AllInTurn(s, ops) <==> AllInTurn(s, front) && !OutOfTurn(Run(s, front), op)
  {
    assert ops[..|front|] == front && ops[|front|] == op;
    forall i | 0 <= i < |front| ensures front[..i] == ops[..i] && front[i] == ops[i] {
    }
  }

  /** A run that met no warning is in order if and only if no document got a
      number out of turn: in every mode, across edits, and whatever the callers
      did with collisions. */
  lemma {:induction false} InOrderExactly(s: Series, ops: seq<Op>)
    requires Inv(s) && InOrder(s.issued) && NoWarnings(s, ops)
    ensures InOrder(Run(s, ops).issued) <==> AllInTurn(s, ops)
  {
    if ops != [] {
      var front, op := ops[..|ops| - 1], ops[|ops| - 1];
      assert ops == front + [op];
      RunOfFront(s, ops, front, op);
      InOrderExactly(s, front);
      RunKeepsInv(s, front);
      if InOrder(Run(s, front).issued) {
        OrderedStepExactly(Run(s, front), op);
      } else {
        StepKeepsIssued(Run(s, front), op);
        if InOrder(Run(s, ops).issued) { PrefixInOrder(Run(s, front).issued, Run(s, ops).issued); }
      }
    }
  }

  /** So it is in order when no document lies before the current period of a
      continuous series. */
  lemma ForwardRunsStayInOrder(s: Series, ops: seq<Op>)
    requires Inv(s) && InOrder(s.issued) && NoWarnings(s, ops)
    requires forall i :: 0 <= i < |ops| ==> !Behind(Run(s, ops[..i]), ops[i])
    ensures InOrder(Run(s, ops).issued)
  {
    InOrderExactly(s, ops);
  }

  predicate SetsNoOtherMode(op: Op) {
    op.Change? && op.changes.reset.Some? ==> op.changes.reset.value.Yearly?
  }

  lemma {:induction false} StaysYearly(s: Series, ops: seq<Op>)
    requires s.reset.Yearly? && forall op :: op in ops ==> SetsNoOtherMode(op)
    ensures Run(s, ops).reset.Yearly?
  {
    if ops != [] {
      StaysYearly(s, ops[..|ops| - 1]);
      assert ops[|ops| - 1] in ops;
    }
  }

  /** A series that stays yearly is in order without any further condition. */
  lemma YearlyRunsStayInOrder(s: Series, ops: seq<Op>)
    requires Inv(s) && InOrder(s.issued) && NoWarnings(s, ops)
    requires s.reset.Yearly? && forall op :: op in ops ==> SetsNoOtherMode(op)
    ensures InOrder(Run(s, ops).issued)
  {
    forall i | 0 <= i < |ops| ensures !Behind(Run(s, ops[..i]), ops[i]) {
      StaysYearly(s, ops[..i]);
    }
    ForwardRunsStayInOrder(s, ops);
  }

  predicate RollsBack(op: Op) {
    op.Take? ==> !op.swallow
  }

  lemma ExtendedIsWitnessed(s: Series, d: Date, plan: Plan, after: Series)
    requires Witnessed(s) && after == Extended(s, d, plan)
    ensures Witnessed(after)
  {
    assert after.issued[|s.issued|].period == plan.period;
    if s.currentPeriod.Some? {
      var k :| 0 <= k < |s.issued| && s.issued[k].period == s.currentPeriod.value;
      assert after.issued[k] == s.issued[k];
    }
  }

  lemma {:induction false} StaysWitnessed(s: Series, ops: seq<Op>)
    requires Witnessed(s) && forall op :: op in ops ==> RollsBack(op)
    ensures Witnessed(Run(s, ops))
  {
    if ops != [] {
      var mid, op := Run(s, ops[..|ops| - 1]), ops[|ops| - 1];
      StaysWitnessed(s, ops[..|ops| - 1]);
      assert op in ops;
      if op.Take? {
        var plan := TakeExtendsOrNot(mid, op.date, op.swallow);
        ExtendedIsWitnessed(mid, op.date, plan, Extended(mid, op.date, plan));
      }
    }
  }

  /** Where the current period has issued something, a document before it is
      warned about. */
  lemma BehindIsWarned(s: Series, op: Op)
    requires Inv(s) && Witnessed(s) && Behind(s, op)
    ensures PlanNumber(s, op.date).warning.Some?
  {
    var w :| 0 <= w < |s.issued| && s.issued[w].period == s.currentPeriod.value;
    assert s.issued[w] in s.issued;
    PeriodOrder(op.date, s.issued[w].date);
    WarnsExactlyWhenOutOfOrder(s, op.date);
  }

  /** .. and so is one whose callers rolled back every collision. */
  lemma RunsWithoutWarningsStayInOrder(s: Series, ops: seq<Op>)
    requires Inv(s) && Witnessed(s) && InOrder(s.issued) && NoWarnings(s, ops)
    requires forall op :: op in ops ==> RollsBack(op)
    ensures InOrder(Run(s, ops).issued) && Witnessed(Run(s, ops))
  {
    forall i | 0 <= i < |ops| ensures !Behind(Run(s, ops[..i]), ops[i]) {
      StaysWitnessed(s, ops[..i]);
      RunKeepsInv(s, ops[..i]);
      if Behind(Run(s, ops[..i]), ops[i]) { BehindIsWarned(Run(s, ops[..i]), ops[i]); }
    }
    ForwardRunsStayInOrder(s, ops);
    StaysWitnessed(s, ops);
  }
}
