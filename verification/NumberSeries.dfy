/** The document-number engine: plan, allocate, edit
    (apps/api/services/number_series.py and apps/api/routers/number_series.py).
    The specification is a function of the series row and its allocations; the
    class below keeps that row and is proved against it. */
module NumberSeries {
  import opened Digits
  import opened Calendar
  import opened Patterns
  import opened Wrappers

  type pos = n: int | n >= 1 witness 1

  /** One row of `number_allocations`. Rows are listed in the order issued. */
  datatype Allocation = Allocation(period: string, value: nat, number: string, date: Date)

  /** One row of `number_series` together with the allocations it has issued. */
  datatype Series = Series(
    pattern: string, padding: nat, reset: Reset,
    nextValue: nat, currentPeriod: Option<string>, active: bool,
    issued: seq<Allocation>)

  function PeriodKey(d: Date): string {
    Padded(d.year, 4)
  }

  /** Periods are compared as text; on four-digit years that is year order. */
  lemma PeriodOrder(a: Date, b: Date)
    ensures StrLess(PeriodKey(a), PeriodKey(b)) <==> a.year < b.year
    ensures PeriodKey(a) == PeriodKey(b) <==> a.year == b.year
  {
    assert Pow10(4) == 10000;
    ValPadded(a.year, 4);
    ValPadded(b.year, 4);
    PaddedWidth(a.year, 4);
    PaddedWidth(b.year, 4);
    StrLessIsNumeric(PeriodKey(a), PeriodKey(b));
  }

  // ----- What the engine reads

  /** `highest_value_in_period`: the maximum, or 0 over no rows. */
  function HighestIn(issued: seq<Allocation>, period: string): nat {
    if issued == [] then 0
    else
      var last := issued[|issued| - 1];
      var before := HighestIn(issued[..|issued| - 1], period);
      if last.period == period && last.value > before then last.value else before
  }

  /** `latest_allocation`: greatest document date, the last issued among equals. */
  function Latest(issued: seq<Allocation>): Option<Allocation> {
    if issued == [] then None
    else
      var last := issued[|issued| - 1];
      var before := Latest(issued[..|issued| - 1]);
      if before.None? || !Before(last.date, before.value.date) then Some(last) else before
  }

  lemma {:induction false} HighestBounds(issued: seq<Allocation>, period: string)
    ensures forall k :: 0 <= k < |issued| && issued[k].period == period ==> issued[k].value <= HighestIn(issued, period)
    ensures HighestIn(issued, period) > 0 ==>
              exists k :: 0 <= k < |issued| &&
                issued[k].period == period && issued[k].value == HighestIn(issued, period)
  {
    if issued != [] {
      var init := issued[..|issued| - 1];
      HighestBounds(init, period);
      if HighestIn(init, period) > 0 {
        var k :| 0 <= k < |init| && init[k].period == period && init[k].value == HighestIn(init, period);
        assert issued[k] == init[k];
      }
      forall k | 0 <= k < |issued| && issued[k].period == period
        ensures issued[k].value <= HighestIn(issued, period)
      {
        if k < |init| { assert init[k] == issued[k]; }
      }
      assert issued[|issued| - 1].period == period ==> issued[|issued| - 1].value <= HighestIn(issued, period);
    }
  }

  /** Every row issued after row `n` has a strictly earlier document date. */
  predicate IsNewest(issued: seq<Allocation>, n: nat)
    requires n < |issued|
  {
    forall k :: n < k < |issued| ==> Before(issued[k].date, issued[n].date)
  }

  lemma {:induction false} LatestIsMaximal(issued: seq<Allocation>)
    ensures Latest(issued).None? <==> issued == []
    ensures Latest(issued).Some? ==> Latest(issued).value in issued
    ensures Latest(issued).Some? ==>
              forall k :: 0 <= k < |issued| ==> !Before(Latest(issued).value.date, issued[k].date)
    ensures Latest(issued).Some? ==>
              exists n :: 0 <= n < |issued| && issued[n] == Latest(issued).value && IsNewest(issued, n)
  {
    if issued != [] {
      var init := issued[..|issued| - 1];
      LatestIsMaximal(init);
      if Latest(init).Some? && Before(issued[|init|].date, Latest(init).value.date) {
        var n :| 0 <= n < |init| && init[n] == Latest(init).value && IsNewest(init, n);
        assert IsNewest(issued, n);
      } else {
        assert IsNewest(issued, |init|);
      }
      forall k | 0 <= k < |issued| ensures !Before(Latest(issued).value.date, issued[k].date) {
        if k < |init| { assert init[k] == issued[k]; }
      }
    }
  }

  // ----- plan_number

  datatype Warning = DocumentDateBeforeLatest(latestDate: Date, latestNumber: string)

  datatype Plan = Plan(number: string, value: nat, period: string, warning: Option<Warning>, startsNewPeriod: bool)

  function PlanWarning(s: Series, d: Date): Option<Warning> {
    var latest := Latest(s.issued);
    if latest.Some? && Before(d, latest.value.date)
    then Some(DocumentDateBeforeLatest(latest.value.date, latest.value.number))
    else None
  }

  function PlanValue(s: Series, d: Date): nat {
    if s.reset.Yearly? then
      if s.currentPeriod.None? || StrLess(s.currentPeriod.value, PeriodKey(d)) then
        HighestIn(s.issued, PeriodKey(d)) + 1
      else if StrLess(PeriodKey(d), s.currentPeriod.value) then
        HighestIn(s.issued, PeriodKey(d)) + 1
      else s.nextValue
    else s.nextValue
  }

  function PlanNumber(s: Series, d: Date): Plan {
    var value := PlanValue(s, d);
    var starts := s.reset.Yearly? && s.currentPeriod.Some?
                  && StrLess(s.currentPeriod.value, PeriodKey(d)) && value == 1;
    Plan(FormatNumber(s.pattern, value, d, s.padding), value, PeriodKey(d), PlanWarning(s, d), starts)
  }

  /** The out-of-order warning says exactly that some issued number carries a
      later document date. */
  lemma WarnsExactlyWhenOutOfOrder(s: Series, d: Date)
    ensures PlanNumber(s, d).warning.Some? <==> exists a :: a in s.issued && Before(d, a.date)
    ensures PlanNumber(s, d).warning.Some? ==>
              forall a :: a in s.issued ==> !Before(PlanNumber(s, d).warning.value.latestDate, a.date)
  {
    LatestIsMaximal(s.issued);
  }

  // ----- allocate_number

  datatype Outcome = SeriesMissing | Collision(number: string) | Issued(plan: Plan)

  /** The counter moves before the row is inserted, and never moves back. */
  function MoveCounter(s: Series, plan: Plan): Series {
    if s.reset.Never? then
      s.(nextValue := plan.value + 1,
         currentPeriod := if s.currentPeriod.None? || StrLess(s.currentPeriod.value, plan.period)
                          then Some(plan.period) else s.currentPeriod)
    else if s.currentPeriod.None? || !StrLess(plan.period, s.currentPeriod.value) then
      s.(nextValue := plan.value + 1, currentPeriod := Some(plan.period))
    else s
  }

  function RowFor(plan: Plan, d: Date): Allocation {
    Allocation(plan.period, plan.value, plan.number, d)
  }

  /** The two unique constraints of `number_allocations`. */
  predicate Violates(a: Allocation, b: Allocation) {
    a.number == b.number || (a.period == b.period && a.value == b.value)
  }

  predicate Collides(issued: seq<Allocation>, row: Allocation) {
    exists k :: 0 <= k < |issued| && Violates(issued[k], row)
  }

  /** `allocate_number`. On a collision the row is missing and the counter has
      already moved; only the caller's rollback undoes that. */
  function Allocate(s: Series, d: Date): (Series, Outcome) {
    if !s.active then (s, SeriesMissing)
    else
      var plan := PlanNumber(s, d);
      var moved := MoveCounter(s, plan);
      if Collides(moved.issued, RowFor(plan, d)) then (moved, Collision(plan.number))
      else (moved.(issued := moved.issued + [RowFor(plan, d)]), Issued(plan))
  }

  // ----- update_number_series

  datatype Changes = Changes(
    pattern: Option<string>, padding: Option<int>, reset: Option<Reset>,
    nextValue: Option<pos>, active: Option<bool>)

  datatype EditOutcome =
    | BadPattern(reason: PatternError)
    | BadPadding
    | ReissuesValue(value: nat, highest: nat)
    | ReissuesNumber(number: string)
    | Saved

  function Or<T>(o: Option<T>, otherwise: T): T {
    if o.Some? then o.value else otherwise
  }

  /** The row with the proposed values in it, before any guard. */
  function Proposed(s: Series, c: Changes): Series
    requires Or(c.padding, s.padding) >= 0
  {
    s.(pattern := Or(c.pattern, s.pattern), padding := Or(c.padding, s.padding),
       reset := Or(c.reset, s.reset), nextValue := Or(c.nextValue, s.nextValue))
  }

  function Edit(s: Series, c: Changes, today: Date): (Series, EditOutcome) {
    var verdict := ValidatePattern(Or(c.pattern, s.pattern), Or(c.reset, s.reset));
    if verdict.Err? then (s, BadPattern(verdict.error))
    else if !ValidatePadding(Or(c.padding, s.padding)) then (s, BadPadding)
    else
      var probe := Proposed(s, c);
      if s.currentPeriod.Some? && probe.nextValue <= HighestIn(s.issued, s.currentPeriod.value) then
        (s, ReissuesValue(probe.nextValue, HighestIn(s.issued, s.currentPeriod.value)))
      else
        var number := PlanNumber(probe, today).number;
        if exists k :: 0 <= k < |s.issued| && s.issued[k].number == number then (s, ReissuesNumber(number))
        else (probe.(active := Or(c.active, s.active)), Saved)
  }

  // ----- The row as the program holds it

  class SeriesRow {
    var pattern: string
    var padding: nat
    var reset: Reset
    var nextValue: nat
    var currentPeriod: Option<string>
    var isActive: bool
    var allocations: seq<Allocation>

    function Contents(): Series
      reads this
    {
      Series(pattern, padding, reset, nextValue, currentPeriod, isActive, allocations)
    }

    /** `create_number_series`: no period yet, whatever the start value. */
    constructor (pattern: string, padding: nat, reset: Reset, start: pos)
      ensures Contents() == Fresh(pattern, padding, reset, start)
    {
      this.pattern, this.padding, this.reset := pattern, padding, reset;
      nextValue, currentPeriod, isActive, allocations := start, None, true, [];
    }

    method HighestValueInPeriod(period: string) returns (highest: nat)
      ensures highest == HighestIn(allocations, period)
    {
      highest := 0;
      for i := 0 to |allocations|
        invariant highest == HighestIn(allocations[..i], period)
      {
        assert allocations[..i + 1][..i] == allocations[..i];
        if allocations[i].period == period && allocations[i].value > highest {
          highest := allocations[i].value;
        }
      }
      assert allocations[..|allocations|] == allocations;
    }

    method AllocateNumber(d: Date) returns (outcome: Outcome)
      modifies this
      ensures (Contents(), outcome) == Allocate(old(Contents()), d)
    {
      if !isActive {
        return SeriesMissing;
      }
      var plan := PlanNumber(Contents(), d);
      if reset.Never? {
        nextValue := plan.value + 1;
        if currentPeriod.None? || StrLess(currentPeriod.value, plan.period) {
          currentPeriod := Some(plan.period);
        }
      } else if currentPeriod.None? || !StrLess(plan.period, currentPeriod.value) {
        currentPeriod := Some(plan.period);
        nextValue := plan.value + 1;
      }
      var row := RowFor(plan, d);
      if Collides(allocations, row) {
        return Collision(plan.number);
      }
      allocations := allocations + [row];
      return Issued(plan);
    }

    method SetFields(c: Changes)
      requires Or(c.padding, padding) >= 0
      modifies this
      ensures Contents() == Proposed(old(Contents()), c).(active := Or(c.active, old(isActive)))
    {
      if c.pattern.Some? { pattern := c.pattern.value; }
      if c.padding.Some? { padding := c.padding.value; }
      if c.reset.Some? { reset := c.reset.value; }
      if c.nextValue.Some? { nextValue := c.nextValue.value; }
      if c.active.Some? { isActive := c.active.value; }
    }

    method Update(c: Changes, today: Date) returns (outcome: EditOutcome)
      modifies this
      ensures (Contents(), outcome) == Edit(old(Contents()), c, today)
    {
      var verdict := ValidatePattern(Or(c.pattern, pattern), Or(c.reset, reset));
      if verdict.Err? {
        return BadPattern(verdict.error);
      }
      if !ValidatePadding(Or(c.padding, padding)) {
        return BadPadding;
      }
      var proposedNext := Or(c.nextValue, nextValue);
      if currentPeriod.Some? {
        var highest := HighestValueInPeriod(currentPeriod.value);
        if proposedNext <= highest {
          return ReissuesValue(proposedNext, highest);
        }
      }
      var number := PlanNumber(Proposed(Contents(), c), today).number;
      if exists k :: 0 <= k < |allocations| && allocations[k].number == number {
        return ReissuesNumber(number);
      }
      SetFields(c);
      return Saved;
    }
  }

  function Fresh(pattern: string, padding: nat, reset: Reset, start: pos): Series {
    Series(pattern, padding, reset, start, None, true, [])
  }

  /** `preview_number`. With no series yet there is no counter: value 1. */
  function Preview(series: Option<Series>, pattern: string, padding: nat, reset: Reset, d: Date): Plan {
    if series.None? then Plan(FormatNumber(pattern, 1, d, padding), 1, PeriodKey(d), None, false)
    else PlanNumber(series.value.(pattern := pattern, padding := padding, reset := reset), d)
  }

  /** The documented start value is honoured exactly on a continuous series or
      when it is 1: a yearly series ignores it, because it has no period yet.
      The preview of a series being created is right under the same condition
      the other way round. */
  lemma FirstNumber(pattern: string, padding: nat, reset: Reset, start: pos, d: Date)
    requires !reset.Unknown?
    ensures var (s, outcome) := Allocate(Fresh(pattern, padding, reset, start), d);
            && outcome.Issued?
            && (outcome.plan.value == start <==> reset == Never || start == 1)
            && (outcome.plan.value == Preview(None, pattern, padding, reset, d).value <==>
              reset == Yearly || start == 1)
            && s.currentPeriod == Some(PeriodKey(d)) && s.nextValue == outcome.plan.value + 1
  {
  }

  /** The year in question: a yearly series created to continue at 500 issues 1. */
  lemma YearlyStartIsIgnored(d: Date)
    ensures Allocate(Fresh("AR-{YYYY}-{SEQ}", 4, Yearly, 500), d).1.plan.value == 1
  {
    FirstNumber("AR-{YYYY}-{SEQ}", 4, Yearly, 500, d);
  }
}
