/** Edits of a number series as they reach the row. The handler reads the row
    without a lock, checks the proposed values, and writes later the fields
    whose value differs from what it has read (apps/api/routers/number_series.py).
    Allocations and other edits can commit in between. */
module SeriesEdits {
  import opened Digits
  import opened Calendar
  import opened Patterns
  import opened NumberSeries
  import opened SeriesRuns
  import opened SeriesLaws
  import opened Wrappers

  /** What an edit carries from its guard to its write. */
  datatype Guard = Guard(changes: Changes, today: Date, seen: Series)

  predicate Accepted(g: Guard) {
    Edit(g.seen, g.changes, g.today).1.Saved?
  }

  function Written<T(==)>(sent: Option<T>, seen: T, present: T): T {
    if Alters(sent, seen) then sent.value else present
  }

  /** A width the guard refuses is never written. */
  function WrittenPadding(sent: Option<int>, seen: nat, present: nat): nat {
    if sent.Some? && sent.value != seen && sent.value >= 0 then sent.value else present
  }

  /** The one UPDATE of an edit, on the row as it is by then. */
  function Overwrite(s: Series, g: Guard): Series {
    s.(pattern := Written(g.changes.pattern, g.seen.pattern, s.pattern),
       padding := WrittenPadding(g.changes.padding, g.seen.padding, s.padding),
       reset := Written(g.changes.reset, g.seen.reset, s.reset),
       nextValue := Written(g.changes.nextValue, g.seen.nextValue, s.nextValue),
       active := Written(g.changes.active, g.seen.active, s.active))
  }

  /** What a commit leaves: an allocation, or the write of an edit. */
  datatype Entry =
    | Took(date: Date, swallow: bool)
    | Wrote(guard: Guard)

  function Apply(s: Series, e: Entry): Series {
    match e
    case Took(d, swallow) => Step(s, Take(d, swallow))
    case Wrote(g) => Overwrite(s, g)
  }

  function RunEntries(s: Series, entries: seq<Entry>): Series {
    if entries == [] then s else Apply(RunEntries(s, entries[..|entries| - 1]), entries[|entries| - 1])
  }

  lemma {:induction false} EntriesConcat(s: Series, a: seq<Entry>, b: seq<Entry>)
    ensures RunEntries(s, a + b) == RunEntries(RunEntries(s, a), b)
  {
    if b == [] {
      assert a + b == a;
    } else {
      assert (a + b)[..|a + b| - 1] == a + b[..|b| - 1];
      EntriesConcat(s, a, b[..|b| - 1]);
    }
  }

  lemma EntriesOne(s: Series, a: seq<Entry>, e: Entry)
    ensures RunEntries(s, a + [e]) == Apply(RunEntries(s, a), e)
  {
    assert (a + [e])[..|a + [e]| - 1] == a;
  }

  // ----- An edit nobody came between

  /** Writing on the row that was read is the edit in one piece. */
  lemma UndisturbedIsEdit(g: Guard)
    requires Accepted(g)
    ensures Overwrite(g.seen, g) == Step(g.seen, Change(g.changes, g.today))
  {
  }

  predicate Undisturbed(s: Series, entries: seq<Entry>) {
    forall i :: 0 <= i < |entries| && entries[i].Wrote? ==>
      Accepted(entries[i].guard) && entries[i].guard.seen == RunEntries(s, entries[..i])
  }

  function AsOp(e: Entry): Op {
    match e
    case Took(d, swallow) => Take(d, swallow)
    case Wrote(g) => Change(g.changes, g.today)
  }

  function AsOps(entries: seq<Entry>): seq<Op> {
    seq(|entries|, i requires 0 <= i < |entries| => AsOp(entries[i]))
  }

  /** Where nothing commits between the guard and the write of any edit, edits
      are single steps. */
  lemma {:induction false} UndisturbedIsAtomic(s: Series, entries: seq<Entry>)
    requires Undisturbed(s, entries)
    ensures RunEntries(s, entries) == Run(s, AsOps(entries))
  {
    if entries != [] {
      var n := |entries| - 1;
      var front, e := entries[..n], entries[n];
      forall i | 0 <= i < n ensures front[..i] == entries[..i] && front[i] == entries[i] {
      }
      UndisturbedIsAtomic(s, front);
      assert AsOps(entries)[..n] == AsOps(front);
      if e.Wrote? { UndisturbedIsEdit(e.guard); }
    }
  }

  // ----- The invariant, exactly

  /** The guard of an edit, asked of the row as it will be written: the pattern
      fits the mode, and the counter exceeds what the current period issued. */
  predicate StillPasses(s: Series, g: Guard) {
    var t := Overwrite(s, g);
    && ValidatePattern(t.pattern, t.reset).Ok?
    && (s.currentPeriod.Some? ==> t.nextValue > HighestIn(s.issued, s.currentPeriod.value))
  }

  /** A write keeps the invariant if and only if its guard still passes then. */
  lemma WriteKeepsInvExactly(s: Series, g: Guard)
    requires Inv(s)
    ensures Inv(Overwrite(s, g)) <==> StillPasses(s, g)
  {
    if s.currentPeriod.Some? {
      HighestBounds(s.issued, s.currentPeriod.value);
    }
  }

  predicate AllStillPass(s: Series, entries: seq<Entry>) {
    forall i :: 0 <= i < |entries| && entries[i].Wrote? ==> StillPasses(RunEntries(s, entries[..i]), entries[i].guard)
  }

  /** After these entries, and after each of them before. */
  ghost predicate AlwaysInv(s: Series, entries: seq<Entry>) {
    Inv(RunEntries(s, entries)) && (entries != [] ==> AlwaysInv(s, entries[..|entries| - 1]))
  }

  lemma ApplyKeepsInvExactly(s: Series, e: Entry)
    requires Inv(s)
    ensures Inv(Apply(s, e)) <==> (e.Wrote? ==> StillPasses(s, e.guard))
  {
    match e
    case Took(d, swallow) => StepKeepsInv(s, Take(d, swallow));
    case Wrote(g) => WriteKeepsInvExactly(s, g);
  }

  lemma AllStillPassOfFront(s: Series, entries: seq<Entry>, front: seq<Entry>, last: Entry, mid: Series)
    requires entries == front + [last] && mid == RunEntries(s, front)
    ensures AllStillPass(s, entries) <==> (AllStillPass(s, front) && (last.Wrote? ==> StillPasses(mid, last.guard)))
  {
    assert entries[|front|] == last && entries[..|front|] == front;
    forall i | 0 <= i < |front| ensures entries[..i] == front[..i] && entries[i] == front[i] {
    }
  }

  /** The invariant holds throughout if and only if the guard of every edit
      still passes at its write. */
  lemma {:induction false} AlwaysInvExactly(s: Series, entries: seq<Entry>)
    requires Inv(s)
    ensures AlwaysInv(s, entries) <==> AllStillPass(s, entries)
  {
    if entries != [] {
      var front, last := entries[..|entries| - 1], entries[|entries| - 1];
      AlwaysInvExactly(s, front);
      AllStillPassOfFront(s, entries, front, last, RunEntries(s, front));
      if AlwaysInv(s, front) { ApplyKeepsInvExactly(RunEntries(s, front), last); }
    }
  }

  // ----- Allocations in between

  lemma {:induction false} TakesKeepSettings(s: Series, ops: seq<Op>)
    requires forall op :: op in ops ==> op.Take?
    ensures var t := Run(s, ops);
            t.pattern == s.pattern && t.padding == s.padding && t.reset == s.reset && t.active == s.active
  {
    if ops != [] {
      TakesKeepSettings(s, ops[..|ops| - 1]);
      assert ops[|ops| - 1] in ops;
    }
  }

  /** Allocations between guard and write break the invariant if and only if the
      edit writes a counter that they have reached by then. */
  lemma AllocationsBetween(g: Guard, ops: seq<Op>)
    requires Inv(g.seen) && Accepted(g) && forall op :: op in ops ==> op.Take?
    ensures var s := Run(g.seen, ops);
            Inv(Overwrite(s, g)) <==>
              (Alters(g.changes.nextValue, g.seen.nextValue) && s.currentPeriod.Some? ==>
                 g.changes.nextValue.value > HighestIn(s.issued, s.currentPeriod.value))
  {
    var s := Run(g.seen, ops);
    RunKeepsInv(g.seen, ops);
    TakesKeepSettings(g.seen, ops);
    WriteKeepsInvExactly(s, g);
    if s.currentPeriod.Some? {
      HighestBounds(s.issued, s.currentPeriod.value);
    }
  }

  /** Whoever lowers a counter that had been raised, while an allocation takes
      the raised value, sets it back below a number already issued. */
  lemma LateWriteSetsBack(s: Series, d: Date, g: Guard)
    requires Inv(s) && Accepted(g) && g.seen == s && Allocate(s, d).1.Issued?
    requires s.currentPeriod == Some(PeriodKey(d))
    requires g.changes.nextValue.Some? && g.changes.nextValue.value < s.nextValue
    ensures Apply(s, Wrote(g)) == Step(s, Change(g.changes, g.today)) && Inv(Apply(s, Wrote(g)))
    ensures !Inv(RunEntries(s, [Took(d, false), Wrote(g)]))
  {
    UndisturbedIsEdit(g);
    StepKeepsInv(s, Change(g.changes, g.today));
    RaisedValueIsTaken(s, d, Allocate(s, d).0);
    AllocateKeepsInv(s, d);
    WriteKeepsInvExactly(Allocate(s, d).0, g);
    TwoEntries(s, Took(d, false), Wrote(g));
  }

  lemma RaisedValueIsTaken(s: Series, d: Date, t: Series)
    requires Allocate(s, d).1.Issued? && t == Allocate(s, d).0 && s.currentPeriod == Some(PeriodKey(d))
    ensures t.currentPeriod == s.currentPeriod && HighestIn(t.issued, PeriodKey(d)) >= s.nextValue
  {
    var plan := PlanNumber(s, d);
    PlansPresentCounter(s, d);
    assert t == Extended(s, d, plan);
    ExtendedCounts(s, d, plan, PeriodKey(d));
  }

  lemma PlansPresentCounter(s: Series, d: Date)
    requires s.currentPeriod == Some(PeriodKey(d))
    ensures PlanValue(s, d) == s.nextValue && MoveCounter(s, PlanNumber(s, d)).currentPeriod == s.currentPeriod
  {
    PeriodOrder(d, d);
  }

  lemma TwoEntries(s: Series, a: Entry, b: Entry)
    ensures RunEntries(s, [a, b]) == Apply(Apply(s, a), b)
  {
    EntriesOne(s, [], a);
    EntriesOne(s, [a], b);
    assert [] + [a] == [a] && [a] + [b] == [a, b];
  }

  // ----- Gap-free under overlapping edits

  /** Every edit passed its guard on a state the series was in before. */
  ghost predicate WellRead(s: Series, entries: seq<Entry>) {
    forall i :: 0 <= i < |entries| && entries[i].Wrote? ==> ReadBefore(s, entries, i, entries[i].guard)
  }

  ghost predicate ReadBefore(s: Series, entries: seq<Entry>, i: nat, g: Guard)
    requires i <= |entries|
  {
    Accepted(g) && exists n: nat :: n <= i && g.seen == RunEntries(s, entries[..n])
  }

  /** A collision is rolled back, and an edit alters neither the counter nor the
      mode it has read. */
  predicate EntryKeepsCounting(e: Entry) {
    match e
    case Took(_, swallow) => !swallow
    case Wrote(g) => !Alters(g.changes.reset, g.seen.reset) && !Alters(g.changes.nextValue, g.seen.nextValue)
  }

  lemma {:induction false} EntriesStayYearly(s: Series, entries: seq<Entry>)
    requires s.reset.Yearly? && forall e :: e in entries ==> EntryKeepsCounting(e)
    ensures RunEntries(s, entries).reset.Yearly?
  {
    if entries != [] {
      EntriesStayYearly(s, entries[..|entries| - 1]);
      assert entries[|entries| - 1] in entries;
    }
  }

  lemma SettingsWritten(s: Series, g: Guard)
    requires Inv(s) && s.reset.Yearly? && Accepted(g) && g.seen.reset.Yearly? && EntryKeepsCounting(Wrote(g))
    ensures var t := Overwrite(s, g);
            Inv(t) && t.issued == s.issued && t.nextValue == s.nextValue && t.currentPeriod == s.currentPeriod
              && t.reset == s.reset
  {
    WriteKeepsInvExactly(s, g);
    if s.currentPeriod.Some? { HighestBounds(s.issued, s.currentPeriod.value); }
  }

  lemma ReadYearly(s: Series, entries: seq<Entry>, i: nat, g: Guard)
    requires s.reset.Yearly? && (forall e :: e in entries ==> EntryKeepsCounting(e))
    requires i <= |entries| && ReadBefore(s, entries, i, g)
    ensures g.seen.reset.Yearly?
  {
    var n: nat :| n <= i && g.seen == RunEntries(s, entries[..n]);
    EntriesStayYearly(s, entries[..n]);
  }

  lemma WellReadOfFront(s: Series, entries: seq<Entry>, front: seq<Entry>)
    requires WellRead(s, entries) && entries != [] && front == entries[..|entries| - 1]
    ensures WellRead(s, front)
  {
    forall i | 0 <= i < |front| && front[i].Wrote? ensures ReadBefore(s, front, i, front[i].guard) {
      assert entries[i] == front[i];
      var n: nat :| n <= i && entries[i].guard.seen == RunEntries(s, entries[..n]);
      assert front[..n] == entries[..n];
    }
  }

  /** Edits of pattern, padding and activity may overlap allocations and each
      other: each period of a yearly series still counts on without a gap. */
  lemma {:induction false} EntriesCountOn(s: Series, entries: seq<Entry>, p: string) returns (n: nat)
    requires Inv(s) && s.reset.Yearly? && Settled(s) && WellRead(s, entries)
    requires forall e :: e in entries ==> EntryKeepsCounting(e)
    ensures Inv(RunEntries(s, entries)) && CountedOn(s, RunEntries(s, entries), p, n)
  {
    if entries == [] {
      n := 0;
      assert ValuesIn(s.issued, p) == ValuesIn(s.issued, p) + Consecutive(NextIn(s, p), 0);
    } else {
      var i := |entries| - 1;
      var front, last := entries[..i], entries[i];
      assert last in entries;
      WellReadOfFront(s, entries, front);
      n := EntriesCountOn(s, front, p);
      if last.Took? {
        n := CountOneStep(s, RunEntries(s, front), p, n, Take(last.date, false));
      } else {
        ReadYearly(s, entries, i, last.guard);
        SettingsWritten(RunEntries(s, front), last.guard);
      }
    }
  }
}
