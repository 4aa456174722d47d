/** When an identifier is checked next: the initial series, the two retries and
    the regular interval, with jitter (apps/api/services/tax_id_checks.py,
    apps/api/tasks/tax_id_tasks.py). Times are microseconds. */
module CheckSchedule {
  import opened TaxIdChecks
  import opened Wrappers

  const SECOND := 1_000_000
  const MINUTE := 60 * SECOND
  const HOUR := 3600 * SECOND

  const RETRY_HOURS := [6, 24]

  /** Ten per cent of a day either way. */
  const JITTER := 8640 * SECOND

  type Jitter = j: int | -8_640_000_000 <= j <= 8_640_000_000

  /** `recheckDays` of None or 0 turns re-checking off; the party's override
      wins when it is set and not 0. The laws hold for any interval; the request
      schemas let 1 to 3650 days through. */
  datatype Policy = Policy(offsets: seq<nat>, recheckDays: Option<int>)

  function IntervalFor(p: Policy, override: Option<int>): Option<int> {
    if override.Some? && override.value != 0 then override
    else if p.recheckDays == Some(0) then None
    else p.recheckDays
  }

  datatype Schedule = Schedule(next: Option<int>, streak: nat, done: nat)

  function NextRegular(now: int, interval: Option<int>, jitter: Jitter): Option<int> {
    if interval.None? then None else Some(now + interval.value * DAY + jitter)
  }

  function Max(a: int, b: int): int {
    if a >= b then a else b
  }

  /** `_advance_schedule`. */
  function Advance(s: Schedule, status: Status, created: int, p: Policy, interval: Option<int>, now: int,
                   jitter: Jitter): Schedule {
    if !Completed(status) then
      var streak := s.streak + 1;
      if streak <= 2 then Schedule(Some(now + RETRY_HOURS[streak - 1] * HOUR + jitter), streak, s.done)
      else Schedule(NextRegular(now, interval, jitter), streak, s.done)
    else if status.NotCheckable? then Schedule(None, 0, |p.offsets|)
    else
      var done := s.done + 1;
      if done < |p.offsets| then
        Schedule(Some(Max(created + p.offsets[done] * DAY, now + MINUTE) + jitter), 0, done)
      else Schedule(NextRegular(now, interval, jitter), 0, done)
  }

  /** `schedule_initial`. */
  function Start(p: Policy, verifiable: bool, now: int): Schedule {
    if !verifiable then Schedule(None, 0, 0)
    else Schedule(Some(now + (if p.offsets == [] then 0 else p.offsets[0]) * DAY), 0, 0)
  }

  /** One row of `party_tax_ids`, with its checks. */
  class TaxIdentifier {
    const createdAt: int
    var nextCheckAt: Option<int>
    var unavailableStreak: nat
    var initialChecksDone: nat
    var needsAttention: bool
    var checks: seq<Check>
    ghost var ackedAt: nat

    ghost function Rec(): Record
      reads this
    {
      Record(checks, needsAttention, ackedAt)
    }

    function Plan(): Schedule
      reads this
    {
      Schedule(nextCheckAt, unavailableStreak, initialChecksDone)
    }

    constructor (now: int)
      ensures Rec() == NEW_RECORD && Plan() == Schedule(None, 0, 0) && createdAt == now
    {
      createdAt := now;
      nextCheckAt, unavailableStreak, initialChecksDone := None, 0, 0;
      needsAttention, checks, ackedAt := false, [], 0;
    }

    method ScheduleInitial(p: Policy, verifiable: bool, now: int)
      modifies this`nextCheckAt, this`unavailableStreak, this`initialChecksDone
      ensures Plan() == Start(p, verifiable, now)
    {
      initialChecksDone := 0;
      unavailableStreak := 0;
      var offsets := if p.offsets == [] then [0] else p.offsets;
      if !verifiable {
        nextCheckAt := None;
        return;
      }
      nextCheckAt := Some(now + offsets[0] * DAY);
    }

    method AdvanceSchedule(status: Status, p: Policy, interval: Option<int>, now: int, jitter: Jitter)
      modifies this`nextCheckAt, this`unavailableStreak, this`initialChecksDone
      ensures Plan() == Advance(old(Plan()), status, createdAt, p, interval, now, jitter)
    {
      if !Completed(status) {
        unavailableStreak := unavailableStreak + 1;
        var index := (if unavailableStreak <= |RETRY_HOURS| then unavailableStreak else |RETRY_HOURS|) - 1;
        if unavailableStreak <= |RETRY_HOURS| {
          nextCheckAt := Some(now + RETRY_HOURS[index] * HOUR + jitter);
        } else {
          nextCheckAt := NextRegular(now, interval, jitter);
        }
        return;
      }
      unavailableStreak := 0;
      if status.NotCheckable? {
        initialChecksDone := |p.offsets|;
        nextCheckAt := None;
        return;
      }
      var done := initialChecksDone + 1;
      initialChecksDone := done;
      if done < |p.offsets| {
        var target := createdAt + p.offsets[done] * DAY;
        nextCheckAt := Some(Max(target, now + MINUTE) + jitter);
        return;
      }
      nextCheckAt := NextRegular(now, interval, jitter);
    }

    /** `record_check`: the row is compared with the previous answer, stored
        with its change, the schedule moves, and a change raises the flag. */
    method RecordCheck(result: CheckResult, p: Policy, override: Option<int>, now: int,
                       jitter: Jitter) returns (row: Check)
      modifies this
      ensures Rec() == Apply(old(Rec()), Checked(result))
      ensures Plan() == Advance(old(Plan()), result.status, createdAt, p, IntervalFor(p, override), now, jitter)
      ensures row == checks[|checks| - 1]
    {
      var previous := LatestWhere(checks, Completed);
      var changes: Changes := map[];
      if Completed(result.status) {
        changes := DetectChanges(previous, result);
      }
      row := result.(changes := changes);
      checks := checks + [row];
      AdvanceSchedule(result.status, p, IntervalFor(p, override), now, jitter);
      if changes != map[] {
        needsAttention := true;
      }
    }

    method Acknowledge()
      modifies this`needsAttention, this`ackedAt
      ensures Rec() == Apply(old(Rec()), Acknowledged)
    {
      needsAttention := false;
      ackedAt := |checks|;
    }
  }

  // ----- Any run of checks

  /** One attempt: when it ran, its status, and the jitter drawn. */
  datatype Attempt = Attempt(at: int, status: Status, jitter: Jitter)

  function AdvanceAll(s: Schedule, created: int, p: Policy, interval: Option<int>, attempts: seq<Attempt>): Schedule {
    if attempts == [] then s
    else
      var last := attempts[|attempts| - 1];
      Advance(AdvanceAll(s, created, p, interval, attempts[..|attempts| - 1]), last.status, created, p, interval,
              last.at, last.jitter)
  }

  function Answers(attempts: seq<Attempt>): nat {
    if attempts == [] then 0
    else Answers(attempts[..|attempts| - 1]) + if Completed(attempts[|attempts| - 1].status) then 1 else 0
  }

  function TrailingFailures(attempts: seq<Attempt>): nat {
    if attempts == [] || Completed(attempts[|attempts| - 1].status) then 0
    else TrailingFailures(attempts[..|attempts| - 1]) + 1
  }

  /** The attempts after the last one that found nothing to ask. */
  function SinceSettled(attempts: seq<Attempt>): seq<Attempt> {
    if attempts == [] || attempts[|attempts| - 1].status.NotCheckable? then []
    else SinceSettled(attempts[..|attempts| - 1]) + [attempts[|attempts| - 1]]
  }

  /** Answers count one each; a `not_checkable` puts the series at its end. */
  function SeriesCount(p: Policy, attempts: seq<Attempt>): nat {
    (if exists i :: 0 <= i < |attempts| && attempts[i].status.NotCheckable? then |p.offsets| else 0)
    + Answers(SinceSettled(attempts))
  }

  /** When the identifier is due after `last`, in terms of the two counts: after
      6 hours, 24 hours, on a day of the series but in a minute at the earliest,
      or after the interval in days, each with the jitter. In microseconds. */
  function DueAfter(created: int, p: Policy, interval: Option<int>, last: Attempt, count: nat,
                    failures: nat): Option<int> {
    if last.status.NotCheckable? then None
    else if failures == 1 then Some(last.at + 21_600_000_000 + last.jitter)
    else if failures == 2 then Some(last.at + 86_400_000_000 + last.jitter)
    else if failures == 0 && count < |p.offsets| then
      var day := created + p.offsets[count] * 86_400_000_000;
      Some((if day < last.at + 60_000_000 then last.at + 60_000_000 else day) + last.jitter)
    else if interval.Some? then Some(last.at + interval.value * 86_400_000_000 + last.jitter)
    else None
  }

  lemma CountOneAttempt(p: Policy, init: seq<Attempt>, last: Attempt, all: seq<Attempt>)
    requires all == init + [last]
    ensures Answers(all) == Answers(init) + if Completed(last.status) then 1 else 0
    ensures TrailingFailures(all) == if Completed(last.status) then 0 else TrailingFailures(init) + 1
    ensures SeriesCount(p, all) ==
              if last.status.NotCheckable? then |p.offsets|
              else SeriesCount(p, init) + if Completed(last.status) then 1 else 0
  {
    assert all[..|init|] == init;
    assert all[|init|] == last;
    if !last.status.NotCheckable? {
      var since := SinceSettled(init) + [last];
      assert SinceSettled(all) == since;
      assert since[..|since| - 1] == SinceSettled(init);
      assert forall i :: 0 <= i < |init| ==> all[i] == init[i];
    }
  }

  /** Whatever the statuses, and whether or not a registry exists: the series
      counter is the number of answers since the last `not_checkable`, on top of
      the whole series once there was one; the streak is the number of failures
      since the last answer; and these two and the last attempt alone decide
      when the identifier is due. */
  lemma {:induction false} SeriesFollowsAnswers(created: int, verifiable: bool, p: Policy, interval: Option<int>,
                                                attempts: seq<Attempt>)
    ensures var s := AdvanceAll(Start(p, verifiable, created), created, p, interval, attempts);
            var n := SeriesCount(p, attempts);
            && s.done == n && s.streak == TrailingFailures(attempts)
            && (attempts != [] ==> s.next == DueAfter(created, p, interval, attempts[|attempts| - 1], n, s.streak))
  {
    if attempts != [] {
      var init, last := attempts[..|attempts| - 1], attempts[|attempts| - 1];
      SeriesFollowsAnswers(created, verifiable, p, interval, init);
      CountOneAttempt(p, init, last, attempts);
      AdvanceCounts(AdvanceAll(Start(p, verifiable, created), created, p, interval, init), created, p, interval, last,
                    SeriesCount(p, attempts), TrailingFailures(attempts));
    }
  }

  lemma AdvanceCounts(s: Schedule, created: int, p: Policy, interval: Option<int>, last: Attempt, count: nat,
                      failures: nat)
    requires failures == if Completed(last.status) then 0 else s.streak + 1
    requires count == if last.status.NotCheckable? then |p.offsets|
                      else s.done + if Completed(last.status) then 1 else 0
    ensures Advance(s, last.status, created, p, interval, last.at, last.jitter)
         == Schedule(DueAfter(created, p, interval, last, count, failures), failures, count)
  {
  }

  /** No check of the initial series comes due before its own day, counted from
      the identifier's creation, less the jitter. */
  lemma SeriesKeepsItsDays(created: int, verifiable: bool, p: Policy, interval: Option<int>, attempts: seq<Attempt>)
    ensures var s := AdvanceAll(Start(p, verifiable, created), created, p, interval, attempts);
            s.next.Some? && s.streak == 0 && s.done < |p.offsets| ==>
              s.next.value >= created + p.offsets[s.done] * DAY - JITTER
  {
    SeriesFollowsAnswers(created, verifiable, p, interval, attempts);
  }

  /** Every attempt so far was an answer, and came more than a minute before the
      next day of the series. */
  predicate OnTime(created: int, p: Policy, attempts: seq<Attempt>) {
    && |attempts| < |p.offsets|
    && forall i :: 0 <= i < |attempts| ==>
         && (attempts[i].status.Valid? || attempts[i].status.Invalid?)
         && attempts[i].at + 60_000_000 <= created + p.offsets[i + 1] * 86_400_000_000
  }

  lemma {:induction false} AnswersCount(p: Policy, attempts: seq<Attempt>)
    requires forall i :: 0 <= i < |attempts| ==> attempts[i].status.Valid? || attempts[i].status.Invalid?
    ensures SeriesCount(p, attempts) == |attempts| && TrailingFailures(attempts) == 0
  {
    if attempts != [] {
      AnswersCount(p, attempts[..|attempts| - 1]);
      CountOneAttempt(p, attempts[..|attempts| - 1], attempts[|attempts| - 1], attempts);
    }
  }

  /** An identifier with a registry is first due exactly on the first day of its
      series, at once when the policy has no series; and while its checks are
      answered on time, each later one is due on its own day, give or take the
      jitter. One without a registry starts without a due time. */
  lemma SeriesComesDueOnItsDays(created: int, p: Policy, interval: Option<int>, attempts: seq<Attempt>)
    ensures Start(p, false, created) == Schedule(None, 0, 0)
    ensures p.offsets == [] ==> Start(p, true, created) == Schedule(Some(created), 0, 0)
    ensures p.offsets != [] ==> Start(p, true, created).next == Some(created + p.offsets[0] * 86_400_000_000)
    ensures OnTime(created, p, attempts) && attempts != [] ==>
              var s := AdvanceAll(Start(p, true, created), created, p, interval, attempts);
              var day := created + p.offsets[|attempts|] * 86_400_000_000;
              && s.done == |attempts| && s.next == Some(day + attempts[|attempts| - 1].jitter)
              && day - 8_640_000_000 <= s.next.value <= day + 8_640_000_000
  {
    if OnTime(created, p, attempts) && attempts != [] {
      SeriesFollowsAnswers(created, true, p, interval, attempts);
      AnswersCount(p, attempts);
    }
  }

  /** The interval in force: the party's own when it is set and not 0, the
      company's otherwise, and none when neither says a number but 0. */
  lemma IntervalExactly(p: Policy, override: Option<int>, n: int)
    ensures IntervalFor(p, override) == Some(n) <==>
              n != 0 && (override == Some(n) || ((override == None || override == Some(0)) && p.recheckDays == Some(n)))
    ensures IntervalFor(p, override) == None <==>
              (override == None || override == Some(0)) && (p.recheckDays == None || p.recheckDays == Some(0))
  {
  }

  /** The statuses under which an identifier that starts without a due time is
      left without one: nothing to ask, or an answer past the end of the series
      with re-checking off. */
  predicate LeavesUndue(p: Policy, interval: Option<int>, attempts: seq<Attempt>, i: nat)
    requires i < |attempts|
  {
    || attempts[i].status.NotCheckable?
    || (interval.None? && Completed(attempts[i].status) && SeriesCount(p, attempts[..i + 1]) >= |p.offsets|)
  }

  lemma NextIsNone(created: int, verifiable: bool, p: Policy, interval: Option<int>, attempts: seq<Attempt>, i: nat)
    requires i < |attempts|
    ensures AdvanceAll(Start(p, verifiable, created), created, p, interval, attempts[..i + 1]).next.None? ==>
              LeavesUndue(p, interval, attempts, i) || (interval.None? && TrailingFailures(attempts[..i + 1]) > 2)
    ensures LeavesUndue(p, interval, attempts, i) ==>
              AdvanceAll(Start(p, verifiable, created), created, p, interval, attempts[..i + 1]).next.None?
  {
    SeriesFollowsAnswers(created, verifiable, p, interval, attempts[..i + 1]);
    assert attempts[..i + 1][|attempts[..i + 1]| - 1] == attempts[i];
    CountOneAttempt(p, attempts[..i], attempts[i], attempts[..i + 1]);
  }

  /** "Nothing is scheduled" for an identifier that no registry answers for
      holds over a run exactly when every attempt found nothing to ask, or was
      an answer past the series with re-checking off. One confirmation by hand,
      or one failure, is enough to schedule it. */
  lemma NeverDueExactly(created: int, verifiable: bool, p: Policy, interval: Option<int>, attempts: seq<Attempt>)
    ensures (forall i :: 0 <= i <= |attempts| ==>
               AdvanceAll(Start(p, verifiable, created), created, p, interval, attempts[..i]).next.None?)
       <==> !verifiable && forall i :: 0 <= i < |attempts| ==> LeavesUndue(p, interval, attempts, i)
  {
    var start := Start(p, verifiable, created);
    assert AdvanceAll(start, created, p, interval, attempts[..0]) == start;
    if forall i :: 0 <= i <= |attempts| ==> AdvanceAll(start, created, p, interval, attempts[..i]).next.None? {
      forall i | 0 <= i < |attempts| ensures LeavesUndue(p, interval, attempts, i) {
        NextIsNone(created, verifiable, p, interval, attempts, i);
        FailureIsScheduled(created, verifiable, p, interval, attempts, i);
      }
    }
    if !verifiable && forall i :: 0 <= i < |attempts| ==> LeavesUndue(p, interval, attempts, i) {
      forall i | 0 <= i <= |attempts| ensures AdvanceAll(start, created, p, interval, attempts[..i]).next.None? {
        if i > 0 { NextIsNone(created, verifiable, p, interval, attempts, i - 1); }
      }
    }
  }

  /** A third failure in a row comes after a first one, which was retried. */
  lemma {:induction false} FailureIsScheduled(created: int, verifiable: bool, p: Policy, interval: Option<int>,
                                              attempts: seq<Attempt>, i: nat)
    requires i < |attempts|
    requires forall k :: 0 <= k <= i + 1 ==>
               AdvanceAll(Start(p, verifiable, created), created, p, interval, attempts[..k]).next.None?
    ensures TrailingFailures(attempts[..i + 1]) == 0
  {
    CountOneAttempt(p, attempts[..i], attempts[i], attempts[..i + 1]);
    if i > 0 {
      FailureIsScheduled(created, verifiable, p, interval, attempts, i - 1);
    }
    SeriesFollowsAnswers(created, verifiable, p, interval, attempts[..i + 1]);
    assert attempts[..i + 1][|attempts[..i + 1]| - 1] == attempts[i];
  }

  /** A person confirms an identifier that no registry answers for. The check
      that the confirmation schedules, when the interval or a longer series
      schedules one, returns `not_checkable`: it takes the verdict back and
      raises the attention flag. */
  lemma ConfirmationIsUndone(m: CheckResult, n: CheckResult, p: Policy, interval: Option<int>, created: int, j: Jitter,
                             maxAgeDays: Option<nat>, now: int)
    requires m.status == Valid && m.provider.Manual? && !Stale(m, maxAgeDays, now)
    requires n.status == NotCheckable && m.checkedAt <= n.checkedAt
    ensures var confirmed := Advance(Start(p, false, created), Valid, created, p, interval, m.checkedAt, j);
            && (confirmed.next.Some? <==> interval.Some? || |p.offsets| > 1)
            && Advance(confirmed, NotCheckable, created, p, interval, n.checkedAt, j).next.None?
    ensures var before, after := Run([Checked(m)]), Run([Checked(m), Checked(n)]);
            && Verified(before.history, OtherKind, maxAgeDays, now) && !before.attention
            && !Verified(after.history, OtherKind, maxAgeDays, now) && after.attention
  {
    var none: seq<Event> := [];
    var row := m.(changes := map[]);
    assert [Checked(m)][..0] == none && [Checked(m), Checked(n)][..1] == [Checked(m)];
    assert Run([Checked(m)]) == Record([row], false, 0);
    OneRow(row, Answered);
    OneRow(row, Completed);
    var changes := ChangesOf([row], n);
    assert StatusChanged in changes;
    var last := n.(changes := changes);
    assert Run([Checked(m), Checked(n)]) == Record([row, last], true, 0);
    LatestAppended([row], last, Answered, [row, last]);
  }

  // ----- An outage

  function After(s: Schedule, a: Attempt, interval: Option<int>): Schedule {
    Advance(s, a.status, 0, Policy([], None), interval, a.at, a.jitter)
  }

  /** Scheduler-driven attempts during an outage: each runs when it is due. */
  predicate Outage(s: Schedule, attempts: seq<Attempt>, interval: Option<int>)
    decreases |attempts|
  {
    attempts == [] ||
    (&& !Completed(attempts[0].status)
     && s.next.Some? && s.next.value <= attempts[0].at
     && Outage(After(s, attempts[0], interval), attempts[1..], interval))
  }

  /** The wait a failed attempt imposes when it is the `streak`-th in a row. */
  function LeastWait(streak: nat, interval: int): int {
    if streak <= 1 then 6 * HOUR - JITTER
    else if streak == 2 then 24 * HOUR - JITTER
    else interval * DAY - JITTER
  }

  /** Whatever the policy and creation time, a failure moves only the retry state. */
  lemma FailureKeepsTheSeries(s: Schedule, status: Status, created: int, p: Policy, interval: Option<int>, now: int,
                              jitter: Jitter)
    requires !Completed(status)
    ensures var t := Advance(s, status, created, p, interval, now, jitter);
            && t == After(s, Attempt(now, status, jitter), interval)
            && t.done == s.done && t.streak == s.streak + 1
            && (t.next.Some? ==> interval.None? || t.next.value - now >= LeastWait(t.streak, interval.value))
            && (t.next.Some? <==> t.streak <= 2 || interval.Some?)
  {
  }

  /** Consecutive attempts of an outage are at least 3.6 hours, then 21.6 hours,
      then the interval less 2.4 hours apart. */
  lemma {:induction false} AttemptsAreSpaced(s: Schedule, attempts: seq<Attempt>, interval: Option<int>, k: nat)
    requires Outage(s, attempts, interval) && k + 1 < |attempts|
    ensures s.streak + k + 1 <= 2 || interval.Some?
    ensures attempts[k + 1].at - attempts[k].at
              >= LeastWait(s.streak + k + 1, if interval.Some? then interval.value else 1)
    decreases k
  {
    var t := After(s, attempts[0], interval);
    assert attempts[1..][0] == attempts[1];
    if k > 0 {
      AttemptsAreSpaced(t, attempts[1..], interval, k - 1);
    }
  }

  /** An outage that starts from an unbroken state: n attempts take at least
      25.2 hours plus n - 3 intervals, and with re-checking off there are at
      most three. */
  lemma {:induction false} OutageIsBounded(s: Schedule, attempts: seq<Attempt>, interval: Option<int>)
    requires Outage(s, attempts, interval) && s.streak == 0
    ensures interval.None? ==> |attempts| <= 3
    ensures |attempts| >= 3 && interval.Some? ==>
              attempts[|attempts| - 1].at - attempts[0].at
              >= 30 * HOUR - 2 * JITTER + (|attempts| - 3) * (interval.value * DAY - JITTER)
  {
    if |attempts| > 3 && interval.None? {
      AttemptsAreSpaced(s, attempts, interval, 2);
    }
    if |attempts| >= 3 {
      AttemptsAreSpaced(s, attempts, interval, 0);
      AttemptsAreSpaced(s, attempts, interval, 1);
      if interval.Some? {
        LongTail(s, attempts, interval, |attempts|);
      }
    }
  }

  lemma {:induction false} LongTail(s: Schedule, attempts: seq<Attempt>, interval: Option<int>, n: nat)
    requires Outage(s, attempts, interval) && s.streak == 0 && interval.Some? && 3 <= n <= |attempts|
    ensures attempts[n - 1].at - attempts[2].at >= (n - 3) * (interval.value * DAY - JITTER)
  {
    if n > 3 {
      LongTail(s, attempts, interval, n - 1);
      AttemptsAreSpaced(s, attempts, interval, n - 2);
      OneMore(n - 4, interval.value * DAY - JITTER);
    }
  }

  lemma OneMore(n: int, g: int)
    ensures (n + 1) * g == n * g + g
  {
  }

  /** An outage neither advances the initial series nor, whatever its length,
      touches the count of completed checks. */
  lemma {:induction false} OutageKeepsTheSeries(s: Schedule, attempts: seq<Attempt>, interval: Option<int>)
    requires Outage(s, attempts, interval)
    ensures AfterAll(s, attempts, interval).done == s.done
    ensures AfterAll(s, attempts, interval).streak == s.streak + |attempts|
    decreases |attempts|
  {
    if attempts != [] {
      OutageKeepsTheSeries(After(s, attempts[0], interval), attempts[1..], interval);
    }
  }

  function AfterAll(s: Schedule, attempts: seq<Attempt>, interval: Option<int>): Schedule
    decreases |attempts|
  {
    if attempts == [] then s else AfterAll(After(s, attempts[0], interval), attempts[1..], interval)
  }

  // ----- The work queue between selecting and checking

  /** `run_due` selects what is due and dispatches it, releasing its locks;
      `check_one` runs later and does not look at the due time again. */
  datatype TaskStep = RunDue(now: int) | CheckOne(attempt: Attempt)

  datatype Queue = Queue(schedule: Schedule, pending: nat, executed: seq<Attempt>)

  function Do(q: Queue, step: TaskStep, interval: Option<int>): Queue {
    match step
    case RunDue(now) =>
      if q.schedule.next.Some? && q.schedule.next.value <= now then q.(pending := q.pending + 1) else q
    case CheckOne(a) =>
      if q.pending == 0 then q
      else Queue(After(q.schedule, a, interval), q.pending - 1, q.executed + [a])
  }

  function DoAll(q: Queue, steps: seq<TaskStep>, interval: Option<int>): Queue
    decreases |steps|
  {
    if steps == [] then q else DoAll(Do(q, steps[0], interval), steps[1..], interval)
  }

  function StepTime(step: TaskStep): int {
    match step
    case RunDue(now) => now
    case CheckOne(a) => a.at
  }

  /** The clock moves forward and every check fails. */
  predicate Timed(steps: seq<TaskStep>, clock: int) {
    steps == [] ||
    (&& clock <= StepTime(steps[0])
     && (steps[0].CheckOne? ==> !Completed(steps[0].attempt.status))
     && Timed(steps[1..], StepTime(steps[0])))
  }

  /** The scheduler never dispatches the identifier while a check it dispatched
      before is still waiting for a worker. */
  predicate NoneWaiting(q: Queue, steps: seq<TaskStep>, interval: Option<int>)
    decreases |steps|
  {
    steps == [] ||
    (&& (steps[0].RunDue? && Do(q, steps[0], interval) != q ==> q.pending == 0)
     && NoneWaiting(Do(q, steps[0], interval), steps[1..], interval))
  }

  /** The dispatches of a run, each at a time when the identifier was due. */
  function Dispatched(q: Queue, steps: seq<TaskStep>, interval: Option<int>): nat
    decreases |steps|
  {
    if steps == [] then 0
    else
      (if steps[0].RunDue? && q.schedule.next.Some? && q.schedule.next.value <= steps[0].now then 1 else 0)
      + Dispatched(Do(q, steps[0], interval), steps[1..], interval)
  }

  /** No dispatch is lost and none is invented: whatever was dispatched has been
      executed or is waiting, and what was executed moved the schedule in order. */
  lemma {:induction false} QueueConserves(q: Queue, steps: seq<TaskStep>, interval: Option<int>)
    ensures var t := DoAll(q, steps, interval);
            && q.executed <= t.executed
            && |t.executed| + t.pending == |q.executed| + q.pending + Dispatched(q, steps, interval)
            && t.schedule == AfterAll(q.schedule, t.executed[|q.executed|..], interval)
    decreases |steps|
  {
    if steps == [] {
      assert q.executed[|q.executed|..] == [];
    } else {
      var next := Do(q, steps[0], interval);
      QueueConserves(next, steps[1..], interval);
      var done := DoAll(q, steps, interval).executed;
      if next.executed != q.executed {
        assert done[|q.executed|..] == [steps[0].attempt] + done[|next.executed|..];
      }
    }
  }

  /** A worker that finds a check waiting executes it. */
  lemma WorkersTakeWhatWaits(q: Queue, attempts: seq<Attempt>, interval: Option<int>)
    requires |attempts| <= q.pending
    ensures DoAll(q, Workers(attempts), interval).executed == q.executed + attempts
    ensures DoAll(q, Workers(attempts), interval).pending == q.pending - |attempts|
    decreases |attempts|
  {
    if attempts == [] {
      assert q.executed + [] == q.executed;
    } else {
      var next := Do(q, CheckOne(attempts[0]), interval);
      assert Workers(attempts)[0] == CheckOne(attempts[0]) && Workers(attempts)[1..] == Workers(attempts[1..]);
      WorkersTakeWhatWaits(next, attempts[1..], interval);
      assert q.executed + [attempts[0]] + attempts[1..] == q.executed + attempts;
    }
  }

  lemma {:induction false} OutageExtends(s: Schedule, attempts: seq<Attempt>, a: Attempt, interval: Option<int>)
    requires Outage(s, attempts, interval) && !Completed(a.status)
    requires AfterAll(s, attempts, interval).next.Some? && AfterAll(s, attempts, interval).next.value <= a.at
    ensures Outage(s, attempts + [a], interval)
    ensures AfterAll(s, attempts + [a], interval) == After(AfterAll(s, attempts, interval), a, interval)
    decreases |attempts|
  {
    if attempts == [] {
      assert [a][1..] == [];
    } else {
      assert (attempts + [a])[1..] == attempts[1..] + [a];
      OutageExtends(After(s, attempts[0], interval), attempts[1..], a, interval);
    }
  }

  /** What the workers have executed is an outage in the sense above, so the
      spacing and the bound hold of it, and a waiting check is still due. */
  predicate OnSchedule(s: Schedule, q: Queue, interval: Option<int>, clock: int) {
    && Outage(s, q.executed, interval) && AfterAll(s, q.executed, interval) == q.schedule
    && q.pending <= 1 && (q.pending == 1 ==> q.schedule.next.Some? && q.schedule.next.value <= clock)
  }

  function Workers(attempts: seq<Attempt>): seq<TaskStep> {
    seq(|attempts|, i requires 0 <= i < |attempts| => CheckOne(attempts[i]))
  }

  /** However the workers get to what is waiting, the attempts are spaced. */
  ghost predicate SpacedFromHere(s: Schedule, q: Queue, interval: Option<int>, clock: int) {
    forall attempts: seq<Attempt> :: Timed(Workers(attempts), clock) ==>
      Outage(s, DoAll(q, Workers(attempts), interval).executed, interval)
  }

  /** .. and that at every moment of a run. */
  ghost predicate AlwaysSpaced(s: Schedule, q: Queue, steps: seq<TaskStep>, interval: Option<int>, clock: int)
    decreases |steps|
  {
    && SpacedFromHere(s, q, interval, clock)
    && (steps != [] ==> AlwaysSpaced(s, Do(q, steps[0], interval), steps[1..], interval, StepTime(steps[0])))
  }

  lemma StepStaysOnSchedule(s: Schedule, q: Queue, step: TaskStep, interval: Option<int>, clock: int)
    requires OnSchedule(s, q, interval, clock) && Timed([step], clock)
    requires step.RunDue? && Do(q, step, interval) != q ==> q.pending == 0
    ensures OnSchedule(s, Do(q, step, interval), interval, StepTime(step))
  {
    if step.CheckOne? && q.pending == 1 {
      OutageExtends(s, q.executed, step.attempt, interval);
    }
  }

  lemma {:induction false} WorkersStayOnSchedule(s: Schedule, q: Queue, attempts: seq<Attempt>,
                                                 interval: Option<int>, clock: int)
    requires OnSchedule(s, q, interval, clock) && Timed(Workers(attempts), clock)
    ensures Outage(s, DoAll(q, Workers(attempts), interval).executed, interval)
    decreases |attempts|
  {
    if attempts != [] {
      var step := CheckOne(attempts[0]);
      assert Workers(attempts)[0] == step && Workers(attempts)[1..] == Workers(attempts[1..]);
      StepStaysOnSchedule(s, q, step, interval, clock);
      WorkersStayOnSchedule(s, Do(q, step, interval), attempts[1..], interval, attempts[0].at);
    }
  }

  /** With no check waiting at any dispatch, what the workers execute over the
      run is an outage, so the spacing and the bound hold. */
  lemma {:induction false} DrainedQueueIsSpaced(s: Schedule, q: Queue, steps: seq<TaskStep>, interval: Option<int>,
                                                clock: int)
    requires OnSchedule(s, q, interval, clock) && Timed(steps, clock) && NoneWaiting(q, steps, interval)
    ensures Outage(s, DoAll(q, steps, interval).executed, interval)
    decreases |steps|
  {
    if steps != [] {
      StepStaysOnSchedule(s, q, steps[0], interval, clock);
      DrainedQueueIsSpaced(s, Do(q, steps[0], interval), steps[1..], interval, StepTime(steps[0]));
    }
  }

  lemma {:induction false} OutageHasNext(s: Schedule, attempts: seq<Attempt>, a: Attempt, interval: Option<int>)
    requires Outage(s, attempts + [a], interval)
    ensures Outage(s, attempts, interval)
    ensures AfterAll(s, attempts, interval).next.Some? && AfterAll(s, attempts, interval).next.value <= a.at
    decreases |attempts|
  {
    if attempts == [] {
      assert (attempts + [a])[0] == a;
    } else {
      assert (attempts + [a])[1..] == attempts[1..] + [a];
      OutageHasNext(After(s, attempts[0], interval), attempts[1..], a, interval);
    }
  }

  /** Two checks waiting are executed too close together whenever the workers
      get to both at one moment, whatever happened before. */
  lemma WaitingChecksDoubleUp(s: Schedule, q: Queue, interval: Option<int>, a: Attempt, b: Attempt)
    requires q.pending >= 2 && a.at == b.at && !Completed(a.status) && !Completed(b.status)
    requires interval.Some? ==> interval.value >= 1
    requires AfterAll(s, q.executed, interval) == q.schedule
    ensures !Outage(s, DoAll(q, Workers([a, b]), interval).executed, interval)
  {
    var once := Do(q, CheckOne(a), interval);
    var twice := Do(once, CheckOne(b), interval);
    WorkersTwo(q, a, b, interval);
    if Outage(s, q.executed + [a] + [b], interval) {
      OutageHasNext(s, q.executed + [a], b, interval);
      OutageHasNext(s, q.executed, a, interval);
      OutageExtends(s, q.executed, a, interval);
    }
  }

  lemma WorkersTwo(q: Queue, a: Attempt, b: Attempt, interval: Option<int>)
    requires q.pending >= 2
    ensures DoAll(q, Workers([a, b]), interval).executed == q.executed + [a] + [b]
  {
    var steps := Workers([a, b]);
    assert steps == [CheckOne(a), CheckOne(b)];
    assert steps[1..] == [CheckOne(b)] && steps[1..][1..] == [];
    assert DoAll(Do(q, CheckOne(a), interval), steps[1..], interval)
             == Do(Do(q, CheckOne(a), interval), CheckOne(b), interval);
  }

  lemma TwoWaitingAreNotSpaced(s: Schedule, q: Queue, interval: Option<int>, clock: int)
    requires q.pending >= 2 && AfterAll(s, q.executed, interval) == q.schedule
    requires interval.Some? ==> interval.value >= 1
    ensures !SpacedFromHere(s, q, interval, clock)
  {
    var a := Attempt(clock, Unavailable, 0);
    assert Workers([a, a])[1..][1..] == [];
    assert Timed(Workers([a, a]), clock);
    WaitingChecksDoubleUp(s, q, interval, a, a);
  }

  /** The spacing law, exactly: the attempts of an outage are spaced for every
      timing of the workers if and only if no dispatch finds one waiting. */
  lemma {:induction false} SpacedExactly(s: Schedule, q: Queue, steps: seq<TaskStep>, interval: Option<int>, clock: int)
    requires OnSchedule(s, q, interval, clock) && Timed(steps, clock)
    requires interval.Some? ==> interval.value >= 1
    ensures AlwaysSpaced(s, q, steps, interval, clock) <==> NoneWaiting(q, steps, interval)
    decreases |steps|
  {
    forall attempts: seq<Attempt> | Timed(Workers(attempts), clock)
      ensures Outage(s, DoAll(q, Workers(attempts), interval).executed, interval)
    {
      WorkersStayOnSchedule(s, q, attempts, interval, clock);
    }
    if steps != [] {
      var next := Do(q, steps[0], interval);
      if steps[0].RunDue? && next != q && q.pending != 0 {
        TwoWaitingAreNotSpaced(s, next, interval, StepTime(steps[0]));
      } else {
        StepStaysOnSchedule(s, q, steps[0], interval, clock);
        SpacedExactly(s, next, steps[1..], interval, StepTime(steps[0]));
      }
    }
  }

  /** A dispatch does find one waiting: two hourly runs before the first worker
      gets to it select one identifier twice. */
  lemma BackloggedQueueDoublesUp(due: int, interval: Option<int>)
    requires interval.Some? ==> interval.value >= 1
    ensures var s := Schedule(Some(due), 0, 0);
            !AlwaysSpaced(s, Queue(s, 0, []), [RunDue(due), RunDue(due + HOUR)], interval, due)
  {
    var s := Schedule(Some(due), 0, 0);
    var q := Queue(s, 0, []);
    var steps := [RunDue(due), RunDue(due + HOUR)];
    assert steps[1..] == [RunDue(due + HOUR)] && steps[1..][1..] == [];
    assert Do(q, steps[0], interval).pending == 1;
    assert !NoneWaiting(Do(q, steps[0], interval), steps[1..], interval);
    SpacedExactly(s, q, steps, interval, due);
  }
}
