/** Many transactions allocating from one series at once. Each step below is
    one statement of a transaction: taking the row lock, reading the plan,
    flushing the counter, inserting the row, committing or rolling back; or the
    guard of an edit, which reads without a lock, or its write, which needs the
    row to be free. Steps of different transactions interleave freely; a step
    that would block or cannot happen does nothing. */
module Transactions {
  import opened Calendar
  import opened Patterns
  import opened NumberSeries
  import opened SeriesRuns
  import opened SeriesLaws
  import opened SeriesEdits
  import opened Wrappers

  type Tid = nat

  type EditId = nat

  datatype Phase =
    | Ready
    | Planned(date: Date, plan: Plan)
    | Flushed(date: Date, plan: Plan)

  datatype Counter = Counter(nextValue: nat, currentPeriod: Option<string>)

  /** The uncommitted writes of one transaction. */
  datatype Txn = Txn(phase: Phase, counter: Option<Counter>, rows: seq<Allocation>, log: seq<Entry>)

  const BLANK := Txn(Ready, None, [], [])

  datatype Db = Db(committed: Series, holder: Option<Tid>, open: map<Tid, Txn>, edits: map<EditId, Guard>,
                   history: seq<Entry>)

  /** What a transaction reads: committed data under its own writes. */
  function View(db: Db, t: Txn): Series {
    var s := db.committed.(issued := db.committed.issued + t.rows);
    if t.counter.None? then s
    else s.(nextValue := t.counter.value.nextValue, currentPeriod := t.counter.value.currentPeriod)
  }

  datatype Action =
    | Begin(t: Tid)
    | Lock(t: Tid)
    | Read(t: Tid, date: Date)
    | Flush(t: Tid)
    | Insert(t: Tid)
    | Commit(t: Tid)
    | Rollback(t: Tid)
    | EditRead(e: EditId, changes: Changes, today: Date)
    | EditWrite(e: EditId)

  predicate Holds(db: Db, t: Tid) {
    db.holder == Some(t) && t in db.open
  }

  function Act(db: Db, a: Action): Db {
    match a
    case Begin(t) =>
      if t in db.open then db else db.(open := db.open[t := BLANK])
    case Lock(t) =>
      if t in db.open && db.holder.None? then db.(holder := Some(t)) else db
    case Read(t, d) =>
      if Holds(db, t) && db.open[t].phase.Ready? && db.committed.active
      then db.(open := db.open[t := db.open[t].(phase := Planned(d, PlanNumber(View(db, db.open[t]), d)))])
      else db
    case Flush(t) =>
      if Holds(db, t) && db.open[t].phase.Planned? then
        var moved := MoveCounter(View(db, db.open[t]), db.open[t].phase.plan);
        db.(open := db.open[t := db.open[t].(phase := Flushed(db.open[t].phase.date, db.open[t].phase.plan),
                                             counter := Some(Counter(moved.nextValue, moved.currentPeriod)))])
      else db
    case Insert(t) =>
      if Holds(db, t) && db.open[t].phase.Flushed? then db.(open := db.open[t := AfterInsert(db, db.open[t])]) else db
    case Commit(t) =>
      if t !in db.open || !db.open[t].phase.Ready? then db
      else if db.holder == Some(t) then
        Db(View(db, db.open[t]), None, db.open - {t}, db.edits, db.history + db.open[t].log)
      else db.(open := db.open - {t})
    case Rollback(t) =>
      db.(open := db.open - {t}, holder := if db.holder == Some(t) then None else db.holder)
    case EditRead(e, c, today) =>
      var g := Guard(c, today, db.committed);
      if Accepted(g) then db.(edits := db.edits[e := g]) else db
    case EditWrite(e) =>
      if e in db.edits && db.holder.None? then
        db.(committed := Overwrite(db.committed, db.edits[e]), edits := db.edits - {e},
          history := db.history + [Wrote(db.edits[e])])
      else db
  }

  /** The INSERT inside its savepoint: on a violation only the row is undone. */
  function AfterInsert(db: Db, t: Txn): Txn
    requires t.phase.Flushed?
  {
    var row := RowFor(t.phase.plan, t.phase.date);
    if Collides(View(db, t).issued, row)
    then t.(phase := Ready, log := t.log + [Took(t.phase.date, true)])
    else t.(phase := Ready, rows := t.rows + [row], log := t.log + [Took(t.phase.date, false)])
  }

  function Execute(db: Db, actions: seq<Action>): Db {
    if actions == [] then db else Act(Execute(db, actions[..|actions| - 1]), actions[|actions| - 1])
  }

  function Initial(s: Series): Db {
    Db(s, None, map[], map[], [])
  }

  // ----- Serialisability

  /** The lock holder sees its own operations run on the committed row. */
  ghost predicate HolderConsistent(db: Db, t: Txn) {
    var base := RunEntries(db.committed, t.log);
    && (forall e :: e in t.log ==> e.Took?)
    && match t.phase
    case Ready => View(db, t) == base
    case Planned(d, plan) => View(db, t) == base && base.active && plan == PlanNumber(base, d)
    case Flushed(d, plan) => View(db, t) == MoveCounter(base, plan) && base.active && plan == PlanNumber(base, d)
  }

  ghost predicate Consistent(db: Db, initial: Series) {
    && db.committed == RunEntries(initial, db.history)
    && WellRead(initial, db.history)
    && AllRead(initial, db.history, db.edits)
    && (forall t :: t in db.open && db.holder != Some(t) ==> db.open[t] == BLANK)
    && (db.holder.Some? ==> db.holder.value in db.open && HolderConsistent(db, db.open[db.holder.value]))
  }

  lemma LockIsConsistent(db: Db, initial: Series, t: Tid)
    requires Consistent(db, initial)
    ensures Consistent(Act(db, Lock(t)), initial)
  {
    assert View(db, BLANK) == db.committed;
  }

  lemma FlushIsConsistent(db: Db, initial: Series, t: Tid)
    requires Consistent(db, initial) && Holds(db, t) && db.open[t].phase.Planned?
    ensures Consistent(Act(db, Flush(t)), initial)
  {
    var txn := db.open[t];
    var after := Act(db, Flush(t));
    assert View(after, after.open[t]) == MoveCounter(View(db, txn), txn.phase.plan);
  }

  lemma InsertIsConsistent(db: Db, initial: Series, t: Tid)
    requires Consistent(db, initial) && Holds(db, t) && db.open[t].phase.Flushed?
    ensures Consistent(Act(db, Insert(t)), initial)
  {
    var after := db.(open := db.open[t := AfterInsert(db, db.open[t])]);
    assert Act(db, Insert(t)) == after;
    InsertedTxn(db, db.open[t], after);
  }

  lemma InsertedTxn(db: Db, txn: Txn, after: Db)
    requires HolderConsistent(db, txn) && txn.phase.Flushed? && after.committed == db.committed
    ensures HolderConsistent(after, AfterInsert(db, txn))
  {
    var base := RunEntries(db.committed, txn.log);
    var d, plan := txn.phase.date, txn.phase.plan;
    var row := RowFor(plan, d);
    assert MoveCounter(base, plan).issued == base.issued;
    InsertedStep(base, d, plan);
    if Collides(View(db, txn).issued, row) {
      EntriesOne(db.committed, txn.log, Took(d, true));
    } else {
      EntriesOne(db.committed, txn.log, Took(d, false));
      assert db.committed.issued + (txn.rows + [row]) == db.committed.issued + txn.rows + [row];
    }
  }

  lemma InsertedStep(base: Series, d: Date, plan: Plan)
    requires base.active && plan == PlanNumber(base, d)
    ensures Collides(base.issued, RowFor(plan, d)) ==> Apply(base, Took(d, true)) == MoveCounter(base, plan)
    ensures !Collides(base.issued, RowFor(plan, d)) ==> Apply(base, Took(d, false)) == Extended(base, d, plan)
  {
    assert MoveCounter(base, plan).issued == base.issued;
  }

  lemma CommitIsConsistent(db: Db, initial: Series, t: Tid)
    requires Consistent(db, initial) && Holds(db, t) && db.open[t].phase.Ready?
    ensures Consistent(Act(db, Commit(t)), initial)
  {
    var log, after := db.open[t].log, Act(db, Commit(t));
    EntriesConcat(initial, db.history, log);
    WellReadGrows(initial, db.history, log, after.history);
    AllReadGrows(initial, db.history, after.history, db.edits);
  }

  lemma ReadBeforeGrows(initial: Series, before: seq<Entry>, after: seq<Entry>, i: nat, j: nat, g: Guard)
    requires before <= after && i <= |before| && i <= j <= |after| && ReadBefore(initial, before, i, g)
    ensures ReadBefore(initial, after, j, g)
  {
    var n: nat :| n <= i && g.seen == RunEntries(initial, before[..n]);
    assert after[..n] == before[..n];
  }

  lemma WellReadGrows(initial: Series, before: seq<Entry>, more: seq<Entry>, after: seq<Entry>)
    requires WellRead(initial, before) && after == before + more
    requires forall e :: e in more && e.Wrote? ==> ReadBefore(initial, before, |before|, e.guard)
    ensures WellRead(initial, after)
  {
    forall i | 0 <= i < |after| && after[i].Wrote? ensures ReadBefore(initial, after, i, after[i].guard) {
      if i < |before| {
        ReadBeforeGrows(initial, before, after, i, i, after[i].guard);
      } else {
        assert after[i] == more[i - |before|] && after[i] in more;
        ReadBeforeGrows(initial, before, after, |before|, i, after[i].guard);
      }
    }
  }

  lemma EditReadIsConsistent(db: Db, initial: Series, g: Guard, e: EditId, after: Db)
    requires Consistent(db, initial) && Accepted(g) && g.seen == db.committed && after == db.(edits := db.edits[e := g])
    ensures Consistent(after, initial)
  {
    assert db.history[..|db.history|] == db.history;
    assert ReadBefore(initial, db.history, |db.history|, g);
    if after.holder.Some? { SameForHolder(db, after, db.open[db.holder.value]); }
  }

  lemma SameForHolder(db: Db, after: Db, t: Txn)
    requires after.committed == db.committed && HolderConsistent(db, t)
    ensures HolderConsistent(after, t)
  {
  }

  lemma EditWriteIsConsistent(db: Db, initial: Series, e: EditId, g: Guard, after: Db)
    requires Consistent(db, initial) && db.holder.None? && e in db.edits && g == db.edits[e]
    requires after.committed == Overwrite(db.committed, g) && after.history == db.history + [Wrote(g)]
    requires after.edits == db.edits - {e} && after.holder.None? && after.open == db.open
    ensures Consistent(after, initial)
  {
    WrittenIsWellRead(initial, db.history, g, after.history);
    AllReadGrows(initial, db.history, after.history, db.edits);
  }

  lemma WrittenIsWellRead(initial: Series, before: seq<Entry>, g: Guard, after: seq<Entry>)
    requires WellRead(initial, before) && ReadBefore(initial, before, |before|, g) && after == before + [Wrote(g)]
    ensures WellRead(initial, after) && RunEntries(initial, after) == Overwrite(RunEntries(initial, before), g)
  {
    EntriesOne(initial, before, Wrote(g));
    WellReadGrows(initial, before, [Wrote(g)], after);
  }

  ghost predicate AllRead(initial: Series, history: seq<Entry>, edits: map<EditId, Guard>) {
    forall e :: e in edits ==> ReadBefore(initial, history, |history|, edits[e])
  }

  lemma AllReadGrows(initial: Series, before: seq<Entry>, after: seq<Entry>, edits: map<EditId, Guard>)
    requires before <= after && AllRead(initial, before, edits)
    ensures AllRead(initial, after, edits)
  {
    forall e | e in edits ensures ReadBefore(initial, after, |after|, edits[e]) {
      ReadBeforeGrows(initial, before, after, |before|, |after|, edits[e]);
    }
  }

  lemma ReadIsConsistent(db: Db, initial: Series, t: Tid, d: Date)
    requires Consistent(db, initial)
    ensures Consistent(Act(db, Read(t, d)), initial)
  {
    var after := Act(db, Read(t, d));
    if after != db {
      assert View(after, after.open[t]) == View(db, db.open[t]);
    }
  }

  lemma ActIsConsistent(db: Db, initial: Series, a: Action)
    requires Consistent(db, initial)
    ensures Consistent(Act(db, a), initial)
  {
    match a
    case Lock(t) => LockIsConsistent(db, initial, t);
    case Read(t, d) => ReadIsConsistent(db, initial, t, d);
    case Flush(t) => if Act(db, a) != db { FlushIsConsistent(db, initial, t); }
    case Insert(t) => if Act(db, a) != db { InsertIsConsistent(db, initial, t); }
    case Commit(t) => if Holds(db, t) && db.open[t].phase.Ready? { CommitIsConsistent(db, initial, t); }
    case EditRead(e, c, today) =>
      var g := Guard(c, today, db.committed);
      if Accepted(g) { EditReadIsConsistent(db, initial, g, e, Act(db, a)); }
    case EditWrite(e) =>
      if e in db.edits && db.holder.None? { EditWriteIsConsistent(db, initial, e, db.edits[e], Act(db, a)); }
    case Begin(t) =>
    case Rollback(t) =>
  }

  lemma {:induction false} ExecutionsAreConsistent(s: Series, actions: seq<Action>)
    ensures Consistent(Execute(Initial(s), actions), s)
  {
    if actions != [] {
      ExecutionsAreConsistent(s, actions[..|actions| - 1]);
      ActIsConsistent(Execute(Initial(s), actions[..|actions| - 1]), s, actions[|actions| - 1]);
    }
  }

  // ----- The committed operations, read off the actions

  /** Whether the lock holder's next commit or rollback is a commit. */
  predicate WillCommit(db: Db, actions: seq<Action>, t: Tid)
    decreases |actions|
  {
    actions != [] &&
    (match actions[0]
     case Commit(u) => (u == t && Holds(db, t) && db.open[t].phase.Ready?)
       || WillCommit(Act(db, actions[0]), actions[1..], t)
     case Rollback(u) => u != t && WillCommit(Act(db, actions[0]), actions[1..], t)
     case _ => WillCommit(Act(db, actions[0]), actions[1..], t))
  }

  /** What one action adds for good: an insert that takes effect and whose
      transaction then commits, or the write of an edit that finds the row free. */
  function Effect(db: Db, a: Action, rest: seq<Action>): seq<Entry> {
    match a
    case Insert(t) =>
      if Holds(db, t) && db.open[t].phase.Flushed? && WillCommit(Act(db, a), rest, t) then
        var row := RowFor(db.open[t].phase.plan, db.open[t].phase.date);
        [Took(row.date, Collides(View(db, db.open[t]).issued, row))]
      else []
    case EditWrite(e) => if e in db.edits && db.holder.None? then [Wrote(db.edits[e])] else []
    case _ => []
  }

  /** The effects in the order they happen. A transaction inserts only while it
      holds the lock, so this is the order of the locks. */
  function Effective(db: Db, actions: seq<Action>): seq<Entry>
    decreases |actions|
  {
    if actions == [] then [] else Effect(db, actions[0], actions[1..]) + Effective(Act(db, actions[0]), actions[1..])
  }

  /** What the lock holder has done so far, if it is going to commit. */
  function Pending(db: Db, actions: seq<Action>): seq<Entry> {
    if db.holder.Some? && db.holder.value in db.open && WillCommit(db, actions, db.holder.value)
    then db.open[db.holder.value].log else []
  }

  lemma {:induction false} ExecuteFirst(db: Db, a: Action, rest: seq<Action>)
    ensures Execute(db, [a] + rest) == Execute(Act(db, a), rest)
  {
    var all := [a] + rest;
    if rest == [] {
      assert all[..0] == [];
    } else {
      ExecuteFirst(db, a, rest[..|rest| - 1]);
      assert all[..|all| - 1] == [a] + rest[..|rest| - 1];
    }
  }

  predicate Tidy(db: Db) {
    && (forall t :: t in db.open && db.holder != Some(t) ==> db.open[t] == BLANK)
    && (db.holder.Some? ==> db.holder.value in db.open)
  }

  lemma InsertGrows(db: Db, t: Tid, rest: seq<Action>, actions: seq<Action>)
    requires Tidy(db) && actions != [] && actions[0] == Insert(t) && actions[1..] == rest
    ensures Act(db, Insert(t)).history == db.history
    ensures Pending(Act(db, Insert(t)), rest) == Pending(db, actions) + Effect(db, Insert(t), rest)
  {
  }

  lemma CommitGrows(db: Db, t: Tid, rest: seq<Action>, actions: seq<Action>)
    requires Tidy(db) && actions != [] && actions[0] == Commit(t) && actions[1..] == rest
    ensures Act(db, Commit(t)).history + Pending(Act(db, Commit(t)), rest) == db.history + Pending(db, actions)
  {
  }

  lemma OtherwiseGrows(db: Db, a: Action, rest: seq<Action>, actions: seq<Action>)
    requires Tidy(db) && actions != [] && actions[0] == a && actions[1..] == rest
    requires a.Begin? || a.Lock? || a.Read? || a.Flush? || a.Rollback? || a.EditRead?
    ensures Act(db, a).history == db.history && Pending(Act(db, a), rest) == Pending(db, actions)
  {
  }

  lemma HistoryGrows(db: Db, a: Action, rest: seq<Action>, actions: seq<Action>)
    requires Tidy(db) && actions != [] && actions[0] == a && actions[1..] == rest
    ensures Act(db, a).history + Pending(Act(db, a), rest) == db.history + Pending(db, actions) + Effect(db, a, rest)
  {
    match a
    case Insert(t) => InsertGrows(db, t, rest, actions);
    case Commit(t) => CommitGrows(db, t, rest, actions);
    case EditWrite(e) =>
    case _ => OtherwiseGrows(db, a, rest, actions);
  }

  lemma {:induction false} HistoryIsEffective(db: Db, initial: Series, actions: seq<Action>)
    requires Consistent(db, initial)
    ensures Execute(db, actions).history == db.history + Pending(db, actions) + Effective(db, actions)
    decreases |actions|
  {
    if actions != [] {
      var a, rest := actions[0], actions[1..];
      assert actions == [a] + rest;
      ExecuteFirst(db, a, rest);
      ActIsConsistent(db, initial, a);
      HistoryIsEffective(Act(db, a), initial, rest);
      HistoryGrows(db, a, rest, actions);
      EntriesAssoc(db.history + Pending(db, actions), Effect(db, a, rest), Effective(Act(db, a), rest));
    }
  }

  lemma EntriesAssoc(a: seq<Entry>, b: seq<Entry>, c: seq<Entry>)
    ensures a + b + c == a + (b + c)
  {
  }

  lemma EffectiveHistory(db: Db, s: Series, actions: seq<Action>, after: Db)
    requires Consistent(db, s) && db.holder.None? && db.history == []
    requires after == Execute(db, actions) && Consistent(after, s)
    ensures after.history == Effective(db, actions) && after.committed == RunEntries(s, Effective(db, actions))
  {
    HistoryIsEffective(db, s, actions);
    assert Pending(db, actions) == [];
    assert [] + [] + Effective(db, actions) == Effective(db, actions);
  }

  /** Any interleaving leaves the committed row exactly as running its effective
      operations one at a time would, in the order the lock was held or found
      free; and every edit among them passed its guard on a row as it was after
      some of the operations before. */
  lemma Serialisable(s: Series, actions: seq<Action>)
    ensures Execute(Initial(s), actions).committed == RunEntries(s, Effective(Initial(s), actions))
    ensures WellRead(s, Effective(Initial(s), actions))
    ensures Execute(Initial(s), actions).history == Effective(Initial(s), actions)
  {
    ExecutionsAreConsistent(s, actions);
    InitialIsConsistent(s);
    EffectiveHistory(Initial(s), s, actions, Execute(Initial(s), actions));
  }

  lemma InitialIsConsistent(s: Series)
    ensures Consistent(Initial(s), s)
  {
    ExecutionsAreConsistent(s, []);
  }

  // ----- A transaction that rolls back

  predicate Of(a: Action, t: Tid) {
    !a.EditRead? && !a.EditWrite? && a.t == t
  }

  /** What is left of the actions during a tenancy of `t` once `t` is taken out:
      neither its own, nor the locks and writes it blocked. */
  function WithoutTenant(actions: seq<Action>, t: Tid): seq<Action> {
    if actions == [] then []
    else
      var last := actions[|actions| - 1];
      WithoutTenant(actions[..|actions| - 1], t) + if Of(last, t) || last.Lock? || last.EditWrite? then [] else [last]
  }

  predicate KeepsTenancy(actions: seq<Action>, t: Tid) {
    Commit(t) !in actions && Rollback(t) !in actions
  }

  /** `with` is `without` plus a transaction `t` that holds the lock. */
  predicate Shadows(with: Db, without: Db, t: Tid) {
    && with.holder == Some(t) && t in with.open && without.holder.None?
    && with.committed == without.committed && with.history == without.history && with.edits == without.edits
    && without.open == with.open - {t}
  }

  lemma {:induction false} TenancyIsInvisible(with: Db, without: Db, actions: seq<Action>, t: Tid)
    requires Shadows(with, without, t) && KeepsTenancy(actions, t)
    ensures Shadows(Execute(with, actions), Execute(without, WithoutTenant(actions, t)), t)
  {
    if actions != [] {
      var init, last := actions[..|actions| - 1], actions[|actions| - 1];
      TenancyIsInvisible(with, without, init, t);
      assert last in actions;
      ActUnderTenancy(Execute(with, init), Execute(without, WithoutTenant(init, t)), last, t);
      var kept := WithoutTenant(actions, t);
      if Of(last, t) || last.Lock? || last.EditWrite? {
        assert kept == WithoutTenant(init, t);
      } else {
        assert kept[..|kept| - 1] == WithoutTenant(init, t);
      }
    }
  }

  lemma ActUnderTenancy(with: Db, without: Db, a: Action, t: Tid)
    requires Shadows(with, without, t) && a != Commit(t) && a != Rollback(t)
    ensures Of(a, t) || a.Lock? || a.EditWrite? ==> Shadows(Act(with, a), without, t)
    ensures !(Of(a, t) || a.Lock? || a.EditWrite?) ==> Shadows(Act(with, a), Act(without, a), t)
  {
  }

  /** A rollback leaves the whole database as if the transaction had never held
      the lock, whatever it and the others did in between: committed data,
      history, lock and every other open transaction. */
  lemma RollbackLeavesNoTrace(db: Db, actions: seq<Action>, t: Tid)
    requires Holds(db, t) && KeepsTenancy(actions, t)
    ensures Act(Execute(db, actions), Rollback(t))
         == Execute(db.(open := db.open - {t}, holder := None), WithoutTenant(actions, t))
  {
    TenancyIsInvisible(db, db.(open := db.open - {t}, holder := None), actions, t);
  }

  /** A transaction that has begun and not yet asked for the lock changes nothing. */
  lemma {:induction false} WaitingIsInvisible(db: Db, actions: seq<Action>, t: Tid)
    requires t !in db.open && db.holder != Some(t) && forall a :: a in actions ==> !Of(a, t)
    ensures t !in Execute(db, actions).open && Execute(db, actions).holder != Some(t)
    ensures Execute(db.(open := db.open[t := BLANK]), actions)
         == Execute(db, actions).(open := Execute(db, actions).open[t := BLANK])
  {
    if actions != [] {
      var init, last := actions[..|actions| - 1], actions[|actions| - 1];
      WaitingIsInvisible(db, init, t);
      assert last in actions;
      ActBesideWaiting(Execute(db, init), last, t);
    }
  }

  lemma ActBesideWaiting(db: Db, a: Action, t: Tid)
    requires t !in db.open && db.holder != Some(t) && !Of(a, t)
    ensures t !in Act(db, a).open && Act(db, a).holder != Some(t)
    ensures Act(db.(open := db.open[t := BLANK]), a) == Act(db, a).(open := Act(db, a).open[t := BLANK])
  {
    match a
    case Read(u, d) => ReadBesideWaiting(db, u, d, t);
    case Flush(u) => FlushBesideWaiting(db, u, t);
    case Insert(u) => InsertBesideWaiting(db, u, t);
    case Commit(u) => CommitBesideWaiting(db, u, t);
    case _ =>
  }

  lemma ReadBesideWaiting(db: Db, u: Tid, d: Date, t: Tid)
    requires t !in db.open && u != t
    ensures Act(db.(open := db.open[t := BLANK]), Read(u, d))
              == Act(db, Read(u, d)).(open := Act(db, Read(u, d)).open[t := BLANK])
  {
  }

  lemma FlushBesideWaiting(db: Db, u: Tid, t: Tid)
    requires t !in db.open && u != t
    ensures Act(db.(open := db.open[t := BLANK]), Flush(u))
              == Act(db, Flush(u)).(open := Act(db, Flush(u)).open[t := BLANK])
  {
  }

  lemma InsertBesideWaiting(db: Db, u: Tid, t: Tid)
    requires t !in db.open && u != t
    ensures Act(db.(open := db.open[t := BLANK]), Insert(u))
              == Act(db, Insert(u)).(open := Act(db, Insert(u)).open[t := BLANK])
  {
    if Holds(db, u) && db.open[u].phase.Flushed? {
      var x := AfterInsert(db, db.open[u]);
      assert db.open[t := BLANK][u := x] == db.open[u := x][t := BLANK];
    }
  }

  lemma CommitBesideWaiting(db: Db, u: Tid, t: Tid)
    requires t !in db.open && u != t
    ensures Act(db.(open := db.open[t := BLANK]), Commit(u))
              == Act(db, Commit(u)).(open := Act(db, Commit(u)).open[t := BLANK])
  {
    assert db.open[t := BLANK] - {u} == (db.open - {u})[t := BLANK];
  }

  /** From its first statement to its last: a transaction that begins, waits for
      the lock, gets it, does anything at all and rolls back might as well not
      have run. */
  lemma RolledBackNeverRan(db: Db, t: Tid, waiting: seq<Action>, holding: seq<Action>)
    requires t !in db.open && db.holder != Some(t) && forall a :: a in waiting ==> !Of(a, t)
    requires Execute(db, waiting).holder.None? && KeepsTenancy(holding, t)
    ensures var locked := Act(Execute(Act(db, Begin(t)), waiting), Lock(t));
            && Holds(locked, t)
            && Act(Execute(locked, holding), Rollback(t)) == Execute(Execute(db, waiting), WithoutTenant(holding, t))
  {
    WaitingIsInvisible(db, waiting, t);
    var idle := Execute(db, waiting);
    var locked := Act(Execute(Act(db, Begin(t)), waiting), Lock(t));
    RollbackLeavesNoTrace(locked, holding, t);
    assert locked.open - {t} == idle.open;
    assert locked.(open := locked.open - {t}, holder := None) == idle;
  }

  // ----- What holds under every interleaving

  /** Gap-free and issued once: if no transaction committed over a collision and
      no edit altered counter or mode, each period of a yearly series holds 1..n. */
  lemma ConcurrentYearlyIsGapFree(pattern: string, padding: nat, start: pos, actions: seq<Action>, p: string)
    requires ValidatePattern(pattern, Yearly).Ok?
    requires forall e :: e in Effective(Initial(Fresh(pattern, padding, Yearly, start)), actions) ==>
               EntryKeepsCounting(e)
    ensures var db := Execute(Initial(Fresh(pattern, padding, Yearly, start)), actions);
            && Inv(db.committed)
            && exists n: nat :: ValuesIn(db.committed.issued, p) == Consecutive(1, n)
  {
    var s := Fresh(pattern, padding, Yearly, start);
    Serialisable(s, actions);
    FreshInv(pattern, padding, Yearly, start);
    EntriesFromOne(s, Effective(Initial(s), actions), p);
  }

  lemma EntriesFromOne(s: Series, entries: seq<Entry>, p: string)
    requires Inv(s) && s.reset.Yearly? && s.currentPeriod.None? && s.issued == [] && WellRead(s, entries)
    requires forall e :: e in entries ==> EntryKeepsCounting(e)
    ensures Inv(RunEntries(s, entries))
    ensures exists n: nat :: ValuesIn(RunEntries(s, entries).issued, p) == Consecutive(1, n)
  {
    var n := EntriesCountOn(s, entries, p);
    FromNothing(s, RunEntries(s, entries), p, n);
  }

  /** The invariant holds after every effective operation of an interleaving if
      and only if the guard of every edit still passes at its write. */
  lemma InvUnderEditsExactly(s: Series, actions: seq<Action>)
    requires Inv(s)
    ensures AlwaysInv(s, Effective(Initial(s), actions)) <==> AllStillPass(s, Effective(Initial(s), actions))
    ensures AllStillPass(s, Effective(Initial(s), actions)) ==> Inv(Execute(Initial(s), actions).committed)
  {
    Serialisable(s, actions);
    AlwaysInvExactly(s, Effective(Initial(s), actions));
  }

  /** Where nothing commits between the guard and the write of an edit, the row
      is as if edits were single steps, and keeps its invariant. */
  lemma UndisturbedEditsAreSteps(s: Series, actions: seq<Action>)
    requires Inv(s) && Undisturbed(s, Effective(Initial(s), actions))
    ensures Execute(Initial(s), actions).committed == Run(s, AsOps(Effective(Initial(s), actions)))
    ensures Inv(Execute(Initial(s), actions).committed)
  {
    Serialisable(s, actions);
    UndisturbedIsAtomic(s, Effective(Initial(s), actions));
    RunKeepsInv(s, AsOps(Effective(Initial(s), actions)));
  }

  // ----- One transaction with nobody in between

  /** What one allocation of a transaction leaves as its uncommitted writes. */
  lemma HolderIssues(db: Db, t: Tid, d: Date, after: Db)
    requires Holds(db, t) && db.open[t].phase.Ready? && db.committed.active
    requires after == Act(Act(Act(db, Read(t, d)), Flush(t)), Insert(t))
    ensures t in after.open && after == db.(open := db.open[t := after.open[t]]) && after.open[t].phase.Ready?
    ensures var (was, now) := (View(db, db.open[t]), View(after, after.open[t]));
            && now == Step(was, Take(d, true))
            && after.open[t].log == db.open[t].log + [Took(d, Allocate(was, d).1.Collision?)]
  {
    var was := View(db, db.open[t]);
    var plan := PlanNumber(was, d);
    var planned := db.open[t].(phase := Planned(d, plan));
    var one := db.(open := db.open[t := planned]);
    assert Act(db, Read(t, d)) == one;
    var two := FlushedBy(one, t, d, plan, was);
    InsertedBy(two, t, d, plan, was);
    assert db.open[t := planned][t := two.open[t]][t := after.open[t]] == db.open[t := after.open[t]];
  }

  lemma FlushedBy(one: Db, t: Tid, d: Date, plan: Plan, was: Series) returns (two: Db)
    requires Holds(one, t) && one.open[t].phase == Planned(d, plan) && View(one, one.open[t]) == was
    ensures two == Act(one, Flush(t)) && Holds(two, t) && two == one.(open := one.open[t := two.open[t]])
    ensures two.open[t].phase == Flushed(d, plan) && View(two, two.open[t]) == MoveCounter(was, plan)
    ensures two.open[t].log == one.open[t].log
  {
    two := Act(one, Flush(t));
    assert View(two, two.open[t]) == MoveCounter(was, plan);
  }

  lemma InsertedBy(two: Db, t: Tid, d: Date, plan: Plan, was: Series)
    requires Holds(two, t) && two.open[t].phase == Flushed(d, plan) && View(two, two.open[t]) == MoveCounter(was, plan)
    requires was.active && plan == PlanNumber(was, d)
    ensures var after := Act(two, Insert(t));
            && t in after.open && after == two.(open := two.open[t := after.open[t]]) && after.open[t].phase.Ready?
            && View(after, after.open[t]) == Step(was, Take(d, true))
            && after.open[t].log == two.open[t].log + [Took(d, Allocate(was, d).1.Collision?)]
  {
    var row, txn := RowFor(plan, d), two.open[t];
    assert MoveCounter(was, plan).issued == was.issued;
    assert two.committed.issued + (txn.rows + [row]) == two.committed.issued + txn.rows + [row];
  }

  /** The statements of one allocation, from the row lock to the commit. */
  function AllocationSteps(t: Tid, d: Date): seq<Action> {
    [Lock(t), Read(t, d), Flush(t), Insert(t), Commit(t)]
  }

  /** Run while the row is free, they issue exactly what one allocation issues,
      and log it once; on a series that is not active, nothing. */
  lemma LockedIssues(db: Db, t: Tid, d: Date)
    requires db.holder.None? && t in db.open && db.open[t] == BLANK
    ensures var done := db.(open := db.open - {t});
            Execute(db, AllocationSteps(t, d)) ==
              if !db.committed.active then done
              else done.(committed := Allocate(db.committed, d).0,
                         history := db.history + [Took(d, Allocate(db.committed, d).1.Collision?)])
  {
    var held := db.(holder := Some(t));
    assert View(held, BLANK) == db.committed;
    var after := Act(Act(Act(held, Read(t, d)), Flush(t)), Insert(t));
    FiveActions(db, Lock(t), Read(t, d), Flush(t), Insert(t), Commit(t));
    if db.committed.active {
      HolderIssues(held, t, d, after);
      CommitOfHolder(held, t, after, Allocate(db.committed, d).0, Took(d, Allocate(db.committed, d).1.Collision?));
    } else {
      assert after == held;
      assert db.history + [] == db.history;
    }
  }

  lemma CommitOfHolder(held: Db, t: Tid, after: Db, s: Series, e: Entry)
    requires Holds(held, t) && t in after.open && after == held.(open := held.open[t := after.open[t]])
    requires after.open[t].phase.Ready? && View(after, after.open[t]) == s && after.open[t].log == [e]
    ensures Act(after, Commit(t))
         == held.(committed := s, holder := None, open := held.open - {t}, history := held.history + [e])
  {
    assert after.open - {t} == held.open - {t};
  }

  /** So a transaction that begins, and meets nobody, issues one number. */
  lemma AloneIssues(db: Db, t: Tid, d: Date)
    requires db.holder.None? && t !in db.open && db.committed.active
    ensures Execute(db, [Begin(t)] + AllocationSteps(t, d))
         == db.(committed := Allocate(db.committed, d).0,
                history := db.history + [Took(d, Allocate(db.committed, d).1.Collision?)])
  {
    ExecuteFirst(db, Begin(t), AllocationSteps(t, d));
    AfterBegin(db, t, d, db.(open := db.open[t := BLANK]));
  }

  lemma AfterBegin(db: Db, t: Tid, d: Date, begun: Db)
    requires db.holder.None? && t !in db.open && db.committed.active && begun == db.(open := db.open[t := BLANK])
    ensures Execute(begun, AllocationSteps(t, d))
         == db.(committed := Allocate(db.committed, d).0,
                history := db.history + [Took(d, Allocate(db.committed, d).1.Collision?)])
  {
    LockedIssues(begun, t, d);
    assert begun.open - {t} == db.open;
  }

  lemma FiveActions(db: Db, a: Action, b: Action, c: Action, d: Action, e: Action)
    ensures Execute(db, [a, b, c, d, e]) == Act(Act(Act(Act(Act(db, a), b), c), d), e)
  {
    ThreeActions(db, a, b, c);
    assert [a, b, c] + [d] == [a, b, c, d] && [a, b, c, d] + [e] == [a, b, c, d, e];
    LastAction(db, [a, b, c], d, Act(Act(Act(db, a), b), c));
    LastAction(db, [a, b, c, d], e, Act(Act(Act(Act(db, a), b), c), d));
  }

  lemma ThreeActions(db: Db, a: Action, b: Action, c: Action)
    ensures Execute(db, [a, b, c]) == Act(Act(Act(db, a), b), c)
  {
    assert [] + [a] == [a] && [a] + [b] == [a, b] && [a, b] + [c] == [a, b, c];
    LastAction(db, [], a, db);
    LastAction(db, [a], b, Act(db, a));
    LastAction(db, [a, b], c, Act(Act(db, a), b));
  }

  lemma LastAction(db: Db, init: seq<Action>, last: Action, before: Db)
    requires Execute(db, init) == before
    ensures Execute(db, init + [last]) == Act(before, last)
  {
    assert (init + [last])[..|init + [last]| - 1] == init;
  }

  /** The two statements of an edit, run while the row is free, are the edit in
      one piece; a refused one leaves everything as it was. */
  lemma AloneIsEdit(db: Db, e: EditId, c: Changes, today: Date)
    requires db.holder.None? && e !in db.edits
    ensures var (after, outcome) := Edit(db.committed, c, today);
            Act(Act(db, EditRead(e, c, today)), EditWrite(e))
              == if outcome.Saved? then
                   db.(committed := after, history := db.history + [Wrote(Guard(c, today, db.committed))])
                 else db
  {
    var g := Guard(c, today, db.committed);
    if Accepted(g) {
      UndisturbedIsEdit(g);
      GuardThenWrite(db, e, g);
      assert Act(db, EditRead(e, c, today)) == db.(edits := db.edits[e := g]);
    } else {
      assert Act(db, EditRead(e, c, today)) == db;
    }
  }

  lemma GuardThenWrite(db: Db, e: EditId, g: Guard)
    requires db.holder.None? && e !in db.edits
    ensures Act(db.(edits := db.edits[e := g]), EditWrite(e))
         == db.(committed := Overwrite(db.committed, g), history := db.history + [Wrote(g)])
  {
    assert db.edits[e := g] - {e} == db.edits;
  }
}
