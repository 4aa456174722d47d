/** Creates of bank accounts that overlap (apps/api/routers/companies.py,
    apps/api/services/company_service.py). Every statement reads the rows
    committed when it starts; what a transaction writes becomes visible when it
    commits. A statement that has to wait for a row lock is placed where it
    starts. */
module AccountRaces {
  import opened BankAccounts
  import opened Wrappers
  import Iban

  /** An accepted request, by the id of the account it is to create. */
  datatype Request = Request(account: Account, wanted: bool)

  /** How far a create has come. `at` is the number of the step that got there. */
  datatype Stage =
    | Begun
    | HasRead(existing: bool)
    | Inserted(existing: bool)
    | HasDemoted(takes: bool, targets: set<Id>, at: nat)
    | Committed(takes: bool, demotedAt: nat, at: nat)
    | Failed

  type Requests = map<Id, Request>

  /** Every request has a stage, and the accounts to come are not on file. */
  datatype Db = Db(rows: Rows, stages: map<Id, Stage>, clock: nat)

  predicate WellFormed(requests: Requests, rows: Rows) {
    requests.Keys !! rows.Keys && forall id :: id in requests ==> !requests[id].account.isDefault
  }

  /** The unique constraint on company and IBAN. */
  predicate TakenIban(rows: Rows, account: Account) {
    exists k :: k in rows && rows[k].company == account.company && rows[k].iban == account.iban
  }

  predicate Uncommitted(stage: Stage) {
    stage.Inserted? || stage.HasDemoted?
  }

  /** Another open transaction holds this IBAN: the insert waits for it. */
  predicate HeldIban(requests: Requests, db: Db, id: Id)
    requires id in requests
  {
    exists k :: k in requests && k in db.stages && k != id && Uncommitted(db.stages[k])
             && requests[k].account.company == requests[id].account.company
             && requests[k].account.iban == requests[id].account.iban
  }

  function Defaults(rows: Rows, c: Company): set<Id> {
    set k | k in rows && rows[k].company == c && rows[k].isDefault
  }

  function Demote(rows: Rows, targets: set<Id>): Rows {
    map k | k in rows :: if k in targets then rows[k].(isDefault := false) else rows[k]
  }

  function To(db: Db, id: Id, stage: Stage): Db {
    db.(stages := db.stages[id := stage])
  }

  /** The next statement of one create. */
  function Next(requests: Requests, db: Db, id: Id): Db
    requires id in requests && id in db.stages
  {
    var account := requests[id].account;
    match db.stages[id]
    case Begun =>
      if TakenIban(db.rows, account) then To(db, id, Failed)
      else To(db, id, HasRead(HasOther(db.rows, account.company, None)))
    case HasRead(existing) =>
      if TakenIban(db.rows, account) then To(db, id, Failed)
      else if HeldIban(requests, db, id) then db
      else To(db, id, Inserted(existing))
    case Inserted(existing) =>
      var takes := requests[id].wanted || !existing;
      To(db, id, HasDemoted(takes, if takes then Defaults(db.rows, account.company) else {}, db.clock))
    case HasDemoted(takes, targets, at) =>
      To(db, id, Committed(takes, at, db.clock)).(rows := Demote(db.rows, targets)[id := account.(isDefault := takes)])
    case Committed(_, _, _) => db
    case Failed => db
  }

  function Step(requests: Requests, db: Db, id: Id): Db {
    if id in requests && id in db.stages then Next(requests, db, id).(clock := db.clock + 1) else db
  }

  /** A schedule says whose statement is next. */
  function Execute(requests: Requests, db: Db, schedule: seq<Id>): Db {
    if schedule == [] then db
    else Step(requests, Execute(requests, db, schedule[..|schedule| - 1]), schedule[|schedule| - 1])
  }

  function Initial(requests: Requests, rows: Rows): Db {
    Db(rows, map id | id in requests :: Begun, 0)
  }

  // ----- Who is the default in the end

  /** A committed create of the company that took the default. */
  predicate Taker(requests: Requests, db: Db, c: Company, id: Id) {
    && id in requests && id in db.stages && requests[id].account.company == c
    && db.stages[id].Committed? && db.stages[id].takes
  }

  /** A taker after whose commit no other committed taker demoted. */
  predicate Survivor(requests: Requests, db: Db, c: Company, id: Id) {
    && Taker(requests, db, c, id)
    && forall u :: u in requests && Taker(requests, db, c, u) ==> db.stages[u].demotedAt <= db.stages[id].at
  }

  /** No two takers survive. */
  predicate OneSurvivor(requests: Requests, db: Db, c: Company) {
    forall t, u :: t in requests && u in requests ==>
      Survivor(requests, db, c, t) && Survivor(requests, db, c, u) ==> t == u
  }

  predicate SomeTaker(requests: Requests, db: Db, c: Company) {
    exists u :: u in requests && Taker(requests, db, c, u)
  }

  /** Whether account `k`, on file since before or committed since, is the
      default by that rule. */
  predicate IsDefaultByRule(requests: Requests, rows: Rows, db: Db, k: Id)
    requires k in db.rows
  {
    if k in requests then Survivor(requests, db, db.rows[k].company, k)
    else k in rows && rows[k].isDefault && !SomeTaker(requests, db, db.rows[k].company)
  }

  predicate CommittedBefore(requests: Requests, db: Db, k: Id, at: nat) {
    k in requests && k in db.stages ==> db.stages[k].Committed? && db.stages[k].at < at
  }

  ghost predicate RowsInv(requests: Requests, rows: Rows, db: Db) {
    && db.stages.Keys == requests.Keys
    && (forall k :: k in db.rows <==> k in rows || (k in requests && db.stages[k].Committed?))
    && (forall k :: k in db.rows ==>
          && db.rows[k] == (if k in requests then requests[k].account else rows[k]).(isDefault := db.rows[k].isDefault)
          && (db.rows[k].isDefault <==> IsDefaultByRule(requests, rows, db, k)))
  }

  /** What an open demotion has seen: the targets were committed before it, and
      whatever else was is not the default. */
  predicate SeenAll(requests: Requests, db: Db, u: Id, k: Id)
    requires u in requests && u in db.stages && db.stages[u].HasDemoted? && k in db.rows
  {
    && (k in db.stages[u].targets ==> CommittedBefore(requests, db, k, db.stages[u].at))
    && (k !in db.stages[u].targets && CommittedBefore(requests, db, k, db.stages[u].at) ==> !db.rows[k].isDefault)
  }

  ghost predicate DemotionInv(requests: Requests, db: Db) {
    forall u :: u in requests && u in db.stages && db.stages[u].HasDemoted? && db.stages[u].takes ==>
      forall k :: k in db.rows && db.rows[k].company == requests[u].account.company ==> SeenAll(requests, db, u, k)
  }

  predicate TimesInv(db: Db) {
    && (forall u :: u in db.stages ==>
          && (db.stages[u].HasDemoted? ==>
            db.stages[u].at < db.clock && (!db.stages[u].takes ==> db.stages[u].targets == {}))
          && (db.stages[u].Committed? ==> db.stages[u].demotedAt < db.stages[u].at < db.clock))
    && (forall u, k :: u in db.stages && k in db.stages && db.stages[k].Committed? ==>
          && (db.stages[u].HasDemoted? ==> db.stages[u].at != db.stages[k].at)
          && (db.stages[u].Committed? ==> db.stages[u].demotedAt != db.stages[k].at))
  }

  ghost predicate TargetsInv(requests: Requests, db: Db) {
    forall u, k :: u in requests && u in db.stages && db.stages[u].HasDemoted? && k in db.stages[u].targets ==>
      k in db.rows && db.rows[k].company == requests[u].account.company
  }

  ghost predicate Inv(requests: Requests, rows: Rows, db: Db) {
    RowsInv(requests, rows, db) && DemotionInv(requests, db) && TimesInv(db) && TargetsInv(requests, db)
  }

  lemma InitialInv(requests: Requests, rows: Rows)
    requires WellFormed(requests, rows)
    ensures Inv(requests, rows, Initial(requests, rows))
  {
    var db := Initial(requests, rows);
    forall k | k in db.rows ensures db.rows[k].isDefault <==> IsDefaultByRule(requests, rows, db, k) {
    }
  }

  /** A step that commits nothing changes no row and no committed create. */
  predicate OpenShape(requests: Requests, db: Db, id: Id, after: Db) {
    && id in requests && after.stages.Keys == db.stages.Keys == requests.Keys
    && after.rows == db.rows && after.clock == db.clock + 1
    && (forall u :: u in db.stages && u != id ==> after.stages[u] == db.stages[u])
    && (after.stages[id].Committed? || db.stages[id].Committed? ==> after.stages[id] == db.stages[id])
    && (after.stages[id].HasDemoted? ==>
          && after.stages[id].at == db.clock
          && after.stages[id].targets
            == if after.stages[id].takes then Defaults(db.rows, requests[id].account.company) else {})
  }

  predicate CommitShape(requests: Requests, db: Db, id: Id, after: Db) {
    && id in requests && db.stages.Keys == requests.Keys && db.stages[id].HasDemoted?
    && var stage := db.stages[id];
       && after.stages == db.stages[id := Committed(stage.takes, stage.at, db.clock)] && after.clock == db.clock + 1
       && after.rows == Demote(db.rows, stage.targets)[id := requests[id].account.(isDefault := stage.takes)]
  }

  lemma StepShape(requests: Requests, db: Db, id: Id)
    requires id in requests && db.stages.Keys == requests.Keys
    ensures if db.stages[id].HasDemoted? then CommitShape(requests, db, id, Step(requests, db, id))
            else OpenShape(requests, db, id, Step(requests, db, id))
  {
  }

  lemma OpenStepKeepsRows(requests: Requests, rows: Rows, db: Db, id: Id, after: Db)
    requires RowsInv(requests, rows, db) && OpenShape(requests, db, id, after)
    ensures RowsInv(requests, rows, after)
  {
    forall c, u | u in requests ensures Taker(requests, after, c, u) <==> Taker(requests, db, c, u) {
    }
    forall k | k in after.rows
      ensures IsDefaultByRule(requests, rows, after, k) <==> IsDefaultByRule(requests, rows, db, k)
    {
    }
  }

  lemma OtherDemotionStays(requests: Requests, db: Db, id: Id, after: Db, u: Id, k: Id)
    requires OpenShape(requests, db, id, after) && u in requests && u != id && db.stages[u].HasDemoted? && k in db.rows
    requires SeenAll(requests, db, u, k)
    ensures SeenAll(requests, after, u, k)
  {
    CommittedStays(requests, db, id, after, k, db.stages[u].at);
  }

  lemma CommittedStays(requests: Requests, db: Db, id: Id, after: Db, k: Id, at: nat)
    requires OpenShape(requests, db, id, after)
    ensures CommittedBefore(requests, after, k, at) <==> CommittedBefore(requests, db, k, at)
  {
  }

  lemma OwnDemotionSeesAll(requests: Requests, rows: Rows, db: Db, id: Id, after: Db, k: Id)
    requires RowsInv(requests, rows, db) && TimesInv(db) && OpenShape(requests, db, id, after)
    requires after.stages[id].HasDemoted? && after.stages[id].takes
    requires k in db.rows && db.rows[k].company == requests[id].account.company
    ensures SeenAll(requests, after, id, k)
  {
    CommittedStays(requests, db, id, after, k, db.clock);
    assert k in after.stages[id].targets <==> db.rows[k].isDefault;
  }

  lemma OpenStepKeepsDemotions(requests: Requests, rows: Rows, db: Db, id: Id, after: Db)
    requires RowsInv(requests, rows, db) && DemotionInv(requests, db) && TimesInv(db)
               && OpenShape(requests, db, id, after)
    ensures DemotionInv(requests, after)
  {
    forall u, k | u in requests && after.stages[u].HasDemoted? && after.stages[u].takes
                  && k in after.rows && after.rows[k].company == requests[u].account.company
      ensures SeenAll(requests, after, u, k)
    {
      if u == id {
        OwnDemotionSeesAll(requests, rows, db, id, after, k);
      } else {
        OtherDemotionStays(requests, db, id, after, u, k);
      }
    }
  }

  lemma OpenStepKeepsTimes(requests: Requests, db: Db, id: Id, after: Db)
    requires TimesInv(db) && OpenShape(requests, db, id, after)
    ensures TimesInv(after)
  {
    forall u, k | u in after.stages && k in after.stages && after.stages[k].Committed?
      ensures after.stages[u].HasDemoted? ==> after.stages[u].at != after.stages[k].at
      ensures after.stages[u].Committed? ==> after.stages[u].demotedAt != after.stages[k].at
    {
      assert after.stages[k] == db.stages[k];
      assert u != id ==> after.stages[u] == db.stages[u];
    }
  }

  lemma OpenStepKeepsTargets(requests: Requests, db: Db, id: Id, after: Db)
    requires TargetsInv(requests, db) && OpenShape(requests, db, id, after)
    ensures TargetsInv(requests, after)
  {
    forall u, k | u in requests && u in after.stages && after.stages[u].HasDemoted? && k in after.stages[u].targets
      ensures k in after.rows && after.rows[k].company == requests[u].account.company
    {
      assert u != id ==> after.stages[u] == db.stages[u];
    }
  }

  lemma CommitKeepsRows(requests: Requests, rows: Rows, db: Db, id: Id, after: Db)
    requires WellFormed(requests, rows) && Inv(requests, rows, db) && CommitShape(requests, db, id, after)
    ensures RowsInv(requests, rows, after)
  {
    CommitAddsTaker(requests, db, id, after);
    forall k | k in after.rows ensures after.rows[k].isDefault <==> IsDefaultByRule(requests, rows, after, k) {
      if k == id {
        CommitAndOwn(requests, db, id, after);
      } else if k in requests {
        CommitAndOther(requests, db, id, after, k);
      } else {
        CommitAndOld(requests, rows, db, id, after, k);
      }
    }
  }

  ghost predicate AddsTaker(requests: Requests, db: Db, id: Id, after: Db)
    requires id in requests && id in db.stages && db.stages[id].HasDemoted?
  {
    forall u, d :: u in requests ==>
      (Taker(requests, after, d, u) <==>
        Taker(requests, db, d, u) || (u == id && d == requests[id].account.company && db.stages[id].takes))
  }

  lemma CommitAddsTaker(requests: Requests, db: Db, id: Id, after: Db)
    requires CommitShape(requests, db, id, after)
    ensures AddsTaker(requests, db, id, after)
  {
  }

  lemma CommitAndOwn(requests: Requests, db: Db, id: Id, after: Db)
    requires CommitShape(requests, db, id, after) && TimesInv(db)
    ensures after.rows[id].isDefault <==> Survivor(requests, after, requests[id].account.company, id)
  {
  }

  lemma CommitAndOther(requests: Requests, db: Db, id: Id, after: Db, k: Id)
    requires DemotionInv(requests, db) && TargetsInv(requests, db) && TimesInv(db)
    requires CommitShape(requests, db, id, after) && AddsTaker(requests, db, id, after)
    requires k in requests && k in db.rows && k != id && db.stages[k].Committed?
    requires db.rows[k].isDefault <==> Survivor(requests, db, db.rows[k].company, k)
    ensures after.rows[k].isDefault <==> Survivor(requests, after, after.rows[k].company, k)
  {
    var d := db.rows[k].company;
    assert after.rows[k].isDefault <==> db.rows[k].isDefault && k !in db.stages[id].targets;
    assert Survivor(requests, after, d, k) <==>
             Survivor(requests, db, d, k) && (Taker(requests, after, d, id) ==> db.stages[id].at <= db.stages[k].at);
  }

  lemma CommitAndOld(requests: Requests, rows: Rows, db: Db, id: Id, after: Db, k: Id)
    requires Inv(requests, rows, db) && CommitShape(requests, db, id, after) && AddsTaker(requests, db, id, after)
    requires k !in requests && k in db.rows
    ensures after.rows[k].isDefault <==> IsDefaultByRule(requests, rows, after, k)
  {
    var d := db.rows[k].company;
    assert SomeTaker(requests, after, d) <==> SomeTaker(requests, db, d) || Taker(requests, after, d, id);
  }

  lemma CommitKeepsDemotions(requests: Requests, rows: Rows, db: Db, id: Id, after: Db)
    requires Inv(requests, rows, db) && CommitShape(requests, db, id, after) && id !in db.rows
    ensures DemotionInv(requests, after)
  {
    forall u, k | u in requests && after.stages[u].HasDemoted? && after.stages[u].takes
                  && k in after.rows && after.rows[k].company == requests[u].account.company
      ensures SeenAll(requests, after, u, k)
    {
      assert after.stages[u] == db.stages[u];
      if k == id {
        assert k !in db.stages[u].targets;
      } else {
        assert CommittedBefore(requests, after, k, after.stages[u].at) <==>
                 CommittedBefore(requests, db, k, after.stages[u].at);
        assert db.rows[k].company == after.rows[k].company && SeenAll(requests, db, u, k);
      }
    }
  }

  lemma CommitKeepsTimes(requests: Requests, db: Db, id: Id, after: Db)
    requires TimesInv(db) && TargetsInv(requests, db) && CommitShape(requests, db, id, after) && id !in db.rows
    ensures TimesInv(after) && TargetsInv(requests, after)
  {
    forall u, k | u in requests && u in after.stages && after.stages[u].HasDemoted? && k in after.stages[u].targets
      ensures k in after.rows && after.rows[k].company == requests[u].account.company
    {
      assert after.stages[u] == db.stages[u];
    }
  }

  lemma {:induction false} ExecutionsKeepInv(requests: Requests, rows: Rows, schedule: seq<Id>)
    requires WellFormed(requests, rows)
    ensures Inv(requests, rows, Execute(requests, Initial(requests, rows), schedule))
  {
    if schedule == [] {
      InitialInv(requests, rows);
    } else {
      var init, id := schedule[..|schedule| - 1], schedule[|schedule| - 1];
      ExecutionsKeepInv(requests, rows, init);
      StepKeepsInv(requests, rows, Execute(requests, Initial(requests, rows), init), id);
    }
  }

  lemma StepKeepsInv(requests: Requests, rows: Rows, db: Db, id: Id)
    requires WellFormed(requests, rows) && Inv(requests, rows, db)
    ensures Inv(requests, rows, Step(requests, db, id))
  {
    if id in requests {
      var after := Step(requests, db, id);
      StepShape(requests, db, id);
      if db.stages[id].HasDemoted? {
        assert id !in db.rows;
        CommitKeepsRows(requests, rows, db, id, after);
        CommitKeepsDemotions(requests, rows, db, id, after);
        CommitKeepsTimes(requests, db, id, after);
      } else {
        OpenStepKeepsRows(requests, rows, db, id, after);
        OpenStepKeepsDemotions(requests, rows, db, id, after);
        OpenStepKeepsTimes(requests, db, id, after);
        OpenStepKeepsTargets(requests, db, id, after);
      }
    }
  }

  // ----- A company with accounts always has a default

  predicate HasSeenOne(stage: Stage) {
    stage == HasRead(true) || stage == Inserted(true) || (stage.HasDemoted? && !stage.takes)
  }

  /** Whoever does not take the default has read that there is an account. */
  ghost predicate ReadInv(requests: Requests, db: Db) {
    forall u :: u in requests && u in db.stages && HasSeenOne(db.stages[u]) ==>
      HasOther(db.rows, requests[u].account.company, None)
  }

  ghost predicate SomeDefault(rows: Rows, c: Company) {
    HasOther(rows, c, None) ==> exists d :: DefaultOf(rows, c, d)
  }

  lemma OpenStepKeepsRead(requests: Requests, db: Db, id: Id)
    requires id in requests && id in db.stages && !db.stages[id].HasDemoted? && ReadInv(requests, db)
    ensures ReadInv(requests, Step(requests, db, id))
  {
    var after := Step(requests, db, id);
    assert HasSeenOne(after.stages[id]) ==>
             HasSeenOne(db.stages[id]) || HasOther(db.rows, requests[id].account.company, None);
    assert forall u :: u in db.stages && u != id ==> after.stages[u] == db.stages[u];
  }

  lemma CommitKeepsRead(requests: Requests, db: Db, id: Id, after: Db)
    requires CommitShape(requests, db, id, after) && ReadInv(requests, db) && id !in db.rows
    ensures ReadInv(requests, after)
  {
    forall d | HasOther(db.rows, d, None) ensures HasOther(after.rows, d, None) {
      var k :| k in db.rows && db.rows[k].company == d;
      assert after.rows[k].company == d;
    }
    assert forall u :: u in db.stages && u != id ==> after.stages[u] == db.stages[u];
  }

  lemma CommitKeepsSomeDefault(requests: Requests, db: Db, id: Id, after: Db, c: Company)
    requires CommitShape(requests, db, id, after) && ReadInv(requests, db) && TimesInv(db) && TargetsInv(requests, db)
    requires SomeDefault(db.rows, c) && id !in db.rows
    ensures SomeDefault(after.rows, c)
  {
    var own := requests[id].account.company;
    if own == c && db.stages[id].takes {
      assert DefaultOf(after.rows, c, id);
    } else if HasOther(after.rows, c, None) {
      var k :| k in after.rows && after.rows[k].company == c;
      assert k != id ==> db.rows[k].company == c;
      var d :| DefaultOf(db.rows, c, d);
      assert d !in db.stages[id].targets;
      assert DefaultOf(after.rows, c, d);
    }
  }

  lemma StepKeepsSomeDefault(requests: Requests, rows: Rows, db: Db, id: Id, c: Company)
    requires WellFormed(requests, rows) && Inv(requests, rows, db) && ReadInv(requests, db) && SomeDefault(db.rows, c)
    ensures ReadInv(requests, Step(requests, db, id)) && SomeDefault(Step(requests, db, id).rows, c)
  {
    if id in requests {
      StepShape(requests, db, id);
      if db.stages[id].HasDemoted? {
        assert id !in db.rows;
        CommitKeepsRead(requests, db, id, Step(requests, db, id));
        CommitKeepsSomeDefault(requests, db, id, Step(requests, db, id), c);
      } else {
        OpenStepKeepsRead(requests, db, id);
      }
    }
  }

  lemma {:induction false} ExecutionsKeepSomeDefault(requests: Requests, rows: Rows, schedule: seq<Id>, c: Company)
    requires WellFormed(requests, rows) && SomeDefault(rows, c)
    ensures ReadInv(requests, Execute(requests, Initial(requests, rows), schedule))
    ensures SomeDefault(Execute(requests, Initial(requests, rows), schedule).rows, c)
  {
    if schedule != [] {
      var init, id := schedule[..|schedule| - 1], schedule[|schedule| - 1];
      ExecutionsKeepInv(requests, rows, init);
      ExecutionsKeepSomeDefault(requests, rows, init, c);
      StepKeepsSomeDefault(requests, rows, Execute(requests, Initial(requests, rows), init), id, c);
    }
  }

  // ----- The law

  lemma DefaultsAreSurvivors(requests: Requests, rows: Rows, db: Db, c: Company)
    requires RowsInv(requests, rows, db) && OneDefault(rows, c) && SomeDefault(db.rows, c)
    ensures OneDefault(db.rows, c) <==>
              OneSurvivor(requests, db, c)
  {
    forall t | t in requests && Survivor(requests, db, c, t) ensures DefaultOf(db.rows, c, t) {
    }
    forall d | DefaultOf(db.rows, c, d)
      ensures if d in requests then Survivor(requests, db, c, d)
                else DefaultOf(rows, c, d) && !SomeTaker(requests, db, c)
    {
    }
    forall a | OwnedBy(db.rows, c, a) ensures HasOther(db.rows, c, None) {
    }
  }

  /** Any number of creates, in any interleaving of their statements, at any
      moment: a company has exactly one default, or no account, if and only if no
      two committed creates took the default without a later one that did
      demoting after their commit. */
  lemma OneDefaultExactly(requests: Requests, rows: Rows, schedule: seq<Id>, c: Company)
    requires WellFormed(requests, rows) && OneDefault(rows, c)
    ensures var db := Execute(requests, Initial(requests, rows), schedule);
            OneDefault(db.rows, c) <==>
              OneSurvivor(requests, db, c)
  {
    ExecutionsKeepInv(requests, rows, schedule);
    assert SomeDefault(rows, c) by {
      if HasOther(rows, c, None) {
        var k :| k in rows && rows[k].company == c;
        assert OwnedBy(rows, c, k);
      }
    }
    ExecutionsKeepSomeDefault(requests, rows, schedule, c);
    DefaultsAreSurvivors(requests, rows, Execute(requests, Initial(requests, rows), schedule), c);
  }

  /** Two creates leave two defaults if and only if both take the default and
      each demotes before the other commits. */
  lemma TwoCreates(requests: Requests, rows: Rows, schedule: seq<Id>, c: Company, a: Id, b: Id)
    requires WellFormed(requests, rows) && OneDefault(rows, c)
    requires requests.Keys == {a, b} && a != b && requests[a].account.company == requests[b].account.company == c
    requires var db := Execute(requests, Initial(requests, rows), schedule);
             a in db.stages && b in db.stages && db.stages[a].Committed? && db.stages[b].Committed?
    ensures var db := Execute(requests, Initial(requests, rows), schedule);
            var x, y := db.stages[a], db.stages[b];
            !OneDefault(db.rows, c) <==> x.takes && y.takes && x.demotedAt < y.at && y.demotedAt < x.at
  {
    OneDefaultExactly(requests, rows, schedule, c);
    ExecutionsKeepInv(requests, rows, schedule);
    TwoSurvivors(requests, Execute(requests, Initial(requests, rows), schedule), c, a, b);
  }

  lemma TwoSurvivors(requests: Requests, db: Db, c: Company, a: Id, b: Id)
    requires requests.Keys == {a, b} && a != b && requests[a].account.company == requests[b].account.company == c
    requires a in db.stages && b in db.stages && db.stages[a].Committed? && db.stages[b].Committed? && TimesInv(db)
    ensures var x, y := db.stages[a], db.stages[b];
            OneSurvivor(requests, db, c) <==> !(x.takes && y.takes && x.demotedAt < y.at && y.demotedAt < x.at)
  {
    assert Survivor(requests, db, c, a) <==>
             db.stages[a].takes && (db.stages[b].takes ==> db.stages[b].demotedAt < db.stages[a].at);
    assert Survivor(requests, db, c, b) <==>
             db.stages[b].takes && (db.stages[a].takes ==> db.stages[a].demotedAt < db.stages[b].at);
  }

  /** The first three statements of a create that meets no other with its IBAN. */
  lemma ReadInsertDemote(requests: Requests, db: Db, id: Id)
    requires id in requests && id in db.stages && db.stages[id].Begun?
    requires !TakenIban(db.rows, requests[id].account) && !HeldIban(requests, db, id)
    ensures var c := requests[id].account.company;
            var takes := requests[id].wanted || !HasOther(db.rows, c, None);
            Step(requests, Step(requests, Step(requests, db, id), id), id)
              == Db(db.rows,
                    db.stages[id := HasDemoted(takes, if takes then Defaults(db.rows, c) else {}, db.clock + 2)],
                    db.clock + 3)
  {
    var existing := HasOther(db.rows, requests[id].account.company, None);
    var one := Step(requests, db, id);
    assert one == Db(db.rows, db.stages[id := HasRead(existing)], db.clock + 1);
    StillNotHeld(requests, db, id, one);
    var two := Step(requests, one, id);
    assert two == Db(db.rows, db.stages[id := Inserted(existing)], db.clock + 2);
    assert two.stages[id := HasRead(existing)] == one.stages;
  }

  lemma StillNotHeld(requests: Requests, db: Db, id: Id, one: Db)
    requires id in requests && !HeldIban(requests, db, id)
    requires forall u :: u in one.stages && u != id ==> u in db.stages && one.stages[u] == db.stages[u]
    ensures !HeldIban(requests, one, id)
  {
  }

  lemma ExecuteTake(requests: Requests, db: Db, schedule: seq<Id>, n: nat)
    requires n < |schedule|
    ensures Execute(requests, db, schedule[..n + 1])
              == Step(requests, Execute(requests, db, schedule[..n]), schedule[n])
  {
    assert schedule[..n + 1][..n] == schedule[..n];
  }

  /** Two first accounts of a company, created at once: each reads that there is
      none and demotes before the other commits, and both become the default. */
  lemma FirstAccountsRace(requests: Requests, rows: Rows, c: Company, a: Id, b: Id, schedule: seq<Id>)
    requires WellFormed(requests, rows) && !HasOther(rows, c, None) && requests.Keys == {a, b} && a != b
    requires requests[a].account.company == requests[b].account.company == c
    requires requests[a].account.iban != requests[b].account.iban
    requires schedule == [a, a, a, b, b, b, a, b]
    ensures !OneDefault(Execute(requests, Initial(requests, rows), schedule).rows, c)
  {
    var db := Initial(requests, rows);
    EightSteps(requests, db, a, b, schedule);
    var d3 := Step(requests, Step(requests, Step(requests, db, a), a), a);
    TwoBegun(requests, rows, a, b);
    NobodyHolds(requests, db, a);
    FirstThree(requests, rows, c, a, b, db, d3);
    var d6 := Step(requests, Step(requests, Step(requests, d3, b), b), b);
    NextThree(requests, rows, c, a, b, d3);
    LastTwo(requests, rows, a, b, d6, Step(requests, d6, a), Step(requests, Step(requests, d6, a), b));
    NoneIsFine(rows, c);
    TwoCreates(requests, rows, schedule, c, a, b);
  }

  lemma NoneIsFine(rows: Rows, c: Company)
    requires !HasOther(rows, c, None)
    ensures OneDefault(rows, c)
  {
    assert forall k :: !OwnedBy(rows, c, k);
  }

  lemma EightSteps(requests: Requests, db: Db, a: Id, b: Id, s: seq<Id>)
    requires s == [a, a, a, b, b, b, a, b]
    ensures var d3 := Step(requests, Step(requests, Step(requests, db, a), a), a);
            var d6 := Step(requests, Step(requests, Step(requests, d3, b), b), b);
            Execute(requests, db, s) == Step(requests, Step(requests, d6, a), b)
  {
    ExecuteTake(requests, db, s, 0);
    ExecuteTake(requests, db, s, 1);
    ExecuteTake(requests, db, s, 2);
    ExecuteTake(requests, db, s, 3);
    ExecuteTake(requests, db, s, 4);
    ExecuteTake(requests, db, s, 5);
    ExecuteTake(requests, db, s, 6);
    ExecuteTake(requests, db, s, 7);
    assert s[..0] == [] && s[..8] == s;
  }

  lemma TwoBegun(requests: Requests, rows: Rows, a: Id, b: Id)
    requires requests.Keys == {a, b}
    ensures Initial(requests, rows) == Db(rows, map[a := Begun, b := Begun], 0)
  {
    assert Initial(requests, rows).stages == map[a := Begun, b := Begun];
  }

  lemma NobodyHolds(requests: Requests, db: Db, id: Id)
    requires id in requests && forall k :: k in db.stages ==> db.stages[k].Begun?
    ensures !HeldIban(requests, db, id)
  {
  }

  lemma FirstThree(requests: Requests, rows: Rows, c: Company, a: Id, b: Id, db: Db, d3: Db)
    requires !HasOther(rows, c, None) && a in requests && a != b && requests[a].account.company == c
    requires db == Db(rows, map[a := Begun, b := Begun], 0) && !HeldIban(requests, db, a)
    requires d3 == Step(requests, Step(requests, Step(requests, db, a), a), a)
    ensures d3 == Db(rows, map[a := HasDemoted(true, {}, 2), b := Begun], 3)
  {
    ReadInsertDemote(requests, db, a);
    assert Defaults(rows, c) == {};
  }

  lemma NextThree(requests: Requests, rows: Rows, c: Company, a: Id, b: Id, db: Db)
    requires !HasOther(rows, c, None) && requests.Keys == {a, b} && a != b
    requires requests[a].account.company == requests[b].account.company == c
    requires requests[a].account.iban != requests[b].account.iban
    requires db == Db(rows, map[a := HasDemoted(true, {}, 2), b := Begun], 3)
    ensures Step(requests, Step(requests, Step(requests, db, b), b), b)
         == Db(rows, map[a := HasDemoted(true, {}, 2), b := HasDemoted(true, {}, 5)], 6)
  {
    ReadInsertDemote(requests, db, b);
    assert Defaults(rows, c) == {};
  }

  lemma LastTwo(requests: Requests, rows: Rows, a: Id, b: Id, d6: Db, d7: Db, d8: Db)
    requires requests.Keys == {a, b} && a != b
    requires d6 == Db(rows, map[a := HasDemoted(true, {}, 2), b := HasDemoted(true, {}, 5)], 6)
    requires d7 == Step(requests, d6, a) && d8 == Step(requests, d7, b)
    ensures d8.stages == map[a := Committed(true, 2, 6), b := Committed(true, 5, 7)]
  {
    assert d7.stages == map[a := Committed(true, 2, 6), b := HasDemoted(true, {}, 5)];
  }

  // ----- IBANs stay distinct under every interleaving

  predicate SameIban(requests: Requests, u: Id, v: Id)
    requires u in requests && v in requests
  {
    requests[u].account.company == requests[v].account.company && requests[u].account.iban == requests[v].account.iban
  }

  ghost predicate DistinctIbans(rows: Rows) {
    forall k, l :: k in rows && l in rows && rows[k].company == rows[l].company && rows[k].iban == rows[l].iban ==>
      k == l
  }

  ghost predicate IbansInv(requests: Requests, db: Db) {
    && DistinctIbans(db.rows)
    && (forall u :: u in requests && u in db.stages && Uncommitted(db.stages[u]) ==>
      !TakenIban(db.rows, requests[u].account))
    && (forall u, v :: u in requests && v in requests && u in db.stages && v in db.stages && u != v ==>
          !(Uncommitted(db.stages[u]) && Uncommitted(db.stages[v]) && SameIban(requests, u, v)))
  }

  lemma OpenStepKeepsIbans(requests: Requests, db: Db, id: Id)
    requires IbansInv(requests, db) && id in requests && id in db.stages && !db.stages[id].HasDemoted?
    ensures IbansInv(requests, Step(requests, db, id))
  {
    var after := Step(requests, db, id);
    assert forall u :: u in db.stages && u != id ==> after.stages[u] == db.stages[u];
    if Uncommitted(after.stages[id]) && !Uncommitted(db.stages[id]) {
      assert !TakenIban(db.rows, requests[id].account) && !HeldIban(requests, db, id);
    }
  }

  lemma CommitKeepsIbans(requests: Requests, db: Db, id: Id, after: Db)
    requires IbansInv(requests, db) && id in requests && id in db.stages && db.stages[id].HasDemoted?
               && after == Step(requests, db, id)
    ensures IbansInv(requests, after)
  {
    var account := requests[id].account;
    assert Uncommitted(db.stages[id]);
    assert forall k :: k in after.rows ==>
             if k == id then after.rows[k].iban == account.iban && after.rows[k].company == account.company
             else k in db.rows && after.rows[k].iban == db.rows[k].iban && after.rows[k].company == db.rows[k].company;
    forall u | u in requests && u in after.stages && Uncommitted(after.stages[u])
      ensures !TakenIban(after.rows, requests[u].account)
    {
      assert Uncommitted(db.stages[u]) && !SameIban(requests, u, id);
    }
  }

  lemma StepKeepsIbans(requests: Requests, db: Db, id: Id)
    requires IbansInv(requests, db)
    ensures IbansInv(requests, Step(requests, db, id))
  {
    if id in requests && id in db.stages {
      if db.stages[id].HasDemoted? {
        CommitKeepsIbans(requests, db, id, Step(requests, db, id));
      } else {
        OpenStepKeepsIbans(requests, db, id);
      }
    }
  }

  /** However creates overlap, no company ever holds one IBAN twice. */
  lemma {:induction false} IbansStayDistinct(requests: Requests, rows: Rows, schedule: seq<Id>)
    requires DistinctIbans(rows)
    ensures IbansInv(requests, Execute(requests, Initial(requests, rows), schedule))
  {
    if schedule != [] {
      IbansStayDistinct(requests, rows, schedule[..|schedule| - 1]);
      StepKeepsIbans(requests, Execute(requests, Initial(requests, rows), schedule[..|schedule| - 1]),
                     schedule[|schedule| - 1]);
    }
  }

  // ----- One create with nobody in between

  lemma AcceptedCreate(rows: Rows, lengths: map<string, nat>, c: Company, id: Id, body: CreateBody, iban: string,
                       account: Account)
    requires CreateIn(rows, lengths, c, id, body).1.Done?
    requires iban == Iban.Normalise(body.iban) && account == Account(c, iban, body.details, false)
    ensures CreateIn(rows, lengths, c, id, body).0
         == WithDefault(rows[id := account], c, id, body.isDefault || !HasOther(rows, c, None))
    ensures !TakenIban(rows, account)
  {
    var checked := CheckedIban(lengths, body.iban);
    CheckedIsNormal(lengths, body.iban, checked);
    assert checked.value == iban && Iban.Normalise(iban) == iban;
    assert !HasIban(rows, c, iban, None);
  }

  /** Four statements in a row are the create of the sequential model. */
  lemma AloneIsCreate(requests: Requests, db: Db, lengths: map<string, nat>, id: Id, body: CreateBody, c: Company)
    requires id in requests && id in db.stages && db.stages[id].Begun? && id !in db.rows && !HeldIban(requests, db, id)
    requires CreateIn(db.rows, lengths, c, id, body).1.Done?
    requires requests[id] == Request(Account(c, Iban.Normalise(body.iban), body.details, false), body.isDefault)
    ensures Execute(requests, db, [id, id, id, id]).rows == CreateIn(db.rows, lengths, c, id, body).0
  {
    AcceptedCreate(db.rows, lengths, c, id, body, Iban.Normalise(body.iban), requests[id].account);
    FourSteps(requests, db, id);
  }

  /** A create whose IBAN the company holds is refused at its first statement,
      and one that finds it only at its second is refused there; neither leaves
      a row. */
  lemma TakenIsRefused(requests: Requests, db: Db, id: Id)
    requires id in requests && id in db.stages && (db.stages[id].Begun? || db.stages[id].HasRead?)
    requires exists k :: k in db.rows && db.rows[k].company == requests[id].account.company
                           && db.rows[k].iban == requests[id].account.iban
    ensures Step(requests, db, id) == db.(stages := db.stages[id := Failed], clock := db.clock + 1)
  {
    assert TakenIban(db.rows, requests[id].account);
  }

  lemma FourSteps(requests: Requests, db: Db, id: Id)
    requires id in requests && id in db.stages && db.stages[id].Begun? && id !in db.rows && !HeldIban(requests, db, id)
    requires !TakenIban(db.rows, requests[id].account) && !requests[id].account.isDefault
    ensures var account := requests[id].account;
            var takes := requests[id].wanted || !HasOther(db.rows, account.company, None);
            Execute(requests, db, [id, id, id, id]).rows
              == WithDefault(db.rows[id := account], account.company, id, takes)
  {
    ReadInsertDemote(requests, db, id);
    FourTimes(requests, db, id);
    var account := requests[id].account;
    var takes := requests[id].wanted || !HasOther(db.rows, account.company, None);
    assert Demote(db.rows, if takes then Defaults(db.rows, account.company) else {})[id := account.(isDefault := takes)]
        == WithDefault(db.rows[id := account], account.company, id, takes);
  }

  lemma FourTimes(requests: Requests, db: Db, id: Id)
    ensures Execute(requests, db, [id, id, id, id])
         == Step(requests, Step(requests, Step(requests, Step(requests, db, id), id), id), id)
  {
    ExecuteLast(requests, db, [], id, [id]);
    ExecuteLast(requests, db, [id], id, [id, id]);
    ExecuteLast(requests, db, [id, id], id, [id, id, id]);
    ExecuteLast(requests, db, [id, id, id], id, [id, id, id, id]);
  }

  lemma ExecuteLast(requests: Requests, db: Db, init: seq<Id>, id: Id, schedule: seq<Id>)
    requires schedule == init + [id]
    ensures Execute(requests, db, schedule) == Step(requests, Execute(requests, db, init), id)
  {
    assert schedule[..|schedule| - 1] == init;
  }
}
