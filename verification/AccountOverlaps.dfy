/** Creates, promotions and deletions of bank accounts that overlap
    (apps/api/routers/companies.py, apps/api/services/company_service.py). A
    create goes through its statements as in `AccountRaces`. A promotion or a
    deletion loads the account, then updates or checks the others, then commits;
    the session writes a flag only where it differs from the one loaded. */
module AccountOverlaps {
  import opened AccountRaces
  import opened BankAccounts
  import opened Wrappers

  type Rid = nat

  datatype Change =
    | Promote(company: Company, target: Id)
    | Remove(company: Company, target: Id)

  /** How far a promotion or deletion has come. */
  datatype Work =
    | Waiting
    | Loaded(wasDefault: bool)
    | Ready(raises: bool, targets: set<Id>)
    | Finished
    | Abandoned

  /** The requests, and the rows they start from. */
  datatype Scene = Scene(requests: Requests, changes: map<Rid, Change>, rows: Rows)

  datatype World = World(base: Db, works: map<Rid, Work>)

  datatype Who = Creator(id: Id) | Changer(rid: Rid)

  function Opening(scene: Scene): World {
    World(Initial(scene.requests, scene.rows), map r | r in scene.changes :: Waiting)
  }

  function Advance(w: World, r: Rid, work: Work): World {
    w.(works := w.works[r := work])
  }

  function Raised(rows: Rows, target: Id): Rows
    requires target in rows
  {
    rows[target := rows[target].(isDefault := true)]
  }

  /** The next statement of a promotion. A promoted account that is gone by the
      commit fails the request; one that was the default when loaded is not
      written. */
  function NextOfPromotion(w: World, r: Rid, c: Company, target: Id): World
    requires r in w.works
  {
    var rows := w.base.rows;
    match w.works[r]
    case Waiting =>
      if OwnedBy(rows, c, target) then Advance(w, r, Loaded(rows[target].isDefault)) else Advance(w, r, Abandoned)
    case Loaded(wasDefault) => Advance(w, r, Ready(!wasDefault, Defaults(rows, c) - {target}))
    case Ready(raises, targets) =>
      if raises && target !in rows then Advance(w, r, Abandoned)
      else
        var after := Demote(rows, targets);
        Advance(w, r, Finished).(base := w.base.(rows := if raises then Raised(after, target) else after))
    case Finished => w
    case Abandoned => w
  }

  /** The next statement of a deletion. */
  function NextOfDeletion(w: World, r: Rid, c: Company, target: Id): World
    requires r in w.works
  {
    var rows := w.base.rows;
    match w.works[r]
    case Waiting =>
      if OwnedBy(rows, c, target) then Advance(w, r, Loaded(rows[target].isDefault)) else Advance(w, r, Abandoned)
    case Loaded(wasDefault) =>
      Advance(w, r, if wasDefault && HasOther(rows, c, Some(target)) then Abandoned else Ready(false, {}))
    case Ready(_, _) => Advance(w, r, Finished).(base := w.base.(rows := rows - {target}))
    case Finished => w
    case Abandoned => w
  }

  function Next(scene: Scene, w: World, who: Who): World {
    match who
    case Creator(id) => w.(base := AccountRaces.Step(scene.requests, w.base, id))
    case Changer(r) =>
      if r !in scene.changes || r !in w.works then w
      else
        match scene.changes[r]
        case Promote(c, target) => NextOfPromotion(w, r, c, target)
        case Remove(c, target) => NextOfDeletion(w, r, c, target)
  }

  function Play(scene: Scene, schedule: seq<Who>): World {
    if schedule == [] then Opening(scene)
    else Next(scene, Play(scene, schedule[..|schedule| - 1]), schedule[|schedule| - 1])
  }

  // ----- Accounts stay with their company

  predicate Belongs(scene: Scene, k: Id, c: Company) {
    if k in scene.requests then scene.requests[k].account.company == c
    else k in scene.rows && scene.rows[k].company == c
  }

  ghost predicate RowsBelong(scene: Scene, rows: Rows) {
    forall k :: k in rows ==> Belongs(scene, k, rows[k].company)
  }

  predicate TargetsBelong(scene: Scene, targets: set<Id>, c: Company) {
    forall k :: k in targets ==> Belongs(scene, k, c)
  }

  predicate CreateBelongs(scene: Scene, w: World, u: Id)
    requires u in scene.requests && u in w.base.stages
  {
    && (!w.base.stages[u].Committed? ==> u !in w.base.rows)
    && (w.base.stages[u].HasDemoted? ==>
          && TargetsBelong(scene, w.base.stages[u].targets, scene.requests[u].account.company)
          && (!w.base.stages[u].takes ==> w.base.stages[u].targets == {}))
  }

  predicate WorkBelongs(scene: Scene, w: World, r: Rid)
    requires r in scene.changes && r in w.works
  {
    && (w.works[r].Loaded? || w.works[r].Ready? ==> Belongs(scene, scene.changes[r].target, scene.changes[r].company))
    && (w.works[r].Ready? ==>
          TargetsBelong(scene, w.works[r].targets, scene.changes[r].company)
            && scene.changes[r].target !in w.works[r].targets)
  }

  ghost predicate Orderly(scene: Scene, w: World) {
    && w.base.stages.Keys == scene.requests.Keys && w.works.Keys == scene.changes.Keys
    && RowsBelong(scene, w.base.rows)
    && (forall u :: u in scene.requests ==> CreateBelongs(scene, w, u))
    && (forall r :: r in scene.changes ==> WorkBelongs(scene, w, r))
  }

  lemma DefaultsBelong(scene: Scene, rows: Rows, c: Company)
    requires RowsBelong(scene, rows)
    ensures TargetsBelong(scene, Defaults(rows, c), c)
  {
  }

  lemma CreateStepOrderly(scene: Scene, w: World, id: Id)
    requires Orderly(scene, w)
    ensures Orderly(scene, Next(scene, w, Creator(id)))
  {
    if id in scene.requests {
      var after := Next(scene, w, Creator(id));
      StepShape(scene.requests, w.base, id);
      DefaultsBelong(scene, w.base.rows, scene.requests[id].account.company);
      forall u | u in scene.requests ensures CreateBelongs(scene, after, u) {
        assert CreateBelongs(scene, w, u);
      }
      forall r | r in scene.changes ensures WorkBelongs(scene, after, r) {
        assert WorkBelongs(scene, w, r);
      }
    }
  }

  /** A statement of a promotion or deletion touches no create, no other change
      and no company of an account, and adds no account. */
  predicate ChangeShape(scene: Scene, w: World, r: Rid, after: World)
    requires r in scene.changes
  {
    && after.base.stages == w.base.stages && after.works.Keys == w.works.Keys == scene.changes.Keys
    && (forall q :: q in w.works && q != r ==> after.works[q] == w.works[q])
    && (forall k :: k in after.base.rows ==> k in w.base.rows && after.base.rows[k].company == w.base.rows[k].company)
  }

  lemma ChangeStepShape(scene: Scene, w: World, r: Rid)
    requires w.works.Keys == scene.changes.Keys && r in scene.changes
    ensures ChangeShape(scene, w, r, Next(scene, w, Changer(r)))
  {
  }

  lemma OwnWorkBelongs(scene: Scene, w: World, r: Rid)
    requires Orderly(scene, w) && r in scene.changes
    ensures WorkBelongs(scene, Next(scene, w, Changer(r)), r)
  {
    DefaultsBelong(scene, w.base.rows, scene.changes[r].company);
    assert WorkBelongs(scene, w, r);
  }

  lemma ChangeStepOrderly(scene: Scene, w: World, r: Rid, after: World)
    requires Orderly(scene, w) && r in scene.changes && ChangeShape(scene, w, r, after) && WorkBelongs(scene, after, r)
    ensures Orderly(scene, after)
  {
    forall u | u in scene.requests ensures CreateBelongs(scene, after, u) {
      assert CreateBelongs(scene, w, u);
    }
    forall q | q in scene.changes ensures WorkBelongs(scene, after, q) {
      assert WorkBelongs(scene, w, q);
    }
  }

  lemma StepOrderly(scene: Scene, w: World, who: Who)
    requires Orderly(scene, w)
    ensures Orderly(scene, Next(scene, w, who))
  {
    match who
    case Creator(id) => CreateStepOrderly(scene, w, id);
    case Changer(r) =>
      if r in scene.changes {
        ChangeStepShape(scene, w, r);
        OwnWorkBelongs(scene, w, r);
        ChangeStepOrderly(scene, w, r, Next(scene, w, who));
      }
  }

  lemma {:induction false} PlayOrderly(scene: Scene, schedule: seq<Who>)
    requires WellFormed(scene.requests, scene.rows)
    ensures Orderly(scene, Play(scene, schedule))
  {
    if schedule != [] {
      PlayOrderly(scene, schedule[..|schedule| - 1]);
      StepOrderly(scene, Play(scene, schedule[..|schedule| - 1]), schedule[|schedule| - 1]);
    }
  }

  // ----- What a commit finds

  /** What a create took for granted still holds at its commit: no default but
      the ones it demotes, or else that there is an account. */
  predicate CreateFinds(rows: Rows, c: Company, takes: bool, targets: set<Id>) {
    if takes then Defaults(rows, c) <= targets else HasOther(rows, c, None)
  }

  /** The same for a promotion; one that raises nothing must demote nothing. */
  predicate PromotionFinds(rows: Rows, c: Company, target: Id, raises: bool, targets: set<Id>) {
    if !raises then Defaults(rows, c) !! targets
    else target in rows ==> Defaults(rows, c) <= targets + {target}
  }

  /** The same for a deletion: the guard of the handler, asked again. */
  predicate DeletionFinds(rows: Rows, c: Company, target: Id) {
    target in Defaults(rows, c) ==> !HasOther(rows, c, Some(target))
  }

  /** Whether a step that commits something for company `c` finds the accounts
      as it took them to be. */
  predicate Timely(scene: Scene, w: World, who: Who, c: Company) {
    var rows := w.base.rows;
    match who
    case Creator(u) =>
      u in scene.requests && u in w.base.stages && w.base.stages[u].HasDemoted?
        && scene.requests[u].account.company == c ==>
        CreateFinds(rows, c, w.base.stages[u].takes, w.base.stages[u].targets)
    case Changer(r) =>
      r in scene.changes && r in w.works && w.works[r].Ready? && scene.changes[r].company == c ==>
        match scene.changes[r]
        case Promote(_, target) => PromotionFinds(rows, c, target, w.works[r].raises, w.works[r].targets)
        case Remove(_, target) => DeletionFinds(rows, c, target)
  }

  ghost predicate SameAccounts(rows: Rows, after: Rows, c: Company) {
    forall k :: OwnedBy(rows, c, k) || OwnedBy(after, c, k) ==> k in rows && k in after && rows[k] == after[k]
  }

  lemma SameAccountsSameDefault(rows: Rows, after: Rows, c: Company)
    requires SameAccounts(rows, after, c)
    ensures OneDefault(rows, c) <==> OneDefault(after, c)
  {
    forall k ensures OwnedBy(rows, c, k) <==> OwnedBy(after, c, k) {
    }
    forall k ensures DefaultOf(rows, c, k) <==> DefaultOf(after, c, k) {
    }
  }

  lemma CreateTakes(rows: Rows, c: Company, id: Id, account: Account, targets: set<Id>, after: Rows)
    requires id !in rows && account.company == c
    requires after == Demote(rows, targets)[id := account.(isDefault := true)]
    ensures OneDefault(after, c) <==> Defaults(rows, c) <= targets
  {
    assert DefaultOf(after, c, id);
    forall k ensures DefaultOf(after, c, k) <==> k == id || (k in Defaults(rows, c) && k !in targets) {
    }
    if d :| d in Defaults(rows, c) && d !in targets {
      assert DefaultOf(after, c, d);
    }
  }

  lemma CreateDoesNotTake(rows: Rows, c: Company, id: Id, account: Account, after: Rows)
    requires id !in rows && account.company == c && OneDefault(rows, c)
    requires after == Demote(rows, {})[id := account.(isDefault := false)]
    ensures OneDefault(after, c) <==> HasOther(rows, c, None)
  {
    assert OwnedBy(after, c, id);
    forall k ensures DefaultOf(after, c, k) <==> DefaultOf(rows, c, k) {
    }
    if k :| k in rows && rows[k].company == c {
      assert OwnedBy(rows, c, k);
    }
  }

  lemma PromotionRaises(rows: Rows, c: Company, target: Id, targets: set<Id>, after: Rows)
    requires OwnedBy(rows, c, target) && after == Raised(Demote(rows, targets), target)
    ensures OneDefault(after, c) <==> Defaults(rows, c) <= targets + {target}
  {
    assert DefaultOf(after, c, target);
    forall k ensures DefaultOf(after, c, k) <==> k == target || (k in Defaults(rows, c) && k !in targets) {
    }
    if d :| d in Defaults(rows, c) && d !in targets + {target} {
      assert DefaultOf(after, c, d);
    }
  }

  lemma PromotionOnlyDemotes(rows: Rows, c: Company, targets: set<Id>, after: Rows)
    requires OneDefault(rows, c) && after == Demote(rows, targets)
    ensures OneDefault(after, c) <==> Defaults(rows, c) !! targets
  {
    forall k ensures OwnedBy(after, c, k) <==> OwnedBy(rows, c, k) {
    }
    forall k ensures DefaultOf(after, c, k) <==> k in Defaults(rows, c) && k !in targets {
    }
    if d :| d in Defaults(rows, c) && d in targets {
      assert DefaultOf(rows, c, d) && OwnedBy(after, c, d);
      forall e ensures !DefaultOf(after, c, e) {
        assert DefaultOf(after, c, e) ==> DefaultOf(rows, c, e);
      }
    } else {
      forall k ensures DefaultOf(after, c, k) <==> DefaultOf(rows, c, k) {
      }
    }
  }

  lemma DeletionLeaves(rows: Rows, c: Company, target: Id, after: Rows)
    requires OneDefault(rows, c) && after == rows - {target}
    ensures OneDefault(after, c) <==> DeletionFinds(rows, c, target)
  {
    forall k ensures OwnedBy(after, c, k) <==> OwnedBy(rows, c, k) && k != target {
    }
    forall k ensures DefaultOf(after, c, k) <==> DefaultOf(rows, c, k) && k != target {
    }
    if DefaultOf(rows, c, target) && HasOther(rows, c, Some(target)) {
      var k :| k in rows && rows[k].company == c && k != target;
      assert OwnedBy(after, c, k);
    }
    forall k | OwnedBy(after, c, k) ensures exists d :: DefaultOf(rows, c, d) {
      assert OwnedBy(rows, c, k);
    }
  }

  // ----- Exactly when one default remains

  lemma CreateStepExactly(scene: Scene, w: World, id: Id, c: Company)
    requires Orderly(scene, w) && OneDefault(w.base.rows, c)
    ensures OneDefault(Next(scene, w, Creator(id)).base.rows, c) <==> Timely(scene, w, Creator(id), c)
  {
    if id in scene.requests {
      var rows, after := w.base.rows, Next(scene, w, Creator(id)).base.rows;
      StepShape(scene.requests, w.base, id);
      assert CreateBelongs(scene, w, id);
      if w.base.stages[id].HasDemoted? {
        var account, stage := scene.requests[id].account, w.base.stages[id];
        if account.company != c {
          SameAccountsSameDefault(rows, after, c);
        } else if stage.takes {
          CreateTakes(rows, c, id, account, stage.targets, after);
        } else {
          CreateDoesNotTake(rows, c, id, account, after);
        }
      }
    }
  }

  lemma ChangeStepExactly(scene: Scene, w: World, r: Rid, c: Company)
    requires Orderly(scene, w) && OneDefault(w.base.rows, c) && r in scene.changes
    ensures OneDefault(Next(scene, w, Changer(r)).base.rows, c) <==> Timely(scene, w, Changer(r), c)
  {
    assert WorkBelongs(scene, w, r);
    if w.works[r].Ready? {
      var rows, after, work := w.base.rows, Next(scene, w, Changer(r)).base.rows, w.works[r];
      if scene.changes[r].company != c {
        SameAccountsSameDefault(rows, after, c);
      } else {
        match scene.changes[r]
        case Promote(_, target) =>
          if !work.raises {
            PromotionOnlyDemotes(rows, c, work.targets, after);
          } else if target in rows {
            PromotionRaises(rows, c, target, work.targets, after);
          }
        case Remove(_, target) => DeletionLeaves(rows, c, target, after);
      }
    }
  }

  lemma StepExactly(scene: Scene, w: World, who: Who, c: Company)
    requires Orderly(scene, w) && OneDefault(w.base.rows, c)
    ensures OneDefault(Next(scene, w, who).base.rows, c) <==> Timely(scene, w, who, c)
  {
    match who
    case Creator(id) => CreateStepExactly(scene, w, id, c);
    case Changer(r) => if r in scene.changes { ChangeStepExactly(scene, w, r, c); }
  }

  ghost predicate OneDefaultAfter(scene: Scene, schedule: seq<Who>, c: Company) {
    OneDefault(Play(scene, schedule).base.rows, c)
  }

  ghost predicate AlwaysOneDefault(scene: Scene, schedule: seq<Who>, c: Company) {
    forall i :: 0 <= i <= |schedule| ==> OneDefaultAfter(scene, schedule[..i], c)
  }

  predicate AllTimely(scene: Scene, schedule: seq<Who>, c: Company) {
    forall i :: 0 <= i < |schedule| ==> Timely(scene, Play(scene, schedule[..i]), schedule[i], c)
  }

  lemma FrontOf(scene: Scene, schedule: seq<Who>, c: Company, front: seq<Who>, last: Who)
    requires schedule == front + [last]
    ensures Play(scene, schedule) == Next(scene, Play(scene, front), last)
    ensures AllTimely(scene, schedule, c) <==>
              (AllTimely(scene, front, c) && Timely(scene, Play(scene, front), last, c))
    ensures AlwaysOneDefault(scene, schedule, c) <==>
              (AlwaysOneDefault(scene, front, c) && OneDefaultAfter(scene, schedule, c))
  {
    assert schedule[..|front|] == front && schedule[|front|] == last && schedule[..|schedule|] == schedule;
    forall i | 0 <= i <= |front| ensures front[..i] == schedule[..i] {
    }
    forall i | 0 <= i < |front| ensures front[i] == schedule[i] {
    }
    if AlwaysOneDefault(scene, schedule, c) {
      forall i | 0 <= i <= |front| ensures OneDefaultAfter(scene, front[..i], c) {
        assert OneDefaultAfter(scene, schedule[..i], c);
      }
    }
    if AlwaysOneDefault(scene, front, c) && OneDefaultAfter(scene, schedule, c) {
      forall i | 0 <= i <= |schedule| ensures OneDefaultAfter(scene, schedule[..i], c) {
        assert i < |schedule| ==> OneDefaultAfter(scene, front[..i], c);
      }
    }
  }

  /** However creates, promotions and deletions overlap, a company has exactly
      one default, or no account, at every moment if and only if each of them
      finds at its commit what it took for granted. */
  lemma {:induction false} AlwaysOneDefaultExactly(scene: Scene, schedule: seq<Who>, c: Company)
    requires WellFormed(scene.requests, scene.rows) && OneDefault(scene.rows, c)
    ensures AlwaysOneDefault(scene, schedule, c) <==> AllTimely(scene, schedule, c)
  {
    assert schedule[..|schedule|] == schedule;
    if schedule == [] {
      assert OneDefaultAfter(scene, [], c);
    } else {
      var front, last := schedule[..|schedule| - 1], schedule[|schedule| - 1];
      AlwaysOneDefaultExactly(scene, front, c);
      FrontOf(scene, schedule, c, front, last);
      if AlwaysOneDefault(scene, front, c) {
        assert front[..|front|] == front;
        assert OneDefaultAfter(scene, front[..|front|], c);
        PlayOrderly(scene, front);
        StepExactly(scene, Play(scene, front), last, c);
      }
    }
  }

  // ----- One request with nobody in between

  function Promotion(target: Id): UpdateBody {
    UpdateBody(Unset, Unset, Unset, Unset, Patch.Set(Some(true)))
  }

  lemma DemotedAlone(rows: Rows, c: Company, target: Id)
    requires OwnedBy(rows, c, target)
    ensures Demote(rows, Defaults(rows, c) - {target}) == Demoted(rows, c, target)
  {
  }

  /** Three statements in a row are the promotion of the sequential model. */
  lemma AloneIsPromotion(scene: Scene, w: World, r: Rid, c: Company, target: Id, lengths: map<string, nat>)
    requires r in scene.changes && scene.changes[r] == Promote(c, target) && r in w.works && w.works[r].Waiting?
    ensures Next(scene, Next(scene, Next(scene, w, Changer(r)), Changer(r)), Changer(r)).base.rows
         == UpdateIn(w.base.rows, lengths, c, target, Promotion(target)).0
  {
    var rows := w.base.rows;
    if OwnedBy(rows, c, target) {
      DemotedAlone(rows, c, target);
      PromotedAlone(rows, lengths, c, target);
    }
  }

  lemma PromotedAlone(rows: Rows, lengths: map<string, nat>, c: Company, target: Id)
    requires OwnedBy(rows, c, target)
    ensures UpdateIn(rows, lengths, c, target, Promotion(target)).0
         == if rows[target].isDefault then Demoted(rows, c, target) else Raised(Demoted(rows, c, target), target)
  {
    assert Edited(rows[target], None, Promotion(target)) == rows[target];
    assert rows[target := rows[target]] == rows;
  }

  /** .. and the deletion. */
  lemma AloneIsDeletion(scene: Scene, w: World, r: Rid, c: Company, target: Id)
    requires r in scene.changes && scene.changes[r] == Remove(c, target) && r in w.works && w.works[r].Waiting?
    ensures Next(scene, Next(scene, Next(scene, w, Changer(r)), Changer(r)), Changer(r)).base.rows
         == DeleteIn(w.base.rows, c, target).0
  {
  }

  // ----- Three overlaps that go wrong

  lemma OneMore(scene: Scene, schedule: seq<Who>, i: nat, w: World)
    requires i < |schedule| && Play(scene, schedule[..i]) == w
    ensures Play(scene, schedule[..i + 1]) == Next(scene, w, schedule[i])
  {
    assert schedule[..i + 1][..i] == schedule[..i];
  }

  /** The three statements of one promotion. */
  function Whole(scene: Scene, w: World, r: Rid): World {
    Next(scene, Next(scene, Next(scene, w, Changer(r)), Changer(r)), Changer(r))
  }

  /** A promotion of the account that is the default already, with a promotion
      of another one in between: each demotes the other's, and none is left. */
  lemma PromotionsUndoEachOther(scene: Scene, c: Company, x: Id, y: Id, schedule: seq<Who>)
    requires scene.changes == map[0 := Promote(c, x), 1 := Promote(c, y)] && x != y
    requires Defaults(scene.rows, c) == {x} && OwnedBy(scene.rows, c, y)
    requires schedule == [Changer(0), Changer(1), Changer(1), Changer(1), Changer(0), Changer(0)]
    ensures var rows := Play(scene, schedule).base.rows;
            OwnedBy(rows, c, x) && OwnedBy(rows, c, y) && Defaults(rows, c) == {}
  {
    var w0 := Opening(scene);
    var w1 := Next(scene, w0, Changer(0));
    var w4 := Whole(scene, w1, 1);
    var w6 := Next(scene, Next(scene, w4, Changer(0)), Changer(0));
    SixSteps(scene, schedule, w1, w4);
    WholePromotion(scene, w1, 1, c, x, y);
    AlreadyDefault(scene, w4, 0, c, x, y);
  }

  lemma SixSteps(scene: Scene, s: seq<Who>, w1: World, w4: World)
    requires s == [Changer(0), Changer(1), Changer(1), Changer(1), Changer(0), Changer(0)]
    requires w1 == Next(scene, Opening(scene), Changer(0)) && w4 == Whole(scene, w1, 1)
    ensures Play(scene, s) == Next(scene, Next(scene, w4, Changer(0)), Changer(0))
  {
    OneMore(scene, s, 0, Opening(scene));
    ThreeMore(scene, s, 1, w1, 1);
    OneMore(scene, s, 4, w4);
    OneMore(scene, s, 5, Next(scene, w4, Changer(0)));
    assert s[..6] == s;
  }

  lemma WholePromotion(scene: Scene, w: World, r: Rid, c: Company, x: Id, y: Id)
    requires r in scene.changes && scene.changes[r] == Promote(c, y) && r in w.works && w.works[r].Waiting?
    requires Defaults(w.base.rows, c) == {x} && OwnedBy(w.base.rows, c, y) && x != y
    ensures Whole(scene, w, r).base.rows == Raised(Demote(w.base.rows, {x}), y)
    ensures Whole(scene, w, r).works == w.works[r := Finished]
  {
    assert Defaults(w.base.rows, c) - {y} == {x};
    assert y !in Defaults(w.base.rows, c);
  }

  lemma AlreadyDefault(scene: Scene, w: World, r: Rid, c: Company, x: Id, y: Id)
    requires r in scene.changes && scene.changes[r] == Promote(c, x) && r in w.works && w.works[r] == Loaded(true)
    requires OwnedBy(w.base.rows, c, x) && OwnedBy(w.base.rows, c, y) && Defaults(w.base.rows, c) == {y} && x != y
    ensures var rows := Next(scene, Next(scene, w, Changer(r)), Changer(r)).base.rows;
            OwnedBy(rows, c, x) && OwnedBy(rows, c, y) && Defaults(rows, c) == {}
  {
    assert Defaults(w.base.rows, c) - {x} == {y};
    var rows := Demote(w.base.rows, {y});
    forall k ensures k !in Defaults(rows, c) {
      assert k in Defaults(rows, c) ==> k in Defaults(w.base.rows, c);
    }
  }

  /** A create that asks for no default reads the one account of the company;
      that account is deleted before the create commits: one account, no default. */
  lemma CreateAfterDeletion(scene: Scene, c: Company, a: Id, k: Id, schedule: seq<Who>)
    requires WellFormed(scene.requests, scene.rows) && scene.changes == map[0 := Remove(c, k)]
    requires OwnedBy(scene.rows, c, k) && !HasOther(scene.rows, c, Some(k))
    requires a in scene.requests && scene.requests[a].account.company == c && !scene.requests[a].wanted
    requires !TakenIban(scene.rows, scene.requests[a].account)
    requires schedule == [Creator(a), Creator(a), Creator(a), Changer(0), Changer(0), Changer(0), Creator(a)]
    ensures var rows := Play(scene, schedule).base.rows;
            OwnedBy(rows, c, a) && Defaults(rows, c) == {}
  {
    var db := Initial(scene.requests, scene.rows);
    var one := AccountRaces.Step(scene.requests, db, a);
    var base := AccountRaces.Step(scene.requests, AccountRaces.Step(scene.requests, one, a), a);
    NobodyHolds(scene.requests, db, a);
    ReadInsertDemote(scene.requests, db, a);
    var w3 := Opening(scene).(base := base);
    SevenSteps(scene, a, schedule, w3, Whole(scene, w3, 0));
    WholeDeletion(scene, w3, 0, c, k);
    LastCommit(scene, Whole(scene, w3, 0), c, a, k);
  }

  lemma SevenSteps(scene: Scene, a: Id, s: seq<Who>, w3: World, w6: World)
    requires s == [Creator(a), Creator(a), Creator(a), Changer(0), Changer(0), Changer(0), Creator(a)]
    requires w3 == Next(scene, Next(scene, Next(scene, Opening(scene), Creator(a)), Creator(a)), Creator(a))
    requires w6 == Whole(scene, w3, 0)
    ensures Play(scene, s) == Next(scene, w6, Creator(a))
  {
    ThreeFirst(scene, s, w3, a);
    ThreeMore(scene, s, 3, w3, 0);
    OneMore(scene, s, 6, w6);
    assert s[..7] == s;
  }

  lemma ThreeFirst(scene: Scene, s: seq<Who>, w3: World, a: Id)
    requires 3 <= |s| && s[0] == s[1] == s[2] == Creator(a)
    requires w3 == Next(scene, Next(scene, Next(scene, Opening(scene), Creator(a)), Creator(a)), Creator(a))
    ensures Play(scene, s[..3]) == w3
  {
    OneMore(scene, s, 0, Opening(scene));
    OneMore(scene, s, 1, Next(scene, Opening(scene), Creator(a)));
    OneMore(scene, s, 2, Next(scene, Next(scene, Opening(scene), Creator(a)), Creator(a)));
  }

  lemma ThreeMore(scene: Scene, s: seq<Who>, i: nat, w: World, r: Rid)
    requires i + 3 <= |s| && s[i] == s[i + 1] == s[i + 2] == Changer(r) && Play(scene, s[..i]) == w
    ensures Play(scene, s[..i + 3]) == Whole(scene, w, r)
  {
    OneMore(scene, s, i, w);
    OneMore(scene, s, i + 1, Next(scene, w, Changer(r)));
    OneMore(scene, s, i + 2, Next(scene, Next(scene, w, Changer(r)), Changer(r)));
  }

  lemma WholeDeletion(scene: Scene, w: World, r: Rid, c: Company, k: Id)
    requires r in scene.changes && scene.changes[r] == Remove(c, k) && r in w.works && w.works[r].Waiting?
    requires OwnedBy(w.base.rows, c, k) && !HasOther(w.base.rows, c, Some(k))
    ensures Whole(scene, w, r).base == w.base.(rows := w.base.rows - {k})
  {
  }

  lemma LastCommit(scene: Scene, w: World, c: Company, a: Id, k: Id)
    requires a in scene.requests && a in w.base.stages && scene.requests[a].account.company == c
    requires w.base.stages[a].HasDemoted? && !w.base.stages[a].takes
    requires forall l :: l in w.base.rows ==> w.base.rows[l].company != c
    ensures var rows := Next(scene, w, Creator(a)).base.rows;
            OwnedBy(rows, c, a) && Defaults(rows, c) == {}
  {
  }

  /** Two promotions that each demote before the other commits: two defaults. */
  lemma PromotionsBothStay(scene: Scene, c: Company, x: Id, y: Id, z: Id, schedule: seq<Who>)
    requires scene.changes == map[0 := Promote(c, y), 1 := Promote(c, z)]
    requires Defaults(scene.rows, c) == {x} && OwnedBy(scene.rows, c, y) && OwnedBy(scene.rows, c, z)
    requires x != y && x != z && y != z
    requires schedule == [Changer(0), Changer(0), Changer(1), Changer(1), Changer(0), Changer(1)]
    ensures Defaults(Play(scene, schedule).base.rows, c) == {y, z}
  {
    var w2, w4 := BothDemote(scene, c, x, y, z);
    InTurn(scene, schedule, w2, w4);
    BothCommit(scene, c, x, y, z, w4);
  }

  lemma InTurn(scene: Scene, s: seq<Who>, w2: World, w4: World)
    requires s == [Changer(0), Changer(0), Changer(1), Changer(1), Changer(0), Changer(1)]
    requires w2 == Next(scene, Next(scene, Opening(scene), Changer(0)), Changer(0))
    requires w4 == Next(scene, Next(scene, w2, Changer(1)), Changer(1))
    ensures Play(scene, s) == Next(scene, Next(scene, w4, Changer(0)), Changer(1))
  {
    OneMore(scene, s, 0, Opening(scene));
    OneMore(scene, s, 1, Next(scene, Opening(scene), Changer(0)));
    OneMore(scene, s, 2, w2);
    OneMore(scene, s, 3, Next(scene, w2, Changer(1)));
    OneMore(scene, s, 4, w4);
    OneMore(scene, s, 5, Next(scene, w4, Changer(0)));
    assert s[..6] == s;
  }

  lemma BothDemote(scene: Scene, c: Company, x: Id, y: Id, z: Id) returns (w2: World, w4: World)
    requires scene.changes == map[0 := Promote(c, y), 1 := Promote(c, z)]
    requires Defaults(scene.rows, c) == {x} && OwnedBy(scene.rows, c, y) && OwnedBy(scene.rows, c, z)
    requires x != y && x != z
    ensures w2 == Next(scene, Next(scene, Opening(scene), Changer(0)), Changer(0))
    ensures w4 == Next(scene, Next(scene, w2, Changer(1)), Changer(1))
    ensures w4 == World(Opening(scene).base, map[0 := Ready(true, {x}), 1 := Ready(true, {x})])
  {
    w2 := DemotesOne(scene, Opening(scene), 0, c, x, y);
    w4 := DemotesOne(scene, w2, 1, c, x, z);
  }

  lemma DemotesOne(scene: Scene, w: World, r: Rid, c: Company, x: Id, y: Id) returns (after: World)
    requires r in scene.changes && scene.changes[r] == Promote(c, y) && r in w.works && w.works[r].Waiting?
    requires Defaults(w.base.rows, c) == {x} && OwnedBy(w.base.rows, c, y) && x != y
    ensures after == Next(scene, Next(scene, w, Changer(r)), Changer(r))
    ensures after == w.(works := w.works[r := Ready(true, {x})])
  {
    after := Next(scene, Next(scene, w, Changer(r)), Changer(r));
    assert y !in Defaults(w.base.rows, c) && Defaults(w.base.rows, c) - {y} == {x};
  }

  lemma BothCommit(scene: Scene, c: Company, x: Id, y: Id, z: Id, w: World)
    requires scene.changes == map[0 := Promote(c, y), 1 := Promote(c, z)]
    requires w == World(w.base, map[0 := Ready(true, {x}), 1 := Ready(true, {x})])
    requires Defaults(w.base.rows, c) == {x} && OwnedBy(w.base.rows, c, y) && OwnedBy(w.base.rows, c, z)
    requires x != y && x != z && y != z
    ensures Defaults(Next(scene, Next(scene, w, Changer(0)), Changer(1)).base.rows, c) == {y, z}
  {
    var rows := w.base.rows;
    var one := Raised(Demote(rows, {x}), y);
    assert Next(scene, w, Changer(0)).base.rows == one;
    var two := Raised(Demote(one, {x}), z);
    assert Next(scene, Next(scene, w, Changer(0)), Changer(1)).base.rows == two;
    forall k ensures k in Defaults(two, c) <==> k == y || k == z {
      assert k in Defaults(rows, c) <==> k == x;
    }
  }
}
