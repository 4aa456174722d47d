/** The party tree: organisations, departments and people
    (apps/api/services/party_service.py, apps/api/routers/parties.py). */
module PartyTree {
  import opened Wrappers

  datatype Kind = Organisation | Department | Person

  type Id = nat

  type Company = nat

  datatype Party = Party(company: Company, kind: Kind, parent: Option<Id>)

  type Store = map<Id, Party>

  const MAX_DEPTH := 3

  datatype PartyError =
    | DepartmentNeedsParent
    | OrganisationIsTop
    | ParentNotFound
    | WrongParentKind
    | OwnParent
    | BelowItself
    | TooDeep

  /** `ALLOWED_PARENTS`. */
  predicate Allowed(child: Kind, parent: Kind) {
    match child
    case Organisation => false
    case Department => parent.Organisation?
    case Person => parent.Organisation? || parent.Department?
  }

  /** A row of one company, by id. */
  predicate Has(s: Store, c: Company, id: Id) {
    id in s && s[id].company == c
  }

  /** The parent row, if there is one in this company. */
  function Up(s: Store, c: Company, id: Id): Option<Id> {
    if id in s && s[id].parent.Some? && Has(s, c, s[id].parent.value) then s[id].parent else None
  }

  // ----- The true chain of ancestors

  /** The first `n` of: the party, its parent, its parent's parent, .. */
  function Ancestors(s: Store, c: Company, id: Id, n: nat): seq<Id>
    decreases n
  {
    if n == 0 then []
    else [id] + if Up(s, c, id).None? then [] else Ancestors(s, c, Up(s, c, id).value, n - 1)
  }

  /** How many levels there are from `id` to the top, or 0 if the top is not
      reached within `n`. */
  function Height(s: Store, c: Company, id: Id, n: nat): (h: nat)
    ensures h <= n
    decreases n
  {
    if n == 0 then 0
    else if Up(s, c, id).None? then 1
    else
      var h := Height(s, c, Up(s, c, id).value, n - 1);
      if h == 0 then 0 else h + 1
  }

  lemma {:induction false} HeightStable(s: Store, c: Company, id: Id, n: nat, m: nat)
    requires Height(s, c, id, n) > 0 && m >= Height(s, c, id, n)
    ensures Height(s, c, id, m) == Height(s, c, id, n) <= n
    ensures Ancestors(s, c, id, m) == Ancestors(s, c, id, n)
    ensures |Ancestors(s, c, id, n)| == Height(s, c, id, n)
    decreases n
  {
    if Up(s, c, id).Some? {
      HeightStable(s, c, Up(s, c, id).value, n - 1, m - 1);
    }
  }

  /** Going up shortens the way by one, so nobody is met twice. */
  lemma HeightOfParent(s: Store, c: Company, id: Id, n: nat)
    requires Height(s, c, id, n) > 0 && Up(s, c, id).Some?
    ensures Height(s, c, Up(s, c, id).value, n) == Height(s, c, id, n) - 1 > 0
  {
    HeightStable(s, c, Up(s, c, id).value, n - 1, n);
  }

  // ----- The cycle walk of validate_parent

  /** Whether the walk up from `w` meets somebody already seen. */
  function MeetsSeen(s: Store, c: Company, w: Id, seen: set<Id>): bool
    requires w in s
    decreases s.Keys - seen
  {
    if w in seen then true
    else if Up(s, c, w).None? then false
    else
      assert s.Keys - (seen + {w}) < s.Keys - seen by { assert w in s.Keys - seen; }
      MeetsSeen(s, c, Up(s, c, w).value, seen + {w})
  }

  /** A walk that meets nobody reaches the top, past none of `seen`. */
  lemma {:induction false} UnmetWalkEnds(s: Store, c: Company, w: Id, seen: set<Id>) returns (n: nat)
    requires w in s && !MeetsSeen(s, c, w, seen)
    ensures Height(s, c, w, n) > 0 && forall x :: x in Ancestors(s, c, w, n) ==> x !in seen
    decreases s.Keys - seen
  {
    n := 1;
    if Up(s, c, w).Some? {
      assert w in s.Keys - seen;
      n := UnmetWalkEnds(s, c, Up(s, c, w).value, seen + {w});
      n := n + 1;
    }
  }

  /** .. and the other way round. */
  lemma {:induction false} EndingWalkMeetsNobody(s: Store, c: Company, w: Id, seen: set<Id>, n: nat)
    requires w in s && Height(s, c, w, n) > 0
    requires forall x :: x in seen ==> x !in Ancestors(s, c, w, n) || Height(s, c, x, n) > Height(s, c, w, n)
    ensures !MeetsSeen(s, c, w, seen)
    decreases s.Keys - seen
  {
    assert w in Ancestors(s, c, w, n);
    if Up(s, c, w).Some? {
      var p := Up(s, c, w).value;
      HeightOfParent(s, c, w, n);
      HeightStable(s, c, p, n - 1, n);
      assert w in s.Keys - seen;
      assert forall x :: x in Ancestors(s, c, p, n) ==> x in Ancestors(s, c, w, n);
      EndingWalkMeetsNobody(s, c, p, seen + {w}, n);
    }
  }

  // ----- _depth_of

  function DepthFrom(s: Store, c: Company, w: Id, seen: set<Id>): (d: nat)
    requires w in s && w in seen
    decreases s.Keys - seen
  {
    if s[w].parent.None? || s[w].parent.value in seen || Up(s, c, w).None? then 1
    else
      var p := s[w].parent.value;
      assert s.Keys - (seen + {p}) < s.Keys - seen by { assert p in s.Keys - seen; }
      1 + DepthFrom(s, c, p, seen + {p})
  }

  /** Where the top is reached, the depth is the number of levels. */
  lemma {:induction false} DepthIsHeight(s: Store, c: Company, w: Id, seen: set<Id>, n: nat)
    requires w in s && w in seen && Height(s, c, w, n) > 0
    requires forall x :: x in seen && x != w && Has(s, c, x) ==> Height(s, c, x, n) > Height(s, c, w, n)
    ensures DepthFrom(s, c, w, seen) == Height(s, c, w, n)
    decreases s.Keys - seen
  {
    if Up(s, c, w).Some? {
      var p := Up(s, c, w).value;
      HeightOfParent(s, c, w, n);
      assert p !in seen;
      assert p in s.Keys - seen;
      DepthIsHeight(s, c, p, seen + {p}, n);
    }
  }

  // ----- The three procedures

  function Validate(s: Store, c: Company, kind: Kind, parent: Option<Id>,
                    self: Option<Id>): Result<Option<Id>, PartyError> {
    if parent.None? then
      if kind.Department? then Err(DepartmentNeedsParent) else Ok(None)
    else if kind.Organisation? then Err(OrganisationIsTop)
    else if !Has(s, c, parent.value) then Err(ParentNotFound)
    else if !Allowed(kind, s[parent.value].kind) then Err(WrongParentKind)
    else if self == parent then Err(OwnParent)
    else if self.Some? && MeetsSeen(s, c, parent.value, {self.value}) then Err(BelowItself)
    else if DepthFrom(s, c, parent.value, {parent.value}) + 1 >= MAX_DEPTH + 1 then Err(TooDeep)
    else Ok(parent)
  }

  /** `validate_parent`: terminates on every store, cyclic ones included. */
  method ValidateParent(s: Store, c: Company, kind: Kind, parent: Option<Id>, self: Option<Id>)
    returns (r: Result<Option<Id>, PartyError>)
    ensures r == Validate(s, c, kind, parent, self)
  {
    if parent.None? {
      if kind.Department? {
        return Err(DepartmentNeedsParent);
      }
      return Ok(None);
    }
    if kind.Organisation? {
      return Err(OrganisationIsTop);
    }
    var p := parent.value;
    if !Has(s, c, p) {
      return Err(ParentNotFound);
    }
    if !Allowed(kind, s[p].kind) {
      return Err(WrongParentKind);
    }
    if self.Some? {
      if p == self.value {
        return Err(OwnParent);
      }
      var seen := {self.value};
      var walker := Some(p);
      while walker.Some?
        invariant walker.Some? ==> walker.value in s
        invariant MeetsSeen(s, c, p, {self.value}) == (walker.Some? && MeetsSeen(s, c, walker.value, seen))
        decreases walker.Some?, s.Keys - seen
      {
        if walker.value in seen {
          return Err(BelowItself);
        }
        assert walker.value in s.Keys - seen;
        seen := seen + {walker.value};
        walker := Up(s, c, walker.value);
      }
    }
    var depth := DepthOf(s, c, p);
    if depth + 1 >= MAX_DEPTH + 1 {
      return Err(TooDeep);
    }
    return Ok(parent);
  }

  method DepthOf(s: Store, c: Company, party: Id) returns (depth: nat)
    requires party in s
    ensures depth == DepthFrom(s, c, party, {party})
  {
    depth := 1;
    var walker := party;
    var seen := {party};
    while s[walker].parent.Some? && s[walker].parent.value !in seen
      invariant walker in s && walker in seen
      invariant depth + DepthFrom(s, c, walker, seen) - 1 == DepthFrom(s, c, party, {party})
      decreases s.Keys - seen
    {
      var p := s[walker].parent.value;
      if !Has(s, c, p) {
        break;
      }
      assert p in s.Keys - seen;
      seen := seen + {p};
      walker := p;
      depth := depth + 1;
    }
  }

  /** What the bounded, cycle-guarded walk collects. */
  function Collected(s: Store, c: Company, w: Id, seen: set<Id>, room: nat): seq<Id>
    decreases room
  {
    if room == 0 || w in seen then []
    else [w] + if Up(s, c, w).None? then [] else Collected(s, c, Up(s, c, w).value, seen + {w}, room - 1)
  }

  /** `build_chain`, by ids. */
  method BuildChain(s: Store, party: Id) returns (chain: seq<Id>)
    requires party in s
    ensures chain == Collected(s, s[party].company, party, {}, MAX_DEPTH + 1)
  {
    chain := WalkUp(s, party, MAX_DEPTH + 1);
  }

  /** What is collected after `w` itself. */
  ghost function CollectedAbove(s: Store, c: Company, w: Id, seen: set<Id>, room: nat): seq<Id> {
    if Up(s, c, w).None? then [] else Collected(s, c, Up(s, c, w).value, seen + {w}, room)
  }

  lemma Shunt(chain: seq<Id>, w: Id, tail: seq<Id>)
    ensures chain + ([w] + tail) == chain + [w] + tail
  {
  }

  method WalkUp(s: Store, party: Id, limit: nat) returns (chain: seq<Id>)
    requires party in s
    ensures chain == Collected(s, s[party].company, party, {}, limit)
  {
    chain := [];
    var c := s[party].company;
    var walker := Some(party);
    var seen: set<Id> := {};
    ghost var full := Collected(s, c, party, {}, limit);
    ghost var rest := full;
    while walker.Some? && |chain| < limit
      invariant |chain| <= limit && full == chain + rest
      invariant walker.Some? ==> walker.value in s
      invariant rest == if walker.None? then [] else Collected(s, c, walker.value, seen, limit - |chain|)
      decreases limit - |chain|
    {
      var w := walker.value;
      if w in seen {
        break;
      }
      ghost var tail := CollectedAbove(s, c, w, seen, limit - |chain| - 1);
      Shunt(chain, w, tail);
      rest := tail;
      seen := seen + {w};
      chain := chain + [w];
      if s[w].parent.None? {
        break;
      }
      walker := Up(s, c, w);
    }
  }

  /** Where the top is within the bound, the chain is the list of ancestors. */
  lemma {:induction false} CollectedIsAncestors(s: Store, c: Company, w: Id, seen: set<Id>, room: nat, n: nat)
    requires 0 < Height(s, c, w, n) <= room
    requires forall x :: x in seen ==> Height(s, c, x, n) > Height(s, c, w, n)
    ensures Collected(s, c, w, seen, room) == Ancestors(s, c, w, n)
    decreases room
  {
    if Up(s, c, w).Some? {
      var p := Up(s, c, w).value;
      HeightOfParent(s, c, w, n);
      HeightStable(s, c, p, n - 1, n);
      CollectedIsAncestors(s, c, p, seen + {w}, room - 1, n);
    }
  }

  // ----- What acceptance of a move means, on any store

  /** A move is accepted exactly when the kinds fit and the new parent is at
      most second from the top of a chain that does not pass the party. */
  lemma MoveAccepted(s: Store, c: Company, kind: Kind, parent: Id, self: Id)
    ensures Validate(s, c, kind, Some(parent), Some(self)).Ok? <==>
              && Has(s, c, parent) && Allowed(kind, s[parent].kind)
              && Height(s, c, parent, 2) > 0 && self !in Ancestors(s, c, parent, 2)
  {
    if Has(s, c, parent) && Allowed(kind, s[parent].kind) {
      if !MeetsSeen(s, c, parent, {self}) {
        var n := UnmetWalkEnds(s, c, parent, {self});
        DepthIsHeight(s, c, parent, {parent}, n);
        if Height(s, c, parent, n) <= 2 {
          HeightStable(s, c, parent, n, 2);
        }
        if Height(s, c, parent, 2) > 0 {
          HeightStable(s, c, parent, 2, 2);
          SameHeight(s, c, parent, 2, n);
        }
      } else if Height(s, c, parent, 2) > 0 && self !in Ancestors(s, c, parent, 2) {
        EndingWalkMeetsNobody(s, c, parent, {self}, 2);
      }
      assert parent in Ancestors(s, c, parent, 2);
    }
  }

  lemma SameHeight(s: Store, c: Company, id: Id, n: nat, m: nat)
    requires Height(s, c, id, n) > 0 && Height(s, c, id, m) > 0
    ensures Height(s, c, id, n) == Height(s, c, id, m)
  {
    HeightStable(s, c, id, n, if n >= m then n else m);
    HeightStable(s, c, id, m, if n >= m then n else m);
  }

  // ----- Every store reachable by creating and moving parties

  class PartyTable {
    var parties: Store

    constructor ()
      ensures parties == map[]
    {
      parties := map[];
    }

    /** `create_party`. */
    method CreateParty(id: Id, c: Company, kind: Kind, parent: Option<Id>) returns (r: Result<Option<Id>, PartyError>)
      requires id !in parties
      modifies this
      ensures (parties, r) == Created(old(parties), id, c, kind, parent)
    {
      r := ValidateParent(parties, c, kind, parent, None);
      if r.Ok? {
        parties := parties[id := Party(c, kind, parent)];
      }
    }

    /** `update_party`, as far as it writes `parent_id`. */
    method UpdateParent(id: Id, parent: Option<Id>) returns (r: Result<Option<Id>, PartyError>)
      requires id in parties
      modifies this
      ensures (parties, r) == Reparented(old(parties), id, parent)
    {
      var row := parties[id];
      if parent == row.parent {
        return Ok(parent);
      }
      r := ValidateParent(parties, row.company, row.kind, parent, Some(id));
      if r.Ok? {
        parties := parties[id := row.(parent := parent)];
      }
    }
  }

  function Created(s: Store, id: Id, c: Company, kind: Kind,
                   parent: Option<Id>): (Store, Result<Option<Id>, PartyError>) {
    var r := Validate(s, c, kind, parent, None);
    (if r.Ok? then s[id := Party(c, kind, parent)] else s, r)
  }

  function Reparented(s: Store, id: Id, parent: Option<Id>): (Store, Result<Option<Id>, PartyError>)
    requires id in s
  {
    if parent == s[id].parent then (s, Ok(parent))
    else
      var r := Validate(s, s[id].company, s[id].kind, parent, Some(id));
      (if r.Ok? then s[id := s[id].(parent := parent)] else s, r)
  }

  datatype Op = Create(id: Id, company: Company, kind: Kind, parent: Option<Id>) | Move(id: Id, parent: Option<Id>)

  function Step(s: Store, op: Op): Store {
    match op
    case Create(id, c, kind, parent) => if id in s then s else Created(s, id, c, kind, parent).0
    case Move(id, parent) => if id in s then Reparented(s, id, parent).0 else s
  }

  function Run(ops: seq<Op>): Store {
    if ops == [] then map[] else Step(Run(ops[..|ops| - 1]), ops[|ops| - 1])
  }

  /** Every parent is a row of the same company whose kind may have this child. */
  predicate WellKinded(s: Store) {
    forall id :: id in s ==>
      && (s[id].kind.Department? ==> s[id].parent.Some?)
      && (s[id].parent.Some? ==>
            Has(s, s[id].company, s[id].parent.value) && Allowed(s[id].kind, s[s[id].parent.value].kind))
  }

  lemma StepKeepsKinds(s: Store, op: Op)
    requires WellKinded(s)
    ensures WellKinded(Step(s, op))
  {
  }

  lemma {:induction false} ReachableIsWellKinded(ops: seq<Op>)
    ensures WellKinded(Run(ops))
  {
    if ops != [] {
      ReachableIsWellKinded(ops[..|ops| - 1]);
      StepKeepsKinds(Run(ops[..|ops| - 1]), ops[|ops| - 1]);
    }
  }

  function Rank(k: Kind): nat {
    match k case Organisation => 1 case Department => 2 case Person => 3
  }

  /** The kinds alone bound the depth: every parent ranks strictly higher. */
  lemma {:induction false} KindsBoundDepth(s: Store, c: Company, id: Id, n: nat)
    requires WellKinded(s) && Has(s, c, id) && n >= Rank(s[id].kind)
    ensures 0 < Height(s, c, id, n) <= Rank(s[id].kind)
    ensures forall x :: x in Ancestors(s, c, id, n) ==> Has(s, c, x)
    decreases n
  {
    if Up(s, c, id).Some? {
      KindsBoundDepth(s, c, Up(s, c, id).value, n - 1);
    }
  }

  /** Every reachable store is a forest at most three deep within one company,
      and `build_chain` returns the complete list of ancestors. */
  lemma ReachableIsAForest(ops: seq<Op>, id: Id, n: nat)
    requires id in Run(ops) && n >= MAX_DEPTH
    ensures var s := Run(ops); var c := s[id].company;
            && 0 < Height(s, c, id, n) <= MAX_DEPTH
            && Collected(s, c, id, {}, MAX_DEPTH + 1) == Ancestors(s, c, id, n)
            && (forall x :: x in Ancestors(s, c, id, n) ==> Has(s, c, x))
  {
    ReachableIsWellKinded(ops);
    var s := Run(ops);
    KindsBoundDepth(s, s[id].company, id, n);
    CollectedIsAncestors(s, s[id].company, id, {}, MAX_DEPTH + 1, n);
  }

  /** On reachable stores the kinds decide everything: the cycle, self-parent
      and depth refusals never fire, for a new party or a moved one. */
  lemma KindsDecide(ops: seq<Op>, c: Company, kind: Kind, parent: Id, self: Option<Id>)
    requires self.Some? ==> Has(Run(ops), c, self.value) && Run(ops)[self.value].kind == kind
    ensures var s := Run(ops);
            Validate(s, c, kind, Some(parent), self).Ok? <==> Has(s, c, parent) && Allowed(kind, s[parent].kind)
  {
    ReachableIsWellKinded(ops);
    var s := Run(ops);
    if Has(s, c, parent) && Allowed(kind, s[parent].kind) {
      KindsBoundDepth(s, c, parent, 2);
      if self.Some? {
        forall x | x in Ancestors(s, c, parent, 2) ensures Has(s, c, x) && Rank(s[x].kind) <= Rank(s[parent].kind) {
          AncestorRanksHigher(s, c, parent, 2, x);
        }
        MoveAccepted(s, c, kind, parent, self.value);
      } else {
        DepthIsHeight(s, c, parent, {parent}, 2);
      }
    }
  }

  lemma {:induction false} AncestorRanksHigher(s: Store, c: Company, id: Id, n: nat, x: Id)
    requires WellKinded(s) && Has(s, c, id) && x in Ancestors(s, c, id, n)
    ensures Has(s, c, x) && Rank(s[x].kind) <= Rank(s[id].kind)
    decreases n
  {
    if x != id {
      AncestorRanksHigher(s, c, Up(s, c, id).value, n - 1, x);
    }
  }
}
