/** What the rules for parents come to, said by the rows' own `parent` fields
    (apps/api/services/party_service.py, apps/api/routers/parties.py). */
module PartyOutcomes {
  import opened PartyTree
  import opened Wrappers

  /** `p` is the parent row of `id`, in the company. */
  predicate ParentRow(s: Store, c: Company, id: Id, p: Id) {
    id in s && s[id].parent == Some(p) && p in s && s[p].company == c
  }

  /** No row of the company is above `id`. */
  ghost predicate IsTop(s: Store, c: Company, id: Id) {
    forall p :: !ParentRow(s, c, id, p)
  }

  /** A department stands below an organisation, a person below either. */
  predicate KindsFit(child: Kind, parent: Kind) {
    (child, parent) == (Department, Organisation)
    || (child, parent) == (Person, Organisation)
    || (child, parent) == (Person, Department)
  }

  predicate Fits(s: Store, c: Company, kind: Kind, parent: Id) {
    parent in s && s[parent].company == c && KindsFit(kind, s[parent].kind)
  }

  lemma UpIsParentRow(s: Store, c: Company, id: Id)
    ensures Up(s, c, id).Some? ==> ParentRow(s, c, id, Up(s, c, id).value)
    ensures forall p: Id :: ParentRow(s, c, id, p) ==> Up(s, c, id) == Some(p)
    ensures Up(s, c, id).None? <==> IsTop(s, c, id)
  {
    if IsTop(s, c, id) && Up(s, c, id).Some? {
      assert ParentRow(s, c, id, Up(s, c, id).value);
    }
  }

  /** The ancestors of a party, up to `n` of them: the party first, each next
      one the parent row of the one before, and fewer than `n` only when the
      last one is at the top. */
  lemma {:induction false} AncestorsAreParents(s: Store, c: Company, id: Id, n: nat)
    ensures var a := Ancestors(s, c, id, n);
            && |a| <= n && (n > 0 ==> a != [] && a[0] == id)
            && (forall i :: 0 <= i < |a| - 1 ==> ParentRow(s, c, a[i], a[i + 1]))
            && (0 < |a| < n ==> IsTop(s, c, a[|a| - 1]))
    decreases n
  {
    if n > 0 {
      UpIsParentRow(s, c, id);
      if Up(s, c, id).Some? { AncestorsAreParents(s, c, Up(s, c, id).value, n - 1); }
    }
  }

  /** The chain built for a party of a reachable store: the party, its parent,
      and so on to a party without one. */
  lemma ChainIsParents(ops: seq<Op>, id: Id)
    requires id in Run(ops)
    ensures var s := Run(ops);
            var chain := Collected(s, s[id].company, id, {}, 4);
            && 1 <= |chain| <= 3 && chain[0] == id
            && (forall i :: 0 <= i < |chain| ==> chain[i] in s)
            && (forall i :: 0 <= i < |chain| - 1 ==> s[chain[i]].parent == Some(chain[i + 1]))
            && s[chain[|chain| - 1]].parent == None
  {
    var s := Run(ops);
    var c := s[id].company;
    ReachableIsAForest(ops, id, 4);
    AncestorsAreParents(s, c, id, 4);
    ReachableIsWellKinded(ops);
    KindsBoundDepth(s, c, id, 4);
    HeightStable(s, c, id, 4, 4);
    var a := Ancestors(s, c, id, 4);
    var last := a[|a| - 1];
    assert last in a;
    if s[last].parent.Some? { assert ParentRow(s, c, last, s[last].parent.value); }
  }

  // ----- Which parents are accepted

  /** A move, on any store: the kinds fit, the new parent is not the party, and
      it is at the top or one below a top that is not the party. */
  lemma MoveAcceptedByRows(s: Store, c: Company, kind: Kind, parent: Id, self: Id)
    ensures Validate(s, c, kind, Some(parent), Some(self)).Ok? <==>
              && Fits(s, c, kind, parent) && parent != self
              && (IsTop(s, c, parent) || exists g :: ParentRow(s, c, parent, g) && g != self && IsTop(s, c, g))
  {
    MoveAccepted(s, c, kind, parent, self);
    UpIsParentRow(s, c, parent);
    if Up(s, c, parent).Some? {
      var g := Up(s, c, parent).value;
      UpIsParentRow(s, c, g);
      assert Ancestors(s, c, parent, 2) == [parent, g];
    }
  }

  /** A new party, on any store: the kinds fit, and the walk up from the parent
      ends or comes round after at most one step. */
  lemma CreateAcceptedByRows(s: Store, c: Company, kind: Kind, parent: Id)
    ensures Validate(s, c, kind, Some(parent), None).Ok? <==>
              && Fits(s, c, kind, parent)
              && (|| IsTop(s, c, parent) || ParentRow(s, c, parent, parent)
                  || exists g :: ParentRow(s, c, parent, g)
                       && (IsTop(s, c, g) || ParentRow(s, c, g, g) || ParentRow(s, c, g, parent)))
  {
    UpIsParentRow(s, c, parent);
    if Fits(s, c, kind, parent) && Up(s, c, parent).Some? {
      var g := Up(s, c, parent).value;
      UpIsParentRow(s, c, g);
      if g == parent {
        assert DepthFrom(s, c, parent, {parent}) == 1;
      } else {
        DepthPastOne(s, c, parent, g);
        assert Up(s, c, g).Some? ==> ParentRow(s, c, g, Up(s, c, g).value);
      }
    }
  }

  lemma DepthPastOne(s: Store, c: Company, w: Id, g: Id)
    requires w in s && ParentRow(s, c, w, g) && g != w
    ensures DepthFrom(s, c, w, {w}) <= 2 <==> IsTop(s, c, g) || ParentRow(s, c, g, g) || ParentRow(s, c, g, w)
  {
    UpIsParentRow(s, c, g);
    assert DepthFrom(s, c, w, {w}) == 1 + DepthFrom(s, c, g, {w} + {g});
    if Up(s, c, g).Some? {
      var h := Up(s, c, g).value;
      assert ParentRow(s, c, g, h);
      if h == g || h == w {
        assert DepthFrom(s, c, g, {w} + {g}) == 1;
      } else {
        assert DepthFrom(s, c, g, {w} + {g}) == 1 + DepthFrom(s, c, h, {w} + {g} + {h});
        assert DepthFrom(s, c, h, {w} + {g} + {h}) >= 1;
      }
    } else {
      assert DepthFrom(s, c, g, {w} + {g}) == 1;
    }
  }

  /** Which refusal is given: the first that applies. The way up from the new
      parent is refused when it passes the party or never ends. */
  lemma RefusedBecause(s: Store, c: Company, kind: Kind, parent: Option<Id>, self: Option<Id>)
    ensures var r := Validate(s, c, kind, parent, self);
            && (r == Err(DepartmentNeedsParent) <==> parent.None? && kind == Department)
            && (r == Err(OrganisationIsTop) <==> parent.Some? && kind == Organisation)
            && (parent.None? && kind != Department ==> r == Ok(None))
            && (parent.Some? && kind != Organisation ==>
                  var p := parent.value;
                  && (r == Err(ParentNotFound) <==> !(p in s && s[p].company == c))
                  && (r == Err(WrongParentKind) <==> p in s && s[p].company == c && !KindsFit(kind, s[p].kind))
                  && (r == Err(OwnParent) <==> Fits(s, c, kind, p) && self == parent)
                  && (r == Err(BelowItself) <==>
                        && Fits(s, c, kind, p) && self.Some? && self != parent
                        && forall n: nat :: Height(s, c, p, n) > 0 ==> self.value in Ancestors(s, c, p, n))
                  && (r.Ok? ==> r == Ok(parent)))
  {
    if parent.Some? && Fits(s, c, kind, parent.value) && self.Some? && self != parent {
      WalkEndsExactly(s, c, parent.value, self.value);
    }
  }

  lemma WalkEndsExactly(s: Store, c: Company, p: Id, self: Id)
    requires p in s
    ensures MeetsSeen(s, c, p, {self}) <==> forall n: nat :: Height(s, c, p, n) > 0 ==> self in Ancestors(s, c, p, n)
  {
    if !MeetsSeen(s, c, p, {self}) {
      var n := UnmetWalkEnds(s, c, p, {self});
    } else if n: nat :| Height(s, c, p, n) > 0 && self !in Ancestors(s, c, p, n) {
      EndingWalkMeetsNobody(s, c, p, {self}, n);
    }
  }

  // ----- What is stored

  /** An accepted party is stored with its company, its kind and the parent that
      was accepted; a refused one is not, and no other row changes. */
  lemma CreatedExactly(s: Store, id: Id, c: Company, kind: Kind, parent: Option<Id>, k: Id)
    requires id !in s
    ensures var (after, r) := Created(s, id, c, kind, parent);
            && r == Validate(s, c, kind, parent, None)
            && (id in after <==> r.Ok?) && (r.Ok? ==> r.value == parent && after[id] == Party(c, kind, parent))
            && (k != id ==> (k in after <==> k in s) && (k in s ==> after[k] == s[k]))
  {
  }

  /** A move changes the parent of its row, if it is accepted or no move at all,
      and nothing else. */
  lemma ReparentedExactly(s: Store, id: Id, parent: Option<Id>, k: Id)
    requires id in s
    ensures var (after, r) := Reparented(s, id, parent);
            && (r.Ok? <==> parent == s[id].parent || Validate(s, s[id].company, s[id].kind, parent, Some(id)).Ok?)
            && (parent != s[id].parent ==> r == Validate(s, s[id].company, s[id].kind, parent, Some(id)))
            && after.Keys == s.Keys
            && after[id].company == s[id].company && after[id].kind == s[id].kind
            && after[id].parent == (if r.Ok? then parent else s[id].parent)
            && (k in s && k != id ==> after[k] == s[k])
  {
  }
}
