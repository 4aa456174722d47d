/** A company's bank accounts: one default, one row for an IBAN
    (apps/api/routers/companies.py, apps/api/services/company_service.py). */
module BankAccounts {
  import opened Iban
  import opened Wrappers

  type Id = nat

  type Company = nat

  datatype Details = Details(title: Option<string>, bic: Option<string>, bankName: Option<string>)

  datatype Account = Account(company: Company, iban: string, details: Details, isDefault: bool)

  type Rows = map<Id, Account>

  datatype CreateBody = CreateBody(iban: string, details: Details, isDefault: bool)

  /** A field of a PATCH: left out, or sent, possibly as null. */
  datatype Patch<+T> = Unset | Set(value: T)

  datatype UpdateBody = UpdateBody(
    iban: Patch<Option<string>>, title: Patch<Option<string>>, bic: Patch<Option<string>>,
    bankName: Patch<Option<string>>, isDefault: Patch<Option<bool>>)

  datatype Refusal = BadIban | NotFound | DuplicateIban | KeepsOneDefault | NullIban | DefaultWithOthers

  datatype Reply = Done | Refused(why: Refusal)

  const MAX_IBAN_LENGTH := 64

  // ----- Lookups

  predicate OwnedBy(rows: Rows, c: Company, id: Id) {
    id in rows && rows[id].company == c
  }

  /** Whether an account other than `except` already has this IBAN. */
  predicate HasIban(rows: Rows, c: Company, iban: string, except: Option<Id>) {
    exists id :: id in rows && rows[id].company == c && rows[id].iban == Normalise(iban) && except != Some(id)
  }

  /** Whether the company has an account other than `except`. */
  predicate HasOther(rows: Rows, c: Company, except: Option<Id>) {
    exists id :: id in rows && rows[id].company == c && except != Some(id)
  }

  /** What the request schema lets through: a valid IBAN, normalised. */
  function CheckedIban(lengths: map<string, nat>, value: string): Option<string> {
    if |value| > MAX_IBAN_LENGTH || Validate(lengths, value).Err? then None
    else Some(Validate(lengths, value).value)
  }

  // ----- On the rows

  /** One UPDATE over the other default rows of the company. */
  function Demoted(rows: Rows, c: Company, id: Id): Rows {
    map k | k in rows ::
      if rows[k].company == c && k != id && rows[k].isDefault then rows[k].(isDefault := false) else rows[k]
  }

  function WithDefault(rows: Rows, c: Company, id: Id, isDefault: bool): Rows
    requires id in rows
  {
    if !isDefault then rows else Demoted(rows, c, id)[id := rows[id].(isDefault := true)]
  }

  function CreateIn(rows: Rows, lengths: map<string, nat>, c: Company, id: Id, body: CreateBody): (Rows, Reply) {
    match CheckedIban(lengths, body.iban)
    case None => (rows, Refused(BadIban))
    case Some(v) =>
      if HasIban(rows, c, Normalise(v), None) then (rows, Refused(DuplicateIban))
      else
        (WithDefault(rows[id := Account(c, Normalise(v), body.details, false)], c, id,
                     body.isDefault || !HasOther(rows, c, None)), Done)
  }

  function Patched<T>(p: Patch<T>, current: T): T {
    if p.Set? then p.value else current
  }

  function Edited(a: Account, iban: Option<string>, body: UpdateBody): Account {
    var d := a.details;
    a.(iban := if iban.Some? then iban.value else a.iban,
       details := Details(Patched(body.title, d.title), Patched(body.bic, d.bic), Patched(body.bankName, d.bankName)))
  }

  function UpdateIn(rows: Rows, lengths: map<string, nat>, c: Company, id: Id, body: UpdateBody): (Rows, Reply) {
    var sent := body.iban.Set? && body.iban.value.Some?;
    var checked := if sent then CheckedIban(lengths, body.iban.value.value) else None;
    var iban := if checked.Some? then Some(Normalise(checked.value)) else None;
    if sent && checked.None? then (rows, Refused(BadIban))
    else if !OwnedBy(rows, c, id) then (rows, Refused(NotFound))
    else if iban.Some? && HasIban(rows, c, iban.value, Some(id)) then (rows, Refused(DuplicateIban))
    else if body.isDefault == Set(Some(false)) && rows[id].isDefault then (rows, Refused(KeepsOneDefault))
    else if body.iban == Set(None) then (rows, Refused(NullIban))
    else
      (WithDefault(rows[id := Edited(rows[id], iban, body)], c, id, body.isDefault == Set(Some(true))), Done)
  }

  function DeleteIn(rows: Rows, c: Company, id: Id): (Rows, Reply) {
    if !OwnedBy(rows, c, id) then (rows, Refused(NotFound))
    else if rows[id].isDefault && HasOther(rows, c, Some(id)) then (rows, Refused(DefaultWithOthers))
    else (rows - {id}, Done)
  }

  /** The table. A refused request leaves by an exception, and what it had
      written is rolled back. */
  class AccountTable {
    var rows: Rows
    const lengths: map<string, nat>

    constructor (lengths: map<string, nat>)
      ensures rows == map[] && this.lengths == lengths
    {
      rows := map[];
      this.lengths := lengths;
    }

    method SetDefaultBankAccount(c: Company, id: Id, isDefault: bool)
      requires id in rows
      modifies this
      ensures rows == WithDefault(old(rows), c, id, isDefault)
    {
      if !isDefault {
        return;
      }
      rows := Demoted(rows, c, id);
      rows := rows[id := rows[id].(isDefault := true)];
    }

    method CreateBankAccount(c: Company, id: Id, body: CreateBody) returns (reply: Reply)
      requires id !in rows
      modifies this
      ensures (rows, reply) == CreateIn(old(rows), lengths, c, id, body)
    {
      var checked := CheckedIban(lengths, body.iban);
      if checked.None? {
        return Refused(BadIban);
      }
      var iban := Normalise(checked.value);
      if HasIban(rows, c, iban, None) {
        return Refused(DuplicateIban);
      }
      var existing := HasOther(rows, c, None);
      rows := rows[id := Account(c, iban, body.details, false)];
      SetDefaultBankAccount(c, id, body.isDefault || !existing);
      return Done;
    }

    method UpdateBankAccount(c: Company, id: Id, body: UpdateBody) returns (reply: Reply)
      modifies this
      ensures (rows, reply) == UpdateIn(old(rows), lengths, c, id, body)
    {
      var iban: Option<string> := None;
      if body.iban.Set? && body.iban.value.Some? {
        var checked := CheckedIban(lengths, body.iban.value.value);
        if checked.None? {
          return Refused(BadIban);
        }
        iban := Some(Normalise(checked.value));
      }
      if !OwnedBy(rows, c, id) {
        return Refused(NotFound);
      }
      if iban.Some? && HasIban(rows, c, iban.value, Some(id)) {
        return Refused(DuplicateIban);
      }
      if body.isDefault == Set(Some(false)) && rows[id].isDefault {
        return Refused(KeepsOneDefault);
      }
      if body.iban == Set(None) {
        return Refused(NullIban);
      }
      rows := rows[id := Edited(rows[id], iban, body)];
      if body.isDefault == Set(Some(true)) {
        SetDefaultBankAccount(c, id, true);
      }
      return Done;
    }

    method DeleteBankAccount(c: Company, id: Id) returns (reply: Reply)
      modifies this
      ensures (rows, reply) == DeleteIn(old(rows), c, id)
    {
      if !OwnedBy(rows, c, id) {
        return Refused(NotFound);
      }
      if rows[id].isDefault && HasOther(rows, c, Some(id)) {
        return Refused(DefaultWithOthers);
      }
      rows := rows - {id};
      return Done;
    }
  }

  // ----- What an accepted request changes

  /** What a change of default may do to a row that is not its target. */
  predicate AtMostDemoted(rows: Rows, after: Rows, k: Id, demoted: bool) {
    && k in rows && k in after
    && after[k] == if demoted then rows[k].(isDefault := false) else rows[k]
  }

  lemma WithDefaultIsExact(rows: Rows, c: Company, id: Id, account: Account, put: Rows, takes: bool, k: Id)
    requires put == rows[id := account] && account.company == c
    ensures WithDefault(put, c, id, takes).Keys == rows.Keys + {id}
    ensures WithDefault(put, c, id, takes)[id] == account.(isDefault := account.isDefault || takes)
    ensures k in rows && k != id ==>
              AtMostDemoted(rows, WithDefault(put, c, id, takes), k, takes && rows[k].company == c)
  {
  }

  /** What the schema accepts is stored in its normal form. */
  lemma CheckedIsNormal(lengths: map<string, nat>, value: string, checked: Option<string>)
    requires checked == CheckedIban(lengths, value)
    ensures checked.Some? <==> |value| <= MAX_IBAN_LENGTH && Validate(lengths, value).Ok?
    ensures checked.Some? ==> checked.value == Normalise(value) && Normalise(checked.value) == checked.value
  {
    NormaliseIdempotent(value);
  }

  /** A create is accepted exactly for a valid IBAN the company does not hold. */
  lemma CreateAcceptedExactly(rows: Rows, lengths: map<string, nat>, c: Company, id: Id, body: CreateBody)
    ensures var (after, reply) := CreateIn(rows, lengths, c, id, body);
            && (reply.Done? <==>
              |body.iban| <= MAX_IBAN_LENGTH && Validate(lengths, body.iban).Ok? && !HasIban(rows, c, body.iban, None))
            && (!reply.Done? ==> after == rows)
  {
    CheckedIsNormal(lengths, body.iban, CheckedIban(lengths, body.iban));
  }

  /** It then stores what was sent, is the default if it asks to be or is the
      first, and touches another row only to demote it. */
  lemma CreateIsExact(rows: Rows, lengths: map<string, nat>, c: Company, id: Id, body: CreateBody, k: Id)
    requires id !in rows && CreateIn(rows, lengths, c, id, body).1.Done?
    ensures var after := CreateIn(rows, lengths, c, id, body).0;
            var takes := body.isDefault || !HasOther(rows, c, None);
            && after.Keys == rows.Keys + {id} && after[id] == Account(c, Normalise(body.iban), body.details, takes)
            && (k in rows ==> AtMostDemoted(rows, after, k, takes && rows[k].company == c))
  {
    CheckedIsNormal(lengths, body.iban, CheckedIban(lengths, body.iban));
    var account := Account(c, Normalise(body.iban), body.details, false);
    WithDefaultIsExact(rows, c, id, account, rows[id := account], body.isDefault || !HasOther(rows, c, None), k);
  }

  /** The row an accepted edit leaves: the fields sent, and the rest as it was. */
  predicate EditedAsSent(was: Account, now: Account, body: UpdateBody) {
    && now.company == was.company
    && now.iban == (if body.iban.Set? && body.iban.value.Some? then Normalise(body.iban.value.value) else was.iban)
    && now.details.title == (if body.title.Set? then body.title.value else was.details.title)
    && now.details.bic == (if body.bic.Set? then body.bic.value else was.details.bic)
    && now.details.bankName == (if body.bankName.Set? then body.bankName.value else was.details.bankName)
    && now.isDefault == (was.isDefault || body.isDefault == Set(Some(true)))
  }

  /** An accepted edit stores exactly the fields sent, keeps the rest, and
      touches another row only to demote it when this one is promoted. A refused
      one changes nothing. */
  lemma UpdateIsExact(rows: Rows, lengths: map<string, nat>, c: Company, id: Id, body: UpdateBody, k: Id)
    ensures var (after, reply) := UpdateIn(rows, lengths, c, id, body);
            && (reply.Done? ==>
                  && OwnedBy(rows, c, id) && after.Keys == rows.Keys && EditedAsSent(rows[id], after[id], body)
                  && (k in rows && k != id ==>
                        AtMostDemoted(rows, after, k, body.isDefault == Set(Some(true)) && rows[k].company == c)))
            && (!reply.Done? ==> after == rows)
  {
    if UpdateIn(rows, lengths, c, id, body).1.Done? {
      var iban: Option<string> := None;
      if body.iban.Set? {
        iban := CheckedIban(lengths, body.iban.value.value);
        CheckedIsNormal(lengths, body.iban.value.value, iban);
      }
      var account := Edited(rows[id], iban, body);
      WithDefaultIsExact(rows, c, id, account, rows[id := account], body.isDefault == Set(Some(true)), k);
    }
  }

  /** Another account of the company, not `except`, that holds this very IBAN. */
  predicate Holder(rows: Rows, c: Company, iban: string, except: Option<Id>, k: Id) {
    k in rows && rows[k].company == c && rows[k].iban == iban && except != Some(k)
  }

  /** A text the schema lets through: short enough, and a valid IBAN. */
  predicate GoodText(lengths: map<string, nat>, value: string) {
    |value| <= 64 && Validate(lengths, value).Ok?
  }

  lemma HeldExactly(rows: Rows, lengths: map<string, nat>, c: Company, value: string, except: Option<Id>, iban: string)
    requires iban == Normalise(value)
    ensures HasIban(rows, c, iban, except) <==> exists k :: Holder(rows, c, iban, except, k)
    ensures CheckedIban(lengths, value) == if GoodText(lengths, value) then Some(iban) else None
  {
    NormaliseIdempotent(value);
    CheckedIsNormal(lengths, value, CheckedIban(lengths, value));
    if HasIban(rows, c, iban, except) {
      var k :| k in rows && rows[k].company == c && rows[k].iban == Normalise(iban) && except != Some(k);
      assert Holder(rows, c, iban, except, k);
    }
  }

  /** Why a create is refused. */
  lemma CreateRefusedExactly(rows: Rows, lengths: map<string, nat>, c: Company, id: Id, body: CreateBody)
    ensures var reply := CreateIn(rows, lengths, c, id, body).1;
            && (reply == Refused(BadIban) <==> !GoodText(lengths, body.iban))
            && (reply == Refused(DuplicateIban) <==>
                  GoodText(lengths, body.iban) && exists k :: Holder(rows, c, Normalise(body.iban), None, k))
  {
    HeldExactly(rows, lengths, c, body.iban, None, Normalise(body.iban));
    NormaliseIdempotent(body.iban);
  }

  /** An edit, exactly: it is accepted if and only if the account is the
      company's, a sent IBAN is valid and held by no other account (its own it
      may keep), no null is sent for it, and the default is not asked to step
      down; the first of these that fails is the refusal. */
  lemma UpdateAcceptedExactly(rows: Rows, lengths: map<string, nat>, c: Company, id: Id, body: UpdateBody)
    ensures var reply := UpdateIn(rows, lengths, c, id, body).1;
            var sent := body.iban.Set? && body.iban.value.Some?;
            var fine := sent ==> GoodText(lengths, body.iban.value.value);
            var free := sent ==> forall k :: !Holder(rows, c, Normalise(body.iban.value.value), Some(id), k);
            var owned := id in rows && rows[id].company == c;
            var stepsDown := body.isDefault == Set(Some(false)) && owned && rows[id].isDefault;
            && (reply == Refused(BadIban) <==> !fine)
            && (reply == Refused(NotFound) <==> fine && !owned)
            && (reply == Refused(DuplicateIban) <==> fine && owned && !free)
            && (reply == Refused(KeepsOneDefault) <==> fine && owned && free && stepsDown)
            && (reply == Refused(NullIban) <==> owned && !stepsDown && body.iban == Set(None))
            && (reply == Done <==> fine && owned && free && !stepsDown && body.iban != Set(None))
  {
    if body.iban.Set? && body.iban.value.Some? {
      var value := body.iban.value.value;
      HeldExactly(rows, lengths, c, value, Some(id), Normalise(value));
      NormaliseIdempotent(value);
    }
  }

  /** A deletion, exactly. */
  lemma DeleteExactly(rows: Rows, c: Company, id: Id, k: Id)
    ensures var (after, reply) := DeleteIn(rows, c, id);
            var owned := id in rows && rows[id].company == c;
            var others := exists o :: o in rows && rows[o].company == c && o != id;
            && (reply == Refused(NotFound) <==> !owned)
            && (reply == Refused(DefaultWithOthers) <==> owned && rows[id].isDefault && others)
            && (reply == Done <==> owned && !(rows[id].isDefault && others))
            && (k in after <==> k in rows && !(reply == Done && k == id)) && (k in after ==> after[k] == rows[k])
  {
    if o :| o in rows && rows[o].company == c && o != id { assert Some(id) != Some(o); }
  }

  // ----- Over every run

  predicate DefaultOf(rows: Rows, c: Company, id: Id) {
    OwnedBy(rows, c, id) && rows[id].isDefault
  }

  /** No account at all, or exactly one default. */
  ghost predicate OneDefault(rows: Rows, c: Company) {
    && (forall a :: OwnedBy(rows, c, a) ==> exists d :: DefaultOf(rows, c, d))
    && (forall d, e :: DefaultOf(rows, c, d) && DefaultOf(rows, c, e) ==> d == e)
  }

  /** Stored IBANs are valid as they stand, and no two of a company are equal. */
  ghost predicate GoodIbans(rows: Rows, lengths: map<string, nat>, c: Company) {
    && (forall a :: OwnedBy(rows, c, a) ==> Validate(lengths, rows[a].iban) == Ok(rows[a].iban))
    && (forall a, b :: OwnedBy(rows, c, a) && OwnedBy(rows, c, b) && rows[a].iban == rows[b].iban ==> a == b)
  }

  ghost predicate Good(rows: Rows, lengths: map<string, nat>, c: Company) {
    OneDefault(rows, c) && GoodIbans(rows, lengths, c)
  }

  datatype Op =
    | Create(company: Company, id: Id, create: CreateBody)
    | Update(company: Company, id: Id, update: UpdateBody)
    | Delete(company: Company, id: Id)

  /** A create comes with a fresh id. */
  function Step(rows: Rows, lengths: map<string, nat>, op: Op): (Rows, Reply) {
    match op
    case Create(c, id, body) => if id in rows then (rows, Done) else CreateIn(rows, lengths, c, id, body)
    case Update(c, id, body) => UpdateIn(rows, lengths, c, id, body)
    case Delete(c, id) => DeleteIn(rows, c, id)
  }

  function Run(rows: Rows, lengths: map<string, nat>, ops: seq<Op>): Rows
    decreases |ops|
  {
    if ops == [] then rows else Run(Step(rows, lengths, ops[0]).0, lengths, ops[1..])
  }

  lemma CheckedIsValid(lengths: map<string, nat>, value: string)
    requires CheckedIban(lengths, value).Some?
    ensures var v := CheckedIban(lengths, value).value;
            Normalise(v) == v && Validate(lengths, v) == Ok(v)
  {
    NormaliseIdempotent(value);
  }

  lemma DemotionLeavesOne(rows: Rows, c: Company, id: Id)
    requires OwnedBy(rows, c, id)
    ensures OneDefault(WithDefault(rows, c, id, true), c)
  {
    var after := WithDefault(rows, c, id, true);
    assert DefaultOf(after, c, id);
    forall d | DefaultOf(after, c, d) ensures d == id {
    }
  }

  lemma CreateKeepsGood(rows: Rows, lengths: map<string, nat>, c: Company, id: Id, body: CreateBody)
    requires id !in rows && Good(rows, lengths, c)
    ensures Good(CreateIn(rows, lengths, c, id, body).0, lengths, c)
  {
    if CreateIn(rows, lengths, c, id, body).1.Done? {
      CheckedIsValid(lengths, body.iban);
      var account := Account(c, CheckedIban(lengths, body.iban).value, body.details, false);
      InsertKeepsGood(rows, lengths, c, id, account, rows[id := account], body.isDefault);
    }
  }

  lemma InsertKeepsGood(rows: Rows, lengths: map<string, nat>, c: Company, id: Id, account: Account, added: Rows,
                        wanted: bool)
    requires id !in rows && Good(rows, lengths, c) && added == rows[id := account]
    requires account.company == c && !account.isDefault
    requires Validate(lengths, account.iban) == Ok(account.iban) && Normalise(account.iban) == account.iban
    requires !HasIban(rows, c, account.iban, None)
    ensures Good(WithDefault(added, c, id, wanted || !HasOther(rows, c, None)), lengths, c)
  {
    AddedIsGood(rows, lengths, c, id, added);
    if wanted || !HasOther(rows, c, None) {
      DemotionLeavesOne(added, c, id);
      DemotionKeepsIbans(added, lengths, c, id);
    } else {
      InsertKeepsDefault(rows, c, id, account, added);
    }
  }

  lemma InsertKeepsDefault(rows: Rows, c: Company, id: Id, account: Account, added: Rows)
    requires id !in rows && OneDefault(rows, c) && added == rows[id := account] && !account.isDefault
    requires HasOther(rows, c, None)
    ensures OneDefault(added, c)
  {
    forall d ensures DefaultOf(added, c, d) <==> DefaultOf(rows, c, d) {
    }
    var a :| a in rows && rows[a].company == c;
    assert OwnedBy(rows, c, a);
    var d :| DefaultOf(rows, c, d);
    assert DefaultOf(added, c, d);
  }

  lemma AddedIsGood(rows: Rows, lengths: map<string, nat>, c: Company, id: Id, added: Rows)
    requires GoodIbans(rows, lengths, c) && OwnedBy(added, c, id) && added == rows[id := added[id]]
    requires Validate(lengths, added[id].iban) == Ok(added[id].iban)
    requires !HasIban(rows, c, added[id].iban, None)
    requires Normalise(added[id].iban) == added[id].iban
    ensures GoodIbans(added, lengths, c)
  {
    forall a | OwnedBy(added, c, a) && a != id
      ensures OwnedBy(rows, c, a) && rows[a] == added[a] && added[a].iban != added[id].iban
    {
    }
  }

  lemma DemotionKeepsIbans(rows: Rows, lengths: map<string, nat>, c: Company, id: Id)
    requires OwnedBy(rows, c, id) && GoodIbans(rows, lengths, c)
    ensures GoodIbans(WithDefault(rows, c, id, true), lengths, c)
  {
    var after := WithDefault(rows, c, id, true);
    forall a | OwnedBy(after, c, a) ensures OwnedBy(rows, c, a) && after[a].iban == rows[a].iban {
    }
  }

  lemma UpdateKeepsGood(rows: Rows, lengths: map<string, nat>, c: Company, id: Id, body: UpdateBody)
    requires Good(rows, lengths, c)
    ensures Good(UpdateIn(rows, lengths, c, id, body).0, lengths, c)
  {
    if UpdateIn(rows, lengths, c, id, body).1.Done? {
      var iban: Option<string> := None;
      if body.iban.Set? {
        CheckedIsValid(lengths, body.iban.value.value);
        iban := CheckedIban(lengths, body.iban.value.value);
      }
      var account := Edited(rows[id], iban, body);
      ReplaceKeepsGood(rows, lengths, c, id, account, rows[id := account], body.isDefault == Set(Some(true)));
    }
  }

  lemma ReplaceKeepsGood(rows: Rows, lengths: map<string, nat>, c: Company, id: Id, account: Account, edited: Rows,
                         wanted: bool)
    requires Good(rows, lengths, c) && OwnedBy(rows, c, id) && edited == rows[id := account]
    requires account.company == c && account.isDefault == rows[id].isDefault
    requires account.iban == rows[id].iban ||
             (&& Validate(lengths, account.iban) == Ok(account.iban) && Normalise(account.iban) == account.iban
              && !HasIban(rows, c, account.iban, Some(id)))
    ensures Good(WithDefault(edited, c, id, wanted), lengths, c)
  {
    EditedIsGood(rows, lengths, c, id, edited);
    if wanted {
      DemotionLeavesOne(edited, c, id);
      DemotionKeepsIbans(edited, lengths, c, id);
    } else {
      SameDefaults(rows, edited, c);
    }
  }

  lemma EditedIsGood(rows: Rows, lengths: map<string, nat>, c: Company, id: Id, edited: Rows)
    requires GoodIbans(rows, lengths, c) && OwnedBy(rows, c, id) && OwnedBy(edited, c, id)
               && edited == rows[id := edited[id]]
    requires edited[id].iban == rows[id].iban ||
             (&& Validate(lengths, edited[id].iban) == Ok(edited[id].iban)
              && Normalise(edited[id].iban) == edited[id].iban
              && !HasIban(rows, c, edited[id].iban, Some(id)))
    ensures GoodIbans(edited, lengths, c)
  {
    forall a | OwnedBy(edited, c, a) && a != id
      ensures OwnedBy(rows, c, a) && rows[a] == edited[a] && edited[a].iban != edited[id].iban
    {
    }
  }

  lemma SameDefaults(rows: Rows, after: Rows, c: Company)
    requires OneDefault(rows, c)
    requires forall a :: OwnedBy(after, c, a) <==> OwnedBy(rows, c, a)
    requires forall d :: DefaultOf(after, c, d) <==> DefaultOf(rows, c, d)
    ensures OneDefault(after, c)
  {
    forall a | OwnedBy(after, c, a) ensures exists d :: DefaultOf(after, c, d) {
      var d :| DefaultOf(rows, c, d);
      assert DefaultOf(after, c, d);
    }
  }

  lemma DeleteKeepsGood(rows: Rows, lengths: map<string, nat>, c: Company, id: Id)
    requires Good(rows, lengths, c)
    ensures Good(DeleteIn(rows, c, id).0, lengths, c)
  {
    if DeleteIn(rows, c, id).1.Done? {
      RemovalKeepsDefault(rows, c, id, rows - {id});
      RemovalKeepsIbans(rows, lengths, c, id, rows - {id});
    }
  }

  lemma RemovalKeepsDefault(rows: Rows, c: Company, id: Id, after: Rows)
    requires OneDefault(rows, c) && OwnedBy(rows, c, id) && after == rows - {id}
    requires rows[id].isDefault ==> !HasOther(rows, c, Some(id))
    ensures OneDefault(after, c)
  {
    forall a ensures DefaultOf(after, c, a) <==> DefaultOf(rows, c, a) && a != id {
    }
    forall a | OwnedBy(after, c, a) ensures exists d :: DefaultOf(after, c, d) {
      assert OwnedBy(rows, c, a) && !rows[id].isDefault;
      var d :| DefaultOf(rows, c, d);
      assert DefaultOf(after, c, d);
    }
  }

  lemma RemovalKeepsIbans(rows: Rows, lengths: map<string, nat>, c: Company, id: Id, after: Rows)
    requires GoodIbans(rows, lengths, c) && after == rows - {id}
    ensures GoodIbans(after, lengths, c)
  {
    forall a | OwnedBy(after, c, a) ensures OwnedBy(rows, c, a) && after[a] == rows[a] {
    }
  }

  lemma CreateStaysInside(rows: Rows, lengths: map<string, nat>, own: Company, k: Id, body: CreateBody, c: Company,
                          id: Id)
    requires c != own && k !in rows
    ensures OwnedBy(CreateIn(rows, lengths, own, k, body).0, c, id) <==> OwnedBy(rows, c, id)
    ensures OwnedBy(rows, c, id) ==> CreateIn(rows, lengths, own, k, body).0[id] == rows[id]
  {
  }

  lemma UpdateStaysInside(rows: Rows, lengths: map<string, nat>, own: Company, k: Id, body: UpdateBody, c: Company,
                          id: Id)
    requires c != own
    ensures OwnedBy(UpdateIn(rows, lengths, own, k, body).0, c, id) <==> OwnedBy(rows, c, id)
    ensures OwnedBy(rows, c, id) ==> UpdateIn(rows, lengths, own, k, body).0[id] == rows[id]
  {
  }

  /** A request for one company changes no row of another. */
  lemma OthersUntouched(rows: Rows, lengths: map<string, nat>, op: Op, c: Company, id: Id)
    requires c != op.company
    ensures OwnedBy(Step(rows, lengths, op).0, c, id) <==> OwnedBy(rows, c, id)
    ensures OwnedBy(rows, c, id) ==> Step(rows, lengths, op).0[id] == rows[id]
  {
    match op
    case Create(_, k, body) => if k !in rows { CreateStaysInside(rows, lengths, op.company, k, body, c, id); }
    case Update(_, k, body) => UpdateStaysInside(rows, lengths, op.company, k, body, c, id);
    case Delete(_, k) =>
  }

  lemma StepKeepsGood(rows: Rows, lengths: map<string, nat>, op: Op, c: Company)
    requires Good(rows, lengths, c)
    ensures Good(Step(rows, lengths, op).0, lengths, c)
  {
    if op.company != c {
      var after := Step(rows, lengths, op).0;
      forall id
        ensures OwnedBy(after, c, id) <==> OwnedBy(rows, c, id)
        ensures OwnedBy(rows, c, id) ==> after[id] == rows[id]
      {
        OthersUntouched(rows, lengths, op, c, id);
      }
      assert forall d :: DefaultOf(after, c, d) <==> DefaultOf(rows, c, d);
      SameDefaults(rows, after, c);
    } else {
      match op
      case Create(_, id, body) => if id !in rows { CreateKeepsGood(rows, lengths, c, id, body); }
      case Update(_, id, body) => UpdateKeepsGood(rows, lengths, c, id, body);
      case Delete(_, id) => DeleteKeepsGood(rows, lengths, c, id);
    }
  }

  /** Over every run of requests to any companies, each company has no account
      or exactly one default, and its stored IBANs are valid, normalised and
      pairwise distinct. */
  lemma {:induction false} RunKeepsGood(rows: Rows, lengths: map<string, nat>, ops: seq<Op>, c: Company)
    requires Good(rows, lengths, c)
    ensures Good(Run(rows, lengths, ops), lengths, c)
    decreases |ops|
  {
    if ops != [] {
      StepKeepsGood(rows, lengths, ops[0], c);
      RunKeepsGood(Step(rows, lengths, ops[0]).0, lengths, ops[1..], c);
    }
  }

  lemma EveryRunIsGood(lengths: map<string, nat>, ops: seq<Op>, c: Company)
    ensures Good(Run(map[], lengths, ops), lengths, c)
  {
    RunKeepsGood(map[], lengths, ops, c);
  }
}
