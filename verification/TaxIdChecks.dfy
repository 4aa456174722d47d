/** Tax-identifier checks: the append-only history, what counts as an answer,
    change detection, the attention flag and the retry schedule
    (apps/api/services/tax_id_checks.py, apps/api/services/party_service.py). */
module TaxIdChecks {
  import opened Patterns
  import opened Wrappers

  datatype Status = Valid | Invalid | Unavailable | NotApplicable | NotConfigured | NotCheckable

  /** `COMPLETED_STATUSES`: what change detection and the schedule call an answer. */
  predicate Completed(s: Status) {
    s == Valid || s == Invalid || s == NotCheckable
  }

  /** What the verdict calls an answer: everything but the two failures. */
  predicate Answered(s: Status) {
    s != Unavailable && s != NotConfigured
  }

  datatype Provider = Registry | Manual

  datatype Kind = StatusChanged | NameChanged | NameMatchWorsened | RegistrationLost

  datatype Detail =
    | Statuses(before: Status, after: Status)
    | Texts(was: string, now: string)
    | Lost(fields: set<string>)

  type Changes = map<Kind, Detail>

  /** One row of `party_vat_checks`. `nameMatch` is the registry's own word. */
  datatype Check = Check(
    status: Status, provider: Provider, checkedAt: int,
    registeredName: Option<string>, nameMatch: Option<string>,
    registrationActive: Option<bool>, gstRegistered: Option<bool>,
    consultation: Option<string>, qualified: bool,
    changes: Changes)

  // ----- Change detection

  function Name(c: Check): string {
    if c.registeredName.Some? then Strip(c.registeredName.value) else ""
  }

  predicate LostFlag(before: Option<bool>, after: Option<bool>) {
    before == Some(true) && after == Some(false)
  }

  function LostFields(p: Check, c: Check): set<string> {
    (if LostFlag(p.registrationActive, c.registrationActive) then {"registration_active"} else {})
    + (if LostFlag(p.gstRegistered, c.gstRegistered) then {"gst_registered"} else {})
  }

  predicate Worsened(p: Check, c: Check) {
    c.nameMatch == Some("mismatch") && p.nameMatch != Some("mismatch") && p.nameMatch.Some?
  }

  predicate Renamed(p: Check, c: Check) {
    Name(p) != "" && Name(c) != "" && Name(p) != Name(c)
  }

  /** The diff of two completed checks; the first check is never a change. */
  function Detect(previous: Option<Check>, c: Check): Changes {
    if previous.None? then map[]
    else DetectAmong({StatusChanged, NameChanged, NameMatchWorsened, RegistrationLost}, previous.value, c)
  }

  function DetectAmong(kinds: set<Kind>, p: Check, c: Check): Changes {
    map k | k in kinds && Differs(k, p, c) :: DetailOf(k, p, c)
  }

  predicate Differs(k: Kind, p: Check, c: Check) {
    match k
    case StatusChanged => p.status != c.status
    case NameChanged => Renamed(p, c)
    case NameMatchWorsened => Worsened(p, c)
    case RegistrationLost => LostFields(p, c) != {}
  }

  function DetailOf(k: Kind, p: Check, c: Check): Detail {
    match k
    case StatusChanged => Statuses(p.status, c.status)
    case NameChanged => Texts(Name(p), Name(c))
    case NameMatchWorsened =>
      Texts(if p.nameMatch.Some? then p.nameMatch.value else "", if c.nameMatch.Some? then c.nameMatch.value else "")
    case RegistrationLost => Lost(LostFields(p, c))
  }

  lemma OneMoreKind(kinds: set<Kind>, k: Kind, p: Check, c: Check)
    ensures DetectAmong(kinds + {k}, p, c)
         == if Differs(k, p, c) then DetectAmong(kinds, p, c)[k := DetailOf(k, p, c)] else DetectAmong(kinds, p, c)
  {
  }

  /** `detect_changes`, filling its dictionary entry by entry. */
  method DetectChanges(previous: Option<Check>, current: Check) returns (changes: Changes)
    ensures changes == Detect(previous, current)
  {
    changes := map[];
    if previous.None? {
      return;
    }
    var p := previous.value;
    ghost var kinds: set<Kind> := {};
    OneMoreKind(kinds, StatusChanged, p, current);
    kinds := kinds + {StatusChanged};
    if p.status != current.status {
      changes := changes[StatusChanged := Statuses(p.status, current.status)];
    }
    OneMoreKind(kinds, NameChanged, p, current);
    kinds := kinds + {NameChanged};
    var beforeName, afterName := Name(p), Name(current);
    if beforeName != "" && afterName != "" && beforeName != afterName {
      changes := changes[NameChanged := Texts(beforeName, afterName)];
    }
    OneMoreKind(kinds, NameMatchWorsened, p, current);
    kinds := kinds + {NameMatchWorsened};
    if current.nameMatch == Some("mismatch") && p.nameMatch != Some("mismatch") && p.nameMatch.Some? {
      changes := changes[NameMatchWorsened := Texts(p.nameMatch.value, current.nameMatch.value)];
    }
    OneMoreKind(kinds, RegistrationLost, p, current);
    var lost: set<string> := {};
    if p.registrationActive == Some(true) && current.registrationActive == Some(false) {
      lost := lost + {"registration_active"};
      changes := changes[RegistrationLost := Lost(lost)];
    }
    if p.gstRegistered == Some(true) && current.gstRegistered == Some(false) {
      lost := lost + {"gst_registered"};
      changes := changes[RegistrationLost := Lost(lost)];
    }
    assert lost == LostFields(p, current);
    assert kinds + {RegistrationLost} == {StatusChanged, NameChanged, NameMatchWorsened, RegistrationLost};
  }

  /** Silence, said field by field: the same status, no name that turned into
      another, no name match that turned into a mismatch, and no registration
      that was active and is not. Improvements and first sightings are silent. */
  lemma SilentExactly(p: Check, c: Check)
    ensures Detect(Some(p), c) == map[] <==>
              && p.status == c.status
              && (Name(p) != "" && Name(c) != "" ==> Name(p) == Name(c))
              && (c.nameMatch == Some("mismatch") ==> p.nameMatch == None || p.nameMatch == Some("mismatch"))
              && (p.registrationActive == Some(true) ==> c.registrationActive != Some(false))
              && (p.gstRegistered == Some(true) ==> c.gstRegistered != Some(false))
  {
    var d := Detect(Some(p), c);
    assert d.Keys <= {StatusChanged, NameChanged, NameMatchWorsened, RegistrationLost};
    if StatusChanged !in d && NameChanged !in d && NameMatchWorsened !in d && RegistrationLost !in d {
      assert d.Keys == {};
    }
    LostExactly(p, c);
  }

  lemma LostExactly(p: Check, c: Check)
    ensures LostFields(p, c) == {} <==>
              && (p.registrationActive == Some(true) ==> c.registrationActive != Some(false))
              && (p.gstRegistered == Some(true) ==> c.gstRegistered != Some(false))
  {
    if LostFlag(p.registrationActive, c.registrationActive) {
      assert "registration_active" in LostFields(p, c);
    }
    if LostFlag(p.gstRegistered, c.gstRegistered) {
      assert "gst_registered" in LostFields(p, c);
    }
  }

  /** A name as the registry gave it, without the white space around it. */
  predicate Named(c: Check, name: string) {
    c.registeredName.Some? && c.registeredName.value != [] && Strip(c.registeredName.value) == name && name != []
  }

  /** What each kind of change reports: the two statuses, the two names, the two
      words for the match, each in the order before and after, and the fields
      that were true and are false. The first check reports nothing. */
  lemma DetectExactly(p: Check, c: Check)
    ensures var d := Detect(Some(p), c);
            && (StatusChanged in d <==> p.status != c.status)
            && (StatusChanged in d ==> d[StatusChanged] == Statuses(p.status, c.status))
            && (NameChanged in d <==> exists x, y :: Named(p, x) && Named(c, y) && x != y)
            && (NameChanged in d ==> exists x, y :: Named(p, x) && Named(c, y) && d[NameChanged] == Texts(x, y))
            && (NameMatchWorsened in d <==>
                  c.nameMatch == Some("mismatch") && exists w :: p.nameMatch == Some(w) && w != "mismatch")
            && (NameMatchWorsened in d ==> d[NameMatchWorsened] == Texts(p.nameMatch.value, "mismatch"))
            && (RegistrationLost in d <==>
                  || (p.registrationActive == Some(true) && c.registrationActive == Some(false))
                  || (p.gstRegistered == Some(true) && c.gstRegistered == Some(false)))
            && (RegistrationLost in d ==>
                  && d[RegistrationLost].Lost?
                  && forall f :: f in d[RegistrationLost].fields <==>
                       || (f == "registration_active"
                           && p.registrationActive == Some(true) && c.registrationActive == Some(false))
                       || (f == "gst_registered" && p.gstRegistered == Some(true) && c.gstRegistered == Some(false)))
    ensures Detect(None, c) == map[]
  {
    LostExactly(p, c);
    assert Name(p) != "" ==> Named(p, Name(p));
    assert Name(c) != "" ==> Named(c, Name(c));
  }

  // ----- The latest row that counts

  /** `ORDER BY checked_at DESC`, first row with an admitted status; among equal
      times the row inserted last. */
  function LatestWhere(history: seq<Check>, admits: Status -> bool): Option<Check> {
    if history == [] then None
    else
      var last := history[|history| - 1];
      var before := LatestWhere(history[..|history| - 1], admits);
      if admits(last.status) && (before.None? || last.checkedAt >= before.value.checkedAt) then Some(last) else before
  }

  function Keep(history: seq<Check>, admits: Status -> bool): seq<Check> {
    if history == [] then []
    else
      var last := history[|history| - 1];
      Keep(history[..|history| - 1], admits) + if admits(last.status) then [last] else []
  }

  lemma {:induction false} LatestIgnoresRest(history: seq<Check>, admits: Status -> bool, wider: Status -> bool)
    requires forall s :: admits(s) ==> wider(s)
    ensures LatestWhere(Keep(history, wider), admits) == LatestWhere(history, admits)
  {
    if history != [] {
      var init, last := history[..|history| - 1], history[|history| - 1];
      LatestIgnoresRest(init, admits, wider);
      if wider(last.status) {
        LatestAppended(Keep(init, wider), last, admits, Keep(history, wider));
      } else {
        assert Keep(history, wider) == Keep(init, wider);
      }
    }
  }

  lemma LatestAppended(init: seq<Check>, last: Check, admits: Status -> bool, all: seq<Check>)
    requires all == init + [last]
    ensures LatestWhere(all, admits) ==
              var before := LatestWhere(init, admits);
              if admits(last.status) && (before.None? || last.checkedAt >= before.value.checkedAt) then Some(last)
              else before
  {
    assert all[..|all| - 1] == init;
  }

  lemma {:induction false} LatestWhereIs(history: seq<Check>, admits: Status -> bool)
    ensures LatestWhere(history, admits).Some? <==> exists c :: c in history && admits(c.status)
    ensures LatestWhere(history, admits).Some? ==>
              var l := LatestWhere(history, admits).value;
              l in history && admits(l.status) &&
              forall c :: c in history && admits(c.status) ==> c.checkedAt <= l.checkedAt
  {
    if history != [] {
      LatestWhereIs(history[..|history| - 1], admits);
      assert forall c :: c in history <==> c in history[..|history| - 1] || c == history[|history| - 1];
    }
  }

  // ----- The verdict and its evidence

  datatype TaxIdKind = Vat | OtherKind

  const DAY := 24 * 3600 * 1_000_000

  /** `_check_is_stale`; an age of None or 0 lets a check count for ever. */
  predicate Stale(c: Check, maxAgeDays: Option<nat>, now: int) {
    maxAgeDays.Some? && maxAgeDays.value != 0 && c.checkedAt < now - maxAgeDays.value * DAY
  }

  /** `vat_is_verified`, for the party's primary identifier. */
  function Verified(history: seq<Check>, kind: TaxIdKind, maxAgeDays: Option<nat>, now: int): bool {
    var latest := LatestWhere(history, Answered);
    if latest.None? || latest.value.status != Valid then false
    else if latest.value.provider.Manual? && kind.Vat? then false
    else !Stale(latest.value, maxAgeDays, now)
  }

  /** `tax_id_evidence`: the check the verdict rests on. */
  function Evidence(history: seq<Check>, kind: TaxIdKind, maxAgeDays: Option<nat>, now: int): Option<Check> {
    var latest := LatestWhere(history, Answered);
    if latest.None? || latest.value.status != Valid then None
    else if latest.value.provider.Manual? && kind.Vat? then None
    else if Stale(latest.value, maxAgeDays, now) then None
    else latest
  }

  /** The flag and the evidence never disagree, and the evidence is a fresh,
      valid, non-manual answer that no later answer contradicts. */
  lemma EvidenceSupportsTheVerdict(history: seq<Check>, kind: TaxIdKind, maxAgeDays: Option<nat>, now: int)
    ensures Verified(history, kind, maxAgeDays, now) <==> Evidence(history, kind, maxAgeDays, now).Some?
    ensures Verified(history, kind, maxAgeDays, now) ==>
              var e := Evidence(history, kind, maxAgeDays, now).value;
              && e in history && e.status == Valid && !(e.provider.Manual? && kind.Vat?)
              && !Stale(e, maxAgeDays, now)
              && forall c :: c in history && Answered(c.status) ==> c.checkedAt <= e.checkedAt
  {
    LatestWhereIs(history, Answered);
  }

  /** An outage leaves no mark: without its rows the verdict and the evidence
      are the same; and time alone can only withdraw a verdict. */
  lemma OutageChangesNoVerdict(history: seq<Check>, kind: TaxIdKind, maxAgeDays: Option<nat>, now: int, later: int)
    ensures Verified(Keep(history, Answered), kind, maxAgeDays, now) == Verified(history, kind, maxAgeDays, now)
    ensures Evidence(Keep(history, Answered), kind, maxAgeDays, now) == Evidence(history, kind, maxAgeDays, now)
    ensures now <= later && Verified(history, kind, maxAgeDays, later) ==> Verified(history, kind, maxAgeDays, now)
  {
    LatestIgnoresRest(history, Answered, Answered);
  }

  /** Row `k` answers, and no answer was checked later or, at the same moment,
      stored after it. */
  predicate NewestAnswer(history: seq<Check>, k: nat)
    requires k < |history|
  {
    && !(history[k].status.Unavailable? || history[k].status.NotConfigured?)
    && forall j :: 0 <= j < |history| && !(history[j].status.Unavailable? || history[j].status.NotConfigured?) ==>
         && (j < k ==> history[j].checkedAt <= history[k].checkedAt)
         && (k < j ==> history[j].checkedAt < history[k].checkedAt)
  }

  lemma {:induction false} LatestIsNewest(history: seq<Check>) returns (k: nat)
    ensures LatestWhere(history, Answered).Some? ==>
              k < |history| && NewestAnswer(history, k) && LatestWhere(history, Answered).value == history[k]
    ensures LatestWhere(history, Answered).None? ==> forall j :: 0 <= j < |history| ==> !Answered(history[j].status)
  {
    k := 0;
    if history != [] {
      var n := |history| - 1;
      k := LatestIsNewest(history[..n]);
      if Answered(history[n].status)
         && (LatestWhere(history[..n], Answered).None? || history[n].checkedAt >= history[k].checkedAt) {
        k := n;
      }
    }
  }

  /** What a verdict asks of the newest answer: it is positive, for a VAT
      identifier it is not a manual one, and it is not older than the limit in
      days, where there is one and it is not 0. Times are microseconds. */
  predicate GrantsVerdict(c: Check, kind: TaxIdKind, maxAgeDays: Option<nat>, now: int) {
    && c.status == Valid && !(c.provider == Manual && kind == Vat)
    && (maxAgeDays == None || maxAgeDays == Some(0) || now - c.checkedAt <= maxAgeDays.value * 86_400_000_000)
  }

  /** A party is verified if and only if the newest answer on file grants it,
      and the evidence is that answer. */
  lemma VerifiedExactly(history: seq<Check>, kind: TaxIdKind, maxAgeDays: Option<nat>, now: int)
    ensures Verified(history, kind, maxAgeDays, now) <==>
              exists k: nat :: k < |history| && NewestAnswer(history, k)
                && GrantsVerdict(history[k], kind, maxAgeDays, now)
    ensures forall c :: Evidence(history, kind, maxAgeDays, now) == Some(c) <==>
              exists k: nat :: k < |history| && NewestAnswer(history, k) && history[k] == c
                && GrantsVerdict(c, kind, maxAgeDays, now)
  {
    var n := LatestIsNewest(history);
    if LatestWhere(history, Answered).Some? {
      forall k: nat | k < |history| && NewestAnswer(history, k) ensures k == n {
      }
      assert Stale(history[n], maxAgeDays, now) <==>
               !(maxAgeDays == None || maxAgeDays == Some(0)
                 || now - history[n].checkedAt <= maxAgeDays.value * 86_400_000_000);
    }
  }

  /** The two readings of "latest answer" agree exactly when the newest answer
      on file is not a `not_applicable` row: that status displaces a verdict but
      is skipped by change detection. */
  lemma TwoReadingsOfAnAnswer(history: seq<Check>)
    ensures LatestWhere(history, Answered) == LatestWhere(history, Completed) <==>
              forall k: nat :: k < |history| && NewestAnswer(history, k) ==> history[k].status != NotApplicable
  {
    LatestWhereIs(history, Completed);
    NotApplicableAside(history);
    var newest := LatestIsNewest(history);
    if LatestWhere(history, Answered).Some? {
      forall k: nat | k < |history| && NewestAnswer(history, k) ensures k == newest {
      }
    }
  }

  /** Such a row withdraws a verdict, while change detection still compares with
      the check before it: the next check like that one reports nothing. */
  lemma MigratedRowSplitsTheReadings(v: Check, n: Check, next: Check, maxAgeDays: Option<nat>, now: int)
    requires v.status == Valid && v.provider.Registry? && !Stale(v, maxAgeDays, now)
    requires n.status == NotApplicable && v.checkedAt <= n.checkedAt
    requires next == v.(checkedAt := next.checkedAt)
    ensures Verified([v], Vat, maxAgeDays, now) && !Verified([v, n], Vat, maxAgeDays, now)
    ensures ChangesOf([v, n], next) == map[]
  {
    OneRow(v, Answered);
    OneRow(v, Completed);
    LatestAppended([v], n, Answered, [v, n]);
    LatestAppended([v], n, Completed, [v, n]);
    SilentExactly(v, next);
  }

  lemma OneRow(v: Check, admits: Status -> bool)
    ensures LatestWhere([v], admits) == if admits(v.status) then Some(v) else None
  {
    assert [v][..0] == [];
  }

  lemma {:induction false} NotApplicableAside(history: seq<Check>)
    ensures LatestWhere(history, Answered).Some? && LatestWhere(history, Answered).value.status != NotApplicable ==>
              LatestWhere(history, Answered) == LatestWhere(history, Completed)
    ensures LatestWhere(history, Completed).Some? ==>
              LatestWhere(history, Answered).Some?
              && LatestWhere(history, Completed).value.checkedAt <= LatestWhere(history, Answered).value.checkedAt
  {
    if history != [] {
      NotApplicableAside(history[..|history| - 1]);
    }
  }

  // ----- Runs of checks and acknowledgements

  /** What a verification result may hold: `not_applicable` is not one of its
      statuses. Rows with that status can only have been stored before
      identifiers had a table of their own. */
  type CheckResult = c: Check | c.status != NotApplicable
    witness Check(Unavailable, Registry, 0, None, None, None, None, None, false, map[])

  datatype Event = Checked(row: CheckResult) | Acknowledged

  /** The history, the flag, and how long the history was when last acknowledged. */
  datatype Record = Record(history: seq<Check>, attention: bool, ackedAt: nat)

  const NEW_RECORD := Record([], false, 0)

  function ChangesOf(history: seq<Check>, row: Check): Changes {
    if Completed(row.status) then Detect(LatestWhere(history, Completed), row) else map[]
  }

  /** `record_check` and `acknowledge` on the history and the flag. */
  function Apply(r: Record, e: Event): Record {
    match e
    case Checked(row) =>
      var changes := ChangesOf(r.history, row);
      Record(r.history + [row.(changes := changes)], r.attention || changes != map[], r.ackedAt)
    case Acknowledged => Record(r.history, false, |r.history|)
  }

  function Run(events: seq<Event>): Record {
    if events == [] then NEW_RECORD else Apply(Run(events[..|events| - 1]), events[|events| - 1])
  }

  /** Row `k` is a completed check that differed from its completed predecessor. */
  predicate DifferedAt(history: seq<Check>, k: nat)
    requires k < |history|
  {
    Completed(history[k].status) && Detect(LatestWhere(history[..k], Completed), history[k]) != map[]
  }

  /** The flag is up exactly when some completed check since the last
      acknowledgement differed from the completed check before it. */
  lemma {:induction false} FlagMeansUnacknowledgedChange(events: seq<Event>)
    ensures var r := Run(events);
            && r.ackedAt <= |r.history|
            && (r.attention <==> exists k: nat :: r.ackedAt <= k < |r.history| && DifferedAt(r.history, k))
  {
    if events != [] {
      var e := events[|events| - 1];
      var before := Run(events[..|events| - 1]);
      FlagMeansUnacknowledgedChange(events[..|events| - 1]);
      var after := Run(events);
      if e.Checked? {
        var n := |before.history|;
        assert after.history[..n] == before.history;
        DetectIgnoresRecorded(LatestWhere(before.history, Completed), e.row, ChangesOf(before.history, e.row));
        assert DifferedAt(after.history, n) <==> ChangesOf(before.history, e.row) != map[];
        forall k: nat | k < n ensures DifferedAt(after.history, k) <==> DifferedAt(before.history, k) {
          assert after.history[..k] == before.history[..k];
        }
        if before.attention {
          var k: nat :| before.ackedAt <= k < n && DifferedAt(before.history, k);
          assert DifferedAt(after.history, k);
        }
      }
    }
  }

  lemma DetectIgnoresRecorded(p: Option<Check>, c: Check, changes: Changes)
    ensures Detect(p, c.(changes := changes)) == Detect(p, c)
  {
    if p.Some? {
      assert LostFields(p.value, c.(changes := changes)) == LostFields(p.value, c);
      assert forall k: Kind :: Differs(k, p.value, c.(changes := changes)) <==> Differs(k, p.value, c);
    }
  }

  lemma {:induction false} RecordedRowsAreResults(events: seq<Event>)
    ensures forall c :: c in Run(events).history ==> c.status != NotApplicable
  {
    if events != [] {
      RecordedRowsAreResults(events[..|events| - 1]);
    }
  }

  /** On what the program itself records the two readings never differ. */
  lemma ReadingsAgreeOnRecordedRuns(events: seq<Event>)
    ensures LatestWhere(Run(events).history, Answered) == LatestWhere(Run(events).history, Completed)
  {
    RecordedRowsAreResults(events);
    TwoReadingsOfAnAnswer(Run(events).history);
  }

  /** The checks of a run, as they came. */
  function ChecksOf(events: seq<Event>): seq<Check> {
    if events == [] then []
    else
      var last := events[|events| - 1];
      ChecksOf(events[..|events| - 1]) + if last.Checked? then [last.row] else []
  }

  /** The history is every check of the run, in order, untouched but for the
      changes recorded on it. */
  lemma {:induction false} HistoryIsTheChecks(events: seq<Event>)
    ensures |Run(events).history| == |ChecksOf(events)|
    ensures forall k :: 0 <= k < |ChecksOf(events)| ==>
              Run(events).history[k] == ChecksOf(events)[k].(changes := Run(events).history[k].changes)
  {
    if events != [] {
      HistoryIsTheChecks(events[..|events| - 1]);
    }
  }

  /** Every row records the changes from the last completed check before it; a
      failed attempt records none. */
  lemma {:induction false} RowsRecordTheirChanges(events: seq<Event>, k: nat)
    requires k < |Run(events).history|
    ensures var h := Run(events).history;
            h[k].changes == if Completed(h[k].status) then Detect(LatestWhere(h[..k], Completed), h[k]) else map[]
  {
    var before, e := Run(events[..|events| - 1]), events[|events| - 1];
    var h, n := Run(events).history, |before.history|;
    assert h[..n] == before.history;
    if k < n {
      RowsRecordTheirChanges(events[..|events| - 1], k);
      assert h[k] == before.history[k] && h[..k] == before.history[..k];
    } else {
      DetectIgnoresRecorded(LatestWhere(before.history, Completed), e.row, h[k].changes);
    }
  }

  predicate Counts(e: Event) {
    e.Checked? ==> Completed(e.row.status)
  }

  function WithoutFailures(events: seq<Event>): seq<Event> {
    if events == [] then []
    else
      var last := events[|events| - 1];
      WithoutFailures(events[..|events| - 1]) + if Counts(last) then [last] else []
  }

  /** Deleting every failed attempt from a run changes neither the flag nor any
      answer's row, including the change recorded on it. */
  lemma {:induction false} OutageLeavesNoTrace(events: seq<Event>)
    ensures Run(WithoutFailures(events)).attention == Run(events).attention
    ensures Run(WithoutFailures(events)).history == Keep(Run(events).history, Completed)
  {
    if events != [] {
      var init, e := events[..|events| - 1], events[|events| - 1];
      OutageLeavesNoTrace(init);
      var full, thin := Run(init), Run(WithoutFailures(init));
      LatestIgnoresRest(full.history, Completed, Completed);
      if Counts(e) {
        assert WithoutFailures(events)[..|WithoutFailures(events)| - 1] == WithoutFailures(init);
        assert Run(WithoutFailures(events)) == Apply(thin, e);
      } else {
        assert WithoutFailures(events) == WithoutFailures(init);
      }
      if e.Checked? {
        var row := e.row.(changes := ChangesOf(full.history, e.row));
        assert Run(events).history[..|full.history|] == full.history;
        assert Keep(full.history + [row], Completed)
                 == Keep(full.history, Completed) + if Completed(row.status) then [row] else [];
      }
    }
  }
}
