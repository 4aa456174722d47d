/** A key-value store with expiry, as far as the code pools and the rate limiter
    use it. Times are whole seconds; a key is gone from its expiry on. */
module RedisStore {
  import opened Wrappers

  datatype Value = Text(text: string) | Counter(count: nat)

  datatype Entry = Entry(value: Value, expires: Option<int>)

  type Db = map<string, Entry>

  predicate Alive(e: Entry, now: int) {
    e.expires.None? || now < e.expires.value
  }

  /** GET. */
  function Get(db: Db, key: string, now: int): Option<Value> {
    if key in db && Alive(db[key], now) then Some(db[key].value) else None
  }

  /** SETEX. */
  function SetEx(db: Db, key: string, ttl: nat, value: string, now: int): Db {
    db[key := Entry(Text(value), Some(now + ttl))]
  }

  /** DEL. */
  function Del(db: Db, key: string): Db {
    db - {key}
  }

  function CountOf(v: Option<Value>): nat {
    if v.Some? && v.value.Counter? then v.value.count else 0
  }

  /** INCR: a missing or expired key starts at 1 without an expiry. */
  function Incr(db: Db, key: string, now: int): Db {
    var current := Get(db, key, now);
    db[key := Entry(Counter(CountOf(current) + 1), if current.Some? then db[key].expires else None)]
  }

  /** EXPIRE, and EXPIRE NX, which leaves an existing expiry alone. */
  function Expire(db: Db, key: string, ttl: nat, now: int, onlyIfNone: bool): Db {
    if Get(db, key, now).None? || (onlyIfNone && db[key].expires.Some?) then db
    else db[key := db[key].(expires := Some(now + ttl))]
  }

  class Redis {
    var data: Db

    constructor ()
      ensures data == map[]
    {
      data := map[];
    }
  }
}

/** The five one-time-code pools (apps/api/services/redis_service.py). */
module CodePools {
  import opened Ascii
  import opened RedisStore
  import opened Wrappers

  datatype Pool = Magic | PasswordReset | BackupEmail | TwofaEmail | TwofaEnrol

  function CodePrefix(p: Pool): string {
    match p
    case Magic => "magic_code:"
    case PasswordReset => "password_reset_code:"
    case BackupEmail => "backup_email_code:"
    case TwofaEmail => "2fa_email_code:"
    case TwofaEnrol => "2fa_setup_code:"
  }

  function AttemptsPrefix(p: Pool): string {
    match p
    case Magic => "magic_code_attempts:"
    case PasswordReset => "password_reset_attempts:"
    case BackupEmail => "backup_email_attempts:"
    case TwofaEmail => "2fa_email_attempts:"
    case TwofaEnrol => "2fa_setup_attempts:"
  }

  function ExpirySeconds(p: Pool): nat {
    if p.BackupEmail? then 900 else 600
  }

  const MAX_ATTEMPTS := 5

  function CodeKey(p: Pool, email: string): string {
    CodePrefix(p) + Lower(email)
  }

  function AttemptsKey(p: Pool, email: string): string {
    AttemptsPrefix(p) + Lower(email)
  }

  datatype Verdict = TooMany | Missing | Wrong | Accepted

  // ----- On the store

  function StoreIn(db: Db, p: Pool, email: string, code: string, now: int): Db {
    Del(SetEx(db, CodeKey(p, email), ExpirySeconds(p), code, now), AttemptsKey(p, email))
  }

  function ClearIn(db: Db, p: Pool, email: string): Db {
    Del(Del(db, CodeKey(p, email)), AttemptsKey(p, email))
  }

  function VerifyIn(db: Db, p: Pool, email: string, guess: string, now: int): (Db, Verdict) {
    var stored := Get(db, CodeKey(p, email), now);
    if CountOf(Get(db, AttemptsKey(p, email), now)) >= MAX_ATTEMPTS then (db, TooMany)
    else if stored.None? || stored.value == Text("") then (db, Missing)
    else if stored.value != Text(guess) then
      (Expire(Incr(db, AttemptsKey(p, email), now), AttemptsKey(p, email), ExpirySeconds(p), now, false), Wrong)
    else (ClearIn(db, p, email), Accepted)
  }

  /** `store_magic_code` and its four siblings. */
  method StoreCode(r: Redis, p: Pool, email: string, code: string, now: int)
    modifies r
    ensures r.data == StoreIn(old(r.data), p, email, code, now)
  {
    r.data := SetEx(r.data, CodeKey(p, email), ExpirySeconds(p), code, now);
    r.data := Del(r.data, AttemptsKey(p, email));
  }

  /** `delete_magic_code`, `clear_backup_email_code`, `clear_2fa_setup_code`. */
  method ClearCode(r: Redis, p: Pool, email: string)
    modifies r
    ensures r.data == ClearIn(old(r.data), p, email)
  {
    r.data := Del(r.data, CodeKey(p, email));
    r.data := Del(r.data, AttemptsKey(p, email));
  }

  /** `verify_magic_code` and its four siblings. */
  method VerifyCode(r: Redis, p: Pool, email: string, guess: string, now: int) returns (verdict: Verdict)
    modifies r
    ensures (r.data, verdict) == VerifyIn(old(r.data), p, email, guess, now)
  {
    var attempts := Get(r.data, AttemptsKey(p, email), now);
    if CountOf(attempts) >= MAX_ATTEMPTS {
      return TooMany;
    }
    var stored := Get(r.data, CodeKey(p, email), now);
    if stored.None? || stored.value == Text("") {
      return Missing;
    }
    if stored.value != Text(guess) {
      r.data := Incr(r.data, AttemptsKey(p, email), now);
      r.data := Expire(r.data, AttemptsKey(p, email), ExpirySeconds(p), now, false);
      return Wrong;
    }
    ClearCode(r, p, email);
    return Accepted;
  }

  // ----- Pools and addresses do not touch each other

  /** The two keys of one address in one pool. */
  datatype Slot = Slot(code: Option<Entry>, attempts: Option<Entry>)

  function Row(db: Db, key: string): Option<Entry> {
    if key in db then Some(db[key]) else None
  }

  function SlotOf(db: Db, p: Pool, email: string): Slot {
    Slot(Row(db, CodeKey(p, email)), Row(db, AttemptsKey(p, email)))
  }

  datatype KeyName = CodeName(pool: Pool) | AttemptsName(pool: Pool)

  function Prefix(n: KeyName): string {
    match n
    case CodeName(p) => CodePrefix(p)
    case AttemptsName(p) => AttemptsPrefix(p)
  }

  predicate EndsAtColon(s: string) {
    |s| > 0 && s[|s| - 1] == ':' && forall i :: 0 <= i < |s| - 1 ==> s[i] != ':'
  }

  lemma CodePrefixEndsAtColon(p: Pool)
    ensures EndsAtColon(CodePrefix(p))
  {
  }

  lemma AttemptsPrefixEndsAtColon(p: Pool)
    ensures EndsAtColon(AttemptsPrefix(p))
  {
    if p.TwofaEmail? || p.TwofaEnrol? {
      SecondFactorPrefixEndsAtColon(p);
    } else {
      FirstFactorPrefixEndsAtColon(p);
    }
  }

  lemma SecondFactorPrefixEndsAtColon(p: Pool)
    requires p.TwofaEmail? || p.TwofaEnrol?
    ensures EndsAtColon(AttemptsPrefix(p))
  {
  }

  lemma FirstFactorPrefixEndsAtColon(p: Pool)
    requires !p.TwofaEmail? && !p.TwofaEnrol?
    ensures EndsAtColon(AttemptsPrefix(p))
  {
  }

  lemma OnePrefix(x: string, y: string, s: string)
    requires EndsAtColon(x) && EndsAtColon(y) && x <= s && y <= s
    ensures x == y
  {
    var k := if |x| <= |y| then |x| else |y|;
    assert x[k - 1] == s[k - 1] == y[k - 1];
    assert x == s[..k] == y;
  }

  /** Ten different prefixes: they differ in length, or at an early letter. */
  lemma PrefixesDiffer(m: KeyName, n: KeyName)
    requires Prefix(m) == Prefix(n)
    ensures m == n
  {
    assert |Prefix(m)| == |Prefix(n)|;
    assert Prefix(m)[0] == Prefix(n)[0];
    assert Prefix(m)[4] == Prefix(n)[4];
    if |Prefix(m)| > 11 {
      assert Prefix(m)[11] == Prefix(n)[11];
    }
  }

  /** Every prefix ends at its first colon, so no key of one kind is a key of
      another, whatever the address. */
  lemma KeysDiffer(m: KeyName, n: KeyName, a: string, b: string)
    requires Prefix(m) + a == Prefix(n) + b
    ensures m == n && a == b
  {
    if m.CodeName? { CodePrefixEndsAtColon(m.pool); } else { AttemptsPrefixEndsAtColon(m.pool); }
    if n.CodeName? { CodePrefixEndsAtColon(n.pool); } else { AttemptsPrefixEndsAtColon(n.pool); }
    var s := Prefix(m) + a;
    OnePrefix(Prefix(m), Prefix(n), s);
    assert a == s[|Prefix(m)|..] == b;
    PrefixesDiffer(m, n);
  }

  // ----- One slot

  function LiveValue(e: Option<Entry>, now: int): Option<Value> {
    if e.Some? && Alive(e.value, now) then Some(e.value.value) else None
  }

  function StoreSlot(p: Pool, code: string, now: int): Slot {
    Slot(Some(Entry(Text(code), Some(now + ExpirySeconds(p)))), None)
  }

  function VerifySlot(s: Slot, p: Pool, guess: string, now: int): (Slot, Verdict) {
    var stored := LiveValue(s.code, now);
    var failed := CountOf(LiveValue(s.attempts, now));
    if failed >= MAX_ATTEMPTS then (s, TooMany)
    else if stored.None? || stored.value == Text("") then (s, Missing)
    else if stored.value != Text(guess) then
      (s.(attempts := Some(Entry(Counter(failed + 1), Some(now + ExpirySeconds(p))))), Wrong)
    else (Slot(None, None), Accepted)
  }

  datatype Command =
    | Put(pool: Pool, email: string, code: string)
    | Guess(pool: Pool, email: string, guess: string)
    | Clear(pool: Pool, email: string)

  function Execute(db: Db, c: Command, now: int): Db {
    match c
    case Put(p, email, code) => StoreIn(db, p, email, code, now)
    case Guess(p, email, guess) => VerifyIn(db, p, email, guess, now).0
    case Clear(p, email) => ClearIn(db, p, email)
  }

  /** A command acts on its own pool and address as on that slot alone .. */
  lemma ActsOnOwnSlot(db: Db, p: Pool, email: string, code: string, now: int)
    ensures SlotOf(StoreIn(db, p, email, code, now), p, email) == StoreSlot(p, code, now)
    ensures SlotOf(ClearIn(db, p, email), p, email) == Slot(None, None)
    ensures SlotOf(VerifyIn(db, p, email, code, now).0, p, email) == VerifySlot(SlotOf(db, p, email), p, code, now).0
    ensures VerifyIn(db, p, email, code, now).1 == VerifySlot(SlotOf(db, p, email), p, code, now).1
  {
    if CodeKey(p, email) == AttemptsKey(p, email) {
      KeysDiffer(CodeName(p), AttemptsName(p), Lower(email), Lower(email));
    }
  }

  /** .. and leaves every other pool, and every other address, untouched. */
  lemma LeavesOtherSlots(db: Db, c: Command, now: int, q: Pool, other: string)
    requires q != c.pool || Lower(other) != Lower(c.email)
    ensures SlotOf(Execute(db, c, now), q, other) == SlotOf(db, q, other)
  {
    var a, b := Lower(c.email), Lower(other);
    if CodePrefix(c.pool) + a == CodePrefix(q) + b { KeysDiffer(CodeName(c.pool), CodeName(q), a, b); }
    if CodePrefix(c.pool) + a == AttemptsPrefix(q) + b { KeysDiffer(CodeName(c.pool), AttemptsName(q), a, b); }
    if AttemptsPrefix(c.pool) + a == CodePrefix(q) + b { KeysDiffer(AttemptsName(c.pool), CodeName(q), a, b); }
    if AttemptsPrefix(c.pool) + a == AttemptsPrefix(q) + b { KeysDiffer(AttemptsName(c.pool), AttemptsName(q), a, b); }
    OnlyItsKeysChange(db, c, now, CodeKey(q, other));
    OnlyItsKeysChange(db, c, now, AttemptsKey(q, other));
  }

  lemma OnlyItsKeysChange(db: Db, c: Command, now: int, key: string)
    requires key != CodeKey(c.pool, c.email) && key != AttemptsKey(c.pool, c.email)
    ensures Row(Execute(db, c, now), key) == Row(db, key)
  {
  }

  // ----- Between one store and the next

  datatype Timed = Timed(command: Command, at: int)

  predicate Targets(c: Command, p: Pool, email: string) {
    c.pool == p && Lower(c.email) == Lower(email)
  }

  /** How often verdict `v` falls on one address of one pool, in a run that
      mixes commands to all pools and addresses. */
  function CountVerdict(db: Db, run: seq<Timed>, p: Pool, email: string, v: Verdict): nat
    decreases |run|
  {
    if run == [] then 0
    else
      var (c, now) := (run[0].command, run[0].at);
      (if c.Guess? && Targets(c, p, email) && VerifyIn(db, p, c.email, c.guess, now).1 == v then 1 else 0)
      + CountVerdict(Execute(db, c, now), run[1..], p, email, v)
  }

  /** Time does not go back, and nothing stores a new code in this slot. */
  predicate WithoutStore(run: seq<Timed>, p: Pool, email: string, clock: int) {
    run == [] ||
    (&& clock <= run[0].at
     && !(run[0].command.Put? && Targets(run[0].command, p, email))
     && WithoutStore(run[1..], p, email, run[0].at))
  }

  /** The attempts key outlives the code: while the code can still be compared,
      the failures so far are all on record. */
  predicate Guarded(s: Slot, p: Pool, failed: nat, clock: int) {
    s.code.Some? ==>
      && s.code.value.expires.Some?
      && s.code.value.expires.value <= clock + ExpirySeconds(p)
      && (s.attempts.None? ==> failed == 0)
      && (s.attempts.Some? ==>
            && s.attempts.value.expires.Some? && s.attempts.value.expires.value >= s.code.value.expires.value
            && s.attempts.value.value == Counter(failed))
  }

  /** How many failures are on record after a verdict. */
  function FailedAfter(failed: nat, v: Verdict): nat {
    if v.Wrong? then failed + 1 else failed
  }

  lemma VerifyKeepsGuarded(s: Slot, p: Pool, guess: string, failed: nat, clock: int, now: int)
    requires Guarded(s, p, failed, clock) && clock <= now && failed <= MAX_ATTEMPTS
    ensures var (t, v) := VerifySlot(s, p, guess, now);
            && Guarded(t, p, FailedAfter(failed, v), now)
            && FailedAfter(failed, v) <= MAX_ATTEMPTS
            && (v.Accepted? ==> t.code.None?)
            && (v.Wrong? || v.Accepted? ==> s.code.Some?)
            && (s.code.None? ==> t.code.None?)
  {
  }

  lemma CommandOnSlot(db: Db, c: Command, now: int, p: Pool, email: string)
    requires Targets(c, p, email)
    ensures CodeKey(p, c.email) == CodeKey(p, email) && AttemptsKey(p, c.email) == AttemptsKey(p, email)
    ensures c.Clear? ==> SlotOf(Execute(db, c, now), p, email) == Slot(None, None)
    ensures c.Guess? ==>
              && SlotOf(Execute(db, c, now), p, email) == VerifySlot(SlotOf(db, p, email), p, c.guess, now).0
              && VerifyIn(db, p, c.email, c.guess, now).1 == VerifySlot(SlotOf(db, p, email), p, c.guess, now).1
  {
    ActsOnOwnSlot(db, p, c.email, if c.Guess? then c.guess else "", now);
  }

  lemma {:induction false} GuessesAreBounded(db: Db, run: seq<Timed>, p: Pool, email: string, clock: int, failed: nat)
    requires Guarded(SlotOf(db, p, email), p, failed, clock) && failed <= MAX_ATTEMPTS
    requires WithoutStore(run, p, email, clock)
    ensures CountVerdict(db, run, p, email, Wrong) <= MAX_ATTEMPTS - failed
    ensures CountVerdict(db, run, p, email, Accepted) <= if SlotOf(db, p, email).code.Some? then 1 else 0
    ensures SlotOf(db, p, email).code.None? ==> CountVerdict(db, run, p, email, Wrong) == 0
    decreases |run|
  {
    if run != [] {
      var (c, now) := (run[0].command, run[0].at);
      if Targets(c, p, email) {
        CommandOnSlot(db, c, now, p, email);
        if c.Guess? {
          VerifyKeepsGuarded(SlotOf(db, p, email), p, c.guess, failed, clock, now);
          GuessesAreBounded(Execute(db, c, now), run[1..], p, email, now,
                            FailedAfter(failed, VerifyIn(db, p, c.email, c.guess, now).1));
        } else {
          GuessesAreBounded(Execute(db, c, now), run[1..], p, email, now, failed);
        }
      } else {
        LeavesOtherSlots(db, c, now, p, email);
        GuessesAreBounded(Execute(db, c, now), run[1..], p, email, now, failed);
      }
    }
  }

  /** Between one store and the next, whatever else happens in the store, at
      most five wrong guesses are compared with a code and it is accepted at
      most once. */
  lemma AtMostFiveWrongGuesses(db: Db, p: Pool, email: string, code: string, storedAt: int, run: seq<Timed>)
    requires WithoutStore(run, p, email, storedAt)
    ensures var stored := StoreIn(db, p, email, code, storedAt);
            && CountVerdict(stored, run, p, email, Wrong) <= 5
            && CountVerdict(stored, run, p, email, Accepted) <= 1
  {
    ActsOnOwnSlot(db, p, email, code, storedAt);
    GuessesAreBounded(StoreIn(db, p, email, code, storedAt), run, p, email, storedAt, 0);
  }

  // ----- Exactly which guesses are accepted

  function ExecuteAll(db: Db, run: seq<Timed>): Db
    decreases |run|
  {
    if run == [] then db else ExecuteAll(Execute(db, run[0].command, run[0].at), run[1..])
  }

  /** The moment of the last command. */
  function ClockAfter(run: seq<Timed>, clock: int): int {
    if run == [] then clock else run[|run| - 1].at
  }

  predicate Cleared(run: seq<Timed>, p: Pool, email: string) {
    exists i :: 0 <= i < |run| && run[i].command.Clear? && Targets(run[i].command, p, email)
  }

  /** The slot a code was stored in, with `failed` wrong guesses since. */
  predicate Holds(s: Slot, code: string, expires: int, failed: nat) {
    && s.code == Some(Entry(Text(code), Some(expires)))
    && (if failed == 0 then s.attempts.None? || s.attempts.value.value == Counter(0)
        else s.attempts.Some? && s.attempts.value.value == Counter(failed))
    && (s.attempts.Some? ==> s.attempts.value.expires.Some? && s.attempts.value.expires.value >= expires)
  }

  /** One guess at such a slot, and what it leaves. */
  lemma GuessAtSlot(s: Slot, p: Pool, code: string, expires: int, failed: nat, guess: string, now: int)
    requires Holds(s, code, expires, failed) && failed <= MAX_ATTEMPTS && expires <= now + ExpirySeconds(p)
    ensures var (t, v) := VerifySlot(s, p, guess, now);
            && (v.Accepted? ==> t == Slot(None, None))
            && (!v.Accepted? ==>
              Holds(t, code, expires, FailedAfter(failed, v)) && FailedAfter(failed, v) <= MAX_ATTEMPTS)
            && (now < expires ==> v == LiveVerdict(code, failed, guess))
            && (now >= expires ==> v == Missing || (v == TooMany && failed == MAX_ATTEMPTS))
  {
  }

  /** What a guess at a live code is answered, after so many wrong ones. */
  function LiveVerdict(code: string, failed: nat, guess: string): Verdict {
    if failed >= 5 then TooMany
    else if code == "" then Missing
    else if guess != code then Wrong
    else Accepted
  }

  lemma ClearedFirst(run: seq<Timed>, p: Pool, email: string)
    requires run != []
    ensures Cleared(run, p, email) <==>
              (run[0].command.Clear? && Targets(run[0].command, p, email)) || Cleared(run[1..], p, email)
  {
    if Cleared(run, p, email) {
      var i :| 0 <= i < |run| && run[i].command.Clear? && Targets(run[i].command, p, email);
      assert i > 0 ==> run[1..][i - 1] == run[i];
    }
    if Cleared(run[1..], p, email) {
      var i :| 0 <= i < |run[1..]| && run[1..][i].command.Clear? && Targets(run[1..][i].command, p, email);
      assert run[i + 1] == run[1..][i];
    }
  }

  /** An empty slot stays empty and accepts nothing. */
  lemma {:induction false} EmptyStaysEmpty(db: Db, run: seq<Timed>, p: Pool, email: string, clock: int)
    requires SlotOf(db, p, email) == Slot(None, None) && WithoutStore(run, p, email, clock)
    ensures SlotOf(ExecuteAll(db, run), p, email) == Slot(None, None)
    ensures CountVerdict(db, run, p, email, Accepted) == 0
    decreases |run|
  {
    if run != [] {
      var (c, at) := (run[0].command, run[0].at);
      if Targets(c, p, email) {
        CommandOnSlot(db, c, at, p, email);
      } else {
        LeavesOtherSlots(db, c, at, p, email);
      }
      EmptyStaysEmpty(Execute(db, c, at), run[1..], p, email, at);
    }
  }

  /** The code was accepted or dropped in a run. */
  predicate Gone(db: Db, run: seq<Timed>, p: Pool, email: string) {
    CountVerdict(db, run, p, email, Accepted) > 0 || Cleared(run, p, email)
  }

  predicate LeftBy(db: Db, run: seq<Timed>, p: Pool, email: string, code: string, expires: int, failed: nat) {
    var after, wrong := SlotOf(ExecuteAll(db, run), p, email), failed + CountVerdict(db, run, p, email, Wrong);
    if Gone(db, run, p, email) then after == Slot(None, None)
    else Holds(after, code, expires, wrong) && wrong <= MAX_ATTEMPTS
  }

  /** After any run the slot is empty if the code was accepted or dropped, and
      otherwise holds it with every wrong guess on record. */
  lemma {:induction false} SlotAfter(db: Db, run: seq<Timed>, p: Pool, email: string, clock: int,
                                     code: string, expires: int, failed: nat)
    requires Holds(SlotOf(db, p, email), code, expires, failed) && failed <= MAX_ATTEMPTS
    requires WithoutStore(run, p, email, clock) && expires <= clock + ExpirySeconds(p)
    ensures LeftBy(db, run, p, email, code, expires, failed)
    decreases |run|
  {
    if run != [] {
      var (c, at) := (run[0].command, run[0].at);
      var next := Execute(db, c, at);
      if !Targets(c, p, email) {
        OtherFirst(db, run, p, email);
        SlotAfter(next, run[1..], p, email, at, code, expires, failed);
      } else if c.Clear? {
        ClearedFirst(run, p, email);
        CommandOnSlot(db, c, at, p, email);
        EmptyStaysEmpty(next, run[1..], p, email, at);
      } else {
        SlotAfterGuess(db, run, p, email, clock, code, expires, failed);
      }
    }
  }

  /** A command to another slot counts for nothing. */
  lemma OtherFirst(db: Db, run: seq<Timed>, p: Pool, email: string)
    requires run != [] && !Targets(run[0].command, p, email)
    ensures var next := Execute(db, run[0].command, run[0].at);
            && SlotOf(next, p, email) == SlotOf(db, p, email)
            && (forall v :: CountVerdict(db, run, p, email, v) == CountVerdict(next, run[1..], p, email, v))
            && (Gone(db, run, p, email) <==> Gone(next, run[1..], p, email))
  {
    ClearedFirst(run, p, email);
    LeavesOtherSlots(db, run[0].command, run[0].at, p, email);
  }

  lemma {:induction false} SlotAfterGuess(db: Db, run: seq<Timed>, p: Pool, email: string, clock: int,
                                          code: string, expires: int, failed: nat)
    requires run != [] && run[0].command.Guess? && Targets(run[0].command, p, email)
    requires Holds(SlotOf(db, p, email), code, expires, failed) && failed <= MAX_ATTEMPTS
    requires WithoutStore(run, p, email, clock) && expires <= clock + ExpirySeconds(p)
    ensures LeftBy(db, run, p, email, code, expires, failed)
    decreases |run|, 0
  {
    var (c, at) := (run[0].command, run[0].at);
    var next := Execute(db, c, at);
    ClearedFirst(run, p, email);
    CommandOnSlot(db, c, at, p, email);
    GuessAtSlot(SlotOf(db, p, email), p, code, expires, failed, c.guess, at);
    var v := VerifyIn(db, p, c.email, c.guess, at).1;
    if v.Accepted? {
      EmptyStaysEmpty(next, run[1..], p, email, at);
    } else {
      SlotAfter(next, run[1..], p, email, at, code, expires, FailedAfter(failed, v));
      assert Gone(db, run, p, email) <==> Gone(next, run[1..], p, email);
    }
  }

  lemma ClockAfterRun(run: seq<Timed>, p: Pool, email: string, clock: int)
    requires WithoutStore(run, p, email, clock)
    ensures clock <= ClockAfter(run, clock)
    decreases |run|
  {
    if run != [] {
      ClockAfterRun(run[1..], p, email, run[0].at);
      assert run[1..] != [] ==> run[1..][|run[1..]| - 1] == run[|run| - 1];
    }
  }

  /** How long a code of each pool can be used, in seconds. */
  function Lifetime(p: Pool): nat {
    match p
    case Magic => 600
    case PasswordReset => 600
    case BackupEmail => 900
    case TwofaEmail => 600
    case TwofaEnrol => 600
  }

  /** Every answer to a guess, after a code is stored and whatever else happens
      in the store: a code that was accepted or dropped is missing; a live one
      is answered by the wrong guesses since, of which there are at most five,
      and by the guess; an expired one is missing, or still refused after five. */
  lemma VerdictExactly(db: Db, p: Pool, email: string, code: string, storedAt: int, run: seq<Timed>, guess: string,
                       now: int)
    requires WithoutStore(run, p, email, storedAt) && ClockAfter(run, storedAt) <= now
    ensures var stored := StoreIn(db, p, email, code, storedAt);
            var wrong := CountVerdict(stored, run, p, email, Wrong);
            var v := VerifyIn(ExecuteAll(stored, run), p, email, guess, now).1;
            if Gone(stored, run, p, email) then v == Missing
            else if now < storedAt + Lifetime(p) then v == LiveVerdict(code, wrong, guess)
            else v == Missing || (v == TooMany && wrong == 5)
  {
    ActsOnOwnSlot(db, p, email, code, storedAt);
    ClockAfterRun(run, p, email, storedAt);
    var stored := StoreIn(db, p, email, code, storedAt);
    VerdictAfter(stored, run, p, email, code, storedAt, storedAt + Lifetime(p), guess, now);
  }

  lemma VerdictAfter(stored: Db, run: seq<Timed>, p: Pool, email: string, code: string, clock: int, expires: int,
                     guess: string, now: int)
    requires Holds(SlotOf(stored, p, email), code, expires, 0) && expires == clock + ExpirySeconds(p) && clock <= now
    requires WithoutStore(run, p, email, clock)
    ensures var wrong := CountVerdict(stored, run, p, email, Wrong);
            var v := VerifyIn(ExecuteAll(stored, run), p, email, guess, now).1;
            if Gone(stored, run, p, email) then v == Missing
            else if now < expires then v == LiveVerdict(code, wrong, guess)
            else v == Missing || (v == TooMany && wrong == 5)
  {
    SlotAfter(stored, run, p, email, clock, code, expires, 0);
    var after := ExecuteAll(stored, run);
    ActsOnOwnSlot(after, p, email, guess, now);
    if !Gone(stored, run, p, email) {
      GuessAtSlot(SlotOf(after, p, email), p, code, expires, CountVerdict(stored, run, p, email, Wrong), guess, now);
    }
  }

  /** After a code is stored, and whatever else happens in the store, a guess is
      accepted if and only if it is that code and not empty, the code has not
      expired, fewer than five wrong guesses were compared with it, and it was
      neither accepted nor dropped in the meantime. */
  lemma AcceptedExactly(db: Db, p: Pool, email: string, code: string, storedAt: int, run: seq<Timed>, guess: string,
                        now: int)
    requires WithoutStore(run, p, email, storedAt) && ClockAfter(run, storedAt) <= now
    ensures var stored := StoreIn(db, p, email, code, storedAt);
            VerifyIn(ExecuteAll(stored, run), p, email, guess, now).1.Accepted? <==>
              && guess == code && code != "" && now < storedAt + Lifetime(p)
              && CountVerdict(stored, run, p, email, Wrong) < 5
              && CountVerdict(stored, run, p, email, Accepted) == 0 && !Cleared(run, p, email)
  {
    VerdictExactly(db, p, email, code, storedAt, run, guess, now);
  }
}

/** The fixed-window request counter (`check_rate_limit`, and its copy in
    apps/api/middleware/global_rate_limit.py). */
module RateLimit {
  import opened RedisStore
  import opened Wrappers

  function CheckIn(db: Db, key: string, max: int, window: nat, now: int): (Db, bool, int) {
    var current := Get(db, key, now);
    if current.Some? && CountOf(current) >= max then
      (db, false, if db[key].expires.Some? && db[key].expires.value - now > 1 then db[key].expires.value - now else 1)
    else (Expire(Incr(db, key, now), key, window, now, true), true, 0)
  }

  method CheckRateLimit(r: Redis, ip: string, action: string, max: int, window: nat, now: int)
    returns (allowed: bool, retryAfter: int)
    modifies r
    ensures (r.data, allowed, retryAfter) == CheckIn(old(r.data), "rl:" + action + ":" + ip, max, window, now)
  {
    var key := "rl:" + action + ":" + ip;
    var current := Get(r.data, key, now);
    if current.Some? && CountOf(current) >= max {
      var ttl := if r.data[key].expires.Some? then r.data[key].expires.value - now else 0;
      return false, if ttl > 1 then ttl else 1;
    }
    r.data := Incr(r.data, key, now);
    r.data := Expire(r.data, key, window, now, true);
    return true, 0;
  }

  /** The counter of one key, and the times at which it admitted a request. */
  datatype Window = Closed | Open(count: nat, expires: int)

  datatype Log = Log(window: Window, admitted: seq<int>)

  predicate Live(w: Window, now: int) {
    w.Open? && now < w.expires
  }

  function Request(l: Log, max: int, window: nat, now: int): Log {
    if Live(l.window, now) && l.window.count >= max then l
    else
      Log(if Live(l.window, now) then Open(l.window.count + 1, l.window.expires) else Open(1, now + window),
          l.admitted + [now])
  }

  function WindowOf(db: Db, key: string): Window {
    if key in db && db[key].value.Counter? && db[key].expires.Some?
    then Open(db[key].value.count, db[key].expires.value) else Closed
  }

  /** The store holds exactly that counter. */
  lemma StoreIsTheWindow(db: Db, key: string, max: int, window: nat, now: int, admitted: seq<int>)
    requires window > 0
    requires key in db ==> db[key].value.Counter? && db[key].expires.Some?
    ensures var (after, allowed, retryAfter) := CheckIn(db, key, max, window, now);
            var l := Request(Log(WindowOf(db, key), admitted), max, window, now);
            && (key in db || allowed ==> key in after && after[key].value.Counter? && after[key].expires.Some?)
            && WindowOf(after, key) == l.window
            && (allowed <==> l.admitted == admitted + [now])
            && (!allowed ==> l.admitted == admitted)
  {
  }

  /** A refusal names the exact wait: the same request is let through again from
      then on, and at no earlier moment. */
  lemma RetryAfterIsExact(db: Db, key: string, max: int, window: nat, now: int, later: int)
    requires key in db ==> db[key].value.Counter? && db[key].expires.Some?
    requires !CheckIn(db, key, max, window, now).1 && now <= later
    ensures CheckIn(db, key, max, window, later).1 <==> now + CheckIn(db, key, max, window, now).2 <= later
  {
  }

  function Requests(l: Log, max: int, window: nat, times: seq<int>): Log {
    if times == [] then l else Request(Requests(l, max, window, times[..|times| - 1]), max, window, times[|times| - 1])
  }

  /** How many of `a` are at or after `lo`, and before `hi`. */
  function CountFrom(a: seq<int>, lo: int): nat {
    if a == [] then 0 else CountFrom(a[..|a| - 1], lo) + if lo <= a[|a| - 1] then 1 else 0
  }

  function CountWithin(a: seq<int>, lo: int, hi: int): nat {
    if a == [] then 0 else CountWithin(a[..|a| - 1], lo, hi) + if lo <= a[|a| - 1] < hi then 1 else 0
  }

  lemma {:induction false} CountSplit(a: seq<int>, lo: int, mid: int, hi: int)
    requires lo <= mid
    ensures CountFrom(a, lo) == CountWithin(a, lo, mid) + CountFrom(a, mid)
    ensures CountWithin(a, lo, hi) <= CountFrom(a, lo)
  {
    if a != [] {
      CountSplit(a[..|a| - 1], lo, mid, hi);
    }
  }

  /** The limit in force: a limit of 0 still admits the request that opens the window. */
  function Cap(max: int): nat {
    if max < 1 then 1 else max
  }

  /** The open window holds every admission since its start, and the window
      before it cannot have left more than the limit in the same stretch. */
  predicate Fair(l: Log, max: int, window: nat, clock: int) {
    match l.window
    case Closed => l.admitted == []
    case Open(count, expires) =>
      var start := expires - window;
      && start <= clock && 1 <= count <= Cap(max)
      && CountFrom(l.admitted, start) == count
      && CountFrom(l.admitted, expires) == 0
      && CountFrom(l.admitted, start - window + 1) <= count + Cap(max)
  }

  lemma CountOneMore(a: seq<int>, now: int, lo: int, hi: int)
    ensures CountFrom(a + [now], lo) == CountFrom(a, lo) + if lo <= now then 1 else 0
    ensures CountWithin(a + [now], lo, hi) == CountWithin(a, lo, hi) + if lo <= now < hi then 1 else 0
  {
    assert (a + [now])[..|a + [now]| - 1] == a;
  }

  lemma {:induction false} CountFromMonotone(a: seq<int>, lo: int, hi: int)
    requires lo <= hi
    ensures CountFrom(a, hi) <= CountFrom(a, lo)
  {
    if a != [] {
      CountFromMonotone(a[..|a| - 1], lo, hi);
    }
  }

  lemma RequestIsFair(l: Log, max: int, window: nat, clock: int, now: int)
    requires window > 0 && clock <= now && Fair(l, max, window, clock)
    ensures Fair(Request(l, max, window, now), max, window, now)
  {
    var after := Request(l, max, window, now);
    if after.admitted != l.admitted {
      var start := after.window.expires - window;
      CountOneMore(l.admitted, now, start, 0);
      CountOneMore(l.admitted, now, after.window.expires, 0);
      CountOneMore(l.admitted, now, start - window + 1, 0);
      if l.window.Open? && !Live(l.window, now) {
        CountFromMonotone(l.admitted, l.window.expires, now);
        CountFromMonotone(l.admitted, l.window.expires, now + window);
        CountFromMonotone(l.admitted, l.window.expires - window, now - window + 1);
      }
    }
  }

  lemma RequestKeepsTheBound(l: Log, max: int, window: nat, clock: int, now: int, lo: int)
    requires window > 0 && clock <= now && Fair(l, max, window, clock)
    requires CountWithin(l.admitted, lo, lo + window) <= 2 * Cap(max)
    ensures CountWithin(Request(l, max, window, now).admitted, lo, lo + window) <= 2 * Cap(max)
  {
    if Request(l, max, window, now).admitted != l.admitted {
      CountOneMore(l.admitted, now, lo, lo + window);
      CountSplit(l.admitted, lo, lo, lo + window);
      if lo <= now < lo + window && l.window.Open? {
        var start := l.window.expires - window;
        CountFromMonotone(l.admitted, if lo < start then start - window + 1 else start, lo);
      }
    }
  }

  predicate Sorted(times: seq<int>) {
    forall i, j :: 0 <= i < j < |times| ==> times[i] <= times[j]
  }

  lemma {:induction false} RequestsAreFair(max: int, window: nat, times: seq<int>, lo: int)
    requires window > 0 && Sorted(times)
    ensures var l := Requests(Log(Closed, []), max, window, times);
            && CountWithin(l.admitted, lo, lo + window) <= 2 * Cap(max)
            && (if times == [] then l == Log(Closed, []) else Fair(l, max, window, times[|times| - 1]))
  {
    if times != [] {
      var n := |times| - 1;
      RequestsAreFair(max, window, times[..n], lo);
      var clock := if n == 0 then times[0] else times[..n][n - 1];
      var l := Requests(Log(Closed, []), max, window, times[..n]);
      RequestIsFair(l, max, window, clock, times[n]);
      RequestKeepsTheBound(l, max, window, clock, times[n], lo);
    }
  }

  /** The store after requests at the given times, and those it let through. */
  function Serve(db: Db, key: string, max: int, window: nat, times: seq<int>): (Db, seq<int>) {
    if times == [] then (db, [])
    else
      var n := |times| - 1;
      var (before, admitted) := Serve(db, key, max, window, times[..n]);
      var (after, allowed, retryAfter) := CheckIn(before, key, max, window, times[n]);
      (after, if allowed then admitted + [times[n]] else admitted)
  }

  lemma {:induction false} ServeIsRequests(db: Db, key: string, max: int, window: nat, times: seq<int>)
    requires window > 0 && key !in db
    ensures var (after, admitted) := Serve(db, key, max, window, times);
            && (key in after ==> after[key].value.Counter? && after[key].expires.Some?)
            && Log(WindowOf(after, key), admitted) == Requests(Log(Closed, []), max, window, times)
  {
    if times != [] {
      var n := |times| - 1;
      ServeIsRequests(db, key, max, window, times[..n]);
      var (before, admitted) := Serve(db, key, max, window, times[..n]);
      StoreIsTheWindow(before, key, max, window, times[n], admitted);
    }
  }

  /** Exactly which requests are let through, counted by what was let through
      before: all but those that find the limit reached in a window that is
      still open. */
  lemma AdmittedExactly(db: Db, key: string, max: int, window: nat, times: seq<int>, now: int)
    requires window > 0 && Sorted(times + [now]) && key !in db
    ensures var (after, admitted) := Serve(db, key, max, window, times);
            CheckIn(after, key, max, window, now).1 <==>
              || key !in after || after[key].expires.None? || after[key].expires.value <= now
              || CountFrom(admitted, after[key].expires.value - window) < max
  {
    SortedFront(times, now);
    ServedIsFair(db, key, max, window, times, now);
    var (after, admitted) := Serve(db, key, max, window, times);
    AdmittedByCount(after, key, max, window, now, admitted, if times == [] then now else times[|times| - 1]);
  }

  lemma SortedFront(times: seq<int>, now: int)
    requires Sorted(times + [now])
    ensures Sorted(times)
  {
    forall i, j | 0 <= i < j < |times| ensures times[i] <= times[j] {
      assert (times + [now])[i] <= (times + [now])[j];
    }
  }

  lemma ServedIsFair(db: Db, key: string, max: int, window: nat, times: seq<int>, now: int)
    requires window > 0 && Sorted(times) && key !in db
    ensures var (after, admitted) := Serve(db, key, max, window, times);
            && (key in after ==> after[key].value.Counter? && after[key].expires.Some?)
            && Fair(Log(WindowOf(after, key), admitted), max, window, if times == [] then now else times[|times| - 1])
  {
    ServeIsRequests(db, key, max, window, times);
    RequestsAreFair(max, window, times, 0);
  }

  lemma AdmittedByCount(db: Db, key: string, max: int, window: nat, now: int, admitted: seq<int>, clock: int)
    requires key in db ==> db[key].value.Counter? && db[key].expires.Some?
    requires Fair(Log(WindowOf(db, key), admitted), max, window, clock)
    ensures CheckIn(db, key, max, window, now).1 <==>
              || key !in db || db[key].expires.value <= now
              || CountFrom(admitted, db[key].expires.value - window) < max
  {
  }

  /** The first request of a window opens it for its whole length. */
  lemma WindowIsOpened(db: Db, key: string, max: int, window: nat, now: int)
    requires window > 0 && (key in db ==> db[key].expires.Some? && db[key].expires.value <= now)
    ensures CheckIn(db, key, max, window, now) == (CheckIn(db, key, max, window, now).0, true, 0)
    ensures var after := CheckIn(db, key, max, window, now).0;
            key in after && after[key].expires == Some(now + window)
  {
  }

  /** Any stretch of time as long as the window admits at most twice the limit,
      and the counter's own window at most the limit. */
  lemma AtMostTwiceTheLimit(db: Db, key: string, max: int, window: nat, times: seq<int>, lo: int)
    requires window > 0 && Sorted(times) && key !in db
    ensures var (after, admitted) := Serve(db, key, max, window, times);
            && CountWithin(admitted, lo, lo + window) <= 2 * Cap(max)
            && (key in after ==>
              after[key].expires.Some? && CountFrom(admitted, after[key].expires.value - window) <= Cap(max))
  {
    ServeIsRequests(db, key, max, window, times);
    RequestsAreFair(max, window, times, lo);
  }
}
