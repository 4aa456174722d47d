/** What an audit row may hold: redaction at every depth, and the diff of a
    before and an after (apps/api/services/audit.py). */
module Audit {
  import opened Ascii
  import opened Wrappers

  const REDACTED := "[redacted]"

  const SECRET_FIELDS: set<string> := {
    "password", "password_hash", "new_password", "current_password", "totp_secret", "totp_secret_encrypted",
    "backup_codes", "backup_codes_hashed", "invite_token", "refresh_token", "access_token", "magic_code",
    "verification_code", "recovery_code", "one_time_code", "otp_code", "reset_code", "jwt_secret",
    "smtp_password", "secret_key", "s3_secret_key", "api_key"
  }

  const SECRET_SUFFIXES: seq<string> := [
    "_password", "_secret", "_secret_encrypted", "_token", "_codes", "_codes_hashed", "_api_key"
  ]

  const MASKED_FIELDS: set<string> := {"iban"}

  /** A raw value. Numbers other than integers, dates and unknown objects come
      with the text Python prints for them. */
  datatype Value =
    | Nothing
    | Text(text: string)
    | Truth(truth: bool)
    | Whole(whole: int)
    | Printed(kind: PrintedKind, form: string)
    | Member(inner: Value)
    | Dict(items: seq<Entry>)
    | List(elements: seq<Value>)

  datatype Entry = Entry(key: string, value: Value)

  datatype PrintedKind = Float | Decimal | Moment | Uuid | Unknown

  /** What JSONB holds. */
  datatype Json =
    | Null
    | Str(text: string)
    | Bool(truth: bool)
    | Number(number: int)
    | Object(fields: seq<Pair>)
    | Array(items: seq<Json>)

  datatype Pair = Pair(key: string, json: Json)

  predicate EndsWith(s: string, suffix: string) {
    |suffix| <= |s| && s[|s| - |suffix|..] == suffix
  }

  predicate IsSecretField(name: string) {
    || Lower(name) in SECRET_FIELDS
    || exists k :: 0 <= k < |SECRET_SUFFIXES| && EndsWith(Lower(name), SECRET_SUFFIXES[k])
  }

  /** The value without spaces, in upper case. */
  function Compact(s: string): string {
    if s == [] then []
    else (if s[0] == ' ' then [] else [Upper(s[0])]) + Compact(s[1..])
  }

  function MaskIban(v: Value): Json {
    if v.Nothing? then Null
    else if !v.Text? || |Compact(v.text)| < 8 then Str(REDACTED)
    else Str(Compact(v.text)[..2] + ['\U{2026}'] + Compact(v.text)[|Compact(v.text)| - 4..])
  }

  function Redact(name: string, v: Value): Json
    decreases v, 1
  {
    if IsSecretField(Lower(name)) then Str(REDACTED)
    else if Lower(name) in MASKED_FIELDS then MaskIban(v)
    else Jsonable(v)
  }

  function Jsonable(v: Value): Json
    decreases v, 0
  {
    match v
    case Nothing => Null
    case Text(s) => Str(s)
    case Truth(b) => Bool(b)
    case Whole(n) => Number(n)
    case Printed(_, form) => Str(form)
    case Member(inner) => Jsonable(inner)
    case Dict(items) => Object(RedactAll(items))
    case List(elements) => Array(JsonAll(elements))
  }

  function RedactAll(items: seq<Entry>): seq<Pair> {
    if items == [] then []
    else [Pair(items[0].key, Redact(items[0].key, items[0].value))] + RedactAll(items[1..])
  }

  function JsonAll(elements: seq<Value>): seq<Json> {
    if elements == [] then [] else [Jsonable(elements[0])] + JsonAll(elements[1..])
  }

  // ----- Nothing secret is left, at any depth

  /** Every secret name holds the marker and every IBAN is masked. */
  predicate Safe(j: Json)
    decreases j, 0
  {
    match j
    case Object(fields) => forall f :: f in fields ==> SafeField(f.key, f.json)
    case Array(items) => forall i :: i in items ==> Safe(i)
    case _ => true
  }

  predicate SafeField(name: string, j: Json)
    decreases j, 1
  {
    if IsSecretField(name) then j == Str(REDACTED)
    else if Lower(name) in MASKED_FIELDS then
      j.Null? || (j.Str? && (j.text == REDACTED || (|j.text| == 7 && j.text[2] == '\U{2026}')))
    else Safe(j)
  }

  lemma {:induction false} LowerTwice(s: string)
    ensures Lower(Lower(s)) == Lower(s)
  {
    if s != [] {
      LowerTwice(s[1..]);
      assert Lower(s)[1..] == Lower(s[1..]);
    }
  }

  lemma {:induction false} JsonIsSafe(v: Value)
    ensures Safe(Jsonable(v))
    decreases v, 0
  {
    match v
    case Member(inner) => JsonIsSafe(inner);
    case Dict(items) => AllRedactedAreSafe(items);
    case List(elements) => AllJsonAreSafe(elements);
    case _ =>
  }

  /** What is stored for a field is safe under its name, whatever it holds. */
  lemma {:induction false} RedactedIsSafe(name: string, v: Value)
    ensures SafeField(name, Redact(name, v))
    decreases v, 1
  {
    LowerTwice(name);
    JsonIsSafe(v);
  }

  lemma {:induction false} AllRedactedAreSafe(items: seq<Entry>)
    ensures forall f :: f in RedactAll(items) ==> SafeField(f.key, f.json)
    decreases items
  {
    if items != [] {
      RedactedIsSafe(items[0].key, items[0].value);
      AllRedactedAreSafe(items[1..]);
    }
  }

  lemma {:induction false} AllJsonAreSafe(elements: seq<Value>)
    ensures forall j :: j in JsonAll(elements) ==> Safe(j)
    decreases elements
  {
    if elements != [] {
      JsonIsSafe(elements[0]);
      AllJsonAreSafe(elements[1..]);
    }
  }

  // ----- Exactly what a row reveals

  /** What of an IBAN shows: nothing at all, that there is a value, or its first
      two and last four characters. */
  datatype Trace = Absent | Hidden | Ends(head: string, tail: string)

  function TraceOf(v: Value): Trace {
    match v
    case Nothing => Absent
    case Text(s) =>
      var c := Compact(s);
      if |c| < 8 then Hidden else Ends(c[..2], c[|c| - 4..])
    case _ => Hidden
  }

  /** An enum member stands for its value. */
  function Bare(v: Value): Value {
    if v.Member? then Bare(v.inner) else v
  }

  /** Two values of one field that agree on every leaf a row may show. */
  predicate Alike(name: string, a: Value, b: Value)
    decreases a, 1
  {
    if IsSecretField(name) then true
    else if Lower(name) in MASKED_FIELDS then TraceOf(a) == TraceOf(b)
    else AlikeValue(a, b)
  }

  predicate AlikeValue(a: Value, b: Value)
    decreases a, 0
  {
    if a.Member? then AlikeValue(a.inner, b)
    else
      var c := Bare(b);
      match a
      case Dict(items) => c.Dict? && AlikeItems(items, c.items)
      case List(elements) => c.List? && AlikeElements(elements, c.elements)
      case Text(s) => (c.Text? && c.text == s) || (c.Printed? && c.form == s)
      case Printed(_, s) => (c.Text? && c.text == s) || (c.Printed? && c.form == s)
      case _ => a == c
  }

  predicate AlikeItems(a: seq<Entry>, b: seq<Entry>) {
    |a| == |b| && (a != [] ==>
      a[0].key == b[0].key && Alike(a[0].key, a[0].value, b[0].value) && AlikeItems(a[1..], b[1..]))
  }

  predicate AlikeElements(a: seq<Value>, b: seq<Value>) {
    |a| == |b| && (a != [] ==> AlikeValue(a[0], b[0]) && AlikeElements(a[1..], b[1..]))
  }

  lemma MaskShowsTheTrace(a: Value, b: Value)
    ensures MaskIban(a) == MaskIban(b) <==> TraceOf(a) == TraceOf(b)
  {
    if TraceOf(a).Ends? && TraceOf(b).Ends? {
      var x, y := MaskIban(a).text, MaskIban(b).text;
      assert x[..2] == TraceOf(a).head && x[3..] == TraceOf(a).tail;
      assert y[..2] == TraceOf(b).head && y[3..] == TraceOf(b).tail;
    }
  }

  lemma {:induction false} JsonOfBare(v: Value)
    ensures Jsonable(v) == Jsonable(Bare(v)) && !Bare(v).Member?
  {
    if v.Member? {
      JsonOfBare(v.inner);
    }
  }

  /** Two values are stored alike exactly when they agree on every leaf outside
      the secret fields, and on the trace of every IBAN, at any depth. */
  lemma {:induction false} RowShowsExactly(name: string, a: Value, b: Value)
    ensures Redact(name, a) == Redact(name, b) <==> Alike(name, a, b)
    decreases a, 1
  {
    LowerTwice(name);
    MaskShowsTheTrace(a, b);
    ValueShowsExactly(a, b);
  }

  lemma {:induction false} ValueShowsExactly(a: Value, b: Value)
    ensures Jsonable(a) == Jsonable(b) <==> AlikeValue(a, b)
    decreases a, 0
  {
    JsonOfBare(b);
    match a
    case Member(inner) => ValueShowsExactly(inner, b);
    case Dict(items) => if Bare(b).Dict? { ItemsShowExactly(items, Bare(b).items); }
    case List(elements) => if Bare(b).List? { ElementsShowExactly(elements, Bare(b).elements); }
    case _ =>
  }

  lemma {:induction false} ItemsShowExactly(a: seq<Entry>, b: seq<Entry>)
    ensures RedactAll(a) == RedactAll(b) <==> AlikeItems(a, b)
    decreases a
  {
    if a != [] && b != [] {
      RowShowsExactly(a[0].key, a[0].value, b[0].value);
      ItemsShowExactly(a[1..], b[1..]);
      assert RedactAll(a)[0] == Pair(a[0].key, Redact(a[0].key, a[0].value)) && RedactAll(a)[1..] == RedactAll(a[1..]);
      assert RedactAll(b)[0] == Pair(b[0].key, Redact(b[0].key, b[0].value)) && RedactAll(b)[1..] == RedactAll(b[1..]);
      SameLength(a, b);
    }
  }

  lemma {:induction false} SameLength(a: seq<Entry>, b: seq<Entry>)
    ensures |RedactAll(a)| == |a| && |RedactAll(b)| == |b|
  {
    if a != [] {
      SameLength(a[1..], b);
    } else if b != [] {
      SameLength(a, b[1..]);
    }
  }

  lemma {:induction false} ElementsShowExactly(a: seq<Value>, b: seq<Value>)
    ensures JsonAll(a) == JsonAll(b) <==> AlikeElements(a, b)
    decreases a
  {
    if a != [] && b != [] {
      ValueShowsExactly(a[0], b[0]);
      ElementsShowExactly(a[1..], b[1..]);
      assert JsonAll(a)[0] == Jsonable(a[0]) && JsonAll(a)[1..] == JsonAll(a[1..]);
      assert JsonAll(b)[0] == Jsonable(b[0]) && JsonAll(b)[1..] == JsonAll(b[1..]);
    }
  }

  // ----- The diff

  type Record = map<string, Value>

  /** Python's `==` on raw values, which no law here depends on. */
  type Equality = (Value, Value) -> bool

  function Field(r: Option<Record>, name: string): Value {
    if r.Some? && name in r.value then r.value[name] else Nothing
  }

  /** Both sides of one field. */
  datatype Sides = Sides(before: Json, after: Json)

  function Names(before: Option<Record>, after: Option<Record>): set<string> {
    (if before.Some? then before.value.Keys else {}) + if after.Some? then after.value.Keys else {}
  }

  /** The whole diff over a set of names. */
  function DiffOver(names: set<string>, before: Option<Record>, after: Option<Record>,
                    same: Equality): map<string, Sides> {
    map name | name in names && !same(Field(before, name), Field(after, name)) ::
      Sides(Redact(name, Field(before, name)), Redact(name, Field(after, name)))
  }

  /** Some listing of a set: the source sorts, which a mapping does not show. */
  method Listed(names: set<string>) returns (s: seq<string>)
    ensures forall n :: n in s <==> n in names
  {
    s := [];
    var rest := names;
    while rest != {}
      invariant rest <= names
      invariant forall n :: n in s <==> n in names - rest
      decreases |rest|
    {
      var n :| n in rest;
      s := s + [n];
      rest := rest - {n};
    }
  }

  function Elements(names: seq<string>): set<string> {
    set n | n in names
  }

  lemma DiffStep(names: seq<string>, i: nat, before: Option<Record>, after: Option<Record>, same: Equality)
    requires i < |names|
    ensures var was, now := Field(before, names[i]), Field(after, names[i]);
            var so := DiffOver(Elements(names[..i]), before, after, same);
            DiffOver(Elements(names[..i + 1]), before, after, same)
              == if same(was, now) then so else so[names[i] := Sides(Redact(names[i], was), Redact(names[i], now))]
  {
    assert Elements(names[..i + 1]) == Elements(names[..i]) + {names[i]};
  }

  method Diff(before: Option<Record>, after: Option<Record>, fields: Option<seq<string>>, same: Equality)
    returns (changed: map<string, Sides>)
    ensures changed ==
              DiffOver(if fields.Some? then Elements(fields.value) else Names(before, after), before, after, same)
  {
    var names: seq<string>;
    if fields.Some? {
      names := fields.value;
    } else {
      names := Listed(Names(before, after));
      assert Elements(names) == Names(before, after);
    }
    changed := map[];
    for i := 0 to |names|
      invariant changed == DiffOver(Elements(names[..i]), before, after, same)
    {
      DiffStep(names, i, before, after, same);
      var was := Field(before, names[i]);
      var now := Field(after, names[i]);
      if !same(was, now) {
        changed := changed[names[i] := Sides(Redact(names[i], was), Redact(names[i], now))];
      }
    }
    assert names[..|names|] == names;
  }

  /** Which differences between two changes the log cannot see: on the names
      that count as changed both times, leaves in secret fields and the middle
      of an IBAN. Everything else it shows. */
  predicate AlikeChanges(names: set<string>, before: Option<Record>, after: Option<Record>,
                         before': Option<Record>, after': Option<Record>, same: Equality)
  {
    forall name :: name in names ==> AlikeChange(name, before, after, before', after', same)
  }

  predicate AlikeChange(name: string, before: Option<Record>, after: Option<Record>,
                        before': Option<Record>, after': Option<Record>, same: Equality)
  {
    && same(Field(before, name), Field(after, name)) == same(Field(before', name), Field(after', name))
    && (!same(Field(before, name), Field(after, name)) ==>
          Alike(name, Field(before, name), Field(before', name))
            && Alike(name, Field(after, name), Field(after', name)))
  }

  lemma DiffShowsExactly(names: set<string>, before: Option<Record>, after: Option<Record>,
                         before': Option<Record>, after': Option<Record>, same: Equality)
    ensures DiffOver(names, before, after, same) == DiffOver(names, before', after', same)
       <==> AlikeChanges(names, before, after, before', after', same)
  {
    var d, e := DiffOver(names, before, after, same), DiffOver(names, before', after', same);
    forall name | name in names
      ensures SameEntry(d, e, name) <==> AlikeChange(name, before, after, before', after', same)
    {
      FieldShowsExactly(names, before, after, before', after', same, name, d, e);
    }
    if forall name :: name in names ==> SameEntry(d, e, name) {
      assert d.Keys == e.Keys;
    }
  }

  predicate SameEntry(d: map<string, Sides>, e: map<string, Sides>, name: string) {
    (name in d <==> name in e) && (name in d && name in e ==> d[name] == e[name])
  }

  lemma FieldShowsExactly(names: set<string>, before: Option<Record>, after: Option<Record>,
                          before': Option<Record>, after': Option<Record>, same: Equality,
                          name: string, d: map<string, Sides>, e: map<string, Sides>)
    requires name in names && d == DiffOver(names, before, after, same) && e == DiffOver(names, before', after', same)
    ensures SameEntry(d, e, name) <==> AlikeChange(name, before, after, before', after', same)
  {
    RowShowsExactly(name, Field(before, name), Field(before', name));
    RowShowsExactly(name, Field(after, name), Field(after', name));
  }

  /** A field is in the diff exactly when its raw values differ, so a changed
      secret is recorded, as two markers. */
  lemma ChangedSecretIsRecorded(names: set<string>, before: Option<Record>, after: Option<Record>, same: Equality,
                                name: string)
    requires name in names && IsSecretField(name)
    ensures var d := DiffOver(names, before, after, same);
            && (name in d <==> !same(Field(before, name), Field(after, name)))
            && (name in d ==> d[name] == Sides(Str(REDACTED), Str(REDACTED)))
  {
    LowerTwice(name);
  }
}
