/** What an audit row shows, value by value, and which names hide it
    (apps/api/services/audit.py). */
module AuditShown {
  import opened Ascii
  import opened Audit
  import opened Wrappers

  // ----- Names

  /** A letter in lower case; anything else is its own. */
  function Small(c: char): char {
    if 65 <= c as int <= 90 then (c as int + 32) as char else c
  }

  lemma {:induction false} LowerIs(s: string)
    ensures |Lower(s)| == |s|
    ensures forall i :: 0 <= i < |s| ==> Lower(s)[i] == Small(s[i])
  {
    if s != [] {
      LowerIs(s[1..]);
    }
  }

  predicate SecretName(name: string) {
    || name == "password" || name == "password_hash" || name == "new_password" || name == "current_password"
    || name == "totp_secret" || name == "totp_secret_encrypted" || name == "backup_codes"
    || name == "backup_codes_hashed" || name == "invite_token" || name == "refresh_token" || name == "access_token"
    || name == "magic_code" || name == "verification_code" || name == "recovery_code" || name == "one_time_code"
    || name == "otp_code" || name == "reset_code" || name == "jwt_secret" || name == "smtp_password"
    || name == "secret_key" || name == "s3_secret_key" || name == "api_key"
  }

  predicate SecretEnding(suffix: string) {
    || suffix == "_password" || suffix == "_secret" || suffix == "_secret_encrypted" || suffix == "_token"
    || suffix == "_codes" || suffix == "_codes_hashed" || suffix == "_api_key"
  }

  /** Which fields are secret, whatever the case they are written in: those of
      the names above, and those that end in one of the endings. */
  lemma SecretExactly(name: string)
    ensures IsSecretField(name) <==>
              SecretName(Lower(name)) || exists x, suffix :: SecretEnding(suffix) && Lower(name) == x + suffix
  {
    NamesExactly(Lower(name));
    HasEndingExactly(Lower(name));
  }

  lemma NamesExactly(low: string)
    ensures low in SECRET_FIELDS <==> SecretName(low)
  {
  }

  lemma HasEndingExactly(low: string)
    ensures (exists k :: 0 <= k < |SECRET_SUFFIXES| && EndsWith(low, SECRET_SUFFIXES[k])) <==>
              exists x, suffix :: SecretEnding(suffix) && low == x + suffix
  {
    EndingsExactly();
    if k :| 0 <= k < |SECRET_SUFFIXES| && EndsWith(low, SECRET_SUFFIXES[k]) {
      EndingSplits(low, SECRET_SUFFIXES[k]);
      assert SECRET_SUFFIXES[k] in SECRET_SUFFIXES;
    }
    if x, suffix :| SecretEnding(suffix) && low == x + suffix {
      assert suffix in SECRET_SUFFIXES;
      var k :| 0 <= k < |SECRET_SUFFIXES| && SECRET_SUFFIXES[k] == suffix;
      assert low[|low| - |suffix|..] == suffix;
      assert EndsWith(low, SECRET_SUFFIXES[k]);
    }
  }

  lemma EndingSplits(low: string, suffix: string)
    requires EndsWith(low, suffix)
    ensures low == low[..|low| - |suffix|] + suffix
  {
  }

  lemma EndingsExactly()
    ensures forall s :: s in SECRET_SUFFIXES <==> SecretEnding(s)
  {
    forall s | SecretEnding(s) ensures s in SECRET_SUFFIXES {
      assert SECRET_SUFFIXES[0] == "_password" && SECRET_SUFFIXES[1] == "_secret";
      assert SECRET_SUFFIXES[2] == "_secret_encrypted" && SECRET_SUFFIXES[3] == "_token";
      assert SECRET_SUFFIXES[4] == "_codes" && SECRET_SUFFIXES[5] == "_codes_hashed";
      assert SECRET_SUFFIXES[6] == "_api_key";
    }
  }

  // ----- Values

  /** Neither secret nor masked. */
  predicate OpenName(name: string) {
    !IsSecretField(name) && Lower(name) != "iban"
  }

  lemma OpenIsJson(name: string, v: Value)
    requires OpenName(name)
    ensures Redact(name, v) == Jsonable(v)
  {
    LowerTwice(name);
  }

  /** A scalar of an open field is stored as it is. */
  lemma ScalarsAreShown(name: string, s: string, b: bool, n: int, kind: PrintedKind, inner: Value)
    requires OpenName(name)
    ensures Redact(name, Nothing) == Null
    ensures Redact(name, Text(s)) == Str(s)
    ensures Redact(name, Truth(b)) == Bool(b)
    ensures Redact(name, Whole(n)) == Number(n)
    ensures Redact(name, Printed(kind, s)) == Str(s)
    ensures Redact(name, Member(inner)) == Redact(name, inner)
  {
    OpenIsJson(name, Nothing);
    OpenIsJson(name, Text(s));
    OpenIsJson(name, Truth(b));
    OpenIsJson(name, Whole(n));
    OpenIsJson(name, Printed(kind, s));
    OpenIsJson(name, Member(inner));
    OpenIsJson(name, inner);
  }

  /** A dictionary keeps its keys in order, each with its own value redacted
      under its own name; a list keeps its elements in order. */
  lemma StructureIsShown(name: string, items: seq<Entry>, elements: seq<Value>)
    requires OpenName(name)
    ensures var j := Redact(name, Dict(items));
            && j.Object? && |j.fields| == |items|
            && forall i :: 0 <= i < |items| ==> j.fields[i] == Pair(items[i].key, Redact(items[i].key, items[i].value))
    ensures var j := Redact(name, List(elements));
            && j.Array? && |j.items| == |elements|
            && forall i :: 0 <= i < |elements| ==> j.items[i] == Redact(name, elements[i])
  {
    OpenIsJson(name, Dict(items));
    OpenIsJson(name, List(elements));
    FieldsInOrder(items);
    ElementsInOrder(elements);
    forall i | 0 <= i < |elements| ensures Redact(name, elements[i]) == Jsonable(elements[i]) {
      OpenIsJson(name, elements[i]);
    }
  }

  lemma {:induction false} FieldsInOrder(items: seq<Entry>)
    ensures |RedactAll(items)| == |items|
    ensures forall i :: 0 <= i < |items| ==>
              RedactAll(items)[i] == Pair(items[i].key, Redact(items[i].key, items[i].value))
    decreases |items|
  {
    if items != [] {
      FieldsInOrder(items[1..]);
      var rest := RedactAll(items[1..]);
      assert RedactAll(items) == [Pair(items[0].key, Redact(items[0].key, items[0].value))] + rest;
      forall i | 1 <= i < |items|
        ensures RedactAll(items)[i] == Pair(items[i].key, Redact(items[i].key, items[i].value))
      {
        assert RedactAll(items)[i] == rest[i - 1] && items[i] == items[1..][i - 1];
      }
    }
  }

  lemma {:induction false} ElementsInOrder(elements: seq<Value>)
    ensures |JsonAll(elements)| == |elements|
    ensures forall i :: 0 <= i < |elements| ==> JsonAll(elements)[i] == Jsonable(elements[i])
    decreases |elements|
  {
    if elements != [] {
      ElementsInOrder(elements[1..]);
    }
  }

  /** A secret field holds the marker, whatever its value. */
  lemma SecretIsMarked(name: string, v: Value)
    requires IsSecretField(name)
    ensures Redact(name, v) == Str("[redacted]")
  {
    LowerTwice(name);
  }

  // ----- The mask of an IBAN

  function Capital(c: char): char {
    if 97 <= c as int <= 122 then (c as int - 32) as char else c
  }

  /** The characters but the spaces, in order and as capitals. */
  function Unspaced(s: string): string {
    if s == [] then [] else Unspaced(s[..|s| - 1]) + if s[|s| - 1] as int == 32 then [] else [Capital(s[|s| - 1])]
  }

  lemma {:induction false} CompactConcat(a: string, b: string)
    ensures Compact(a + b) == Compact(a) + Compact(b)
  {
    if a == [] {
      assert a + b == b;
    } else {
      assert (a + b)[1..] == a[1..] + b;
      CompactConcat(a[1..], b);
    }
  }

  lemma {:induction false} CompactIsUnspaced(s: string)
    ensures Compact(s) == Unspaced(s)
  {
    if s != [] {
      var n := |s| - 1;
      CompactIsUnspaced(s[..n]);
      CompactConcat(s[..n], [s[n]]);
      assert s == s[..n] + [s[n]] && [s[n]][1..] == [];
    }
  }

  /** An IBAN shows its first two characters, an ellipsis and its last four; one
      of fewer than eight shows the marker, and so does anything but text. */
  lemma MaskExactly(name: string, v: Value)
    requires Lower(name) == "iban"
    ensures v.Nothing? ==> Redact(name, v) == Null
    ensures v.Text? && |Unspaced(v.text)| >= 8 ==>
              var c := Unspaced(v.text);
              Redact(name, v) == Str([c[0], c[1], '\U{2026}'] + c[|c| - 4..])
    ensures !v.Nothing? && (v.Text? ==> |Unspaced(v.text)| < 8) ==> Redact(name, v) == Str("[redacted]")
  {
    LowerTwice(name);
    NotSecret(name);
    if v.Text? {
      CompactIsUnspaced(v.text);
      var c := Unspaced(v.text);
      if |c| >= 8 { assert c[..2] == [c[0], c[1]]; }
    }
  }

  lemma NotSecret(name: string)
    requires Lower(name) == "iban"
    ensures !IsSecretField(name) && !IsSecretField(Lower(name)) && Lower(name) in MASKED_FIELDS
  {
    LowerTwice(name);
    SecretExactly(name);
    SecretExactly(Lower(name));
    forall x, suffix | SecretEnding(suffix) ensures "iban" != x + suffix {
      assert (x + suffix)[|x|] == suffix[0] == '_';
      assert forall i :: 0 <= i < 4 ==> "iban"[i] != '_';
    }
  }

  // ----- The diff

  /** The raw value of a field: none when there is no record or no such field. */
  predicate Raw(r: Option<Record>, name: string, v: Value) {
    if r == None then v == Nothing
    else if name in r.value then v == r.value[name]
    else v == Nothing
  }

  /** Without a list of fields the diff names exactly the fields of either side
      whose raw values differ, each with what was and what is, redacted. */
  lemma DiffExactly(before: Option<Record>, after: Option<Record>, same: Equality, name: string, was: Value, now: Value)
    requires Raw(before, name, was) && Raw(after, name, now)
    ensures var d := DiffOver(Names(before, after), before, after, same);
            && (name in d <==>
                  && ((before.Some? && name in before.value) || (after.Some? && name in after.value))
                  && !same(was, now))
            && (name in d ==> d[name].before == Redact(name, was) && d[name].after == Redact(name, now))
  {
  }

  /** With a list, exactly those of the fields listed. */
  lemma ListedDiffExactly(fields: seq<string>, before: Option<Record>, after: Option<Record>, same: Equality,
                          name: string, was: Value, now: Value)
    requires Raw(before, name, was) && Raw(after, name, now)
    ensures var d := DiffOver(Elements(fields), before, after, same);
            && (name in d <==> name in fields && !same(was, now))
            && (name in d ==> d[name].before == Redact(name, was) && d[name].after == Redact(name, now))
  {
  }
}
