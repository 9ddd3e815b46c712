/**
 Request identity for idempotent replay, `backend/auth/offline_replay_idempotency.py`.

 A request is hashed by dropping every secret field, writing the rest as compact JSON
 with sorted keys, and taking SHA-256.  The theorems say which requests share the hashed
 text, and that receipts of different actors never meet.
 */
module OfflineReplay {
  import opened Common
  import opened Sequences
  import opened Strings

  /** A number is kept as the text `json.dumps` writes for it, so `1` and `1.0` differ. */
  datatype Json =
    | Null
    | Bool(b: bool)
    | Number(lexeme: string)
    | Text(s: string)
    | List(items: seq<Json>)
    | Object(fields: seq<Field>)

  /** Objects list their fields in insertion order, as a Python dictionary does. */
  datatype Field = Field(key: string, value: Json)

  ghost predicate DistinctKeys(fs: seq<Field>) {
    forall i, j :: 0 <= i < j < |fs| ==> fs[i].key != fs[j].key
  }

  predicate NumberChar(c: char) {
    '0' <= c <= '9' || c == '-' || c == '+' || c == '.' || c == 'e' || c == 'E'
  }

  /** The values Python can build: dictionary keys are distinct, numbers are finite. */
  ghost predicate WellFormed(j: Json) {
    match j
    case Number(lexeme) =>
      lexeme != "" && ('0' <= lexeme[0] <= '9' || lexeme[0] == '-') && forall c :: c in lexeme ==> NumberChar(c)
    case List(items) => forall x :: x in items ==> WellFormed(x)
    case Object(fields) => DistinctKeys(fields) && forall f :: f in fields ==> WellFormed(f.value)
    case _ => true
  }

  // ---------------------------------------------------------------- redaction

  const SENSITIVE_KEYS: set<string> :=
    {"access_token", "authorization", "client_secret", "id_token", "password", "refresh_token", "secret", "token"}

  predicate Sensitive(key: string) {
    Lower(key) in SENSITIVE_KEYS
  }

  function Redact(j: Json): Json
    decreases j
  {
    match j
    case List(items) => List(RedactItems(items))
    case Object(fields) => Object(RedactFields(fields))
    case _ => j
  }

  function RedactItems(items: seq<Json>): (r: seq<Json>)
    ensures |r| == |items| && forall i :: 0 <= i < |r| ==> r[i] == Redact(items[i])
    decreases items
  {
    if items == [] then [] else [Redact(items[0])] + RedactItems(items[1..])
  }

  function RedactFields(fs: seq<Field>): seq<Field>
    decreases fs
  {
    if fs == [] then []
    else
      (if Sensitive(fs[0].key) then [] else [Field(fs[0].key, Redact(fs[0].value))]) + RedactFields(fs[1..])
  }

  /** `_redact_sensitive`, which fills its result field by field. */
  method RedactSensitive(j: Json) returns (r: Json)
    ensures r == Redact(j)
    decreases j
  {
    match j {
      case List(items) =>
        var out: seq<Json> := [];
        for i := 0 to |items|
          invariant |out| == i && forall k :: 0 <= k < i ==> out[k] == Redact(items[k])
        {
          var item := RedactSensitive(items[i]);
          out := out + [item];
        }
        assert out == RedactItems(items);
        r := List(out);
      case Object(fields) =>
        var out: seq<Field> := [];
        for i := 0 to |fields|
          invariant out == RedactFields(fields[..i])
        {
          RedactFieldsSnoc(fields[..i], fields[i]);
          assert fields[..i + 1] == fields[..i] + [fields[i]];
          if !Sensitive(fields[i].key) {
            var value := RedactSensitive(fields[i].value);
            out := out + [Field(fields[i].key, value)];
          }
        }
        assert fields[..|fields|] == fields;
        r := Object(out);
      case _ => r := j;
    }
  }

  lemma {:induction false} RedactFieldsSnoc(fs: seq<Field>, f: Field)
    ensures RedactFields(fs + [f])
         == RedactFields(fs) + if Sensitive(f.key) then [] else [Field(f.key, Redact(f.value))]
  {
    if fs == [] {
      assert fs + [f] == [f] && [f][1..] == [];
      AppendNothing(if Sensitive(f.key) then [] else [Field(f.key, Redact(f.value))]);
    } else {
      assert (fs + [f])[0] == fs[0] && (fs + [f])[1..] == fs[1..] + [f];
      RedactFieldsSnoc(fs[1..], f);
      Associative(if Sensitive(fs[0].key) then [] else [Field(fs[0].key, Redact(fs[0].value))],
                  RedactFields(fs[1..]), if Sensitive(f.key) then [] else [Field(f.key, Redact(f.value))]);
    }
  }

  /** Which fields survive: the public ones, with redacted values. */
  lemma {:induction false} RedactedField(fs: seq<Field>, g: Field)
    ensures g in RedactFields(fs)
            <==> exists f :: f in fs && !Sensitive(f.key) && g == Field(f.key, Redact(f.value))
  {
    if fs != [] {
      RedactedField(fs[1..], g);
      assert forall f :: f in fs <==> f == fs[0] || f in fs[1..];
    }
  }

  lemma {:induction false} RedactedKeysDistinct(fs: seq<Field>)
    requires DistinctKeys(fs)
    ensures DistinctKeys(RedactFields(fs))
  {
    if fs != [] {
      RedactedKeysDistinct(fs[1..]);
      forall g | g in RedactFields(fs[1..]) ensures g.key != fs[0].key {
        RedactedField(fs[1..], g);
      }
    }
  }

  ghost predicate NoSecret(j: Json) {
    match j
    case List(items) => forall x :: x in items ==> NoSecret(x)
    case Object(fields) => forall f :: f in fields ==> !Sensitive(f.key) && NoSecret(f.value)
    case _ => true
  }

  /** No sensitive key is left at any depth, and redaction keeps a value well formed. */
  lemma {:induction false} RedactionLeavesNoSecret(j: Json)
    ensures NoSecret(Redact(j))
    ensures WellFormed(j) ==> WellFormed(Redact(j))
    decreases j
  {
    match j {
      case List(items) =>
        forall i | 0 <= i < |items| ensures NoSecret(Redact(items[i])) && (WellFormed(items[i]) ==> WellFormed(Redact(items[i]))) {
          RedactionLeavesNoSecret(items[i]);
        }
      case Object(fields) =>
        forall g | g in RedactFields(fields)
          ensures !Sensitive(g.key) && NoSecret(g.value) && (WellFormed(j) ==> WellFormed(g.value))
        {
          RedactedField(fields, g);
          var f :| f in fields && !Sensitive(f.key) && g == Field(f.key, Redact(f.value));
          RedactionLeavesNoSecret(f.value);
        }
        if DistinctKeys(fields) {
          RedactedKeysDistinct(fields);
        }
      case _ =>
    }
  }

  /** A value without secrets is left exactly as it is. */
  lemma {:induction false} RedactionKeepsPublicValues(j: Json)
    requires NoSecret(j)
    ensures Redact(j) == j
    decreases j
  {
    match j {
      case List(items) =>
        forall i | 0 <= i < |items| ensures Redact(items[i]) == items[i] {
          RedactionKeepsPublicValues(items[i]);
        }
        assert RedactItems(items) == items;
      case Object(fields) => RedactionKeepsPublicFields(fields);
      case _ =>
    }
  }

  lemma {:induction false} RedactionKeepsPublicFields(fs: seq<Field>)
    requires forall f :: f in fs ==> !Sensitive(f.key) && NoSecret(f.value)
    ensures RedactFields(fs) == fs
    decreases fs
  {
    if fs != [] {
      RedactionKeepsPublicValues(fs[0].value);
      RedactionKeepsPublicFields(fs[1..]);
    }
  }

  lemma RedactionIsIdempotent(j: Json)
    ensures Redact(Redact(j)) == Redact(j)
  {
    RedactionLeavesNoSecret(j);
    RedactionKeepsPublicValues(Redact(j));
  }

  /** The eight words, written out; capitals do not matter. */
  lemma {:induction false} SensitiveWords(key: string)
    ensures Sensitive(key) <==>
              || Spells(key, "access_token") || Spells(key, "authorization") || Spells(key, "client_secret") || Spells(key, "id_token")
              || Spells(key, "password") || Spells(key, "refresh_token") || Spells(key, "secret") || Spells(key, "token")
  {
    LowerSpells(key, "access_token");
    LowerSpells(key, "authorization");
    LowerSpells(key, "client_secret");
    LowerSpells(key, "id_token");
    LowerSpells(key, "password");
    LowerSpells(key, "refresh_token");
    LowerSpells(key, "secret");
    LowerSpells(key, "token");
  }

  /** Of the fields of an object exactly those stay whose key spells none of the words, under their key and with a redacted value. */
  lemma {:induction false} FieldStaysIff(fs: seq<Field>, g: Field)
    ensures g in RedactFields(fs) <==>
              (&& !Spells(g.key, "access_token") && !Spells(g.key, "authorization") && !Spells(g.key, "client_secret")
               && !Spells(g.key, "id_token") && !Spells(g.key, "password") && !Spells(g.key, "refresh_token")
               && !Spells(g.key, "secret") && !Spells(g.key, "token")
               && exists f :: f in fs && f.key == g.key && g.value == Redact(f.value))
  {
    RedactedField(fs, g);
    SensitiveWords(g.key);
    if g in RedactFields(fs) {
      var f :| f in fs && !Sensitive(f.key) && g == Field(f.key, Redact(f.value));
      assert f.key == g.key && g.value == Redact(f.value);
    }
    if f :| f in fs && f.key == g.key && g.value == Redact(f.value) {
      assert g == Field(f.key, Redact(f.value));
    }
  }

  /** Some object in the value, at whatever depth, has the key. */
  ghost predicate HasKey(j: Json, key: string) {
    match j
    case List(items) => exists x :: x in items && HasKey(x, key)
    case Object(fields) => exists f :: f in fields && (f.key == key || HasKey(f.value, key))
    case _ => false
  }

  lemma {:induction false} NoSecretKey(j: Json, key: string)
    requires NoSecret(j) && HasKey(j, key)
    ensures !Sensitive(key)
    decreases j
  {
    match j
    case List(items) =>
      var x :| x in items && HasKey(x, key);
      NoSecretKey(x, key);
    case Object(fields) =>
      var f :| f in fields && (f.key == key || HasKey(f.value, key));
      if f.key != key {
        NoSecretKey(f.value, key);
      }
  }

  /** No key that spells one of the words is left, at any depth. */
  lemma {:induction false} SecretsAreGone(j: Json, key: string)
    requires HasKey(Redact(j), key)
    ensures !Spells(key, "access_token") && !Spells(key, "authorization") && !Spells(key, "client_secret")
    ensures !Spells(key, "id_token") && !Spells(key, "password") && !Spells(key, "refresh_token")
    ensures !Spells(key, "secret") && !Spells(key, "token")
  {
    RedactionLeavesNoSecret(j);
    NoSecretKey(Redact(j), key);
    SensitiveWords(key);
  }

  // ---------------------------------------------------------------- sorted keys

  /** Python orders strings by code point. */
  predicate Less(a: string, b: string) {
    b != [] && (a == [] || a[0] < b[0] || (a[0] == b[0] && Less(a[1..], b[1..])))
  }

  lemma {:induction false} LessIsTotal(a: string, b: string)
    ensures Less(a, b) || Less(b, a) || a == b
    ensures !(Less(a, b) && Less(b, a)) && !Less(a, a)
  {
    if a != [] && b != [] {
      LessIsTotal(a[1..], b[1..]);
      LessIsTotal(a[1..], a[1..]);
      assert a == [a[0]] + a[1..] && b == [b[0]] + b[1..];
    } else if a != [] {
      LessIsTotal(a[1..], a[1..]);
    }
  }

  lemma {:induction false} LessIsTransitive(a: string, b: string, c: string)
    requires Less(a, b) && Less(b, c)
    ensures Less(a, c)
  {
    if a != [] && a[0] == b[0] && b[0] == c[0] {
      LessIsTransitive(a[1..], b[1..], c[1..]);
    }
  }

  /** `a` comes first exactly when it ends, or has the smaller character, where the two part. */
  lemma {:induction false} LessAtFirstDifference(a: string, b: string)
    ensures Less(a, b) <==> exists n: nat :: n <= |a| && n < |b| && a[..n] == b[..n] && (n == |a| || a[n] < b[n])
  {
    if Less(a, b) {
      if a == [] || a[0] < b[0] {
        assert a[..0] == b[..0];
      } else {
        LessAtFirstDifference(a[1..], b[1..]);
        var n: nat :| n <= |a[1..]| && n < |b[1..]| && a[1..][..n] == b[1..][..n] && (n == |a[1..]| || a[1..][n] < b[1..][n]);
        assert a[..n + 1] == [a[0]] + a[1..][..n] && b[..n + 1] == [b[0]] + b[1..][..n];
      }
    }
    if n: nat :| n <= |a| && n < |b| && a[..n] == b[..n] && (n == |a| || a[n] < b[n]) {
      if n > 0 {
        assert a[0] == a[..n][0] && b[0] == b[..n][0];
        assert a[1..][..n - 1] == a[..n][1..] && b[1..][..n - 1] == b[..n][1..];
        LessAtFirstDifference(a[1..], b[1..]);
      }
    }
  }

  function InsertField(fs: seq<Field>, f: Field): seq<Field> {
    if fs == [] || Less(f.key, fs[0].key) then [f] + fs else [fs[0]] + InsertField(fs[1..], f)
  }

  function SortFields(fs: seq<Field>): seq<Field> {
    if fs == [] then [] else InsertField(SortFields(fs[1..]), fs[0])
  }

  ghost predicate Ascending(fs: seq<Field>) {
    forall i, j :: 0 <= i < j < |fs| ==> Less(fs[i].key, fs[j].key)
  }

  lemma {:induction false} InsertFieldFacts(fs: seq<Field>, f: Field)
    requires Ascending(fs) && forall g :: g in fs ==> g.key != f.key
    ensures Ascending(InsertField(fs, f))
    ensures forall g :: g in InsertField(fs, f) <==> g == f || g in fs
  {
    if fs != [] {
      LessIsTotal(f.key, fs[0].key);
      if Less(f.key, fs[0].key) {
        forall i | 0 < i < |fs| ensures Less(f.key, fs[i].key) {
          LessIsTransitive(f.key, fs[0].key, fs[i].key);
        }
      } else {
        var rest := fs[1..];
        InsertFieldFacts(rest, f);
        assert forall g :: g in fs <==> g == fs[0] || g in rest;
        forall g | g in InsertField(rest, f) ensures Less(fs[0].key, g.key) {
        }
      }
    }
  }

  lemma {:induction false} SortFieldsFacts(fs: seq<Field>)
    requires DistinctKeys(fs)
    ensures Ascending(SortFields(fs))
    ensures forall g :: g in SortFields(fs) <==> g in fs
  {
    if fs != [] {
      SortFieldsFacts(fs[1..]);
      assert forall g :: g in fs <==> g == fs[0] || g in fs[1..];
      InsertFieldFacts(SortFields(fs[1..]), fs[0]);
    }
  }

  lemma HasMember(fs: seq<Field>)
    ensures fs == [] || exists f :: f in fs
  {
    if fs != [] {
      assert fs[0] in fs;
    }
  }

  /** An ascending field list is determined by its fields. */
  lemma {:induction false} AscendingIsUnique(a: seq<Field>, b: seq<Field>)
    requires Ascending(a) && Ascending(b)
    requires forall f :: f in a <==> f in b
    ensures a == b
  {
    if a == [] {
      HasMember(b);
    } else {
      assert a[0] in b;
      assert b[0] in a;
      LessIsTotal(a[0].key, b[0].key);
      assert a[0] == b[0];
      forall f ensures f in a[1..] <==> f in b[1..] {
        LessIsTotal(a[0].key, a[0].key);
        assert a[0] !in a[1..] && b[0] !in b[1..];
        assert f in a <==> f == a[0] || f in a[1..];
        assert f in b <==> f == b[0] || f in b[1..];
      }
      AscendingIsUnique(a[1..], b[1..]);
      assert a == [a[0]] + a[1..] && b == [b[0]] + b[1..];
    }
  }

  /** The value `json.dumps(..., sort_keys=True)` writes out. */
  function SortKeys(j: Json): Json
    decreases j
  {
    match j
    case List(items) => List(SortItems(items))
    case Object(fields) => Object(SortFields(SortValues(fields)))
    case _ => j
  }

  function SortItems(items: seq<Json>): (r: seq<Json>)
    ensures |r| == |items| && forall i :: 0 <= i < |r| ==> r[i] == SortKeys(items[i])
    decreases items
  {
    if items == [] then [] else [SortKeys(items[0])] + SortItems(items[1..])
  }

  function SortValues(fs: seq<Field>): (r: seq<Field>)
    ensures |r| == |fs| && forall i :: 0 <= i < |r| ==> r[i] == Field(fs[i].key, SortKeys(fs[i].value))
    decreases fs
  {
    if fs == [] then [] else [Field(fs[0].key, SortKeys(fs[0].value))] + SortValues(fs[1..])
  }

  function Canonical(j: Json): Json {
    SortKeys(Redact(j))
  }

  // ---------------------------------------------------------------- agreement

  /** Equal up to the order of keys and up to secret fields, at every depth. */
  ghost predicate Agree(a: Json, b: Json)
    decreases a
  {
    match a
    case List(xs) => b.List? && |xs| == |b.items| && forall i :: 0 <= i < |xs| ==> Agree(xs[i], b.items[i])
    case Object(fs) =>
      && b.Object?
      && (forall f | f in fs && !Sensitive(f.key) ::
            exists g :: g in b.fields && g.key == f.key && Agree(f.value, g.value))
      && (forall g | g in b.fields && !Sensitive(g.key) :: exists f :: f in fs && f.key == g.key)
    case _ => a == b
  }

  lemma CanonicalField(fs: seq<Field>, g: Field)
    requires DistinctKeys(fs)
    ensures DistinctKeys(SortValues(RedactFields(fs)))
    ensures g in SortFields(SortValues(RedactFields(fs)))
            <==> exists f :: f in fs && !Sensitive(f.key) && g == Field(f.key, Canonical(f.value))
  {
    var r := RedactFields(fs);
    RedactedKeysDistinct(fs);
    SortFieldsFacts(SortValues(r));
    if g in SortValues(r) {
      var i :| 0 <= i < |r| && SortValues(r)[i] == g;
      assert r[i] in r;
      RedactedField(fs, r[i]);
    }
    forall f | f in fs && !Sensitive(f.key) && g == Field(f.key, Canonical(f.value)) ensures g in SortValues(r) {
      RedactedField(fs, Field(f.key, Redact(f.value)));
      var i :| 0 <= i < |r| && r[i] == Field(f.key, Redact(f.value));
      assert SortValues(r)[i] == g;
    }
  }

  lemma SameKeySameField(fs: seq<Field>, f: Field, g: Field)
    requires DistinctKeys(fs) && f in fs && g in fs && f.key == g.key
    ensures f == g
  {
  }

  /** Agreement is exactly equality of the canonical values. */
  lemma {:induction false} AgreeIffSameCanonical(a: Json, b: Json)
    requires WellFormed(a) && WellFormed(b)
    ensures Agree(a, b) <==> Canonical(a) == Canonical(b)
    decreases a
  {
    match a {
      case List(xs) =>
        if b.List? && |xs| == |b.items| {
          forall i | 0 <= i < |xs| ensures Agree(xs[i], b.items[i]) <==> Canonical(xs[i]) == Canonical(b.items[i]) {
            AgreeIffSameCanonical(xs[i], b.items[i]);
          }
          var ca, cb := SortItems(RedactItems(xs)), SortItems(RedactItems(b.items));
          assert ca == cb <==> forall i :: 0 <= i < |xs| ==> ca[i] == cb[i];
        }
      case Object(fs) =>
        if b.Object? {
          forall f, g | f in fs && g in b.fields
            ensures Agree(f.value, g.value) <==> Canonical(f.value) == Canonical(g.value) {
            AgreeIffSameCanonical(f.value, g.value);
          }
          ObjectsAgree(fs, b.fields);
        }
      case _ =>
    }
  }

  ghost predicate FieldwiseSound(fs: seq<Field>, gs: seq<Field>) {
    forall f, g | f in fs && g in gs :: Agree(f.value, g.value) <==> Canonical(f.value) == Canonical(g.value)
  }

  lemma ObjectsAgree(fs: seq<Field>, gs: seq<Field>)
    requires DistinctKeys(fs) && DistinctKeys(gs) && FieldwiseSound(fs, gs)
    ensures Agree(Object(fs), Object(gs)) <==> Canonical(Object(fs)) == Canonical(Object(gs))
  {
    if Canonical(Object(fs)) == Canonical(Object(gs)) {
      SameCanonicalAgrees(fs, gs);
    }
    if Agree(Object(fs), Object(gs)) {
      forall h ensures h in CanonicalFields(fs) <==> h in CanonicalFields(gs) {
        AgreeingFieldsMatch(fs, gs, h);
      }
      CanonicalFieldsAscend(fs);
      CanonicalFieldsAscend(gs);
      AscendingIsUnique(CanonicalFields(fs), CanonicalFields(gs));
    }
  }

  function CanonicalFields(fs: seq<Field>): seq<Field> {
    SortFields(SortValues(RedactFields(fs)))
  }

  lemma CanonicalFieldsAscend(fs: seq<Field>)
    requires DistinctKeys(fs)
    ensures Ascending(CanonicalFields(fs))
  {
    RedactedKeysDistinct(fs);
    SortFieldsFacts(SortValues(RedactFields(fs)));
  }

  lemma SameCanonicalAgrees(fs: seq<Field>, gs: seq<Field>)
    requires DistinctKeys(fs) && DistinctKeys(gs) && FieldwiseSound(fs, gs)
    requires CanonicalFields(fs) == CanonicalFields(gs)
    ensures Agree(Object(fs), Object(gs))
  {
    forall f | f in fs && !Sensitive(f.key) ensures exists g :: g in gs && g.key == f.key && Agree(f.value, g.value) {
      CanonicalField(fs, Field(f.key, Canonical(f.value)));
      CanonicalField(gs, Field(f.key, Canonical(f.value)));
    }
    forall g | g in gs && !Sensitive(g.key) ensures exists f :: f in fs && f.key == g.key {
      CanonicalField(gs, Field(g.key, Canonical(g.value)));
      CanonicalField(fs, Field(g.key, Canonical(g.value)));
    }
  }

  lemma {:induction false} AgreeingFieldCarriesOver(fs: seq<Field>, gs: seq<Field>, h: Field)
    requires DistinctKeys(fs) && DistinctKeys(gs) && FieldwiseSound(fs, gs)
    requires Agree(Object(fs), Object(gs)) && h in CanonicalFields(fs)
    ensures h in CanonicalFields(gs)
  {
    CanonicalField(fs, h);
    CanonicalField(gs, h);
    var f :| f in fs && !Sensitive(f.key) && h == Field(f.key, Canonical(f.value));
    var g :| g in gs && g.key == f.key && Agree(f.value, g.value);
  }

  lemma {:induction false} AgreeingFieldCarriesBack(fs: seq<Field>, gs: seq<Field>, h: Field)
    requires DistinctKeys(fs) && DistinctKeys(gs) && FieldwiseSound(fs, gs)
    requires Agree(Object(fs), Object(gs)) && h in CanonicalFields(gs)
    ensures h in CanonicalFields(fs)
  {
    CanonicalField(gs, h);
    var g :| g in gs && !Sensitive(g.key) && h == Field(g.key, Canonical(g.value));
    var f :| f in fs && f.key == g.key;
    var g' :| g' in gs && g'.key == f.key && Agree(f.value, g'.value);
    SameKeySameField(gs, g, g');
    CanonicalField(fs, h);
  }

  lemma {:induction false} AgreeingFieldsMatch(fs: seq<Field>, gs: seq<Field>, h: Field)
    requires DistinctKeys(fs) && DistinctKeys(gs) && FieldwiseSound(fs, gs)
    requires Agree(Object(fs), Object(gs))
    ensures h in CanonicalFields(fs) <==> h in CanonicalFields(gs)
  {
    if h in CanonicalFields(fs) {
      AgreeingFieldCarriesOver(fs, gs, h);
    }
    if h in CanonicalFields(gs) {
      AgreeingFieldCarriesBack(fs, gs, h);
    }
  }

  // ---------------------------------------------------------------- JSON text

  function HexDigit(n: nat): char
    requires n < 16
  {
    if n < 10 then (n + '0' as int) as char else (n - 10 + 'a' as int) as char
  }

  /** The escape of one character with `ensure_ascii=False`. */
  function Escape(c: char): (e: string)
    ensures e != [] && e[0] != '"'
  {
    if c == '"' then ['\\', '"']
    else if c == '\\' then ['\\', '\\']
    else if c as int >= 32 then [c]
    else if c == '\n' then ['\\', 'n']
    else if c == '\r' then ['\\', 'r']
    else if c == '\t' then ['\\', 't']
    else if c as int == 8 then ['\\', 'b']
    else if c as int == 12 then ['\\', 'f']
    else ['\\', 'u', '0', '0', HexDigit(c as int / 16), HexDigit(c as int % 16)]
  }

  /** Each writer puts its value in front of the text that follows it. */
  function WriteChars(s: string, rest: string): string {
    if s == [] then rest else Escape(s[0]) + WriteChars(s[1..], rest)
  }

  function WriteText(s: string, rest: string): string {
    ['"'] + WriteChars(s, ['"'] + rest)
  }

  function Write(j: Json, rest: string): string
    decreases j, 0
  {
    match j
    case Null => "null" + rest
    case Bool(b) => if b then "true" + rest else "false" + rest
    case Number(lexeme) => lexeme + rest
    case Text(s) => WriteText(s, rest)
    case List(items) => ['['] + if items == [] then [']'] + rest else Write(items[0], WriteItems(items[1..], rest))
    case Object(fields) => ['{'] + if fields == [] then ['}'] + rest else WriteField(fields[0], WriteFields(fields[1..], rest))
  }

  function WriteItems(items: seq<Json>, rest: string): string
    decreases items, 0
  {
    if items == [] then [']'] + rest else [','] + Write(items[0], WriteItems(items[1..], rest))
  }

  function WriteField(f: Field, rest: string): string
    decreases f, 1
  {
    WriteText(f.key, [':'] + Write(f.value, rest))
  }

  function WriteFields(fs: seq<Field>, rest: string): string
    decreases fs, 0
  {
    if fs == [] then ['}'] + rest else [','] + WriteField(fs[0], WriteFields(fs[1..], rest))
  }

  /** `json.dumps` with compact separators. */
  function Dumps(j: Json): string {
    Write(j, [])
  }

  /** What may follow a value inside a document. */
  predicate Ends(rest: string) {
    rest == [] || rest[0] == ',' || rest[0] == ']' || rest[0] == '}'
  }

  lemma EscapeIsPrefixFree(c: char, d: char, x: string, y: string)
    requires Escape(c) + x == Escape(d) + y
    ensures c == d && x == y
  {
    var p, q := Escape(c) + x, Escape(d) + y;
    assert p[0] == Escape(c)[0] && q[0] == Escape(d)[0];
    if p[0] == '\\' {
      assert p[1] == Escape(c)[1] && q[1] == Escape(d)[1];
      if p[1] == 'u' {
        assert p[4] == Escape(c)[4] && q[4] == Escape(d)[4];
        assert p[5] == Escape(c)[5] && q[5] == Escape(d)[5];
        HexDigitsDiffer(c as int / 16, d as int / 16);
        HexDigitsDiffer(c as int % 16, d as int % 16);
      }
    }
    assert c == d;
    assert x == p[|Escape(c)|..] && y == q[|Escape(d)|..];
  }

  lemma HexDigitsDiffer(m: nat, n: nat)
    requires m < 16 && n < 16
    ensures HexDigit(m) == HexDigit(n) ==> m == n
  {
  }

  lemma {:induction false} CharsAreReadable(s: string, t: string, x: string, y: string)
    requires WriteChars(s, ['"'] + x) == WriteChars(t, ['"'] + y)
    ensures s == t && x == y
  {
    var p, q := WriteChars(s, ['"'] + x), WriteChars(t, ['"'] + y);
    if s == [] {
      assert p[0] == '"';
      assert t == [];
      assert x == p[1..] && y == q[1..];
    } else {
      assert p[0] == Escape(s[0])[0];
      assert t != [];
      EscapeIsPrefixFree(s[0], t[0], WriteChars(s[1..], ['"'] + x), WriteChars(t[1..], ['"'] + y));
      CharsAreReadable(s[1..], t[1..], x, y);
      assert s == [s[0]] + s[1..] && t == [t[0]] + t[1..];
    }
  }

  lemma TextsAreReadable(s: string, t: string, x: string, y: string)
    requires WriteText(s, x) == WriteText(t, y)
    ensures s == t && x == y
  {
    assert WriteText(s, x)[1..] == WriteChars(s, ['"'] + x);
    assert WriteText(t, y)[1..] == WriteChars(t, ['"'] + y);
    CharsAreReadable(s, t, x, y);
  }

  lemma {:induction false} NumbersAreReadable(m: string, n: string, x: string, y: string)
    requires (forall c :: c in m ==> NumberChar(c)) && (forall c :: c in n ==> NumberChar(c))
    requires Ends(x) && Ends(y) && m + x == n + y
    ensures m == n && x == y
  {
    if m == [] {
      assert m + x == x;
    } else {
      NumberDoesNotEnd(m, x);
    }
    if n == [] {
      assert n + y == y;
    } else {
      NumberDoesNotEnd(n, y);
    }
    if m != [] && n != [] {
      assert (m + x)[0] == m[0] && (n + y)[0] == n[0];
      assert (m + x)[1..] == m[1..] + x && (n + y)[1..] == n[1..] + y;
      NumbersAreReadable(m[1..], n[1..], x, y);
      assert m == [m[0]] + m[1..] && n == [n[0]] + n[1..];
    }
  }

  lemma NumberDoesNotEnd(m: string, x: string)
    requires m != [] && forall c :: c in m ==> NumberChar(c)
    ensures !Ends(m + x)
  {
    assert m[0] in m && (m + x)[0] == m[0];
  }

  /** The first character of a written value names its constructor. */
  function Lead(j: Json): char
    requires j.Number? ==> j.lexeme != ""
  {
    match j
    case Null => 'n'
    case Bool(b) => if b then 't' else 'f'
    case Number(lexeme) => lexeme[0]
    case Text(_) => '"'
    case List(_) => '['
    case Object(_) => '{'
  }

  lemma WriteLeads(j: Json, rest: string)
    requires j.Number? ==> j.lexeme != ""
    ensures Write(j, rest) != [] && Write(j, rest)[0] == Lead(j)
  {
  }

  lemma SameLeadSameKind(a: Json, b: Json)
    requires WellFormed(a) && WellFormed(b) && Lead(a) == Lead(b)
    ensures a.Null? == b.Null? && a.Bool? == b.Bool? && a.Number? == b.Number?
    ensures a.Text? == b.Text? && a.List? == b.List? && a.Object? == b.Object?
    ensures a.Bool? ==> a == b
  {
  }

  /** A written value can be read back in front of any following text: two values are never confused. */
  lemma {:induction false} ValuesAreReadable(a: Json, b: Json, x: string, y: string)
    requires WellFormed(a) && WellFormed(b) && Ends(x) && Ends(y)
    requires Write(a, x) == Write(b, y)
    ensures a == b && x == y
    decreases a, 0
  {
    WriteLeads(a, x);
    WriteLeads(b, y);
    SameLeadSameKind(a, b);
    var p, q := Write(a, x), Write(b, y);
    match a {
      case Null =>
        assert x == p[4..] && y == q[4..];
      case Bool(v) =>
        var n := if v then 4 else 5;
        assert x == p[n..] && y == q[n..];
      case Number(m) => NumbersAreReadable(m, b.lexeme, x, y);
      case Text(s) => TextsAreReadable(s, b.s, x, y);
      case List(xs) =>
        if xs == [] || b.items == [] {
          EmptyListReadable(xs, b.items, x, y);
        } else {
          assert p[1..] == Write(xs[0], WriteItems(xs[1..], x));
          assert q[1..] == Write(b.items[0], WriteItems(b.items[1..], y));
          ValuesAreReadable(xs[0], b.items[0], WriteItems(xs[1..], x), WriteItems(b.items[1..], y));
          ItemsAreReadable(xs[1..], b.items[1..], x, y);
          assert xs == [xs[0]] + xs[1..] && b.items == [b.items[0]] + b.items[1..];
        }
      case Object(fs) =>
        if fs == [] || b.fields == [] {
          EmptyObjectReadable(fs, b.fields, x, y);
        } else {
          assert p[1..] == WriteField(fs[0], WriteFields(fs[1..], x));
          assert q[1..] == WriteField(b.fields[0], WriteFields(b.fields[1..], y));
          FieldIsReadable(fs[0], b.fields[0], WriteFields(fs[1..], x), WriteFields(b.fields[1..], y));
          FieldsAreReadable(fs[1..], b.fields[1..], x, y);
          assert fs == [fs[0]] + fs[1..] && b.fields == [b.fields[0]] + b.fields[1..];
        }
    }
  }

  lemma EmptyListShows(xs: seq<Json>, x: string)
    requires WellFormed(List(xs))
    ensures |Write(List(xs), x)| >= 2
    ensures Write(List(xs), x)[1] == ']' <==> xs == []
  {
    if xs != [] {
      assert xs[0] in xs;
      WriteLeads(xs[0], WriteItems(xs[1..], x));
    }
  }

  lemma EmptyListReadable(xs: seq<Json>, ys: seq<Json>, x: string, y: string)
    requires WellFormed(List(xs)) && WellFormed(List(ys)) && (xs == [] || ys == [])
    requires Write(List(xs), x) == Write(List(ys), y)
    ensures xs == ys && x == y
  {
    EmptyListShows(xs, x);
    EmptyListShows(ys, y);
    assert x == Write(List(xs), x)[2..] && y == Write(List(ys), y)[2..];
  }

  lemma EmptyObjectReadable(fs: seq<Field>, gs: seq<Field>, x: string, y: string)
    requires fs == [] || gs == []
    requires Write(Object(fs), x) == Write(Object(gs), y)
    ensures fs == gs && x == y
  {
    var p, q := Write(Object(fs), x), Write(Object(gs), y);
    assert p[1] == if fs == [] then '}' else '"';
    assert q[1] == if gs == [] then '}' else '"';
    assert x == p[2..] && y == q[2..];
  }

  lemma {:induction false} ItemsAreReadable(xs: seq<Json>, ys: seq<Json>, x: string, y: string)
    requires (forall v :: v in xs ==> WellFormed(v)) && (forall v :: v in ys ==> WellFormed(v))
    requires WriteItems(xs, x) == WriteItems(ys, y)
    ensures xs == ys && x == y
    decreases xs, 1
  {
    var p, q := WriteItems(xs, x), WriteItems(ys, y);
    assert p[0] == if xs == [] then ']' else ',';
    assert q[0] == if ys == [] then ']' else ',';
    if xs == [] {
      assert x == p[1..] && y == q[1..];
    } else {
      assert p[1..] == Write(xs[0], WriteItems(xs[1..], x));
      assert q[1..] == Write(ys[0], WriteItems(ys[1..], y));
      ValuesAreReadable(xs[0], ys[0], WriteItems(xs[1..], x), WriteItems(ys[1..], y));
      ItemsAreReadable(xs[1..], ys[1..], x, y);
      assert xs == [xs[0]] + xs[1..] && ys == [ys[0]] + ys[1..];
    }
  }

  lemma {:induction false} FieldIsReadable(f: Field, g: Field, x: string, y: string)
    requires WellFormed(f.value) && WellFormed(g.value) && Ends(x) && Ends(y)
    requires WriteField(f, x) == WriteField(g, y)
    ensures f == g && x == y
    decreases f, 1
  {
    var vx, vy := Write(f.value, x), Write(g.value, y);
    TextsAreReadable(f.key, g.key, [':'] + vx, [':'] + vy);
    assert vx == ([':'] + vx)[1..] && vy == ([':'] + vy)[1..];
    ValuesAreReadable(f.value, g.value, x, y);
  }

  lemma {:induction false} FieldsAreReadable(fs: seq<Field>, gs: seq<Field>, x: string, y: string)
    requires (forall f :: f in fs ==> WellFormed(f.value)) && (forall f :: f in gs ==> WellFormed(f.value))
    requires WriteFields(fs, x) == WriteFields(gs, y)
    ensures fs == gs && x == y
    decreases fs, 1
  {
    var p, q := WriteFields(fs, x), WriteFields(gs, y);
    assert p[0] == if fs == [] then '}' else ',';
    assert q[0] == if gs == [] then '}' else ',';
    if fs == [] {
      assert x == p[1..] && y == q[1..];
    } else {
      assert p[1..] == WriteField(fs[0], WriteFields(fs[1..], x));
      assert q[1..] == WriteField(gs[0], WriteFields(gs[1..], y));
      FieldIsReadable(fs[0], gs[0], WriteFields(fs[1..], x), WriteFields(gs[1..], y));
      FieldsAreReadable(fs[1..], gs[1..], x, y);
      assert fs == [fs[0]] + fs[1..] && gs == [gs[0]] + gs[1..];
    }
  }

  // ---------------------------------------------------------------- the text itself

  /** `sep.join(parts)` */
  function Join(sep: string, parts: seq<string>): string {
    if parts == [] then "" else if |parts| == 1 then parts[0] else parts[0] + sep + Join(sep, parts[1..])
  }

  function ItemTexts(items: seq<Json>): (r: seq<string>)
    ensures |r| == |items| && forall i | 0 <= i < |r| :: r[i] == Dumps(items[i])
  {
    if items == [] then [] else [Dumps(items[0])] + ItemTexts(items[1..])
  }

  function FieldTexts(fs: seq<Field>): (r: seq<string>)
    ensures |r| == |fs| && forall i | 0 <= i < |r| :: r[i] == Dumps(Text(fs[i].key)) + ":" + Dumps(fs[i].value)
  {
    if fs == [] then [] else [Dumps(Text(fs[0].key)) + ":" + Dumps(fs[0].value)] + FieldTexts(fs[1..])
  }

  lemma {:induction false} WriteCharsAppends(s: string, x: string, y: string)
    ensures WriteChars(s, x + y) == WriteChars(s, x) + y
  {
    if s != [] {
      WriteCharsAppends(s[1..], x, y);
      Associative(Escape(s[0]), WriteChars(s[1..], x), y);
    }
  }

  lemma WriteTextAppends(s: string, x: string, y: string)
    ensures WriteText(s, x + y) == WriteText(s, x) + y
  {
    Associative(['"'], x, y);
    WriteCharsAppends(s, ['"'] + x, y);
    Associative(['"'], WriteChars(s, ['"'] + x), y);
  }

  /** Writing in front of a text is writing and then the text. */
  lemma {:induction false} WriteAppends(j: Json, x: string, y: string)
    ensures Write(j, x + y) == Write(j, x) + y
    decreases j, 0
  {
    match j
    case Null => Associative("null", x, y);
    case Bool(b) => Associative(if b then "true" else "false", x, y);
    case Number(lexeme) => Associative(lexeme, x, y);
    case Text(s) => WriteTextAppends(s, x, y);
    case List(items) =>
      if items == [] {
        assert ['['] + ([']'] + (x + y)) == (['['] + ([']'] + x)) + y;
      } else {
        WriteItemsAppends(items[1..], x, y);
        WriteAppends(items[0], WriteItems(items[1..], x), y);
        Associative(['['], Write(items[0], WriteItems(items[1..], x)), y);
      }
    case Object(fields) =>
      if fields == [] {
        assert ['{'] + (['}'] + (x + y)) == (['{'] + (['}'] + x)) + y;
      } else {
        WriteFieldsAppends(fields[1..], x, y);
        WriteFieldAppends(fields[0], WriteFields(fields[1..], x), y);
        Associative(['{'], WriteField(fields[0], WriteFields(fields[1..], x)), y);
      }
  }

  lemma {:induction false} WriteItemsAppends(items: seq<Json>, x: string, y: string)
    ensures WriteItems(items, x + y) == WriteItems(items, x) + y
    decreases items, 0
  {
    if items == [] {
      Associative([']'], x, y);
    } else {
      WriteItemsAppends(items[1..], x, y);
      WriteAppends(items[0], WriteItems(items[1..], x), y);
      Associative([','], Write(items[0], WriteItems(items[1..], x)), y);
    }
  }

  lemma {:induction false} WriteFieldAppends(f: Field, x: string, y: string)
    ensures WriteField(f, x + y) == WriteField(f, x) + y
    decreases f, 1
  {
    WriteAppends(f.value, x, y);
    Associative([':'], Write(f.value, x), y);
    WriteTextAppends(f.key, [':'] + Write(f.value, x), y);
  }

  lemma {:induction false} WriteFieldsAppends(fs: seq<Field>, x: string, y: string)
    ensures WriteFields(fs, x + y) == WriteFields(fs, x) + y
    decreases fs, 0
  {
    if fs == [] {
      Associative(['}'], x, y);
    } else {
      WriteFieldsAppends(fs[1..], x, y);
      WriteFieldAppends(fs[0], WriteFields(fs[1..], x), y);
      Associative([','], WriteField(fs[0], WriteFields(fs[1..], x)), y);
    }
  }

  lemma WriteAfter(j: Json, y: string)
    ensures Write(j, y) == Dumps(j) + y
  {
    WriteAppends(j, [], y);
    AppendNothing(y);
  }

  lemma WriteFieldAfter(f: Field, y: string)
    ensures WriteField(f, y) == Dumps(Text(f.key)) + ":" + Dumps(f.value) + y
  {
    WriteAfter(f.value, y);
    WriteTextAppends(f.key, [], [':'] + (Dumps(f.value) + y));
    AppendNothing([':'] + (Dumps(f.value) + y));
    Associative([':'], Dumps(f.value), y);
    Associative(Dumps(Text(f.key)), [':'] + Dumps(f.value), y);
    Associative(Dumps(Text(f.key)), [':'], Dumps(f.value));
  }

  lemma {:induction false} ItemsJoin(items: seq<Json>)
    requires items != []
    ensures Write(items[0], WriteItems(items[1..], [])) == Join(",", ItemTexts(items)) + "]"
  {
    WriteAfter(items[0], WriteItems(items[1..], []));
    if |items| > 1 {
      ItemsJoin(items[1..]);
      Associative(Dumps(items[0]), ",", Join(",", ItemTexts(items[1..])) + "]");
      Associative(Dumps(items[0]) + ",", Join(",", ItemTexts(items[1..])), "]");
      assert ItemTexts(items)[1..] == ItemTexts(items[1..]);
    } else {
      assert items[1..] == [] && ([']'] + []) == "]";
    }
  }

  lemma {:induction false} FieldsJoin(fs: seq<Field>)
    requires fs != []
    ensures WriteField(fs[0], WriteFields(fs[1..], [])) == Join(",", FieldTexts(fs)) + "}"
  {
    var first := Dumps(Text(fs[0].key)) + ":" + Dumps(fs[0].value);
    WriteFieldAfter(fs[0], WriteFields(fs[1..], []));
    if |fs| > 1 {
      FieldsJoin(fs[1..]);
      Associative(first, ",", Join(",", FieldTexts(fs[1..])) + "}");
      Associative(first + ",", Join(",", FieldTexts(fs[1..])), "}");
      assert FieldTexts(fs)[1..] == FieldTexts(fs[1..]);
    } else {
      assert fs[1..] == [] && (['}'] + []) == "}";
    }
  }

  /** What is written: compact separators, no white space, the values in their order. */
  lemma {:induction false} DumpsIsJoin(items: seq<Json>, fields: seq<Field>, number: string)
    ensures Dumps(Null) == "null" && Dumps(Bool(true)) == "true" && Dumps(Bool(false)) == "false" && Dumps(Number(number)) == number
    ensures Dumps(List(items)) == "[" + Join(",", ItemTexts(items)) + "]"
    ensures Dumps(Object(fields)) == "{" + Join(",", FieldTexts(fields)) + "}"
  {
    AppendNothing(number);
    if items == [] {
      assert Dumps(List(items)) == ['['] + ([']'] + []);
    } else {
      ItemsJoin(items);
      Associative("[", Join(",", ItemTexts(items)), "]");
    }
    if fields == [] {
      assert Dumps(Object(fields)) == ['{'] + (['}'] + []);
    } else {
      FieldsJoin(fields);
      Associative("{", Join(",", FieldTexts(fields)), "}");
    }
  }

  function Escapes(s: string): (r: seq<string>)
    ensures |r| == |s| && forall i | 0 <= i < |r| :: r[i] == Escape(s[i])
  {
    if s == [] then [] else [Escape(s[0])] + Escapes(s[1..])
  }

  lemma {:induction false} CharsJoin(s: string, rest: string)
    ensures WriteChars(s, rest) == Join("", Escapes(s)) + rest
  {
    if |s| > 1 {
      CharsJoin(s[1..], rest);
      assert Escapes(s)[1..] == Escapes(s[1..]);
      Associative(Escape(s[0]), Join("", Escapes(s[1..])), rest);
      AppendNothing(Escape(s[0]));
    } else if |s| == 1 {
      assert s[1..] == [];
    }
  }

  /** A string is written between quotes, each character as its escape. */
  lemma DumpsOfText(s: string)
    ensures Dumps(Text(s)) == "\"" + Join("", Escapes(s)) + "\""
  {
    AppendNothing(['"']);
    CharsJoin(s, ['"']);
    Associative("\"", Join("", Escapes(s)), "\"");
  }

  /** The escapes: quote, backslash and the control characters, and nothing else. */
  lemma EscapesAre(c: char)
    ensures Escape('"') == "\\\"" && Escape('\\') == "\\\\" && Escape('\n') == "\\n" && Escape('\r') == "\\r" && Escape('\t') == "\\t"
    ensures Escape(8 as char) == "\\b" && Escape(12 as char) == "\\f"
    ensures c as int >= 32 && c != '"' && c != '\\' ==> Escape(c) == [c]
    ensures c as int < 32 && c as int !in {8, 9, 10, 12, 13} ==>
              Escape(c) == "\\u00" + ["0123456789abcdef"[c as int / 16], "0123456789abcdef"[c as int % 16]]
  {
  }

  // ---------------------------------------------------------------- the request hash

  lemma {:induction false} SortKeysKeepsWellFormed(j: Json)
    requires WellFormed(j)
    ensures WellFormed(SortKeys(j))
    decreases j
  {
    match j {
      case List(items) =>
        forall i | 0 <= i < |items| ensures WellFormed(SortItems(items)[i]) {
          SortKeysKeepsWellFormed(items[i]);
        }
      case Object(fields) =>
        forall i | 0 <= i < |fields| ensures WellFormed(SortValues(fields)[i].value) {
          SortKeysKeepsWellFormed(fields[i].value);
        }
        SortFieldsFacts(SortValues(fields));
        AscendingIsDistinct(SortFields(SortValues(fields)));
      case _ =>
    }
  }

  lemma AscendingIsDistinct(fs: seq<Field>)
    requires Ascending(fs)
    ensures DistinctKeys(fs)
  {
    forall i, j | 0 <= i < j < |fs| ensures fs[i].key != fs[j].key {
      LessIsTotal(fs[i].key, fs[j].key);
    }
  }

  /** The two halves of the hashed document. */
  function Document(payload: Json, identity: Json): Json {
    Object([Field("payload", payload), Field("resource_identity", identity)])
  }

  /** The text `stable_request_hash` hands to SHA-256; redaction happens before the document is built. */
  function HashInput(payload: Json, identity: Json): string {
    Dumps(SortKeys(Document(Redact(payload), Redact(identity))))
  }

  lemma {:induction false} HashInputReads(payload: Json, identity: Json)
    requires WellFormed(payload) && WellFormed(identity)
    ensures WellFormed(Document(Redact(payload), Redact(identity)))
    ensures SortKeys(Document(Redact(payload), Redact(identity))) == Document(Canonical(payload), Canonical(identity))
  {
    RedactionLeavesNoSecret(payload);
    RedactionLeavesNoSecret(identity);
    var fs := [Field("payload", Canonical(payload)), Field("resource_identity", Canonical(identity))];
    assert SortValues([Field("payload", Redact(payload)), Field("resource_identity", Redact(identity))]) == fs;
    assert Less("payload", "resource_identity");
    assert fs[1..] == [fs[1]];
    assert SortFields(fs[1..]) == [fs[1]];
    assert SortFields(fs) == fs;
  }

  lemma {:induction false} HashInputIsDocument(payload: Json, identity: Json)
    requires WellFormed(payload) && WellFormed(identity)
    ensures WellFormed(Document(Canonical(payload), Canonical(identity)))
    ensures HashInput(payload, identity) == Dumps(Document(Canonical(payload), Canonical(identity)))
  {
    HashInputReads(payload, identity);
    SortKeysKeepsWellFormed(Document(Redact(payload), Redact(identity)));
  }

  lemma {:induction false} DumpsOfTwo(f: Field, g: Field)
    ensures Dumps(Object([f, g]))
            == "{" + Dumps(Text(f.key)) + ":" + Dumps(f.value) + "," + (Dumps(Text(g.key)) + ":" + Dumps(g.value)) + "}"
  {
    var fs := [f, g];
    DumpsIsJoin([], fs, "");
    var texts := FieldTexts(fs);
    assert texts[1..] == [texts[1]];
    assert Join(",", texts) == texts[0] + "," + texts[1];
    Regroup(Dumps(Text(f.key)), ":", Dumps(f.value), ",", texts[1]);
  }

  /** The text that is hashed: both halves redacted and sorted, in one object, the payload first. */
  lemma {:induction false} HashInputText(payload: Json, identity: Json)
    requires WellFormed(payload) && WellFormed(identity)
    ensures HashInput(payload, identity)
            == "{" + Dumps(Text("payload")) + ":" + Dumps(SortKeys(Redact(payload))) + ","
               + (Dumps(Text("resource_identity")) + ":" + Dumps(SortKeys(Redact(identity)))) + "}"
  {
    HashInputIsDocument(payload, identity);
    DumpsOfTwo(Field("payload", Canonical(payload)), Field("resource_identity", Canonical(identity)));
  }

  lemma Regroup(key: string, colon: string, value: string, comma: string, second: string)
    ensures "{" + (key + colon + value + comma + second) + "}" == "{" + key + colon + value + comma + second + "}"
  {
  }

  /**
   Two requests are hashed from the same text exactly when payload and identity agree up
   to key order and secret fields, at every depth.
   */
  lemma {:induction false} SameHashInputIffAgree(p1: Json, r1: Json, p2: Json, r2: Json)
    requires WellFormed(p1) && WellFormed(r1) && WellFormed(p2) && WellFormed(r2)
    ensures HashInput(p1, r1) == HashInput(p2, r2) <==> Agree(p1, p2) && Agree(r1, r2)
  {
    HashInputIsDocument(p1, r1);
    HashInputIsDocument(p2, r2);
    AgreeIffSameCanonical(p1, p2);
    AgreeIffSameCanonical(r1, r2);
    if HashInput(p1, r1) == HashInput(p2, r2) {
      DocumentsAreReadable(Canonical(p1), Canonical(r1), Canonical(p2), Canonical(r2));
    }
  }

  lemma {:induction false} DocumentsAreReadable(p1: Json, r1: Json, p2: Json, r2: Json)
    requires WellFormed(Document(p1, r1)) && WellFormed(Document(p2, r2))
    requires Dumps(Document(p1, r1)) == Dumps(Document(p2, r2))
    ensures p1 == p2 && r1 == r2
  {
    var d1, d2 := Document(p1, r1), Document(p2, r2);
    ValuesAreReadable(d1, d2, [], []);
    assert d1.fields[0] == d2.fields[0] && d1.fields[1] == d2.fields[1];
  }

  /** The same for the digest, for any hash function without collisions. */
  lemma SameHashIffAgree(sha256: string -> string, p1: Json, r1: Json, p2: Json, r2: Json)
    requires forall s, t :: sha256(s) == sha256(t) ==> s == t
    requires WellFormed(p1) && WellFormed(r1) && WellFormed(p2) && WellFormed(r2)
    ensures sha256(HashInput(p1, r1)) == sha256(HashInput(p2, r2)) <==> Agree(p1, p2) && Agree(r1, r2)
  {
    SameHashInputIffAgree(p1, r1, p2, r2);
  }

  // ---------------------------------------------------------------- receipt scope

  /** The columns of the unique index on receipts; the user id is not among them. */
  datatype ReceiptKey =
    ReceiptKey(tenant: string, operation: string, route: string, resource: string, idempotencyKey: string)

  /** `build_operation_scope`: a blank required part raises `ValueError`. */
  function OperationScope(tenant: string, operation: string, route: string, resource: string, key: string): (k: Option<ReceiptKey>)
    ensures k.None? <==> exists part :: part in [tenant, operation, route, resource, key] && Strip(part) == ""
  {
    var parts := [Strip(tenant), Strip(operation), Strip(route), Strip(resource), Strip(key)];
    assert forall i :: 0 <= i < 5 ==> parts[i] == Strip([tenant, operation, route, resource, key][i]);
    if "" in parts then
      assert exists i :: 0 <= i < 5 && parts[i] == "";
      None
    else Some(ReceiptKey(parts[0], parts[1], parts[2], parts[3], parts[4]))
  }

  /** Each part goes, stripped, into the column of its name. */
  lemma ScopeColumns(tenant: string, operation: string, route: string, resource: string, key: string)
    requires OperationScope(tenant, operation, route, resource, key).Some?
    ensures var k := OperationScope(tenant, operation, route, resource, key).value;
            && k.tenant == Strip(tenant) && k.operation == Strip(operation) && k.route == Strip(route)
            && k.resource == Strip(resource) && k.idempotencyKey == Strip(key)
  {
  }

  /** The resource keys of the submission routes end in the actor. */
  function ActorResource(resource: string, actor: string): string {
    resource + ":actor:" + actor
  }

  predicate Solid(s: string) {
    s != "" && forall c :: c in s ==> !Space(c)
  }

  lemma {:induction false} TrimLeftKeepsSolidEnd(s: string, tail: string)
    requires Solid(tail)
    ensures |TrimLeft(s + tail)| >= |tail|
    ensures TrimLeft(s + tail)[|TrimLeft(s + tail)| - |tail|..] == tail
  {
    if s == [] {
      assert s + tail == tail;
    } else if Space(s[0]) {
      assert (s + tail)[1..] == s[1..] + tail;
      TrimLeftKeepsSolidEnd(s[1..], tail);
    }
  }

  lemma StripKeepsActor(resource: string, actor: string)
    requires Solid(actor)
    ensures var k := Strip(ActorResource(resource, actor));
            |k| >= |actor| && k[|k| - |actor|..] == actor
  {
    TrimLeftKeepsSolidEnd(resource + ":actor:", actor);
    var t := TrimLeft(ActorResource(resource, actor));
    assert t[|t| - 1] == t[|t| - |actor|..][|actor| - 1];
  }

  /**
   Receipts never cross actors: canonical user ids have one length and no blanks, so
   equal receipt keys name the same actor, whatever the tenant, route, resource and
   idempotency key are.
   */
  lemma ActorsNeverShareReceipts(
      tenant1: string, operation1: string, route1: string, resource1: string, key1: string, actor1: string,
      tenant2: string, operation2: string, route2: string, resource2: string, key2: string, actor2: string)
    requires Solid(actor1) && Solid(actor2) && |actor1| == |actor2|
    requires var k1 := OperationScope(tenant1, operation1, route1, ActorResource(resource1, actor1), key1);
             k1.Some? && k1 == OperationScope(tenant2, operation2, route2, ActorResource(resource2, actor2), key2)
    ensures actor1 == actor2
  {
    StripKeepsActor(resource1, actor1);
    StripKeepsActor(resource2, actor2);
  }
}
