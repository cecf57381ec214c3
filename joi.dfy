/** The part of the Joi schema validator the handlers use: `Joi.object({...})` over
    string and boolean keys, with `.email()`, `.min(n)`, `.valid(...)`, `.required()` and
    `.optional()`, validated with `abortEarly: false`. Joi is a library; this module
    states what it reports for a request body so that the handlers' 400 answers can be
    stated. The email syntax check is left to the parameter `isEmail`. */
module Joi {
  import opened Common
  import opened Strings

  /** One entry of a Joi error's `details`: its `context.key` and its `message`. */
  datatype Detail = Detail(key: string, message: string)

  /** A rule chained after `Joi.string()`. */
  datatype Check = Email | MinLength(n: nat)

  datatype Kind = StringKind(checks: seq<Check>) | BooleanKind

  /** One key of `Joi.object({...})`: its type and rules, the `.valid(...)` list when
      there is one, and whether it is `.required()`. */
  datatype Field = Field(key: string, kind: Kind, valid: Option<seq<string>>, required: bool)

  type Schema = seq<Field>

  /** `Joi.string()` with its rules, then `.required()` or `.optional()`. */
  function StringKey(key: string, checks: seq<Check>, required: bool): Field {
    Field(key, StringKind(checks), None, required)
  }

  /** `Joi.boolean()`, then `.required()` or `.optional()`. */
  function BooleanKey(key: string, required: bool): Field {
    Field(key, BooleanKind, None, required)
  }

  /** Joi's default label: the key in double quotes. */
  function Label(key: string): string {
    "\"" + key + "\""
  }

  /** The strings Joi's boolean type converts (case-insensitively) to a boolean. */
  predicate BooleanWord(s: string) {
    Lower(s) == "true" || Lower(s) == "false"
  }

  predicate Passes(c: Check, s: string, isEmail: string -> bool) {
    match c
    case Email => isEmail(s)
    case MinLength(n) => Utf16Length(s) >= n
  }

  /** `min(n)` compares the UTF-16 length: three emoji are three characters but six
      code units, enough for `min(6)`; six ordinary letters are six of both. */
  lemma MinLengthCountsCodeUnits(isEmail: string -> bool)
    ensures var s := "\U{1F600}\U{1F600}\U{1F600}";
      |s| == 3 && Utf16Length(s) == 6 && Passes(MinLength(6), s, isEmail)
    ensures !Passes(MinLength(6), "abcde", isEmail) && Passes(MinLength(6), "abcdef", isEmail)
  {
    var e := "\U{1F600}";
    assert Astral(e[0]);
    assert Utf16Length(e) == 2;
    Utf16Append(e, e);
    Utf16Append(e + e, e);
    assert e + e + e == "\U{1F600}\U{1F600}\U{1F600}";
  }

  function CheckDetails(key: string, c: Check, s: string, isEmail: string -> bool): seq<Detail> {
    if Passes(c, s, isEmail) then []
    else match c
      case Email => [Detail(key, Label(key) + " must be a valid email")]
      case MinLength(n) =>
        [Detail(key, Label(key) + " length must be at least " + Decimal(n) + " characters long")]
  }

  /** The failures of the rules chained on a non-empty string, in declaration order. */
  function RuleDetails(key: string, checks: seq<Check>, s: string, isEmail: string -> bool): seq<Detail>
    decreases |checks|
  {
    if checks == [] then []
    else CheckDetails(key, checks[0], s, isEmail) + RuleDetails(key, checks[1..], s, isEmail)
  }

  /** The type check and, when it passes, the rules. A type failure stops the key. */
  function BaseDetails(f: Field, j: Json, isEmail: string -> bool): seq<Detail> {
    match f.kind
    case StringKind(checks) =>
      (match j
       case JString(s) =>
         if s == "" then [Detail(f.key, Label(f.key) + " is not allowed to be empty")]
         else RuleDetails(f.key, checks, s, isEmail)
       case _ => [Detail(f.key, Label(f.key) + " must be a string")])
    case BooleanKind =>
      if j.JBool? || (j.JString? && BooleanWord(j.s)) then []
      else [Detail(f.key, Label(f.key) + " must be a boolean")]
  }

  /** Joi's `any.only` message: "one of" is dropped when the list has a single value. */
  function OnlyMessage(key: string, vs: seq<string>): (m: string)
    ensures |vs| == 1 ==> m == Label(key) + " must be [" + vs[0] + "]"
    ensures |vs| != 1 ==> m == Label(key) + " must be one of [" + Join(vs, ", ") + "]"
  {
    Label(key) + " must be " + (if |vs| == 1 then "" else "one of ") + "[" + Join(vs, ", ") + "]"
  }

  /** What Joi reports for one key holding `v`: an absent required key; a value outside
      the `.valid(...)` list, after which the type check still runs; or the type check
      and the rules. A value on the list is accepted at once. */
  function FieldDetails(f: Field, v: Option<Json>, isEmail: string -> bool): seq<Detail> {
    match v
    case None =>
      if f.required then [Detail(f.key, Label(f.key) + " is required")] else []
    case Some(j) =>
      match f.valid
      case None => BaseDetails(f, j, isEmail)
      case Some(vs) =>
        if j.JString? && j.s in vs then []
        else [Detail(f.key, OnlyMessage(f.key, vs))] + BaseDetails(f, j, isEmail)
  }

  function KeyDetails(schema: Schema, body: Body, isEmail: string -> bool): seq<Detail>
    decreases |schema|
  {
    if schema == [] then []
    else FieldDetails(schema[0], Lookup(body, schema[0].key), isEmail)
         + KeyDetails(schema[1..], body, isEmail)
  }

  predicate Declared(schema: Schema, key: string) {
    exists i :: 0 <= i < |schema| && schema[i].key == key
  }

  /** `"key" is not allowed` for every member of the body the schema does not name. */
  function UnknownDetails(schema: Schema, body: Body): seq<Detail>
    decreases |body|
  {
    if body == [] then []
    else (if Declared(schema, body[0].0) then [] else [Detail(body[0].0, Label(body[0].0) + " is not allowed")])
         + UnknownDetails(schema, body[1..])
  }

  /** `schema.validate(body, { abortEarly: false }).error.details`, empty when there is
      no error: the schema's keys in order, then the unknown members of the body. */
  function Validate(schema: Schema, body: Body, isEmail: string -> bool): seq<Detail> {
    KeyDetails(schema, body, isEmail) + UnknownDetails(schema, body)
  }

  /** What an accepted value of one key satisfies, stated without the messages. */
  predicate Conforms(f: Field, v: Option<Json>, isEmail: string -> bool) {
    match v
    case None => !f.required
    case Some(j) =>
      if f.valid.Some? then j.JString? && j.s in f.valid.value
      else match f.kind
        case StringKind(checks) =>
          j.JString? && j.s != "" && forall c | c in checks :: Passes(c, j.s, isEmail)
        case BooleanKind => j.JBool? || (j.JString? && BooleanWord(j.s))
  }

  /** Every detail Joi reports for a key carries that key. */
  lemma {:induction false} RuleDetailsKeys(key: string, checks: seq<Check>, s: string, isEmail: string -> bool)
    ensures forall d | d in RuleDetails(key, checks, s, isEmail) :: d.key == key
    ensures RuleDetails(key, checks, s, isEmail) == [] <==> forall c | c in checks :: Passes(c, s, isEmail)
    decreases |checks|
  {
    if checks != [] {
      RuleDetailsKeys(key, checks[1..], s, isEmail);
      assert forall c | c in checks :: c == checks[0] || c in checks[1..];
    }
  }

  /** A key produces no detail exactly when its value conforms to its declaration. */
  lemma FieldDetailsConforms(f: Field, v: Option<Json>, isEmail: string -> bool)
    ensures FieldDetails(f, v, isEmail) == [] <==> Conforms(f, v, isEmail)
    ensures forall d | d in FieldDetails(f, v, isEmail) :: d.key == f.key
  {
    match v
    case None =>
    case Some(j) =>
      if f.kind.StringKind? && j.JString? && j.s != "" {
        RuleDetailsKeys(f.key, f.kind.checks, j.s, isEmail);
      }
  }

  /** The schema's keys produce no detail exactly when every key conforms. */
  lemma {:induction false} KeyDetailsConform(schema: Schema, body: Body, isEmail: string -> bool)
    ensures KeyDetails(schema, body, isEmail) == [] <==>
      forall i :: 0 <= i < |schema| ==> Conforms(schema[i], Lookup(body, schema[i].key), isEmail)
    decreases |schema|
  {
    if schema != [] {
      FieldDetailsConforms(schema[0], Lookup(body, schema[0].key), isEmail);
      KeyDetailsConform(schema[1..], body, isEmail);
      assert forall i :: 1 <= i < |schema| ==> schema[i] == schema[1..][i - 1];
    }
  }

  /** No unknown-key detail exactly when the schema names every member of the body. */
  lemma {:induction false} UnknownDetailsEmpty(schema: Schema, body: Body)
    ensures UnknownDetails(schema, body) == [] <==> forall i :: 0 <= i < |body| ==> Declared(schema, body[i].0)
    decreases |body|
  {
    if body != [] {
      UnknownDetailsEmpty(schema, body[1..]);
      assert forall i :: 1 <= i < |body| ==> body[i] == body[1..][i - 1];
    }
  }

  /** Joi accepts a body exactly when every declared key conforms and no other key is
      present. */
  lemma ValidateAccepts(schema: Schema, body: Body, isEmail: string -> bool)
    ensures Validate(schema, body, isEmail) == [] <==>
      (forall i :: 0 <= i < |schema| ==> Conforms(schema[i], Lookup(body, schema[i].key), isEmail))
      && (forall i :: 0 <= i < |body| ==> Declared(schema, body[i].0))
  {
    KeyDetailsConform(schema, body, isEmail);
    UnknownDetailsEmpty(schema, body);
  }

  /** When Joi accepts a body, the value of the schema's `i`-th key conforms to it. */
  lemma AcceptedField(schema: Schema, body: Body, isEmail: string -> bool, i: nat)
    requires i < |schema|
    requires Validate(schema, body, isEmail) == []
    ensures Conforms(schema[i], Lookup(body, schema[i].key), isEmail)
  {
    ValidateAccepts(schema, body, isEmail);
  }

  /** In an accepted body, a plain string key is present when required, and when
      present it is a non-empty string passing every rule of the key. */
  lemma AcceptedString(schema: Schema, body: Body, isEmail: string -> bool, i: nat)
    requires i < |schema| && schema[i].kind.StringKind? && schema[i].valid.None?
    requires Validate(schema, body, isEmail) == []
    ensures schema[i].required ==> Lookup(body, schema[i].key).Some?
    ensures Lookup(body, schema[i].key).Some? ==>
      && StringAt(body, schema[i].key).Some? && Text(body, schema[i].key) != ""
      && forall c | c in schema[i].kind.checks :: Passes(c, Text(body, schema[i].key), isEmail)
  {
    AcceptedField(schema, body, isEmail, i);
  }

  /** In an accepted body, a key with a `.valid(...)` list is present when required, and
      when present it is a string from the list. */
  lemma AcceptedAllowed(schema: Schema, body: Body, isEmail: string -> bool, i: nat)
    requires i < |schema| && schema[i].valid.Some?
    requires Validate(schema, body, isEmail) == []
    ensures schema[i].required ==> Lookup(body, schema[i].key).Some?
    ensures Lookup(body, schema[i].key).Some? ==>
      StringAt(body, schema[i].key).Some? && Text(body, schema[i].key) in schema[i].valid.value
  {
    AcceptedField(schema, body, isEmail, i);
  }

  /** A member the schema does not name makes Joi reject the body. */
  lemma UndeclaredRejected(schema: Schema, body: Body, isEmail: string -> bool, key: string)
    requires !Declared(schema, key)
    requires Lookup(body, key).Some?
    ensures Validate(schema, body, isEmail) != []
  {
    ValidateAccepts(schema, body, isEmail);
    var i :| 0 <= i < |body| && body[i].0 == key;
    assert !Declared(schema, body[i].0);
  }
}
