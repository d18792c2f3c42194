/**
 * The authoritative submit validator (validateField, validateFormData and
 * the status decision of submitForm). The schema is a parameter instead of
 * the module-level import of the form definition.
 */
module SubmitController {
  import opened Wrappers
  import opened FormTypes
  import JsText
  import EmailPattern

  /** The prop exempt from the type rules. */
  const SchoolProp := "school"
  const SuccessMessage := "Form validated successfully."

  function ExemptMessage(caption: string): string { caption + " must be either a string or a number." }
  function RequiredMessage(caption: string): string { caption + " is required." }
  function NotStringMessage(caption: string): string { caption + " must be a string." }
  function NotNumberMessage(caption: string): string { caption + " must be a number." }
  function NotEmailMessage(caption: string): string { caption + " is not a valid email address." }
  function MinLengthMessage(caption: string, n: int): string {
    caption + " must be at least " + JsText.IntToString(n) + " characters long."
  }
  function MinMessage(caption: string, n: int): string {
    caption + " must be at least " + JsText.IntToString(n) + "."
  }

  /** The minLength rule fires: a string shorter than a non-zero minLength. */
  predicate TooShort(r: Rules, v: Value) {
    Truthy(r.minLength) && v.Str? && |v.s| < r.minLength.value
  }

  /** The min rule fires: a number below a non-zero min. */
  predicate TooSmall(r: Rules, v: Value) {
    Truthy(r.min) && v.Num? && v.n < r.min.value
  }

  /** The message of the `type` chain, if any. */
  function TypeVerdict(caption: string, kind: string, v: Value): Option<string> {
    if kind == "string" then (if v.Str? then None else Some(NotStringMessage(caption)))
    else if kind == "number" then (if v.Num? then None else Some(NotNumberMessage(caption)))
    else if kind == "email" then (if RegexTest(v) then None else Some(NotEmailMessage(caption)))
    else None
  }

  /**
   * The entry validateField leaves for field f holding value v, None when
   * it writes nothing. Later checks overwrite earlier ones, so the min and
   * minLength messages take precedence over the type message.
   */
  function FieldVerdict(f: Field, v: Value): Option<string> {
    var r := RulesOf(f);
    if f.prop == SchoolProp then
      (if v.Str? || v.Num? then None else Some(ExemptMessage(f.caption)))
    else if r.required && IsBlank(v) then Some(RequiredMessage(f.caption))
    else if v.Absent? then None
    else if TooShort(r, v) then Some(MinLengthMessage(f.caption, r.minLength.value))
    else if TooSmall(r, v) then Some(MinMessage(f.caption, r.min.value))
    else TypeVerdict(f.caption, r.kind, v)
  }

  /** The error record after writing verdict under prop. */
  function Recorded(errors: map<string, string>, prop: string, verdict: Option<string>): map<string, string> {
    if verdict.Some? then errors[prop := verdict.value] else errors
  }

  /** The record after validating the fields in order, starting from an empty one. */
  function FieldsErrors(fields: seq<Field>, data: FormData): map<string, string> {
    if fields == [] then map[]
    else
      var f := fields[|fields| - 1];
      Recorded(FieldsErrors(fields[..|fields| - 1], data), f.prop, FieldVerdict(f, Lookup(data, f.prop)))
  }

  /** What validateFormData returns. */
  function FormErrors(schema: Schema, data: FormData): map<string, string> {
    FieldsErrors(Fields(schema), data)
  }

  /**
   * An independent statement of when a field passes: the school field holds
   * a string or a number; any other field is not a blank required one, and
   * a present value has the declared type (an address of the right shape for
   * `email`) and meets minLength and min.
   */
  predicate Conforms(f: Field, v: Value) {
    var r := RulesOf(f);
    if f.prop == SchoolProp then v.Str? || v.Num?
    else !(r.required && IsBlank(v)) && (v.Absent? || PresentConforms(r, v))
  }

  /** A present value has the declared type and meets the bounds. */
  predicate PresentConforms(r: Rules, v: Value) {
    && (r.kind == "string" ==> v.Str?)
    && (r.kind == "number" ==> v.Num?)
    && (r.kind == "email" ==> v.Str? && EmailPattern.HasAddressShape(v.s))
    && (Truthy(r.minLength) && v.Str? ==> |v.s| >= r.minLength.value)
    && (Truthy(r.min) && v.Num? ==> v.n >= r.min.value)
  }

  /** Every field of the schema passes with the submitted data. */
  predicate AllConform(schema: Schema, data: FormData) {
    forall f :: f in Fields(schema) ==> Conforms(f, Lookup(data, f.prop))
  }

  /** The shared `errors` object that validateField writes into. */
  class ErrorRecord {
    var entries: map<string, string>

    constructor ()
      ensures entries == map[]
    {
      entries := map[];
    }
  }

  /** validateField: writes at most the entry for its own prop. */
  method ValidateField(field: Field, value: Value, errors: ErrorRecord)
    modifies errors
    ensures errors.entries == Recorded(old(errors.entries), field.prop, FieldVerdict(field, value))
    ensures forall k :: k != field.prop ==>
      (k in errors.entries <==> k in old(errors.entries)) &&
      (k in errors.entries ==> errors.entries[k] == old(errors.entries)[k])
  {
    var prop, caption, validation := field.prop, field.caption, RulesOf(field);

    if prop == SchoolProp {
      if !value.Str? && !value.Num? {
        errors.entries := errors.entries[prop := ExemptMessage(caption)];
      }
      return;
    }

    if validation.required && (value.Absent? || value.Null? || value == Str("")) {
      errors.entries := errors.entries[prop := RequiredMessage(caption)];
      return;
    }

    if !value.Absent? {
      if validation.kind == "string" && !value.Str? {
        errors.entries := errors.entries[prop := NotStringMessage(caption)];
      } else if validation.kind == "number" && !value.Num? {
        errors.entries := errors.entries[prop := NotNumberMessage(caption)];
      } else if validation.kind == "email" {
        if !RegexTest(value) {
          errors.entries := errors.entries[prop := NotEmailMessage(caption)];
        }
      }

      if Truthy(validation.minLength) && value.Str? && |value.s| < validation.minLength.value {
        errors.entries := errors.entries[prop := MinLengthMessage(caption, validation.minLength.value)];
      }

      if Truthy(validation.min) && value.Num? && value.n < validation.min.value {
        errors.entries := errors.entries[prop := MinMessage(caption, validation.min.value)];
      }
    }
  }

  /** validateFormData: every field of every step, in order, into one fresh record. */
  method ValidateFormData(schema: Schema, data: FormData) returns (errors: ErrorRecord)
    ensures fresh(errors)
    ensures errors.entries == FormErrors(schema, data)
  {
    errors := new ErrorRecord();
    var s := 0;
    while s < |schema|
      invariant 0 <= s <= |schema|
      invariant fresh(errors)
      invariant errors.entries == FieldsErrors(Fields(schema[..s]), data)
    {
      var done, fields := Fields(schema[..s]), schema[s].fields;
      var f := 0;
      assert done + fields[..f] == done;
      while f < |fields|
        invariant 0 <= f <= |fields|
        invariant fresh(errors)
        invariant errors.entries == FieldsErrors(done + fields[..f], data)
      {
        var field := fields[f];
        var value := Lookup(data, field.prop);
        ValidateField(field, value, errors);
        ExtendErrors(done + fields[..f], field, data);
        AppendNext(done, fields, f);
        f := f + 1;
      }
      assert fields[..f] == fields;
      FieldsStep(schema, s);
      s := s + 1;
    }
    assert schema[..s] == schema;
  }

  /** The reply of submitForm: `{success: false, errors}` or `{success: true, message}`. */
  datatype SubmitBody = Failure(errors: map<string, string>) | Success(message: string)
  datatype SubmitReply = SubmitReply(status: int, body: SubmitBody)

  /** submitForm: 400 with the errors when there are any, otherwise 200. */
  method SubmitForm(schema: Schema, data: FormData) returns (reply: SubmitReply)
    ensures reply.status == 400 || reply.status == 200
    ensures reply.status == 400 <==> FormErrors(schema, data) != map[]
    ensures reply.status == 400 ==> reply.body == Failure(FormErrors(schema, data))
    ensures reply.status == 200 ==> reply.body == Success(SuccessMessage)
    ensures reply.status == 200 <==> AllConform(schema, data)
  {
    var errors := ValidateFormData(schema, data);
    if |errors.entries| > 0 {
      reply := SubmitReply(400, Failure(errors.entries));
    } else {
      reply := SubmitReply(200, Success(SuccessMessage));
    }
    NoErrorsIffAllConform(schema, data);
  }

  // ---------------------------------------------------------------------
  // The rules for one field

  /** The school field records nothing for a string or number and the exemption message otherwise, whatever its rules. */
  lemma SchoolExemption(f: Field, v: Value)
    requires f.prop == SchoolProp
    ensures FieldVerdict(f, v).None? <==> v.Str? || v.Num?
    ensures FieldVerdict(f, v).Some? ==> FieldVerdict(f, v).value == ExemptMessage(f.caption)
    ensures forall rules: Option<Rules> :: FieldVerdict(f.(validation := rules), v) == FieldVerdict(f, v)
  {
  }

  /** A blank required field gets the required message and nothing else. */
  lemma RequiredShortCircuit(f: Field, v: Value)
    requires f.prop != SchoolProp && RulesOf(f).required && IsBlank(v)
    ensures FieldVerdict(f, v) == Some(RequiredMessage(f.caption))
  {
  }

  /** An absent value of an optional field records nothing. */
  lemma AbsentOptionalPasses(f: Field)
    requires f.prop != SchoolProp && !RulesOf(f).required
    ensures FieldVerdict(f, Absent) == None
  {
  }

  /** The string and number type messages, when no min or minLength message overwrites them. */
  lemma TypeMismatch(f: Field, v: Value)
    requires f.prop != SchoolProp && !v.Absent? && !(RulesOf(f).required && IsBlank(v))
    requires !TooShort(RulesOf(f), v) && !TooSmall(RulesOf(f), v)
    ensures RulesOf(f).kind == "string" && !v.Str? ==> FieldVerdict(f, v) == Some(NotStringMessage(f.caption))
    ensures RulesOf(f).kind == "number" && !v.Num? ==> FieldVerdict(f, v) == Some(NotNumberMessage(f.caption))
  {
  }

  /** An email field passes exactly when its value is a string of address shape. */
  lemma EmailRule(f: Field, v: Value)
    requires f.prop != SchoolProp && RulesOf(f).kind == "email"
    requires !v.Absent? && !(RulesOf(f).required && IsBlank(v))
    requires !TooShort(RulesOf(f), v) && !TooSmall(RulesOf(f), v)
    ensures FieldVerdict(f, v).None? <==> v.Str? && EmailPattern.HasAddressShape(v.s)
    ensures FieldVerdict(f, v).Some? ==> FieldVerdict(f, v) == Some(NotEmailMessage(f.caption))
  {
    if v.Str? {
      EmailPattern.MatchesIffShape(v.s);
    }
  }

  /** A too-short string or too-small number gets the bound's message, overwriting any type message. */
  lemma BoundsOverwrite(f: Field, v: Value)
    requires f.prop != SchoolProp && !(RulesOf(f).required && IsBlank(v))
    ensures TooShort(RulesOf(f), v) ==>
      FieldVerdict(f, v) == Some(MinLengthMessage(f.caption, RulesOf(f).minLength.value))
    ensures TooSmall(RulesOf(f), v) ==>
      FieldVerdict(f, v) == Some(MinMessage(f.caption, RulesOf(f).min.value))
  {
  }

  /** validateField records nothing exactly when the field conforms. */
  lemma VerdictNoneIffConforms(f: Field, v: Value)
    ensures FieldVerdict(f, v).None? <==> Conforms(f, v)
  {
    if v.Str? {
      EmailPattern.MatchesIffShape(v.s);
    }
  }

  // ---------------------------------------------------------------------
  // The record validateFormData builds

  /** One more field extends the record by that field's verdict. */
  lemma ExtendErrors(prefix: seq<Field>, field: Field, data: FormData)
    ensures FieldsErrors(prefix + [field], data)
         == Recorded(FieldsErrors(prefix, data), field.prop, FieldVerdict(field, Lookup(data, field.prop)))
  {
    assert (prefix + [field])[..|prefix|] == prefix;
  }

  /** A prop has an entry exactly when some field with that prop records a message. */
  lemma {:induction false} ErrorKeys(fields: seq<Field>, data: FormData, k: string)
    ensures k in FieldsErrors(fields, data) <==>
      exists i :: 0 <= i < |fields| && fields[i].prop == k && FieldVerdict(fields[i], Lookup(data, k)).Some?
    decreases |fields|
  {
    if fields != [] {
      var p, f := fields[..|fields| - 1], fields[|fields| - 1];
      ErrorKeys(p, data, k);
      assert forall i :: 0 <= i < |p| ==> p[i] == fields[i];
      if k in FieldsErrors(fields, data) {
        if !(f.prop == k && FieldVerdict(f, Lookup(data, k)).Some?) {
          assert k in FieldsErrors(p, data);
        }
      }
    }
  }

  /** Every key of the record is the prop of a schema field. */
  lemma ErrorKeysAreProps(schema: Schema, data: FormData)
    ensures forall k :: k in FormErrors(schema, data) ==> exists f :: f in Fields(schema) && f.prop == k
  {
    forall k | k in FormErrors(schema, data)
      ensures exists f :: f in Fields(schema) && f.prop == k
    {
      ErrorKeys(Fields(schema), data, k);
    }
  }

  /** The record is empty exactly when every field conforms. */
  lemma NoErrorsIffAllConform(schema: Schema, data: FormData)
    ensures FormErrors(schema, data) == map[] <==> AllConform(schema, data)
  {
    var fields, errors := Fields(schema), FormErrors(schema, data);
    if errors == map[] {
      forall f | f in fields
        ensures Conforms(f, Lookup(data, f.prop))
      {
        var i :| 0 <= i < |fields| && fields[i] == f;
        ErrorKeys(fields, data, f.prop);
        VerdictNoneIffConforms(f, Lookup(data, f.prop));
      }
    } else {
      var k :| k in errors;
      ErrorKeys(fields, data, k);
      var i :| 0 <= i < |fields| && fields[i].prop == k && FieldVerdict(fields[i], Lookup(data, k)).Some?;
      VerdictNoneIffConforms(fields[i], Lookup(data, k));
      assert fields[i] in fields;
    }
  }

  /** With unique props, each field's entry is exactly its own verdict. */
  lemma {:induction false} ErrorIsVerdict(fields: seq<Field>, data: FormData, i: nat)
    requires UniqueProps(fields) && i < |fields|
    ensures var k, verdict := fields[i].prop, FieldVerdict(fields[i], Lookup(data, fields[i].prop));
      (k in FieldsErrors(fields, data) <==> verdict.Some?) &&
      (verdict.Some? ==> FieldsErrors(fields, data)[k] == verdict.value)
    decreases |fields|
  {
    var p, f := fields[..|fields| - 1], fields[|fields| - 1];
    var k := fields[i].prop;
    assert forall j :: 0 <= j < |p| ==> p[j] == fields[j];
    if i == |fields| - 1 {
      ErrorKeys(p, data, k);
    } else {
      ErrorIsVerdict(p, data, i);
    }
  }

  // ---------------------------------------------------------------------
  // Worked examples

  const EmailField := Field("email", "Email", Some(Rules(true, "email", None, None, None)))
  const AgeField := Field("age", "Age", Some(Rules(false, "number", None, Some(18), None)))

  lemma SingleStep(f: Field, data: FormData)
    ensures FormErrors([Step([f])], data) == Recorded(map[], f.prop, FieldVerdict(f, Lookup(data, f.prop)))
  {
    var schema := [Step([f])];
    assert schema[..0] == [];
    assert Fields(schema) == [f];
    assert [f][..0] == [];
    assert FieldsErrors([f], data) == Recorded(FieldsErrors([], data), f.prop, FieldVerdict(f, Lookup(data, f.prop)));
  }

  /** A missing required email is reported as required. */
  lemma ScenarioMissingEmail()
    ensures FormErrors([Step([EmailField])], map[]) == map["email" := "Email is required."]
  {
    SingleStep(EmailField, map[]);
    assert RequiredMessage("Email") == "Email is required.";
    assert FieldVerdict(EmailField, Absent) == Some(RequiredMessage("Email"));
  }

  /** A string without an `@` is not a valid address. */
  lemma ScenarioMalformedEmail()
    ensures FormErrors([Step([EmailField])], map["email" := Str("not-an-email")])
         == map["email" := "Email is not a valid email address."]
  {
    var s := "not-an-email";
    SingleStep(EmailField, map["email" := Str(s)]);
    EmailPattern.NoAtSignNoMatch(s);
    assert NotEmailMessage("Email") == "Email is not a valid email address.";
    assert FieldVerdict(EmailField, Str(s)) == Some(NotEmailMessage("Email"));
  }

  /** A well-formed address passes. */
  lemma ScenarioValidEmail()
    ensures FormErrors([Step([EmailField])], map["email" := Str("a@b.com")]) == map[]
  {
    var s := "a@b.com";
    SingleStep(EmailField, map["email" := Str(s)]);
    assert s[..1] == "a" && s[2..3] == "b" && s[4..] == "com";
    EmailPattern.MatchesAt(s, 1, 3);
    assert FieldVerdict(EmailField, Str(s)) == None;
  }

  /** A number below min gets the min message. */
  lemma ScenarioUnderAge()
    ensures FormErrors([Step([AgeField])], map["age" := Num(12)]) == map["age" := "Age must be at least 18."]
  {
    SingleStep(AgeField, map["age" := Num(12)]);
    assert JsText.IntToString(18) == "18";
    assert MinMessage("Age", 18) == "Age must be at least 18.";
    assert FieldVerdict(AgeField, Num(12)) == Some(MinMessage("Age", 18));
  }
}
