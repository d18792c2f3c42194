/**
 * The older router revision: the inline `/submit` validator, with its own
 * messages, a single `if/else if` chain on `type` and the `boolean` /
 * `validValues` rule, and the inline `/schools` lookup.
 */
module Routes {
  import opened Wrappers
  import opened FormTypes
  import JsText
  import EmailPattern
  import SchoolController

  const SubmittedMessage := "Form submitted successfully"

  function RequiredMessage(caption: string): string { caption + " is required" }
  function ShortMessage(caption: string, n: int): string {
    caption + " must be at least " + JsText.IntToString(n) + " characters"
  }
  function BelowMessage(caption: string, n: int): string {
    caption + " must be greater than or equal to " + JsText.IntToString(n)
  }
  function EmailMessage(caption: string): string { caption + " must be a valid email" }
  function AcceptMessage(caption: string): string { caption + " must be accepted" }

  /** What checking one field does: nothing, one message, or a TypeError that ends the request. */
  datatype Verdict = Pass | Flag(message: string) | Throw

  function RouteVerdict(f: Field, v: Value): Verdict {
    var r := RulesOf(f);
    if r.required && IsBlank(v) then Flag(RequiredMessage(f.caption))
    else if r.kind == "string" then
      if !Truthy(r.minLength) then Pass
      else
        match LengthOf(v)
        case Throws => Throw
        case Undefined => Pass
        case Length(n) => if n < r.minLength.value then Flag(ShortMessage(f.caption, r.minLength.value)) else Pass
    else if r.kind == "number" then
      if Truthy(r.min) && LooseLess(v, r.min.value) then Flag(BelowMessage(f.caption, r.min.value)) else Pass
    else if r.kind == "email" then
      if RegexTest(v) then Pass else Flag(EmailMessage(f.caption))
    else if r.kind == "boolean" then
      if r.validValues.Some? && !Includes(r.validValues.value, v) then Flag(AcceptMessage(f.caption)) else Pass
    else Pass
  }

  /** The loop either finishes with an error record or is ended by a TypeError. */
  datatype Outcome = Completed(errors: map<string, string>) | Crashed

  function FieldsOutcome(fields: seq<Field>, data: FormData): Outcome {
    if fields == [] then Completed(map[])
    else
      var f := fields[|fields| - 1];
      match FieldsOutcome(fields[..|fields| - 1], data)
      case Crashed => Crashed
      case Completed(errors) =>
        match RouteVerdict(f, Lookup(data, f.prop))
        case Pass => Completed(errors)
        case Flag(m) => Completed(errors[f.prop := m])
        case Throw => Crashed
  }

  /** `{errors}` or `{message}`; a thrown TypeError leaves the reply to the framework. */
  datatype RouteBody = ErrorsBody(errors: map<string, string>) | MessageBody(message: string)
  datatype RouteReply = Replied(status: int, body: RouteBody) | TypeErrorThrown

  /**
   * The per-field callback of the handler: writes at most one entry, for
   * the field's own prop, or reports that `value.length` threw.
   */
  method CheckField(field: Field, value: Value, errors: map<string, string>)
    returns (updated: map<string, string>, threw: bool)
    ensures threw <==> RouteVerdict(field, value).Throw?
    ensures RouteVerdict(field, value).Pass? ==> updated == errors
    ensures RouteVerdict(field, value).Flag? ==> updated == errors[field.prop := RouteVerdict(field, value).message]
  {
    var prop, validation := field.prop, RulesOf(field);
    updated, threw := errors, false;
    if validation.required && (value.Absent? || value.Null? || value == Str("")) {
      updated := errors[prop := RequiredMessage(field.caption)];
      return;
    }
    if validation.kind == "string" {
      if Truthy(validation.minLength) {
        var length := LengthOf(value);
        if length.Throws? {
          threw := true;
          return;
        }
        if length.Length? && length.n < validation.minLength.value {
          updated := errors[prop := ShortMessage(field.caption, validation.minLength.value)];
        }
      }
    } else if validation.kind == "number" {
      if Truthy(validation.min) && LooseLess(value, validation.min.value) {
        updated := errors[prop := BelowMessage(field.caption, validation.min.value)];
      }
    } else if validation.kind == "email" {
      if !RegexTest(value) {
        updated := errors[prop := EmailMessage(field.caption)];
      }
    } else if validation.kind == "boolean" {
      if validation.validValues.Some? && !Includes(validation.validValues.value, value) {
        updated := errors[prop := AcceptMessage(field.caption)];
      }
    }
  }

  /** The reply the handler sends for an outcome of the loop. */
  function ReplyFor(outcome: Outcome): RouteReply {
    match outcome
    case Crashed => TypeErrorThrown
    case Completed(errors) =>
      if |errors| > 0 then Replied(400, ErrorsBody(errors)) else Replied(200, MessageBody(SubmittedMessage))
  }

  /** The `/submit` handler. */
  method Submit(schema: Schema, data: FormData) returns (reply: RouteReply)
    ensures reply == ReplyFor(FieldsOutcome(Fields(schema), data))
  {
    var errors: map<string, string> := map[];
    var s := 0;
    while s < |schema|
      invariant 0 <= s <= |schema|
      invariant FieldsOutcome(Fields(schema[..s]), data) == Completed(errors)
    {
      var done, fields := Fields(schema[..s]), schema[s].fields;
      var i := 0;
      assert done + fields[..i] == done;
      while i < |fields|
        invariant 0 <= i <= |fields|
        invariant FieldsOutcome(done + fields[..i], data) == Completed(errors)
      {
        var field := fields[i];
        var value := Lookup(data, field.prop);
        var updated, threw := CheckField(field, value, errors);
        if threw {
          ThrowEndsRequest(schema, s, i, data);
          return TypeErrorThrown;
        }
        ExtendOutcome(done + fields[..i], field, data);
        AppendNext(done, fields, i);
        errors := updated;
        i := i + 1;
      }
      assert fields[..i] == fields;
      FieldsStep(schema, s);
      s := s + 1;
    }
    assert schema[..s] == schema;
    if |errors| > 0 {
      reply := Replied(400, ErrorsBody(errors));
    } else {
      reply := Replied(200, MessageBody(SubmittedMessage));
    }
  }

  /**
   * What the reply means: a TypeError exactly when some field throws; else
   * 400 with the record when it is non-empty; 200 exactly when every field passes.
   */
  lemma SubmitReplyMeaning(schema: Schema, data: FormData)
    ensures var reply := ReplyFor(FieldsOutcome(Fields(schema), data));
      && (reply.TypeErrorThrown? <==> exists f :: f in Fields(schema) && RouteVerdict(f, Lookup(data, f.prop)).Throw?)
      && (reply.Replied? && reply.status == 400 ==>
            reply.body.ErrorsBody? && reply.body.errors != map[] &&
            forall k :: k in reply.body.errors ==> exists f :: f in Fields(schema) && f.prop == k)
      && (reply == Replied(200, MessageBody(SubmittedMessage)) <==>
            forall f :: f in Fields(schema) ==> RouteVerdict(f, Lookup(data, f.prop)).Pass?)
  {
    var fields := Fields(schema);
    CrashIff(fields, data);
    PassIff(fields, data);
    var outcome := FieldsOutcome(fields, data);
    if outcome.Completed? {
      forall k | k in outcome.errors
        ensures exists f :: f in fields && f.prop == k
      {
        RouteErrorKeys(fields, data, k);
      }
      if |outcome.errors| == 0 {
        assert outcome.errors == map[];
      }
    }
  }

  /** The `/schools` handler: the same decision as the schools controller. */
  function SchoolsRoute(cityId: Option<string>, schools1: seq<SchoolController.School>,
                        schools2: seq<SchoolController.School>): (r: SchoolController.SchoolsReply)
    ensures r.ErrorReply? <==> SchoolController.IsFalsy(cityId)
    ensures r.ErrorReply? ==> r == SchoolController.ErrorReply(400, SchoolController.CityIdRequired)
    ensures r.SchoolList? ==> r.status == 200
    ensures r.SchoolList? && cityId.value == "1" ==> r.schools == schools1
    ensures r.SchoolList? && cityId.value == "2" ==> r.schools == schools2
    ensures r.SchoolList? && cityId.value != "1" && cityId.value != "2" ==> r.schools == []
  {
    if cityId.None? || cityId.value == "" then SchoolController.ErrorReply(400, SchoolController.CityIdRequired)
    else if cityId.value == "1" then SchoolController.SchoolList(200, schools1)
    else if cityId.value == "2" then SchoolController.SchoolList(200, schools2)
    else SchoolController.SchoolList(200, [])
  }

  /** Both revisions of the schools lookup give the same reply. */
  lemma SchoolsRouteAgrees(cityId: Option<string>, schools1: seq<SchoolController.School>,
                           schools2: seq<SchoolController.School>)
    ensures SchoolsRoute(cityId, schools1, schools2) == SchoolController.GetSchools(cityId, schools1, schools2)
  {
  }

  // ---------------------------------------------------------------------
  // The rules for one field

  /** A blank required field gets the required message and no later rule runs. */
  lemma RequiredShortCircuit(f: Field, v: Value)
    requires RulesOf(f).required && IsBlank(v)
    ensures RouteVerdict(f, v) == Flag(RequiredMessage(f.caption))
  {
  }

  /** A TypeError is thrown exactly for a missing or null value of an optional string field with a non-zero minLength. */
  lemma ThrowsExactly(f: Field, v: Value)
    ensures RouteVerdict(f, v).Throw? <==>
      !RulesOf(f).required && RulesOf(f).kind == "string" && Truthy(RulesOf(f).minLength) && (v.Absent? || v.Null?)
  {
  }

  /** The string rule: a string shorter than a non-zero minLength is flagged, and only then. */
  lemma StringRule(f: Field, s: string)
    requires !(RulesOf(f).required && s == "") && RulesOf(f).kind == "string"
    ensures RouteVerdict(f, Str(s)) != Pass <==> Truthy(RulesOf(f).minLength) && |s| < RulesOf(f).minLength.value
    ensures RouteVerdict(f, Str(s)) != Pass ==>
      RouteVerdict(f, Str(s)) == Flag(ShortMessage(f.caption, RulesOf(f).minLength.value))
  {
  }

  /** The number rule compares with JavaScript's `<`: a non-zero min above the value is flagged. */
  lemma NumberRule(f: Field, v: Value)
    requires !(RulesOf(f).required && IsBlank(v)) && RulesOf(f).kind == "number"
    ensures RouteVerdict(f, v) != Pass <==> Truthy(RulesOf(f).min) && LooseLess(v, RulesOf(f).min.value)
    ensures RouteVerdict(f, v) != Pass ==> RouteVerdict(f, v) == Flag(BelowMessage(f.caption, RulesOf(f).min.value))
    ensures v.Num? && Truthy(RulesOf(f).min) ==> (RouteVerdict(f, v) != Pass <==> v.n < RulesOf(f).min.value)
    ensures v.Absent? ==> RouteVerdict(f, v) == Pass
  {
  }

  /**
   * The email rule: a value passes exactly when it is a string of address
   * shape; an absent optional value is tested as "undefined" and therefore fails.
   */
  lemma EmailRule(f: Field, v: Value)
    requires !(RulesOf(f).required && IsBlank(v)) && RulesOf(f).kind == "email"
    ensures RouteVerdict(f, v) == Pass <==> v.Str? && EmailPattern.HasAddressShape(v.s)
    ensures RouteVerdict(f, v) != Pass ==> RouteVerdict(f, v) == Flag(EmailMessage(f.caption))
    ensures v.Absent? ==> RouteVerdict(f, v) == Flag(EmailMessage(f.caption))
  {
    if v.Str? {
      EmailPattern.MatchesIffShape(v.s);
    }
  }

  /** The boolean rule: with validValues present, a value outside the list must be accepted. */
  lemma BooleanRule(f: Field, v: Value)
    requires !(RulesOf(f).required && IsBlank(v)) && RulesOf(f).kind == "boolean"
    ensures RouteVerdict(f, v) != Pass <==>
      RulesOf(f).validValues.Some? && !(v.Bool? && v.b in RulesOf(f).validValues.value)
    ensures RouteVerdict(f, v) != Pass ==> RouteVerdict(f, v) == Flag(AcceptMessage(f.caption))
  {
  }

  /**
   * What it means for a field to pass the older validator, rule by rule and
   * independently of the order of the checks: not a blank required field; a
   * `string` field with a non-zero minLength holds no missing or null value,
   * and a string there is at least that long (a number or boolean passes,
   * since its `length` is undefined); a `number` field
   * with a non-zero min is not below it; an `email` field holds an address;
   * a `boolean` field with validValues holds one of them.
   */
  predicate RoutePasses(f: Field, v: Value) {
    var r := RulesOf(f);
    && !(r.required && IsBlank(v))
    && (r.kind == "string" && Truthy(r.minLength) ==>
          !v.Absent? && !v.Null? && (v.Str? ==> |v.s| >= r.minLength.value))
    && (r.kind == "number" && Truthy(r.min) ==> !LooseLess(v, r.min.value))
    && (r.kind == "email" ==> v.Str? && EmailPattern.HasAddressShape(v.s))
    && (r.kind == "boolean" && r.validValues.Some? ==> Includes(r.validValues.value, v))
  }

  /** The chain of checks lets a field through exactly when it meets every rule. */
  lemma PassIffRoutePasses(f: Field, v: Value)
    ensures RouteVerdict(f, v).Pass? <==> RoutePasses(f, v)
  {
    if v.Str? {
      EmailPattern.MatchesIffShape(v.s);
    }
  }

  /** The handler answers 200 exactly when every field of every step meets every rule. */
  lemma SuccessIffAllPass(schema: Schema, data: FormData)
    ensures ReplyFor(FieldsOutcome(Fields(schema), data)) == Replied(200, MessageBody(SubmittedMessage)) <==>
      forall f :: f in Fields(schema) ==> RoutePasses(f, Lookup(data, f.prop))
  {
    SubmitReplyMeaning(schema, data);
    forall f | f in Fields(schema)
      ensures RouteVerdict(f, Lookup(data, f.prop)).Pass? <==> RoutePasses(f, Lookup(data, f.prop))
    {
      PassIffRoutePasses(f, Lookup(data, f.prop));
    }
  }

  // ---------------------------------------------------------------------
  // The loop as a whole

  /** One more field extends the outcome by that field's verdict. */
  lemma ExtendOutcome(prefix: seq<Field>, field: Field, data: FormData)
    requires FieldsOutcome(prefix, data).Completed?
    ensures var errors, verdict := FieldsOutcome(prefix, data).errors, RouteVerdict(field, Lookup(data, field.prop));
      FieldsOutcome(prefix + [field], data) ==
        match verdict
        case Pass => Completed(errors)
        case Flag(m) => Completed(errors[field.prop := m])
        case Throw => Crashed
  {
    assert (prefix + [field])[..|prefix|] == prefix;
  }

  /** A field that throws ends the whole request, whatever follows it. */
  lemma ThrowEndsRequest(schema: Schema, s: nat, i: nat, data: FormData)
    requires s < |schema| && i < |schema[s].fields|
    requires FieldsOutcome(Fields(schema[..s]) + schema[s].fields[..i], data).Completed?
    requires RouteVerdict(schema[s].fields[i], Lookup(data, schema[s].fields[i].prop)).Throw?
    ensures FieldsOutcome(Fields(schema), data) == Crashed
  {
    var fields := schema[s].fields;
    var before, after := Fields(schema[..s]) + fields[..i], fields[i + 1..] + Fields(schema[s + 1..]);
    FieldsAround(schema, s, i);
    ThrowInMiddle(before, fields[i], after, data);
  }

  lemma ThrowInMiddle(before: seq<Field>, field: Field, after: seq<Field>, data: FormData)
    requires FieldsOutcome(before, data).Completed?
    requires RouteVerdict(field, Lookup(data, field.prop)).Throw?
    ensures FieldsOutcome(before + [field] + after, data) == Crashed
  {
    ExtendOutcome(before, field, data);
    CrashAbsorbs(before + [field], after, data);
  }

  /** Once a TypeError is thrown, nothing after it changes the outcome. */
  lemma {:induction false} CrashAbsorbs(a: seq<Field>, b: seq<Field>, data: FormData)
    requires FieldsOutcome(a, data) == Crashed
    ensures FieldsOutcome(a + b, data) == Crashed
    decreases |b|
  {
    if b == [] {
      assert a + b == a;
    } else {
      assert (a + b)[..|a + b| - 1] == a + b[..|b| - 1];
      CrashAbsorbs(a, b[..|b| - 1], data);
    }
  }

  /** The request ends in a TypeError exactly when some field throws. */
  lemma {:induction false} CrashIff(fields: seq<Field>, data: FormData)
    ensures FieldsOutcome(fields, data).Crashed? <==>
      exists f :: f in fields && RouteVerdict(f, Lookup(data, f.prop)).Throw?
    decreases |fields|
  {
    if fields != [] {
      var p, last := fields[..|fields| - 1], fields[|fields| - 1];
      CrashIff(p, data);
      assert fields == p + [last];
      assert forall f :: f in fields <==> f in p || f == last;
    }
  }

  /** Once completed, a prop has an entry exactly when some field with that prop is flagged. */
  lemma {:induction false} RouteErrorKeys(fields: seq<Field>, data: FormData, k: string)
    requires FieldsOutcome(fields, data).Completed?
    ensures k in FieldsOutcome(fields, data).errors <==>
      exists f :: f in fields && f.prop == k && RouteVerdict(f, Lookup(data, k)).Flag?
    decreases |fields|
  {
    if fields != [] {
      var p, last := fields[..|fields| - 1], fields[|fields| - 1];
      RouteErrorKeys(p, data, k);
      assert fields == p + [last];
      assert forall f :: f in fields <==> f in p || f == last;
    }
  }

  /** The handler records nothing and throws nothing exactly when every field passes. */
  lemma PassIff(fields: seq<Field>, data: FormData)
    ensures FieldsOutcome(fields, data) == Completed(map[]) <==>
      forall f :: f in fields ==> RouteVerdict(f, Lookup(data, f.prop)).Pass?
  {
    CrashIff(fields, data);
    var outcome := FieldsOutcome(fields, data);
    if outcome.Completed? {
      if outcome.errors == map[] {
        forall f | f in fields
          ensures RouteVerdict(f, Lookup(data, f.prop)).Pass?
        {
          RouteErrorKeys(fields, data, f.prop);
        }
      } else {
        var k :| k in outcome.errors;
        RouteErrorKeys(fields, data, k);
      }
    }
  }
}
