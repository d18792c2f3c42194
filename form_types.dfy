/**
 * The form schema and the submitted data, shared by both revisions of the
 * submit validator, together with the JavaScript operations the validators
 * apply to a submitted value.
 */
module FormTypes {
  import opened Wrappers
  import JsText
  import EmailPattern

  /**
   * A submitted value as it arrives in the parsed request body; Absent is
   * `undefined`, the result of reading a key the body does not have.
   */
  datatype Value = Absent | Null | Str(s: string) | Num(n: int) | Bool(b: bool)

  /**
   * A field's validation rules. `kind` is the rule's `type` property; a
   * missing `type` behaves like any type name the validators do not know.
   */
  datatype Rules = Rules(
    required: bool,
    kind: string,
    minLength: Option<int>,
    min: Option<int>,
    validValues: Option<seq<bool>>)

  /** One form field: its key in the submitted data, its `label` (caption), its optional rules. */
  datatype Field = Field(prop: string, caption: string, validation: Option<Rules>)

  /** One step of the wizard. */
  datatype Step = Step(fields: seq<Field>)

  type Schema = seq<Step>

  /** The submitted body: a flat object from prop to value. */
  type FormData = map<string, Value>

  /** The rules `validation?.…` reads: no rules at all reads as all properties missing. */
  const NoRules := Rules(false, "", None, None, None)

  function RulesOf(f: Field): Rules {
    if f.validation.Some? then f.validation.value else NoRules
  }

  /** `formData[prop]`. */
  function Lookup(data: FormData, prop: string): Value {
    if prop in data then data[prop] else Absent
  }

  /** A numeric rule property in a condition: present and not 0. */
  predicate Truthy(o: Option<int>) {
    o.Some? && o.value != 0
  }

  /** `value === undefined || value === null || value === ''`. */
  predicate IsBlank(v: Value) {
    v.Absent? || v.Null? || v == Str("")
  }

  /** Every field of every step, in schema order. */
  function Fields(schema: Schema): seq<Field> {
    if schema == [] then []
    else Fields(schema[..|schema| - 1]) + schema[|schema| - 1].fields
  }

  /** No two fields of the list share a prop. */
  predicate UniqueProps(fields: seq<Field>) {
    forall i, j :: 0 <= i < j < |fields| ==> fields[i].prop != fields[j].prop
  }

  /**
   * `emailRegex.test(value)`. A value that is not a string is converted to
   * one first; `undefined`, `null`, `true`, `false` and an integer never
   * render with an `@`, so only strings can match.
   */
  predicate RegexTest(v: Value) {
    v.Str? && EmailPattern.Matches(v.s)
  }

  /** JavaScript's ToNumber on a value; None is NaN. */
  function ToNumber(v: Value): Option<int> {
    match v
    case Absent => None
    case Null => Some(0)
    case Bool(b) => Some(if b then 1 else 0)
    case Num(n) => Some(n)
    case Str(s) => JsText.StringToNumber(s)
  }

  /** `value < n` for a number n: false whenever the value converts to NaN. */
  predicate LooseLess(v: Value, n: int) {
    var x := ToNumber(v);
    x.Some? && x.value < n
  }

  /** What reading `value.length` gives. */
  datatype LengthRead = Length(n: nat) | Undefined | Throws

  function LengthOf(v: Value): LengthRead {
    match v
    case Absent => Throws
    case Null => Throws
    case Str(s) => Length(|s|)
    case Num(_) => Undefined
    case Bool(_) => Undefined
  }

  /** `validValues.includes(value)` for a list of booleans. */
  predicate Includes(values: seq<bool>, v: Value) {
    v.Bool? && v.b in values
  }

  lemma {:induction false} FieldsAppend(a: Schema, b: Schema)
    ensures Fields(a + b) == Fields(a) + Fields(b)
    decreases |b|
  {
    if b == [] {
      assert a + b == a;
    } else {
      var b' := b[..|b| - 1];
      assert (a + b)[..|a + b| - 1] == a + b';
      FieldsAppend(a, b');
    }
  }

  /** A prefix of a field list, extended by its next field. */
  lemma AppendNext(done: seq<Field>, fields: seq<Field>, i: nat)
    requires i < |fields|
    ensures done + fields[..i + 1] == done + fields[..i] + [fields[i]]
  {
    assert fields[..i + 1] == fields[..i] + [fields[i]];
  }

  /** The fields of the first s + 1 steps: those of the first s, then step s's. */
  lemma FieldsStep(schema: Schema, s: nat)
    requires s < |schema|
    ensures Fields(schema[..s + 1]) == Fields(schema[..s]) + schema[s].fields
  {
    var p := schema[..s + 1];
    assert p[..|p| - 1] == schema[..s] && p[|p| - 1] == schema[s];
  }

  /** The schema's fields split after step s. */
  lemma FieldsSplit(schema: Schema, s: nat)
    requires s < |schema|
    ensures Fields(schema) == Fields(schema[..s]) + schema[s].fields + Fields(schema[s + 1..])
  {
    var head, tail := schema[..s + 1], schema[s + 1..];
    assert schema == head + tail;
    FieldsAppend(head, tail);
    FieldsStep(schema, s);
  }

  /** The schema's fields around field i of step s. */
  lemma FieldsAround(schema: Schema, s: nat, i: nat)
    requires s < |schema| && i < |schema[s].fields|
    ensures var fields := schema[s].fields;
      Fields(schema) == (Fields(schema[..s]) + fields[..i]) + [fields[i]] + (fields[i + 1..] + Fields(schema[s + 1..]))
  {
    var fields := schema[s].fields;
    FieldsSplit(schema, s);
    assert fields == fields[..i] + [fields[i]] + fields[i + 1..];
  }
}
