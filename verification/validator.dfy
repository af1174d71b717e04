/** The validator of src/Validator.ts: it runs every attribute's rules over
    the data, collects the reported messages per attribute, and caches the
    outcome for `valid`, `invalid` and `validated`. */
module Validation {
  import opened Wrappers
  import opened Assoc
  import opened JsText
  import opened Values
  import opened Rules
  import opened RuleRegistration
  import opened MessageMap
  import FactoryRule
  import ValidateAttribute

  /** What the validator holds under an attribute: a rule registration, a
      callback-style custom rule (src/Rules/CustomRule.ts), or a stateful
      custom rule (src/CustomRule.ts), whose `validate` ignores the `fail`
      callback the validator passes. */
  datatype Entry =
    | Builder(registration: Registration)
    | Callback(handler: Handler)
    | Stateful(rule: FactoryRule.CustomRule)

  /** A validator: its rules, its data, the messages of the last run
      (`None` before any), and the data last returned as valid. */
  datatype Validator = Validator(rules: Assoc<Entry>, data: Data, messages: Option<Messages>, validData: Data)

  /** `new Validator(rules)`: no data and no run yet. */
  function New(rules: Assoc<Entry>): (v: Validator)
    requires DistinctKeys(rules)
    ensures v.rules == rules && v.messages.None? && v.data == map[] && v.validData == map[]
    ensures Inv(v)
  {
    Validator(rules, map[], None, map[])
  }

  // ---------------------------------------------------------------------
  // One run

  /** `isNullIfMarkedAsNullable(rules, attribute)`: the registration holds
      `nullable` and the value is null, undefined, a string whose trimmed
      length is 0 or an empty array. That is exactly a value
      `ValidateAttribute.required` rejects. */
  predicate IsNullIfMarkedAsNullable(rules: Assoc<Rule>, data: Data, attribute: string)
    ensures IsNullIfMarkedAsNullable(rules, data, attribute) <==>
      "nullable" in Keys(rules) && !ValidateAttribute.Required(attribute, Lookup(data, attribute))
  {
    var value := Lookup(data, attribute);
    && "nullable" in Keys(rules)
    && (|| value.Null? || value.Undefined?
        || (value.Str? && Utf16Length(Trim(value.s)) == 0)
        || (value.Arr? && |value.items| == 0))
  }

  /** The messages the rules report, one rule after the other. The loop
      does not stop at a failure: every failing built-in rule reports. */
  function RunRules(rules: Assoc<Rule>, attribute: string, value: Value): (r: seq<string>)
    ensures forall i :: 0 <= i < |rules| && rules[i].1.Builtin? && Rules.Fails(rules[i].1.check, value) ==>
      Message(rules[i].1.check, rules[i].1.message, attribute) in r
    decreases |rules|
  {
    if rules == [] then []
    else
      var rest := RunRules(rules[1..], attribute, value);
      assert forall i :: 1 <= i < |rules| ==> rules[i] == rules[1..][i - 1];
      Validate(rules[0].1, attribute, value) + rest
  }

  /** One rule reports what its `validate` reports. */
  lemma RunRulesSingle(x: (string, Rule), attribute: string, value: Value)
    ensures RunRules([x], attribute, value) == Validate(x.1, attribute, value)
  {
  }

  /** The rules run in registration order: the messages of a sequence of
      rules are those of its first part followed by those of the rest. */
  lemma {:induction false} RunRulesConcat(a: Assoc<Rule>, b: Assoc<Rule>, attribute: string, value: Value)
    ensures RunRules(a + b, attribute, value) == RunRules(a, attribute, value) + RunRules(b, attribute, value)
    decreases |a|
  {
    if a == [] {
      assert a + b == b;
    } else {
      assert (a + b)[0] == a[0] && (a + b)[1..] == a[1..] + b;
      RunRulesConcat(a[1..], b, attribute, value);
    }
  }

  /** The messages one attribute's entry reports. The nullable test does
      not depend on the rule being run, so skipping each rule of the loop
      is skipping them all. */
  function EntryMessages(entry: Entry, data: Data, attribute: string): (r: seq<string>)
    ensures var required := ValidateAttribute.Required(attribute, Lookup(data, attribute));
      entry.Builder? && "nullable" in Keys(entry.registration.rules) && !required ==> r == []
    ensures var required := ValidateAttribute.Required(attribute, Lookup(data, attribute));
      entry.Builder? && ("nullable" !in Keys(entry.registration.rules) || required) ==>
        r == RunRules(entry.registration.rules, attribute, Lookup(data, attribute))
    ensures entry.Callback? ==> r == entry.handler(attribute, Lookup(data, attribute))
    ensures entry.Stateful? ==> r == []
  {
    match entry
    case Builder(reg) =>
      if IsNullIfMarkedAsNullable(Serialize(reg), data, attribute) then []
      else RunRules(Serialize(reg), attribute, Lookup(data, attribute))
    case Callback(handler) => handler(attribute, Lookup(data, attribute))
    case Stateful(_) => []
  }

  /** The rules a well-formed registration holds: built-in rules, and the
      silent nullable rule. */
  ghost predicate BuiltinOrSilent(rules: Assoc<Rule>) {
    forall i :: 0 <= i < |rules| ==> rules[i].1.Builtin? || rules[i].1 == NullableRule
  }

  /** Built-in rules report at most one message each, and the run reports
      nothing exactly when no built-in test fails. */
  lemma {:induction false} RunRulesReports(rules: Assoc<Rule>, attribute: string, value: Value)
    requires BuiltinOrSilent(rules)
    ensures |RunRules(rules, attribute, value)| <= |rules|
    ensures RunRules(rules, attribute, value) == [] <==>
      forall i :: 0 <= i < |rules| && rules[i].1.Builtin? ==> !Rules.Fails(rules[i].1.check, value)
    decreases |rules|
  {
    if rules != [] {
      var rest := rules[1..];
      assert forall i :: 0 <= i < |rest| ==> rest[i] == rules[i + 1];
      RunRulesReports(rest, attribute, value);
      var here := Validate(rules[0].1, attribute, value);
      if rules[0].1.Custom? {
        assert here == [];
      }
      assert RunRules(rules, attribute, value) == here + RunRules(rest, attribute, value);
      if RunRules(rules, attribute, value) == [] {
        forall i | 0 <= i < |rules| && rules[i].1.Builtin?
          ensures !Rules.Fails(rules[i].1.check, value)
        {
          if i > 0 { assert rules[i] == rest[i - 1]; }
        }
      }
    }
  }

  /** A well-formed registration holds only built-in rules and the silent
      one, so it reports at most one message per rule name. */
  lemma RegistrationReportsAtMostOnePerRule(reg: Registration, data: Data, attribute: string)
    requires Wf(reg)
    ensures BuiltinOrSilent(Serialize(reg))
    ensures |EntryMessages(Builder(reg), data, attribute)| <= |reg.rules| <= |RuleNames|
  {
    var rules := Serialize(reg);
    forall i | 0 <= i < |rules|
      ensures rules[i].1.Builtin? || rules[i].1 == NullableRule
    {
      GetAt(rules, i);
      assert rules[i].0 in Keys(rules);
    }
    RunRulesReports(rules, attribute, Lookup(data, attribute));
  }

  /** After `nullable()`, a blank value (null, undefined, a string of white
      space, an empty array) skips every rule of the registration, and any
      other value runs them all. */
  lemma NullableGate(reg: Registration, data: Data, attribute: string)
    ensures var value := Lookup(data, attribute);
      EntryMessages(Builder(Nullable(reg)), data, attribute) ==
        if ValidateAttribute.Required(attribute, value) then RunRules(Serialize(Nullable(reg)), attribute, value) else []
  {
    assert "nullable" in Keys(Serialize(Nullable(reg)));
  }

  /** Each rule attribute with the messages its entry reports, in rule
      order. */
  function Reports(rules: Assoc<Entry>, data: Data): (r: Messages)
    ensures |r| == |rules|
    ensures forall i :: 0 <= i < |rules| ==> r[i] == (rules[i].0, EntryMessages(rules[i].1, data, rules[i].0))
    decreases |rules|
  {
    if rules == [] then []
    else [(rules[0].0, EntryMessages(rules[0].1, data, rules[0].0))] + Reports(rules[1..], data)
  }

  lemma ReportsKeys(rules: Assoc<Entry>, data: Data)
    ensures Keys(Reports(rules, data)) == Keys(rules)
  {
    var r := Reports(rules, data);
    assert forall i :: 0 <= i < |rules| ==> Keys(r)[i] == Keys(rules)[i];
  }

  /** A message map a run can produce: distinct keys, all of them rule
      keys, each with a non-empty list. */
  ghost predicate WfMessages(ms: Messages, rules: Assoc<Entry>) {
    && DistinctKeys(ms)
    && (forall k :: k in Keys(ms) ==> k in Keys(rules))
    && (forall i :: 0 <= i < |ms| ==> ms[i].1 != [])
  }

  // ---------------------------------------------------------------------
  // The validator's operations

  /** The representation invariant: an object's keys are distinct, and a
      cached message map is one a run produced. */
  ghost predicate Inv(v: Validator) {
    && DistinctKeys(v.rules)
    && (v.messages.Some? ==> WfMessages(v.messages.value, v.rules))
  }

  /** `passes()`: runs every rule afresh and caches the messages; it passes
      when no attribute reported. Under distinct rule keys the cached map
      holds exactly the attributes that reported, in rule order. */
  function Passes(v: Validator): (r: (Validator, bool))
    ensures r.0 == v.(messages := r.0.messages) && r.0.messages.Some?
    ensures r.1 <==> r.0.messages.value == []
    ensures r.1 <==> forall i :: 0 <= i < |v.rules| ==> EntryMessages(v.rules[i].1, v.data, v.rules[i].0) == []
    ensures DistinctKeys(v.rules) ==> r.0.messages == Some(NonEmpty(Reports(v.rules, v.data))) && Inv(r.0)
  {
    var ms := Collect(Reports(v.rules, v.data), []);
    PassesFacts(v.rules, v.data);
    (v.(messages := Some(ms)), ms == [])
  }

  lemma PassesFacts(rules: Assoc<Entry>, data: Data)
    ensures Collect(Reports(rules, data), []) == [] <==>
      forall i :: 0 <= i < |rules| ==> EntryMessages(rules[i].1, data, rules[i].0) == []
    ensures DistinctKeys(rules) ==> Collect(Reports(rules, data), []) == NonEmpty(Reports(rules, data))
    ensures DistinctKeys(rules) ==> WfMessages(NonEmpty(Reports(rules, data)), rules)
  {
    var reports := Reports(rules, data);
    CollectNonEmpty(reports, []);
    ReportsKeys(rules, data);
    NonEmptyKeys(reports);
    if DistinctKeys(rules) {
      SameKeysDistinct(rules, reports);
      CollectAppends(reports, []);
    }
  }

  /** Under distinct rule keys, a run caches for every rule attribute
      exactly the messages its entry reported, if any. */
  lemma PassesRecordsReports(v: Validator, i: int)
    requires DistinctKeys(v.rules) && 0 <= i < |v.rules|
    ensures var reported := EntryMessages(v.rules[i].1, v.data, v.rules[i].0);
      Get(Passes(v).0.messages.value, v.rules[i].0) == if reported == [] then None else Some(reported)
  {
    var reports := Reports(v.rules, v.data);
    ReportsKeys(v.rules, v.data);
    SameKeysDistinct(v.rules, reports);
    NonEmptyGet(reports, v.rules[i].0);
    GetAt(reports, i);
  }

  /** After a failed run over distinct rule keys, `getMessage()` is the
      first message of the first rule attribute, in rule order, that
      reported. */
  lemma FirstMessageOfFirstFailure(v: Validator, i: int)
    requires DistinctKeys(v.rules) && 0 <= i < |v.rules|
    requires EntryMessages(v.rules[i].1, v.data, v.rules[i].0) != []
    requires forall j :: 0 <= j < i ==> EntryMessages(v.rules[j].1, v.data, v.rules[j].0) == []
    ensures !Passes(v).1
    ensures GetMessage(Passes(v).0) == EntryMessages(v.rules[i].1, v.data, v.rules[i].0)[0]
  {
    var reports := Reports(v.rules, v.data);
    NonEmptyFirst(reports, i);
  }

  /** After a passing run, `getMessage()` is the empty string. */
  lemma PassingRunHasNoMessage(v: Validator)
    ensures Passes(v).1 ==> GetMessage(Passes(v).0) == ""
  {
  }

  /** After a run over distinct rule keys, `getMessages()` and `errors()`
      return exactly the attributes that reported, in rule order, each with
      its reports. */
  lemma ErrorsAfterRun(v: Validator)
    requires DistinctKeys(v.rules)
    ensures GetMessages(Passes(v).0) == NonEmpty(Reports(v.rules, v.data))
  {
  }

  /** `fails()`: the negation of a fresh `passes()`. */
  function Fails(v: Validator): (r: (Validator, bool))
    ensures r.0 == Passes(v).0 && r.1 == !Passes(v).1
  {
    var (w, ok) := Passes(v);
    (w, !ok)
  }

  /** The run `valid`, `invalid` and `validated` rely on: the cached one if
      there is one, else a fresh `passes()`. */
  function Ensure(v: Validator): (w: Validator)
    ensures w.messages.Some?
    ensures v.messages.Some? ==> w == v
    ensures v.messages.None? ==> w == Passes(v).0
  {
    if v.messages.None? then Passes(v).0 else v
  }

  /** `valid()`: the rule attributes without messages, in rule order. */
  function Valid(v: Validator): (r: (Validator, seq<string>))
    ensures r.0 == Ensure(v)
    ensures forall a :: a in r.1 <==> a in Keys(v.rules) && a !in Keys(r.0.messages.value)
    ensures Subsequence(r.1, Keys(v.rules))
  {
    var w := Ensure(v);
    (w, Diff(Keys(v.rules), Keys(w.messages.value)))
  }

  /** `invalid()`: the attributes with messages, in the order they first
      reported. */
  function Invalid(v: Validator): (r: (Validator, seq<string>))
    ensures r.0 == Ensure(v)
    ensures r.1 == Keys(r.0.messages.value)
    ensures Inv(v) ==> forall a :: a in r.1 ==> a in Keys(v.rules)
  {
    var w := Ensure(v);
    PassesFacts(v.rules, v.data);
    (w, Keys(w.messages.value))
  }

  /** Every rule attribute is either valid or invalid, never both. */
  lemma ValidInvalidPartition(v: Validator)
    requires Inv(v)
    ensures forall a :: a in Keys(v.rules) <==> a in Valid(v).1 || a in Invalid(v).1
    ensures forall a :: !(a in Valid(v).1 && a in Invalid(v).1)
  {
  }

  /** `_obj.only(data, keys)`: the entries of `data` under `keys`. */
  function Only(data: Data, keys: seq<string>): (r: Data)
    ensures forall k :: k in r <==> k in data && k in keys
    ensures forall k :: k in r ==> r[k] == data[k]
  {
    map k | k in data && k in keys :: data[k]
  }

  /** `getValidatedData()`: stores and returns the data of the valid
      attributes. */
  function GetValidatedData(v: Validator): (r: (Validator, Data))
    ensures r.0 == Ensure(v).(validData := r.1)
    ensures forall k :: k in r.1 <==> k in v.data && k in Keys(v.rules) && k !in Keys(Ensure(v).messages.value)
    ensures forall k :: k in r.1 ==> r.1[k] == v.data[k]
  {
    var (w, valid) := Valid(v);
    var d := Only(w.data, valid);
    (w.(validData := d), d)
  }

  /** `validated()`: runs the rules if they have not been run, then
      returns the validated data. */
  function Validated(v: Validator): (r: (Validator, Data))
    ensures r == GetValidatedData(Ensure(v))
  {
    if v.messages.None? then GetValidatedData(Passes(v).0) else GetValidatedData(v)
  }

  /** When no entry reports, `validated()` on a validator that has not
      run returns the data under every rule attribute. */
  lemma PassingRunValidatesRuleData(v: Validator)
    requires DistinctKeys(v.rules) && v.messages.None?
    requires forall i :: 0 <= i < |v.rules| ==> EntryMessages(v.rules[i].1, v.data, v.rules[i].0) == []
    ensures Validated(v).1 == Only(v.data, Keys(v.rules))
  {
    var w := Passes(v).0;
    NonEmptyEmpty(Reports(v.rules, v.data));
    assert w.messages.value == [];
    assert forall a :: a in Valid(w).1 <==> a in Keys(v.rules);
  }

  /** `getMessage()`: the first message of the first attribute that
      reported, or the empty string. */
  function GetMessage(v: Validator): (r: string)
    ensures v.messages.None? || v.messages.value == [] ==> r == ""
    ensures Inv(v) && v.messages.Some? && v.messages.value != [] ==> r == v.messages.value[0].1[0]
  {
    match v.messages
    case None => ""
    case Some(ms) => if ms == [] || ms[0].1 == [] then "" else ms[0].1[0]
  }

  /** `validate()`: a fresh run; a failure is the exception carrying the
      first message, a pass returns the validated data. */
  function ValidateAll(v: Validator): (r: (Validator, Result<Data, string>))
    ensures r.1.Failure? <==> !Passes(v).1
    ensures r.1.Failure? ==> r.0 == Passes(v).0 && r.1.error == GetMessage(Passes(v).0)
    ensures r.1.Success? ==> (r.0, r.1.value) == GetValidatedData(Passes(v).0)
  {
    var (w, failed) := Fails(v);
    if failed then (w, Failure(GetMessage(w)))
    else
      var (u, d) := Validated(w);
      (u, Success(d))
  }

  /** `setData(data)`: replaces the data but keeps the cached messages. */
  function SetData(v: Validator, data: Data): (r: Validator)
    ensures r.data == data && r.rules == v.rules && r.messages == v.messages && r.validData == v.validData
    ensures GetData(r) == data
  {
    v.(data := data)
  }

  /** New data does not clear the cached run: `valid()` and `invalid()`
      keep answering for the data the rules last ran on, and
      `validated()` picks the new data's entries under those attributes. */
  lemma SetDataKeepsVerdict(v: Validator, data: Data)
    requires v.messages.Some?
    ensures Valid(SetData(v, data)).1 == Valid(v).1
    ensures Invalid(SetData(v, data)).1 == Invalid(v).1
    ensures Validated(SetData(v, data)).1 == Only(data, Valid(v).1)
  {
  }

  /** `getData()`. */
  function GetData(v: Validator): Data {
    v.data
  }

  /** `getMessages()` and its alias `errors()`: the cached messages, or an
      empty map before any run. */
  function GetMessages(v: Validator): (r: Messages)
    ensures v.messages.None? ==> r == []
    ensures v.messages.Some? ==> r == v.messages.value
    ensures Inv(v) ==> WfMessages(r, v.rules)
  {
    v.messages.GetOr([])
  }

  /** `pushMessage(attribute, message)` on the validator: starts a map if
      there is none. */
  function PushMessageTo(v: Validator, attribute: string, message: string): (r: Validator)
    ensures r.messages.Some? && Get(r.messages.value, attribute) == Some(Get(GetMessages(v), attribute).GetOr([]) + [message])
    ensures forall k :: k != attribute ==> Get(r.messages.value, k) == Get(GetMessages(v), k)
    ensures r == v.(messages := r.messages)
  {
    v.(messages := Some(PushMessage(GetMessages(v), attribute, message)))
  }
}
