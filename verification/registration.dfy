/** The fluent rule builder of src/RuleRegistration.ts. Each builder call
    stores one rule under its fixed name, so calling it again replaces the
    rule in place; `array()`, `numeric()` and `string()` also set the field
    type that a later `min` or `max` captures. */
module RuleRegistration {
  import opened Wrappers
  import opened Assoc
  import opened JsText
  import opened Values
  import opened Rules

  /** A registration: its optional name, its rules keyed by rule name in
      registration order, and the current field type. */
  datatype Registration = Registration(name: Option<string>, rules: Assoc<Rule>, fieldType: FieldType)

  /** The keys a registration stores its rules under. */
  const RuleNames: set<string> :=
    {"array", "email", "in", "max", "min", "nullable", "numeric", "regex", "required", "string"}

  /** The callback of the rule `nullable()` registers: it never reports. */
  const Silent: Handler := (attribute: string, value: Value) => []

  const NullableRule: Rule := Custom(Silent)

  /** `new RuleRegistration(name)`: no rules, the string type. */
  function New(name: Option<string>): (r: Registration)
    ensures r.rules == [] && r.fieldType == StringType && GetName(r) == name.GetOr("")
  {
    Registration(name, [], StringType)
  }

  /** `rules` after `rules[key] = rule`: `key` maps to `rule`, every other
      key keeps its rule, and the key order is unchanged if `key` was
      present and extended by `key` otherwise. */
  ghost predicate Registered(before: Assoc<Rule>, after: Assoc<Rule>, key: string, rule: Rule) {
    && Get(after, key) == Some(rule)
    && (forall k :: k != key ==> Get(after, k) == Get(before, k))
    && Keys(after) == (if key in Keys(before) then Keys(before) else Keys(before) + [key])
  }

  lemma PutRegisters(m: Assoc<Rule>, key: string, rule: Rule)
    ensures Registered(m, Put(m, key, rule), key, rule)
  {
    if key !in Keys(m) { KeysSnoc(m, key, rule); }
  }

  /** `this.rules[key] = rule`. */
  function Add(reg: Registration, key: string, rule: Rule): (r: Registration)
    ensures r.name == reg.name && r.fieldType == reg.fieldType
    ensures Registered(reg.rules, r.rules, key, rule)
  {
    PutRegisters(reg.rules, key, rule);
    reg.(rules := Put(reg.rules, key, rule))
  }

  /** `array(message)`: the array type, and an ArrayRule. */
  function Array(reg: Registration, message: Option<string>): (r: Registration)
    ensures r.name == reg.name && r.fieldType == ArrayType
    ensures Registered(reg.rules, r.rules, "array", Builtin(ArrayCheck, message))
  {
    Add(reg.(fieldType := ArrayType), "array", SetMessage(Builtin(ArrayCheck, None), message))
  }

  /** `email(message)`: an EmailRule. */
  function Email(reg: Registration, message: Option<string>): (r: Registration)
    ensures r.name == reg.name && r.fieldType == reg.fieldType
    ensures Registered(reg.rules, r.rules, "email", Builtin(EmailCheck, message))
  {
    Add(reg, "email", SetMessage(Builtin(EmailCheck, None), message))
  }

  /** `in(values, message)`: an InRule over `values`. */
  function In(reg: Registration, values: Value, message: Option<string>): (r: Registration)
    ensures r.name == reg.name && r.fieldType == reg.fieldType
    ensures Registered(reg.rules, r.rules, "in", Builtin(InCheck(values), message))
  {
    Add(reg, "in", SetMessage(Builtin(InCheck(values), None), message))
  }

  /** `max(bound, message)`: a MaxRule fixed to the current field type. */
  function Max(reg: Registration, bound: int, message: Option<string>): (r: Registration)
    ensures r.name == reg.name && r.fieldType == reg.fieldType
    ensures Registered(reg.rules, r.rules, "max", Builtin(MaxCheck(bound, reg.fieldType), message))
  {
    Add(reg, "max", SetMessage(Builtin(MaxCheck(bound, reg.fieldType), None), message))
  }

  /** `min(bound, message)`: a MinRule fixed to the current field type. */
  function Min(reg: Registration, bound: int, message: Option<string>): (r: Registration)
    ensures r.name == reg.name && r.fieldType == reg.fieldType
    ensures Registered(reg.rules, r.rules, "min", Builtin(MinCheck(bound, reg.fieldType), message))
  {
    Add(reg, "min", SetMessage(Builtin(MinCheck(bound, reg.fieldType), None), message))
  }

  /** `nullable()`: deletes a `required` rule, then stores the silent
      nullable rule. */
  function Nullable(reg: Registration): (r: Registration)
    ensures r.name == reg.name && r.fieldType == reg.fieldType
    ensures Get(r.rules, "nullable") == Some(NullableRule)
    ensures "required" !in Keys(r.rules)
    ensures forall k :: k != "required" && k != "nullable" ==> Get(r.rules, k) == Get(reg.rules, k)
    ensures Keys(r.rules) == Diff(Keys(reg.rules), ["required"]) + (if "nullable" in Keys(reg.rules) then [] else ["nullable"])
  {
    var kept := Remove(reg.rules, "required");
    PutRegisters(kept, "nullable", NullableRule);
    reg.(rules := Put(kept, "nullable", NullableRule))
  }

  /** `numeric(message)`: the number type, and a NumericRule. */
  function Numeric(reg: Registration, message: Option<string>): (r: Registration)
    ensures r.name == reg.name && r.fieldType == NumberType
    ensures Registered(reg.rules, r.rules, "numeric", Builtin(NumericCheck, message))
  {
    Add(reg.(fieldType := NumberType), "numeric", SetMessage(Builtin(NumericCheck, None), message))
  }

  /** `regex(pattern, message)`: a RegexRule testing with `test`. */
  function Regex(reg: Registration, test: string -> bool, message: Option<string>): (r: Registration)
    ensures r.name == reg.name && r.fieldType == reg.fieldType
    ensures Registered(reg.rules, r.rules, "regex", Builtin(RegexCheck(test), message))
  {
    Add(reg, "regex", SetMessage(Builtin(RegexCheck(test), None), message))
  }

  /** `required(message)`: a RequiredRule. */
  function Required(reg: Registration, message: Option<string>): (r: Registration)
    ensures r.name == reg.name && r.fieldType == reg.fieldType
    ensures Registered(reg.rules, r.rules, "required", Builtin(RequiredCheck, message))
  {
    Add(reg, "required", SetMessage(Builtin(RequiredCheck, None), message))
  }

  /** `string(message)`: the string type, and a StringRule. */
  function String(reg: Registration, message: Option<string>): (r: Registration)
    ensures r.name == reg.name && r.fieldType == StringType
    ensures Registered(reg.rules, r.rules, "string", Builtin(StringCheck, message))
  {
    Add(reg.(fieldType := StringType), "string", SetMessage(Builtin(StringCheck, None), message))
  }

  /** `getName()`: the name, or the empty string. */
  function GetName(reg: Registration): (r: string)
    ensures reg.name.None? ==> r == ""
  {
    reg.name.GetOr("")
  }

  /** `setName(name)`: changes the name and nothing else. */
  function SetName(reg: Registration, name: string): (r: Registration)
    ensures GetName(r) == name
    ensures r.rules == reg.rules && r.fieldType == reg.fieldType
  {
    reg.(name := Some(name))
  }

  /** `formatMessage(message)`: the first placeholder becomes the name. */
  function FormatMessage(reg: Registration, message: string): (r: string)
    ensures ':' !in message ==> r == message
  {
    PlaceholderAbsent(message, GetName(reg));
    ReplaceFirst(message, Placeholder, GetName(reg))
  }

  /** A placeholder after a `:`-free prefix is replaced by the name, and
      without a name it disappears. */
  lemma FormatMessageFillsName(reg: Registration, prefix: string, suffix: string)
    requires ':' !in prefix && '$' !in GetName(reg)
    ensures FormatMessage(reg, prefix + Placeholder + suffix) == prefix + GetName(reg) + suffix
    ensures reg.name.None? ==> FormatMessage(reg, prefix + Placeholder + suffix) == prefix + suffix
  {
    ReplaceAfterPrefix(prefix, Placeholder, suffix, GetName(reg));
  }

  /** A message with no `:` is returned as it is. */
  lemma FormatMessagePlain(reg: Registration, message: string)
    requires ':' !in message
    ensures FormatMessage(reg, message) == message
  {
    ReplaceAbsent(message, Placeholder, GetName(reg));
  }

  // ---------------------------------------------------------------------
  // Builder chains

  /** One builder call. */
  datatype Call =
    | ArrayCall(message: Option<string>)
    | EmailCall(message: Option<string>)
    | InCall(values: Value, message: Option<string>)
    | MaxCall(bound: int, message: Option<string>)
    | MinCall(bound: int, message: Option<string>)
    | NullableCall
    | NumericCall(message: Option<string>)
    | RegexCall(test: string -> bool, message: Option<string>)
    | RequiredCall(message: Option<string>)
    | StringCall(message: Option<string>)

  function Apply(reg: Registration, call: Call): Registration {
    match call
    case ArrayCall(m) => Array(reg, m)
    case EmailCall(m) => Email(reg, m)
    case InCall(values, m) => In(reg, values, m)
    case MaxCall(bound, m) => Max(reg, bound, m)
    case MinCall(bound, m) => Min(reg, bound, m)
    case NullableCall => Nullable(reg)
    case NumericCall(m) => Numeric(reg, m)
    case RegexCall(test, m) => Regex(reg, test, m)
    case RequiredCall(m) => Required(reg, m)
    case StringCall(m) => String(reg, m)
  }

  /** The calls applied left to right, as a method chain applies them. */
  function Chain(reg: Registration, calls: seq<Call>): Registration
    decreases |calls|
  {
    if calls == [] then reg else Chain(Apply(reg, calls[0]), calls[1..])
  }

  /** What every registration built by the calls satisfies: distinct keys,
      all of them rule names, and a built-in rule under every key but
      `nullable`, which holds the silent rule. */
  ghost predicate Wf(reg: Registration) {
    && DistinctKeys(reg.rules)
    && (forall k :: k in Keys(reg.rules) ==> k in RuleNames)
    && (forall k :: k in Keys(reg.rules) ==>
          (if k == "nullable" then Get(reg.rules, k) == Some(NullableRule) else Get(reg.rules, k).value.Builtin?))
  }

  lemma AddKeepsWf(reg: Registration, key: string, rule: Rule, r: Registration)
    requires Wf(reg) && key in RuleNames && key != "nullable" && rule.Builtin?
    requires r.rules == Put(reg.rules, key, rule)
    ensures Wf(r)
  {
    PutKeepsDistinct(reg.rules, key, rule);
    PutRegisters(reg.rules, key, rule);
    forall k | k in Keys(r.rules)
      ensures k in RuleNames
      ensures if k == "nullable" then Get(r.rules, k) == Some(NullableRule) else Get(r.rules, k).value.Builtin?
    {
      if k != key {
        assert k in Keys(reg.rules);
        assert Get(r.rules, k) == Get(reg.rules, k);
      }
    }
  }

  lemma NullableKeepsWf(reg: Registration)
    requires Wf(reg)
    ensures Wf(Nullable(reg))
  {
    var kept := Remove(reg.rules, "required");
    var r := Nullable(reg);
    PutKeepsDistinct(kept, "nullable", NullableRule);
    PutRegisters(kept, "nullable", NullableRule);
    forall k | k in Keys(r.rules)
      ensures k in RuleNames
      ensures if k == "nullable" then Get(r.rules, k) == Some(NullableRule) else Get(r.rules, k).value.Builtin?
    {
      if k != "nullable" {
        assert k in Keys(kept);
        assert Get(r.rules, k) == Get(kept, k) == Get(reg.rules, k);
      }
    }
  }

  lemma {:induction false} ApplyKeepsWf(reg: Registration, call: Call)
    requires Wf(reg)
    ensures Wf(Apply(reg, call))
  {
    var r := Apply(reg, call);
    match call
    case ArrayCall(m) => AddKeepsWf(reg, "array", Builtin(ArrayCheck, m), r);
    case EmailCall(m) => AddKeepsWf(reg, "email", Builtin(EmailCheck, m), r);
    case InCall(values, m) => AddKeepsWf(reg, "in", Builtin(InCheck(values), m), r);
    case MaxCall(bound, m) => AddKeepsWf(reg, "max", Builtin(MaxCheck(bound, reg.fieldType), m), r);
    case MinCall(bound, m) => AddKeepsWf(reg, "min", Builtin(MinCheck(bound, reg.fieldType), m), r);
    case NullableCall => NullableKeepsWf(reg);
    case NumericCall(m) => AddKeepsWf(reg, "numeric", Builtin(NumericCheck, m), r);
    case RegexCall(test, m) => AddKeepsWf(reg, "regex", Builtin(RegexCheck(test), m), r);
    case RequiredCall(m) => AddKeepsWf(reg, "required", Builtin(RequiredCheck, m), r);
    case StringCall(m) => AddKeepsWf(reg, "string", Builtin(StringCheck, m), r);
  }

  /** Every chain of builder calls on a new registration yields a
      well-formed one. */
  lemma {:induction false} ChainWf(reg: Registration, calls: seq<Call>)
    requires Wf(reg)
    ensures Wf(Chain(reg, calls))
    decreases |calls|
  {
    if calls != [] {
      ApplyKeepsWf(reg, calls[0]);
      ChainWf(Apply(reg, calls[0]), calls[1..]);
    }
  }

  /** `serialize()`: the rules in registration order. A well-formed
      registration holds at most one rule per rule name. */
  function Serialize(reg: Registration): (rules: Assoc<Rule>)
    ensures rules == reg.rules
    ensures Wf(reg) ==> DistinctKeys(rules) && |rules| <= |RuleNames|
  {
    WfBound(reg);
    reg.rules
  }

  lemma WfBound(reg: Registration)
    ensures Wf(reg) ==> |reg.rules| <= |RuleNames|
  {
    if Wf(reg) { DistinctBound(reg.rules, RuleNames); }
  }

  /** Min keeps the type current when it is called: `numeric().min(n)`
      compares numbers, while a type call after `min(n)` does not retype
      it. */
  lemma MinCapturesType(reg: Registration, bound: int, m: Option<string>)
    ensures Get(Min(Numeric(reg, None), bound, m).rules, "min") == Some(Builtin(MinCheck(bound, NumberType), m))
    ensures Get(Numeric(Min(reg, bound, m), None).rules, "min") == Some(Builtin(MinCheck(bound, reg.fieldType), m))
  {
    var n := Numeric(reg, None);
    assert n.fieldType == NumberType;
    var r := Min(reg, bound, m);
    assert Get(r.rules, "min") == Some(Builtin(MinCheck(bound, reg.fieldType), m));
  }

  /** Max likewise: `array().max(n).string()` still measures arrays. */
  lemma MaxCapturesType(reg: Registration, bound: int, m: Option<string>)
    ensures Get(String(Max(Array(reg, None), bound, m), None).rules, "max") == Some(Builtin(MaxCheck(bound, ArrayType), m))
  {
    var a := Array(reg, None);
    assert a.fieldType == ArrayType;
    var r := Max(a, bound, m);
    assert Get(r.rules, "max") == Some(Builtin(MaxCheck(bound, ArrayType), m));
  }

  /** `nullable()` removes an earlier `required()`; a later `required()`
      is stored again, after every other rule. */
  lemma NullableAndRequired(reg: Registration, m: Option<string>)
    ensures "required" !in Keys(Nullable(Required(reg, m)).rules)
    ensures var n := Nullable(reg);
      Keys(Required(n, m).rules) == Keys(n.rules) + ["required"]
  {
  }

  /** Calling a builder again replaces its rule where it stands. */
  lemma RepeatedCallKeepsOrder(reg: Registration, m1: Option<string>, m2: Option<string>)
    ensures Keys(Required(Email(Required(reg, m1), None), m2).rules) == Keys(Email(Required(reg, m1), None).rules)
    ensures Get(Required(Email(Required(reg, m1), None), m2).rules, "required") == Some(Builtin(RequiredCheck, m2))
  {
  }
}
