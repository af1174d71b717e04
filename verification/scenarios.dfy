/** The scenarios the repository's test suite describes, stated over the
    model: the messages a validator caches and the data it returns. */
module Scenarios {
  import opened Wrappers
  import opened Assoc
  import opened JsText
  import opened Values
  import opened JsNumber
  import opened EmailPattern
  import opened Rules
  import Reg = RuleRegistration
  import opened MessageMap
  import opened Validation
  import FactoryRule

  /** A registration holding one built-in rule with no message of its
      own reports that rule's default message exactly when its test
      fails. */
  lemma OneRuleReports(reg: Reg.Registration, key: string, check: Check, data: Data, attribute: string)
    requires reg.rules == [(key, Builtin(check, None))] && key != "nullable"
    ensures EntryMessages(Builder(reg), data, attribute) ==
      if Rules.Fails(check, Lookup(data, attribute)) then [Message(check, None, attribute)] else []
  {
    var rules := Reg.Serialize(reg);
    assert Keys(rules) == [key];
    assert !IsNullIfMarkedAsNullable(rules, data, attribute);
    assert rules[1..] == [];
    assert RunRules(rules, attribute, Lookup(data, attribute)) == Validate(rules[0].1, attribute, Lookup(data, attribute));
  }

  /** `rule().required()` reports the required message exactly when the
      value is blank. */
  lemma RequiredFieldReports(data: Data, attribute: string)
    ensures EntryMessages(Builder(Reg.Required(Reg.New(None), None)), data, attribute) ==
      if RequiredFails(Lookup(data, attribute)) then [Message(RequiredCheck, None, attribute)] else []
  {
    assert "nullable" != "required" by { assert "nullable"[0] != "required"[0]; }
    OneRuleReports(Reg.Required(Reg.New(None), None), "required", RequiredCheck, data, attribute);
  }

  /** The default required message of a two-word attribute names it with
      a space. */
  lemma RequiredMessageSpaced(p: string, q: string)
    requires '_' !in p && '$' !in p && '$' !in q
    ensures Message(RequiredCheck, None, p + "_" + q) == "The " + p + " " + q + " field is required."
  {
    var a := p + "_" + q;
    assert '$' !in a;
    RequiredDefault(a);
    DisplayNameFirstUnderscore(p, q);
  }

  lemma RequiredDefault(a: string)
    requires '$' !in a
    ensures Message(RequiredCheck, None, a) == "The " + DisplayName(a) + " field is required."
  {
    PlaceholderDefaults(a, Null);
  }

  lemma NameMessages()
    ensures Message(RequiredCheck, None, "first" + "_" + "name") == "The " + "first" + " " + "name" + " field is required."
    ensures Message(RequiredCheck, None, "last" + "_" + "name") == "The " + "last" + " " + "name" + " field is required."
  {
    assert '_' !in "first" && '$' !in "first" && '$' !in "name";
    RequiredMessageSpaced("first", "name");
    assert '_' !in "last" && '$' !in "last";
    RequiredMessageSpaced("last", "name");
  }

  lemma Pair<T>(s: seq<T>)
    requires |s| == 2
    ensures s == [s[0], s[1]]
  {
  }

  /** A run over rules with distinct keys is what `validated()` leaves
      cached on a validator that had not run. */
  lemma ValidatedCachesReports(rules: Assoc<Entry>, data: Data)
    requires DistinctKeys(rules)
    ensures Validated(SetData(Validation.New(rules), data)).0.messages == Some(NonEmpty(Reports(rules, data)))
  {
  }

  /** The reports of two attributes, in rule order. */
  lemma TwoReports(a: string, e1: Entry, b: string, e2: Entry, data: Data)
    ensures Reports([(a, e1), (b, e2)], data) == [(a, EntryMessages(e1, data, a)), (b, EntryMessages(e2, data, b))]
  {
    Pair(Reports([(a, e1), (b, e2)], data));
  }

  lemma NonEmptyTwo(x: (string, seq<string>), y: (string, seq<string>))
    requires x.1 != [] && y.1 != []
    ensures NonEmpty([x, y]) == [x, y]
  {
    NonEmptyKeepsFull([x, y]);
  }

  /** Two attributes, each `rule().required()`, only the first given, as
      null: both report, in rule order. */
  lemma BothRequiredReport(first: string, last: string)
    requires first != last
    ensures var rules := [(first, Builder(Reg.Required(Reg.New(None), None))), (last, Builder(Reg.Required(Reg.New(None), None)))];
      var v := SetData(Validation.New(rules), map[first := Null]);
      GetMessages(Validated(v).0) == [(first, [Message(RequiredCheck, None, first)]),
                                      (last, [Message(RequiredCheck, None, last)])]
  {
    var entry := Builder(Reg.Required(Reg.New(None), None));
    var rules := [(first, entry), (last, entry)];
    var data := map[first := Null];
    assert DistinctKeys(rules) by { Cons(rules[0], rules[1..]); }
    ValidatedCachesReports(rules, data);
    assert Lookup(data, first) == Null && Lookup(data, last) == Undefined;
    RequiredFieldReports(data, first);
    RequiredFieldReports(data, last);
    TwoReports(first, entry, last, entry, data);
    NonEmptyTwo((first, [Message(RequiredCheck, None, first)]), (last, [Message(RequiredCheck, None, last)]));
  }

  /** The required test of the suite: `first_name` and `last_name` both
      required, only `first_name` given, as null. Both report, in rule
      order, with the underscore shown as a space. */
  lemma MissingNamesAreRequired(first: string, last: string)
    requires first == "first" + "_" + "name" && last == "last" + "_" + "name"
    ensures var rules := [(first, Builder(Reg.Required(Reg.New(None), None))), (last, Builder(Reg.Required(Reg.New(None), None)))];
      var v := SetData(Validation.New(rules), map[first := Null]);
      GetMessages(Validated(v).0) == [(first, ["The " + "first" + " " + "name" + " field is required."]),
                                      (last, ["The " + "last" + " " + "name" + " field is required."])]
  {
    assert first != last by { assert first[0] != last[0]; }
    BothRequiredReport(first, last);
    NameMessages();
  }

  /** A validator with one attribute: `validate()` throws the first
      message the attribute's entry reports, or returns the attribute's
      data when it reports nothing. */
  lemma SingleAttribute(a: string, e: Entry, data: Data)
    ensures var v := SetData(Validation.New([(a, e)]), data);
      var ms := EntryMessages(e, data, a);
      && Validated(v).0.messages == Some(if ms == [] then [] else [(a, ms)])
      && ValidateAll(v).1 == if ms == [] then Success(Only(data, [a])) else Failure(ms[0])
  {
    var rules := [(a, e)];
    var v := SetData(Validation.New(rules), data);
    var ms := EntryMessages(e, data, a);
    assert DistinctKeys(rules) by { Cons(rules[0], []); }
    var reports := Reports(rules, data);
    assert reports == [(a, ms)];
    assert reports[1..] == [];
    var w := Passes(v).0;
    assert w.messages == Some(NonEmpty(reports));
    if ms == [] {
      assert NonEmpty(reports) == [];
      assert Valid(w).1 == [a];
    } else {
      assert NonEmpty(reports) == [(a, ms)];
    }
  }

  lemma WordsFailNumeric(s: string)
    requires s != [] && !IsWhiteSpace(s[0]) && !IsDigit(s[0]) && s[0] !in "+-.I"
    ensures Rules.Fails(NumericCheck, Str(s))
  {
    ParseFloatFailsOn(s);
  }

  /** `rule().numeric()` over a string that does not start like a number:
      `validate()` throws the numeric message, naming the raw attribute. */
  lemma NumericRejectsWords(attribute: string, s: string)
    requires ':' !in attribute
    requires s != [] && !IsWhiteSpace(s[0]) && !IsDigit(s[0]) && s[0] !in "+-.I"
    ensures var v := SetData(Validation.New([(attribute, Builder(Reg.Numeric(Reg.New(None), None)))]), map[attribute := Str(s)]);
      ValidateAll(v).1 == Failure("The " + attribute + " field must be a number.")
  {
    var reg := Reg.Numeric(Reg.New(None), None);
    var data := map[attribute := Str(s)];
    assert "nullable" != "numeric" by { assert "nullable"[2] != "numeric"[2]; }
    OneRuleReports(reg, "numeric", NumericCheck, data, attribute);
    WordsFailNumeric(s);
    InterpolatedDefault(NumericCheck, attribute);
    SingleAttribute(attribute, Builder(reg), data);
  }

  /** The numeric test of the suite: `'my age'` under `age`. */
  lemma NumericRejectsMyAge()
    ensures var v := SetData(Validation.New([("age", Builder(Reg.Numeric(Reg.New(None), None)))]), map["age" := Str("my age")]);
      ValidateAll(v).1 == Failure("The " + "age" + " field must be a number.")
  {
    assert !IsWhiteSpace('m');
    NumericRejectsWords("age", "my age");
  }

  /** Picking every key of the data picks the data. */
  lemma OnlyEverything(data: Data, keys: seq<string>)
    requires forall k :: k in data ==> k in keys
    ensures Only(data, keys) == data
  {
  }

  /** `rule().numeric()` over a string of digits: `validate()` returns the
      data unchanged. */
  lemma NumericAcceptsDigits(attribute: string, digits: string)
    requires digits != [] && AllDigits(digits)
    ensures var v := SetData(Validation.New([(attribute, Builder(Reg.Numeric(Reg.New(None), None)))]), map[attribute := Str(digits)]);
      ValidateAll(v).1 == Success(map[attribute := Str(digits)])
  {
    var reg := Reg.Numeric(Reg.New(None), None);
    var data := map[attribute := Str(digits)];
    assert "nullable" != "numeric" by { assert "nullable"[2] != "numeric"[2]; }
    OneRuleReports(reg, "numeric", NumericCheck, data, attribute);
    DigitsPassNumeric(digits);
    SingleAttribute(attribute, Builder(reg), data);
    OnlyEverything(data, [attribute]);
  }

  /** `rule().array()` over a number: `validate()` throws the array
      message, which reads "must be an array" without the word "field". */
  lemma ArrayRejectsNumber(attribute: string, n: int)
    requires '$' !in attribute
    ensures var v := SetData(Validation.New([(attribute, Builder(Reg.Array(Reg.New(None), None)))]), map[attribute := Num(n)]);
      ValidateAll(v).1 == Failure("The " + DisplayName(attribute) + " must be an array.")
  {
    var reg := Reg.Array(Reg.New(None), None);
    var data := map[attribute := Num(n)];
    assert "nullable" != "array" by { assert "nullable"[0] != "array"[0]; }
    OneRuleReports(reg, "array", ArrayCheck, data, attribute);
    PlaceholderDefaults(attribute, Null);
    SingleAttribute(attribute, Builder(reg), data);
  }

  /** `rule().email()` over a string: `validate()` returns the data when
      the string is an address, and otherwise throws the email message. */
  lemma EmailReports(attribute: string, s: string)
    requires '$' !in attribute
    ensures var v := SetData(Validation.New([(attribute, Builder(Reg.Email(Reg.New(None), None)))]), map[attribute := Str(s)]);
      ValidateAll(v).1 ==
        if IsEmailAddress(s) then Success(map[attribute := Str(s)])
        else Failure("The " + DisplayName(attribute) + " field must be a valid email address.")
  {
    var reg := Reg.Email(Reg.New(None), None);
    var data := map[attribute := Str(s)];
    assert "nullable" != "email" by { assert "nullable"[0] != "email"[0]; }
    OneRuleReports(reg, "email", EmailCheck, data, attribute);
    PlaceholderDefaults(attribute, Null);
    EmailFailsOn(s);
    SingleAttribute(attribute, Builder(reg), data);
    OnlyEverything(data, [attribute]);
  }

  /** The email tests of the suite: `'not an email'` under `email` throws,
      `'test@example.com'` is returned. */
  lemma EmailSuite(attribute: string, bad: string, good: string)
    requires attribute == "email" && bad == "not an email" && good == "test@example.com"
    ensures ValidateAll(SetData(Validation.New([(attribute, Builder(Reg.Email(Reg.New(None), None)))]), map[attribute := Str(bad)])).1
      == Failure("The " + attribute + " field must be a valid email address.")
    ensures ValidateAll(SetData(Validation.New([(attribute, Builder(Reg.Email(Reg.New(None), None)))]), map[attribute := Str(good)])).1
      == Success(map[attribute := Str(good)])
  {
    assert '_' !in attribute && '$' !in attribute;
    DisplayNamePlain(attribute);
    NoAtSign(bad);
    SuiteAddress(good);
    EmailReports(attribute, bad);
    EmailReports(attribute, good);
  }

  /** The numeric test of the suite: `'123'` under `age`. */
  lemma NumericAccepts123()
    ensures var v := SetData(Validation.New([("age", Builder(Reg.Numeric(Reg.New(None), None)))]), map["age" := Str("123")]);
      ValidateAll(v).1 == Success(map["age" := Str("123")])
  {
    NumericAcceptsDigits("age", "123");
  }

  /** A registration holding two built-in rules with no messages of their
      own reports the failing ones' default messages, in rule order. */
  lemma TwoRulesReport(reg: Reg.Registration, k1: string, c1: Check, k2: string, c2: Check, data: Data, attribute: string)
    requires reg.rules == [(k1, Builtin(c1, None)), (k2, Builtin(c2, None))]
    requires k1 != "nullable" && k2 != "nullable"
    ensures var value := Lookup(data, attribute);
      EntryMessages(Builder(reg), data, attribute) ==
        (if Rules.Fails(c1, value) then [Message(c1, None, attribute)] else []) +
        (if Rules.Fails(c2, value) then [Message(c2, None, attribute)] else [])
  {
    var rules := Reg.Serialize(reg);
    var value := Lookup(data, attribute);
    assert Keys(rules) == [k1, k2];
    assert !IsNullIfMarkedAsNullable(rules, data, attribute);
    var rest := rules[1..];
    assert rest == [(k2, Builtin(c2, None))] && rest[1..] == [];
    assert RunRules(rest, attribute, value) == Validate(Builtin(c2, None), attribute, value) + [];
    assert RunRules(rules, attribute, value) == Validate(Builtin(c1, None), attribute, value) + RunRules(rest, attribute, value);
  }

  /** The rules of a type rule followed by `required()`. */
  lemma TypeThenRequiredRules(reg: Reg.Registration, key: string, check: Check)
    requires key == "string" || key == "numeric" || key == "array"
    requires reg.rules == Put([(key, Builtin(check, None))], "required", Builtin(RequiredCheck, None))
    ensures reg.rules == [(key, Builtin(check, None)), ("required", Builtin(RequiredCheck, None))]
  {
    assert key[0] != "required"[0];
  }

  /** The default messages of a type rule and of `required()`. */
  lemma TypeThenRequiredMessages(check: Check, attribute: string)
    requires check == StringCheck || check == NumericCheck
    requires ':' !in attribute && '$' !in attribute
    ensures Message(check, None, attribute) == DefaultMessage(check, attribute)
    ensures Message(RequiredCheck, None, attribute) == "The " + DisplayName(attribute) + " field is required."
  {
    InterpolatedDefault(check, attribute);
    PlaceholderDefaults(attribute, Null);
  }

  /** A type rule followed by `required()`, over null: both report, the
      type rule first. */
  lemma TypeThenRequiredOnNull(reg: Reg.Registration, key: string, check: Check, attribute: string, m1: string, m2: string)
    requires reg.rules == [(key, Builtin(check, None)), ("required", Builtin(RequiredCheck, None))]
    requires (key, check) == ("string", StringCheck) || (key, check) == ("numeric", NumericCheck)
    requires m1 == Message(check, None, attribute) && m2 == Message(RequiredCheck, None, attribute)
    ensures var v := SetData(Validation.New([(attribute, Builder(reg))]), map[attribute := Null]);
      GetMessages(Validated(v).0) == [(attribute, [m1, m2])]
  {
    var data := map[attribute := Null];
    assert key != "nullable" by { assert key[2] != "nullable"[2]; }
    if check == NumericCheck {
      NumericRejectsNull();
    }
    assert "nullable" != "required" by { assert "nullable"[0] != "required"[0]; }
    TwoRulesReport(reg, key, check, "required", RequiredCheck, data, attribute);
    assert Lookup(data, attribute) == Null;
    assert EntryMessages(Builder(reg), data, attribute) == [m1] + [m2] == [m1, m2];
    SingleAttribute(attribute, Builder(reg), data);
  }

  /** A type rule followed by `required()` with default messages, over
      null: both default messages, the type rule's first. */
  lemma TypeThenRequiredDefaults(reg: Reg.Registration, key: string, check: Check, attribute: string, m1: string, m2: string)
    requires (key, check) == ("string", StringCheck) || (key, check) == ("numeric", NumericCheck)
    requires reg.rules == Put([(key, Builtin(check, None))], "required", Builtin(RequiredCheck, None))
    requires ':' !in attribute && '$' !in attribute
    requires m1 == DefaultMessage(check, attribute)
    requires m2 == "The " + DisplayName(attribute) + " field is required."
    ensures var v := SetData(Validation.New([(attribute, Builder(reg))]), map[attribute := Null]);
      GetMessages(Validated(v).0) == [(attribute, [m1, m2])]
  {
    TypeThenRequiredRules(reg, key, check);
    TypeThenRequiredMessages(check, attribute);
    TypeThenRequiredOnNull(reg, key, check, attribute, m1, m2);
  }

  /** `rule().string().required()` over null: the string message, then
      the required one. The string message names the raw attribute, the
      required one its displayed form. */
  lemma StringRequiredOnNull(attribute: string)
    requires ':' !in attribute && '$' !in attribute
    ensures var reg := Reg.Required(Reg.String(Reg.New(None), None), None);
      var v := SetData(Validation.New([(attribute, Builder(reg))]), map[attribute := Null]);
      GetMessages(Validated(v).0) ==
        [(attribute, ["The " + attribute + " field must be a string.",
                       "The " + DisplayName(attribute) + " field is required."])]
  {
    var reg := Reg.Required(Reg.String(Reg.New(None), None), None);
    TypeThenRequiredDefaults(reg, "string", StringCheck, attribute,
      "The " + attribute + " field must be a string.", "The " + DisplayName(attribute) + " field is required.");
  }

  /** `rule().numeric().required()` registers the numeric rule, then the
      required one, both with default messages. */
  lemma NumericThenRequiredRules(reg: Reg.Registration)
    requires reg == Reg.Required(Reg.Numeric(Reg.New(None), None), None)
    ensures reg.rules == [("numeric", Builtin(NumericCheck, None)), ("required", Builtin(RequiredCheck, None))]
  {
    var numeric := Reg.Numeric(Reg.New(None), None);
    assert numeric.rules == [("numeric", Builtin(NumericCheck, None))];
    TypeThenRequiredRules(reg, "numeric", NumericCheck);
  }

  /** `rule().numeric().required()` over null: the numeric message, then
      the required one. */
  lemma NumericRequiredOnNull(attribute: string)
    requires ':' !in attribute && '$' !in attribute
    ensures var reg := Reg.Required(Reg.Numeric(Reg.New(None), None), None);
      var v := SetData(Validation.New([(attribute, Builder(reg))]), map[attribute := Null]);
      GetMessages(Validated(v).0) ==
        [(attribute, ["The " + attribute + " field must be a number.",
                       "The " + DisplayName(attribute) + " field is required."])]
  {
    var reg := Reg.Required(Reg.Numeric(Reg.New(None), None), None);
    NumericThenRequiredRules(reg);
    TypeThenRequiredMessages(NumericCheck, attribute);
    TypeThenRequiredOnNull(reg, "numeric", NumericCheck, attribute,
      "The " + attribute + " field must be a number.", "The " + DisplayName(attribute) + " field is required.");
  }

  /** `rule().numeric()` over a number: the run reports nothing, so
      `getMessage()` is the empty string. */
  lemma NumericAcceptsNumber(attribute: string, n: int)
    ensures var v := SetData(Validation.New([(attribute, Builder(Reg.Numeric(Reg.New(None), None)))]), map[attribute := Num(n)]);
      GetMessage(Validated(v).0) == ""
  {
    var reg := Reg.Numeric(Reg.New(None), None);
    var data := map[attribute := Num(n)];
    assert "nullable" != "numeric" by { assert "nullable"[2] != "numeric"[2]; }
    OneRuleReports(reg, "numeric", NumericCheck, data, attribute);
    SingleAttribute(attribute, Builder(reg), data);
  }

  /** The numeric test of the suite: the number `123` under `age`. */
  lemma NumericAcceptsNumber123()
    ensures var v := SetData(Validation.New([("age", Builder(Reg.Numeric(Reg.New(None), None)))]), map["age" := Num(123)]);
      GetMessage(Validated(v).0) == ""
  {
    NumericAcceptsNumber("age", 123);
  }

  /** `array()` then `required()`, over a missing attribute: both rules
      report, the array rule first. */
  lemma ArrayThenRequiredOnMissing(reg: Reg.Registration, attribute: string, m1: string, m2: string)
    requires reg.rules == [("array", Builtin(ArrayCheck, None)), ("required", Builtin(RequiredCheck, None))]
    requires m1 == Message(ArrayCheck, None, attribute) && m2 == Message(RequiredCheck, None, attribute)
    ensures var v := SetData(Validation.New([(attribute, Builder(reg))]), map[]);
      GetMessages(Validated(v).0) == [(attribute, [m1, m2])]
  {
    var data: Data := map[];
    assert "nullable" != "array" by { assert "nullable"[0] != "array"[0]; }
    assert "nullable" != "required" by { assert "nullable"[0] != "required"[0]; }
    assert Lookup(data, attribute) == Undefined;
    TwoRulesReport(reg, "array", ArrayCheck, "required", RequiredCheck, data, attribute);
    assert EntryMessages(Builder(reg), data, attribute) == [m1] + [m2] == [m1, m2];
    SingleAttribute(attribute, Builder(reg), data);
  }

  /** `rule().array().required()` over data without the attribute: the
      array message, then the required one, both naming the displayed
      attribute. */
  lemma ArrayRequiredOnMissing(attribute: string)
    requires '$' !in attribute
    ensures var reg := Reg.Required(Reg.Array(Reg.New(None), None), None);
      var v := SetData(Validation.New([(attribute, Builder(reg))]), map[]);
      GetMessages(Validated(v).0) ==
        [(attribute, ["The " + DisplayName(attribute) + " must be an array.",
                      "The " + DisplayName(attribute) + " field is required."])]
  {
    var reg := Reg.Required(Reg.Array(Reg.New(None), None), None);
    TypeThenRequiredRules(reg, "array", ArrayCheck);
    PlaceholderDefaults(attribute, Null);
    ArrayThenRequiredOnMissing(reg, attribute,
      "The " + DisplayName(attribute) + " must be an array.", "The " + DisplayName(attribute) + " field is required.");
  }

  /** The array test of the suite: `name` required as an array, with no
      data. */
  lemma ArrayRequiredOnEmptyData(attribute: string)
    requires attribute == "name"
    ensures var reg := Reg.Required(Reg.Array(Reg.New(None), None), None);
      var v := SetData(Validation.New([(attribute, Builder(reg))]), map[]);
      GetMessages(Validated(v).0) ==
        [(attribute, ["The " + attribute + " must be an array.", "The " + attribute + " field is required."])]
  {
    assert '_' !in attribute && '$' !in attribute;
    DisplayNamePlain(attribute);
    ArrayRequiredOnMissing(attribute);
  }

  /** A callback-style rule, such as a class with a `validate(attribute,
      value, fail)` method, throws from `validate()` its first report. */
  lemma CallbackReportThrows(attribute: string, handler: Handler, data: Data)
    requires handler(attribute, Lookup(data, attribute)) != []
    ensures var v := SetData(Validation.New([(attribute, Callback(handler))]), data);
      ValidateAll(v).1 == Failure(handler(attribute, Lookup(data, attribute))[0])
  {
    SingleAttribute(attribute, Callback(handler), data);
  }

  /** A rule made by the stateful factory never reaches the validator: its
      `validate` drops the `fail` callback, so `validate()` returns the
      attribute's data whatever the rule's callback reports. */
  lemma StatefulRuleNeverThrows(attribute: string, rule: FactoryRule.CustomRule, data: Data)
    ensures var v := SetData(Validation.New([(attribute, Stateful(rule))]), data);
      ValidateAll(v).1 == Success(Only(data, [attribute]))
  {
    SingleAttribute(attribute, Stateful(rule), data);
  }

  /** Two attributes whose entries report nothing: `validated()` returns
      the data under both. */
  lemma TwoPass(a: string, e1: Entry, b: string, e2: Entry, data: Data)
    requires a != b
    requires EntryMessages(e1, data, a) == [] && EntryMessages(e2, data, b) == []
    ensures var rules := [(a, e1), (b, e2)];
      DistinctKeys(rules) && Validated(SetData(Validation.New(rules), data)).1 == Only(data, [a, b])
  {
    var rules := [(a, e1), (b, e2)];
    assert DistinctKeys(rules) by { Cons(rules[0], rules[1..]); }
    assert Keys(rules) == [a, b];
    PassingRunValidatesRuleData(SetData(Validation.New(rules), data));
  }

  /** The valid test of the suite: both names required and both given as
      non-blank values, so `validated()` returns the data. */
  lemma GivenNamesAreValidated(first: string, last: string, data: Data)
    requires first != last && data.Keys == {first, last}
    requires !RequiredFails(data[first]) && !RequiredFails(data[last])
    ensures var entry := Builder(Reg.Required(Reg.New(None), None));
      var rules := [(first, entry), (last, entry)];
      DistinctKeys(rules) && Validated(SetData(Validation.New(rules), data)).1 == data
  {
    var entry := Builder(Reg.Required(Reg.New(None), None));
    RequiredFieldReports(data, first);
    RequiredFieldReports(data, last);
    TwoPass(first, entry, last, entry, data);
    OnlyEverything(data, [first, last]);
  }
}
