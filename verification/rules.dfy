/** The built-in validation rules (src/Rules): when each one fails on a
    value, and the message it reports through the `fail` callback. */
module Rules {
  import opened Wrappers
  import opened JsText
  import opened Values
  import opened JsNumber
  import opened EmailPattern

  /** A rule handler in callback style: given the attribute and its value,
      the messages it passes to `fail`, in order. */
  type Handler = (string, Value) -> seq<string>

  /** What a built-in rule checks, with the parameters its constructor
      takes. Min and Max capture the field type current when they were
      registered; a regular expression is its `test` predicate. */
  datatype Check =
    | RequiredCheck
    | StringCheck
    | NumericCheck
    | ArrayCheck
    | MinCheck(bound: int, fieldType: FieldType)
    | MaxCheck(bound: int, fieldType: FieldType)
    | InCheck(allowed: Value)
    | EmailCheck
    | RegexCheck(test: string -> bool)

  /** A registered rule: a built-in rule with its override message
      (`undefined` is `None`), or a callback-style custom rule. */
  datatype Rule =
    | Builtin(check: Check, message: Option<string>)
    | Custom(handler: Handler)

  /** `rule.setMessage(message)`: replaces the override, clearing it when
      `message` is `undefined`. */
  function SetMessage(rule: Rule, message: Option<string>): (r: Rule)
    requires rule.Builtin?
    ensures r.Builtin? && r.check == rule.check && r.message == message
  {
    rule.(message := message)
  }

  /** `attribute.replace('_', ' ')`: the attribute as it is shown in a
      formatted message. */
  function DisplayName(attribute: string): (r: string)
    ensures |r| == |attribute|
    ensures forall j :: 0 <= j < |r| ==> r[j] == attribute[j] || (attribute[j] == '_' && r[j] == ' ')
    ensures '_' !in attribute ==> r == attribute
  {
    match IndexOf(attribute, "_")
    case None => ReplaceFirst(attribute, "_", " ")
    case Some(i) =>
      assert attribute[i..i + 1] == "_";
      ReplaceFirst(attribute, "_", " ")
  }

  /** Only the first underscore of an attribute becomes a space. */
  lemma DisplayNameFirstUnderscore(p: string, q: string)
    requires '_' !in p
    ensures DisplayName(p + "_" + q) == p + " " + q
  {
    ReplaceAfterPrefix(p, "_", q, " ");
  }

  /** An attribute without an underscore is shown as it is. */
  lemma DisplayNamePlain(attribute: string)
    requires '_' !in attribute
    ensures DisplayName(attribute) == attribute
  {
    ReplaceAbsent(attribute, "_", " ");
  }

  /** Showing an attribute introduces no `$`, so the shown name is inserted
      literally by a later `replace`. */
  lemma DisplayNameNoDollar(attribute: string)
    requires '$' !in attribute
    ensures '$' !in DisplayName(attribute)
  {
    match IndexOf(attribute, "_")
    case None =>
    case Some(i) =>
      var r := DisplayName(attribute);
      assert r == attribute[..i] + " " + attribute[i + 1..];
      forall j | 0 <= j < |r|
        ensures r[j] != '$'
      {
        if j < i { assert r[j] == attribute[j]; }
        else if j > i { assert r[j] == attribute[j]; }
      }
  }

  /** The placeholder a message template names its attribute by. */
  const Placeholder := ":attribute"

  /** `formatMessage(attribute, defaultMessage)` of the rule base class:
      the override if there is one (even the empty string), else the
      default, with its first `:attribute` replaced by the shown name. */
  function FormatMessage(message: Option<string>, attribute: string, default: string): (r: string)
    ensures ':' !in message.GetOr(default) ==> r == message.GetOr(default)
  {
    PlaceholderAbsent(message.GetOr(default), DisplayName(attribute));
    ReplaceFirst(message.GetOr(default), Placeholder, DisplayName(attribute))
  }

  /** A message without `:` has no placeholder to fill. */
  lemma PlaceholderAbsent(message: string, name: string)
    ensures ':' !in message ==> ReplaceFirst(message, Placeholder, name) == message
  {
    if ':' !in message { ReplaceAbsent(message, Placeholder, name); }
  }

  /** The size wording Min and Max append for each field type. */
  function SizeSuffix(bound: int, fieldType: FieldType): string {
    match fieldType
    case ArrayType => " " + IntToDecimal(bound) + " items."
    case NumberType => " " + IntToDecimal(bound) + "."
    case StringType => " " + IntToDecimal(bound) + " characters."
  }

  /** The message a rule falls back on when it has no override. Some
      defaults carry the `:attribute` placeholder; others interpolate the
      attribute itself, underscores included. */
  function DefaultMessage(check: Check, attribute: string): (r: string)
    ensures |r| > 4 && r[..4] == "The "
    ensures check.RequiredCheck? || check.ArrayCheck? || check.InCheck? || check.EmailCheck? ==>
      |r| >= 4 + |Placeholder| && r[4..4 + |Placeholder|] == Placeholder
  {
    match check
    case RequiredCheck => "The " + Placeholder + " field is required."
    case StringCheck => "The " + attribute + " field must be a string."
    case NumericCheck => "The " + attribute + " field must be a number."
    case ArrayCheck => "The " + Placeholder + " must be an array."
    case MinCheck(bound, t) => "The " + attribute + " field must be at least" + SizeSuffix(bound, t)
    case MaxCheck(bound, t) => "The " + attribute + " field must not have more than" + SizeSuffix(bound, t)
    case InCheck(_) => "The " + Placeholder + " field must be a valid value."
    case EmailCheck => "The " + Placeholder + " field must be a valid email address."
    case RegexCheck(_) => "The " + attribute + " field format is invalid."
  }

  /** `getMessage(attribute)`. Max does not use the base class: a non-empty
      override has `:attribute` replaced by the raw attribute, and the
      default is returned unformatted. */
  function Message(check: Check, message: Option<string>, attribute: string): (r: string)
    ensures message.Some? && message.value != "" && ':' !in message.value ==> r == message.value
    ensures message == Some("") ==> r == if check.MaxCheck? then DefaultMessage(check, attribute) else ""
  {
    if check.MaxCheck? then
      if message.Some? && message.value != "" then
        PlaceholderAbsent(message.value, attribute);
        ReplaceFirst(message.value, Placeholder, attribute)
      else DefaultMessage(check, attribute)
    else FormatMessage(message, attribute, DefaultMessage(check, attribute))
  }

  /** RequiredRule's test: null, undefined, a string whose trimmed length
      is 0, or an empty array. */
  predicate RequiredFails(v: Value)
    ensures RequiredFails(v) <==>
      v.Null? || v.Undefined? || (v.Str? && IsBlank(v.s)) || (v.Arr? && v.items == [])
  {
    match v
    case Null => true
    case Undefined => true
    case Str(s) => Utf16Length(Trim(s)) == 0
    case Arr(items) => |items| == 0
    case _ => false
  }

  /** NumericRule's test `typeof value !== 'number' && !(!isNaN(value) &&
      !isNaN(parseFloat(value)))`. A number always passes; a string or an
      array passes exactly when its string form is a numeric literal
      between white space; null, undefined, a boolean and an object fail. */
  predicate NumericFails(v: Value)
    ensures v.Num? ==> !NumericFails(v)
    ensures v.Str? ==> (NumericFails(v) <==> !IsNumericString(v.s))
    ensures v.Arr? ==> (NumericFails(v) <==> !IsNumericString(ToStr(v)))
    ensures v.Null? || v.Undefined? || v.Bool? || v.Obj? ==> NumericFails(v)
  {
    var r := !v.Num? && !(!ToNumber(v).NaN? && ParseFloatSucceeds(ToStr(v)));
    NumericFailsCases(v);
    r
  }

  lemma NumericFailsCases(v: Value)
    ensures v.Str? || v.Arr? ==>
      (!ToNumber(v).NaN? && ParseFloatSucceeds(ToStr(v)) <==> IsNumericString(ToStr(v)))
    ensures v.Null? || v.Bool? || v.Obj? ==> !ParseFloatSucceeds(ToStr(v))
  {
    match v
    case Str(s) => NumericStringCharacterisation(s);
    case Arr(_) => NumericStringCharacterisation(ToStr(v));
    case Null => assert "null"[0] == 'n'; ParseFloatFailsOn("null");
    case Bool(b) =>
      if b { assert "true"[0] == 't'; ParseFloatFailsOn("true"); }
      else { assert "false"[0] == 'f'; ParseFloatFailsOn("false"); }
    case Obj(_) => assert "[object Object]"[0] == '['; ParseFloatFailsOn("[object Object]");
    case _ =>
  }

  /** The `length` Min and Max compare for a string or an array. */
  function Size(v: Value): (n: nat)
    requires v.Str? || v.Arr?
    ensures v.Arr? ==> n == |v.items|
    ensures v.Str? ==> |v.s| <= n <= 2 * |v.s|
  {
    if v.Str? then Utf16Length(v.s) else |v.items|
  }

  /** MinRule's test. Under the string and array types only strings and
      arrays are measured; under the number type the value is compared
      with `<`, converting it to a number first. */
  predicate MinFails(bound: int, fieldType: FieldType, v: Value)
    ensures fieldType == NumberType && v.Num? ==> (MinFails(bound, fieldType, v) <==> v.n < bound)
    ensures fieldType == NumberType && v.Null? ==> (MinFails(bound, fieldType, v) <==> 0 < bound)
    ensures fieldType == NumberType && v.Undefined? ==> !MinFails(bound, fieldType, v)
    ensures fieldType != NumberType && v.Arr? ==> (MinFails(bound, fieldType, v) <==> |v.items| < bound)
    ensures fieldType != NumberType && !v.Str? && !v.Arr? ==> !MinFails(bound, fieldType, v)
  {
    if fieldType == NumberType then LessThan(ToNumber(v), bound)
    else (v.Str? || v.Arr?) && Size(v) < bound
  }

  /** MaxRule's test, the mirror image of Min's with `>`. */
  predicate MaxFails(bound: int, fieldType: FieldType, v: Value)
    ensures fieldType == NumberType && v.Num? ==> (MaxFails(bound, fieldType, v) <==> v.n > bound)
    ensures fieldType == NumberType && v.Null? ==> (MaxFails(bound, fieldType, v) <==> 0 > bound)
    ensures fieldType == NumberType && v.Undefined? ==> !MaxFails(bound, fieldType, v)
    ensures fieldType != NumberType && v.Arr? ==> (MaxFails(bound, fieldType, v) <==> |v.items| > bound)
    ensures fieldType != NumberType && !v.Str? && !v.Arr? ==> !MaxFails(bound, fieldType, v)
  {
    if fieldType == NumberType then GreaterThan(ToNumber(v), bound)
    else (v.Str? || v.Arr?) && Size(v) > bound
  }

  /** InRule's test: an allowed list that is not an array, or is empty,
      never fails; otherwise the type of its first element decides which
      values may pass, and the value must be one of the elements. */
  predicate InFails(allowed: Value, v: Value)
    ensures !allowed.Arr? || allowed.items == [] ==> !InFails(allowed, v)
    ensures allowed.Arr? && v in allowed.items && v.Str? == allowed.items[0].Str? && v.Num? == allowed.items[0].Num? ==>
      !InFails(allowed, v)
    ensures allowed.Arr? && allowed.items != [] && (allowed.items[0].Str? || allowed.items[0].Num?) && v !in allowed.items ==>
      InFails(allowed, v)
  {
    if !allowed.Arr? || allowed.items == [] then false
    else if allowed.items[0].Str? then !v.Str? || v !in allowed.items
    else if allowed.items[0].Num? then !v.Num? || v !in allowed.items
    else false
  }

  /** EmailRule's test: the value must be a string matching the address
      pattern. */
  predicate EmailFails(v: Value)
    ensures EmailFails(v) <==> !(v.Str? && IsEmailAddress(v.s))
  {
    PatternIsAddress(ToStr(v));
    !(v.Str? && PatternMatches(v.s))
  }

  /** RegexRule's test: the pattern is tested against `String(value)`. */
  predicate RegexFails(test: string -> bool, v: Value)
    ensures v.Str? ==> (RegexFails(test, v) <==> !test(v.s))
    ensures v.Null? ==> (RegexFails(test, v) <==> !test("null"))
  {
    !test(ToStr(v))
  }

  /** Whether the built-in rule calls `fail` for this value. */
  predicate Fails(check: Check, v: Value)
    ensures check.RequiredCheck? ==> (Fails(check, v) <==>
      v.Null? || v.Undefined? || (v.Str? && IsBlank(v.s)) || (v.Arr? && v.items == []))
    ensures check.StringCheck? ==> (Fails(check, v) <==> !v.Str?)
    ensures check.ArrayCheck? ==> (Fails(check, v) <==> !v.Arr?)
    ensures check.NumericCheck? && v.Str? ==> (Fails(check, v) <==> !IsNumericString(v.s))
    ensures check.EmailCheck? ==> (Fails(check, v) <==> !(v.Str? && IsEmailAddress(v.s)))
  {
    match check
    case RequiredCheck => RequiredFails(v)
    case StringCheck => !v.Str?
    case NumericCheck => NumericFails(v)
    case ArrayCheck => !v.Arr?
    case MinCheck(bound, t) => MinFails(bound, t, v)
    case MaxCheck(bound, t) => MaxFails(bound, t, v)
    case InCheck(allowed) => InFails(allowed, v)
    case EmailCheck => EmailFails(v)
    case RegexCheck(test) => RegexFails(test, v)
  }

  /** `rule.validate(attribute, value, fail)`: the messages passed to
      `fail`. A built-in rule reports at most once, and only its own
      message; a custom rule reports whatever its handler does. */
  function Validate(rule: Rule, attribute: string, value: Value): (emitted: seq<string>)
    ensures rule.Builtin? ==> |emitted| <= 1
    ensures rule.Builtin? ==> (emitted != [] <==> Fails(rule.check, value))
    ensures rule.Builtin? && emitted != [] ==> emitted[0] == Message(rule.check, rule.message, attribute)
    ensures rule.Custom? ==> emitted == rule.handler(attribute, value)
  {
    match rule
    case Builtin(check, message) => if Fails(check, value) then [Message(check, message, attribute)] else []
    case Custom(handler) => handler(attribute, value)
  }

  // ---------------------------------------------------------------------
  // Messages

  /** A template with the placeholder right after a `:`-free prefix reads
      as the prefix, the shown attribute and the rest. */
  lemma PlaceholderFilled(template: Option<string>, default: string, prefix: string, suffix: string, attribute: string)
    requires template.GetOr(default) == prefix + Placeholder + suffix
    requires ':' !in prefix && '$' !in attribute
    ensures FormatMessage(template, attribute, default) == prefix + DisplayName(attribute) + suffix
  {
    DisplayNameNoDollar(attribute);
    ReplaceAfterPrefix(prefix, Placeholder, suffix, DisplayName(attribute));
  }

  /** Required, Array, In and Email name the attribute through the
      placeholder, so their default messages show its first underscore as
      a space. */
  lemma PlaceholderDefaults(attribute: string, allowed: Value)
    requires '$' !in attribute
    ensures Message(RequiredCheck, None, attribute) == "The " + DisplayName(attribute) + " field is required."
    ensures Message(ArrayCheck, None, attribute) == "The " + DisplayName(attribute) + " must be an array."
    ensures Message(InCheck(allowed), None, attribute) == "The " + DisplayName(attribute) + " field must be a valid value."
    ensures Message(EmailCheck, None, attribute) == "The " + DisplayName(attribute) + " field must be a valid email address."
  {
    PlaceholderDefault(RequiredCheck, attribute, " field is required.");
    PlaceholderDefault(ArrayCheck, attribute, " must be an array.");
    PlaceholderDefaultsOfLists(attribute, allowed);
  }

  lemma PlaceholderDefaultsOfLists(attribute: string, allowed: Value)
    requires '$' !in attribute
    ensures Message(InCheck(allowed), None, attribute) == "The " + DisplayName(attribute) + " field must be a valid value."
    ensures Message(EmailCheck, None, attribute) == "The " + DisplayName(attribute) + " field must be a valid email address."
  {
    PlaceholderDefault(InCheck(allowed), attribute, " field must be a valid value.");
    PlaceholderDefault(EmailCheck, attribute, " field must be a valid email address.");
  }

  /** One default message written around the placeholder. */
  lemma PlaceholderDefault(check: Check, attribute: string, suffix: string)
    requires !check.MaxCheck? && DefaultMessage(check, attribute) == "The " + Placeholder + suffix
    requires '$' !in attribute
    ensures Message(check, None, attribute) == "The " + DisplayName(attribute) + suffix
  {
    PlaceholderFilled(None, DefaultMessage(check, attribute), "The ", suffix, attribute);
  }

  /** Min's wording of its bound has no `:`. */
  lemma SizeWordingColonFree(bound: int, t: FieldType)
    ensures ':' !in " field must be at least" + SizeSuffix(bound, t)
  {
  }

  /** A message built around an attribute with no `:` has no placeholder
      left, so formatting leaves it as it is. */
  lemma InterpolatedUnchanged(prefix: string, attribute: string, suffix: string)
    requires ':' !in prefix && ':' !in attribute && ':' !in suffix
    ensures FormatMessage(None, attribute, prefix + attribute + suffix) == prefix + attribute + suffix
  {
    ReplaceAbsent(prefix + attribute + suffix, Placeholder, DisplayName(attribute));
  }

  /** String, Numeric, Regex, Min and Max interpolate the attribute into
      their defaults, so those are reported exactly as built: the raw
      attribute, underscores included, and for Min and Max the bound with
      the wording of the field type they captured. */
  lemma InterpolatedDefault(check: Check, attribute: string)
    requires check.StringCheck? || check.NumericCheck? || check.RegexCheck? || check.MinCheck? || check.MaxCheck?
    requires ':' !in attribute
    ensures Message(check, None, attribute) == DefaultMessage(check, attribute)
  {
    match check
    case StringCheck => TypeDefaultUnchanged(check, attribute, " field must be a string.");
    case NumericCheck => TypeDefaultUnchanged(check, attribute, " field must be a number.");
    case RegexCheck(_) => TypeDefaultUnchanged(check, attribute, " field format is invalid.");
    case MinCheck(bound, t) => MinDefaultUnchanged(bound, t, attribute);
    case MaxCheck(_, _) =>
  }

  lemma TypeDefaultUnchanged(check: Check, attribute: string, suffix: string)
    requires !check.MaxCheck?
    requires DefaultMessage(check, attribute) == "The " + attribute + suffix
    requires ':' !in attribute && ':' !in suffix
    ensures Message(check, None, attribute) == DefaultMessage(check, attribute)
  {
    InterpolatedUnchanged("The ", attribute, suffix);
  }

  lemma MinDefaultUnchanged(bound: int, t: FieldType, attribute: string)
    requires ':' !in attribute
    ensures Message(MinCheck(bound, t), None, attribute) == DefaultMessage(MinCheck(bound, t), attribute)
  {
    SizeWordingColonFree(bound, t);
    TypeDefaultUnchanged(MinCheck(bound, t), attribute, " field must be at least" + SizeSuffix(bound, t));
  }

  /** Min's reported default for each field type it captured: the bound
      in decimal, then ` items.` for arrays, ` characters.` for strings and
      `.` for numbers. */
  lemma MinMessages(bound: int, attribute: string)
    requires ':' !in attribute
    ensures Message(MinCheck(bound, ArrayType), None, attribute) ==
      "The " + attribute + " field must be at least " + IntToDecimal(bound) + " items."
    ensures Message(MinCheck(bound, StringType), None, attribute) ==
      "The " + attribute + " field must be at least " + IntToDecimal(bound) + " characters."
    ensures Message(MinCheck(bound, NumberType), None, attribute) ==
      "The " + attribute + " field must be at least " + IntToDecimal(bound) + "."
  {
    MinMessage(bound, ArrayType, attribute, " items.");
    MinMessage(bound, StringType, attribute, " characters.");
    MinMessage(bound, NumberType, attribute, ".");
  }

  /** Min's reported default, given the unit its field type appends. */
  lemma MinMessage(bound: int, t: FieldType, attribute: string, unit: string)
    requires ':' !in attribute
    requires SizeSuffix(bound, t) == " " + IntToDecimal(bound) + unit
    ensures Message(MinCheck(bound, t), None, attribute) ==
      "The " + attribute + " field must be at least " + IntToDecimal(bound) + unit
  {
    MinDefaultUnchanged(bound, t, attribute);
    var wording, digits := " field must be at least", IntToDecimal(bound);
    assert wording + " " == " field must be at least ";
    assert "The " + attribute + wording + (" " + digits + unit) == "The " + attribute + (wording + " ") + digits + unit;
  }

  /** Max's reported default for each field type it captured, with the
      same wording of the bound as Min's. Max returns its default without
      formatting, so this holds for every attribute. */
  lemma MaxMessages(bound: int, attribute: string)
    ensures Message(MaxCheck(bound, ArrayType), None, attribute) ==
      "The " + attribute + " field must not have more than " + IntToDecimal(bound) + " items."
    ensures Message(MaxCheck(bound, StringType), None, attribute) ==
      "The " + attribute + " field must not have more than " + IntToDecimal(bound) + " characters."
    ensures Message(MaxCheck(bound, NumberType), None, attribute) ==
      "The " + attribute + " field must not have more than " + IntToDecimal(bound) + "."
  {
    MaxMessage(bound, ArrayType, attribute, " items.");
    MaxMessage(bound, StringType, attribute, " characters.");
    MaxMessage(bound, NumberType, attribute, ".");
  }

  /** Max's reported default, given the unit its field type appends. */
  lemma MaxMessage(bound: int, t: FieldType, attribute: string, unit: string)
    requires SizeSuffix(bound, t) == " " + IntToDecimal(bound) + unit
    ensures Message(MaxCheck(bound, t), None, attribute) ==
      "The " + attribute + " field must not have more than " + IntToDecimal(bound) + unit
  {
    var wording, digits := " field must not have more than", IntToDecimal(bound);
    assert wording + " " == " field must not have more than ";
    assert "The " + attribute + wording + (" " + digits + unit) == "The " + attribute + (wording + " ") + digits + unit;
  }

  /** An override is used whenever one is set, even the empty string, by
      every rule but Max; its placeholder gets the shown attribute. */
  lemma OverrideMessage(check: Check, prefix: string, suffix: string, attribute: string)
    requires !check.MaxCheck?
    requires ':' !in prefix && '$' !in attribute
    ensures Message(check, Some(prefix + Placeholder + suffix), attribute) == prefix + DisplayName(attribute) + suffix
    ensures Message(check, Some(""), attribute) == ""
  {
    PlaceholderFilled(Some(prefix + Placeholder + suffix), DefaultMessage(check, attribute), prefix, suffix, attribute);
    ReplaceAbsent("", Placeholder, DisplayName(attribute));
  }

  /** Max uses a non-empty override with the raw attribute in its
      placeholder, and treats the empty override as none. */
  lemma MaxOverrideMessage(bound: int, t: FieldType, prefix: string, suffix: string, attribute: string)
    requires ':' !in prefix && '$' !in attribute
    ensures Message(MaxCheck(bound, t), Some(prefix + Placeholder + suffix), attribute) == prefix + attribute + suffix
    ensures Message(MaxCheck(bound, t), Some(""), attribute) == Message(MaxCheck(bound, t), None, attribute)
  {
    ReplaceAfterPrefix(prefix, Placeholder, suffix, attribute);
  }

  /** The same override reads differently under Min and Max for the
      attribute `first_name`: Min shows `first name`, Max `first_name`. */
  lemma UnderscoreShownDifferently(attribute: string, shown: string)
    requires attribute == "first" + "_" + "name" && shown == "first" + " " + "name"
    ensures Message(MinCheck(3, StringType), Some(Placeholder + " is too short"), attribute) == shown + " is too short"
    ensures Message(MaxCheck(9, StringType), Some(Placeholder + " is too long"), attribute) == attribute + " is too long"
  {
    MinShowsDisplayName(attribute, shown);
    MaxShowsAttribute(attribute);
  }

  lemma MinShowsDisplayName(attribute: string, shown: string)
    requires attribute == "first" + "_" + "name" && shown == "first" + " " + "name"
    ensures Message(MinCheck(3, StringType), Some(Placeholder + " is too short"), attribute) == shown + " is too short"
  {
    DisplayNameFirstUnderscore("first", "name");
    assert '$' !in attribute;
    OverrideMessage(MinCheck(3, StringType), "", " is too short", attribute);
    assert "" + Placeholder + " is too short" == Placeholder + " is too short";
  }

  lemma MaxShowsAttribute(attribute: string)
    requires attribute == "first" + "_" + "name"
    ensures Message(MaxCheck(9, StringType), Some(Placeholder + " is too long"), attribute) == attribute + " is too long"
  {
    assert '$' !in attribute;
    MaxOverrideMessage(9, StringType, "", " is too long", attribute);
    assert "" + Placeholder + " is too long" == Placeholder + " is too long";
  }

  // ---------------------------------------------------------------------
  // Tests

  /** A string of digits passes NumericRule. */
  lemma DigitsPassNumeric(digits: string)
    requires digits != [] && AllDigits(digits)
    ensures !Fails(NumericCheck, Str(digits))
  {
    DigitsRoundTrip(digits);
    assert !NumericFails(Str(digits));
  }

  /** Null fails NumericRule. */
  lemma NumericRejectsNull()
    ensures Fails(NumericCheck, Null)
  {
  }

  /** The address of the suite passes EmailRule, and plain words fail it. */
  lemma EmailTestValues(good: string, bad: string)
    requires good == "test@example.com" && bad == "not an email"
    ensures !Fails(EmailCheck, Str(good))
    ensures Fails(EmailCheck, Str(bad))
  {
    SuiteAddress(good);
    EmailFailsOn(good);
    NoAtSign(bad);
    EmailFailsOn(bad);
  }

  lemma EmailFailsOn(s: string)
    ensures Fails(EmailCheck, Str(s)) <==> !IsEmailAddress(s)
  {
  }

  lemma SuiteAddress(s: string)
    requires s == "test@example.com"
    ensures IsEmailAddress(s)
  {
    assert MatchesAt(s, 4, 12) by {
      assert s[..4] == "test" && s[5..12] == "example" && s[13..] == "com";
    }
    MatchIsAddress(s, 4, 12);
  }

  lemma NoAtSign(s: string)
    requires '@' !in s
    ensures !IsEmailAddress(s)
  {
  }

  /** A number-typed Min or Max compares a numeric string by the number it
      spells: `String(n)` is below `bound` exactly when `n` is. */
  lemma NumberBoundsReadStrings(n: int, bound: int)
    ensures MinFails(bound, NumberType, Str(IntToDecimal(n))) <==> n < bound
    ensures MaxFails(bound, NumberType, Str(IntToDecimal(n))) <==> n > bound
  {
    DecimalRoundTrip(n);
  }

  /** Under the number type null compares as 0 and undefined as NaN, so
      null can fail a bound while undefined never does. */
  lemma NumberBoundsOnMissing(bound: int)
    ensures MinFails(bound, NumberType, Null) <==> 0 < bound
    ensures MaxFails(bound, NumberType, Null) <==> 0 > bound
    ensures !MinFails(bound, NumberType, Undefined) && !MaxFails(bound, NumberType, Undefined)
  {
  }

  /** Under the string and array types a value passes both Min(lo) and
      Max(hi) exactly when it is neither a string nor an array, or its
      length lies between the bounds. */
  lemma SizeWindow(lo: int, hi: int, t: FieldType, v: Value)
    requires t != NumberType
    ensures !MinFails(lo, t, v) && !MaxFails(hi, t, v) <==>
      !(v.Str? || v.Arr?) || lo <= Size(v) <= hi
  {
  }

  /** Under the string and array types a number is never measured, and
      neither is a number-typed string measured by its length. */
  lemma SizeIgnoresOtherKinds(bound: int, n: int)
    ensures !MinFails(bound, StringType, Num(n)) && !MaxFails(bound, ArrayType, Num(n))
    ensures MinFails(1, NumberType, Str("")) && !MinFails(1, StringType, Num(0))
  {
    assert Trim("") == [];
  }

  /** The type of the first allowed element decides: a numeric list
      rejects the string "1", and a string list rejects the number 1. */
  lemma InComparesByType()
    ensures InFails(Arr([Num(1)]), Str("1")) && !InFails(Arr([Num(1)]), Num(1))
    ensures InFails(Arr([Str("1")]), Num(1)) && !InFails(Arr([Str("1")]), Str("1"))
    ensures !InFails(Arr([]), Num(7)) && !InFails(Str("a"), Num(7))
  {
  }

  /** Every allowed element of the first element's kind passes In. */
  lemma InAcceptsMembers(allowed: seq<Value>, i: int)
    requires 0 <= i < |allowed|
    requires allowed[i].Str? == allowed[0].Str? && allowed[i].Num? == allowed[0].Num?
    ensures !InFails(Arr(allowed), allowed[i])
  {
  }

  /** A list whose first element is a string admits exactly its string
      members; one whose first element is a number admits exactly its
      numeric members. Anything else fails. */
  lemma InAdmitsExactlyMembers(allowed: seq<Value>, v: Value)
    requires allowed != [] && (allowed[0].Str? || allowed[0].Num?)
    ensures allowed[0].Str? ==> (!InFails(Arr(allowed), v) <==> v.Str? && v in allowed)
    ensures allowed[0].Num? ==> (!InFails(Arr(allowed), v) <==> v.Num? && v in allowed)
  {
  }

  /** Regex tests the string form of any value: null is tested as
      `"null"`, an array as its comma-joined elements. */
  lemma RegexTestsStringForm(test: string -> bool)
    ensures RegexFails(test, Null) <==> !test("null")
    ensures RegexFails(test, Arr([Num(1), Null, Str("b")])) <==> !test("1,,b")
  {
    assert IntToDecimal(1) == "1";
    assert Join([Null, Str("b")]) == ",b" by {
      assert [Null, Str("b")][1..] == [Str("b")];
    }
    assert Join([Num(1), Null, Str("b")]) == "1" + "," + ",b" by {
      assert [Num(1), Null, Str("b")][1..] == [Null, Str("b")];
    }
    assert "1" + "," + ",b" == "1,,b";
  }

  /** Required fails on nothing but null, undefined, blank strings and the
      empty array: zero, false and the empty object pass. */
  lemma RequiredAcceptsFalsyValues()
    ensures !RequiredFails(Num(0)) && !RequiredFails(Bool(false)) && !RequiredFails(Obj([]))
  {
  }

  /** A string fails Required exactly when it is white space throughout,
      so one visible character between any white space passes. */
  lemma RequiredBlankStrings(pad: string, c: char)
    requires IsBlank(pad) && !IsWhiteSpace(c)
    ensures RequiredFails(Str(pad)) && RequiredFails(Str(pad + pad))
    ensures !RequiredFails(Str(pad + [c] + pad))
  {
    var s := pad + [c] + pad;
    assert s[|pad|] == c;
  }
}
