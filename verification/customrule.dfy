/** The stateful custom rule of src/CustomRule.ts: it runs its `passes`
    callback and remembers the last message the callback reported. */
module FactoryRule {
  import opened Wrappers
  import opened Values
  import opened Rules

  /** A custom rule object: its callback and its current message
      (`undefined` is `None`). */
  datatype CustomRule = CustomRule(passes: Handler, message: Option<string>)

  /** `new CustomRule(passes)`: no message yet, so it does not fail. */
  function New(passes: Handler): (r: CustomRule)
    ensures r.passes == passes && !Fails(r) && GetMessage(r) == ""
  {
    CustomRule(passes, None)
  }

  /** `setMessage(message)`: the callback's `fail`. */
  function SetMessage(rule: CustomRule, message: string): (r: CustomRule)
    ensures r.passes == rule.passes && Fails(r) && GetMessage(r) == message
  {
    rule.(message := Some(message))
  }

  /** The rule after its callback reported `messages` in order: the last
      report wins, and no report leaves the message as it was. */
  function Report(rule: CustomRule, messages: seq<string>): (r: CustomRule)
    ensures r.passes == rule.passes
    ensures messages == [] ==> r.message == rule.message
    ensures messages != [] ==> r.message == Some(messages[|messages| - 1])
    decreases |messages|
  {
    if messages == [] then rule else Report(SetMessage(rule, messages[0]), messages[1..])
  }

  /** `validate(attribute, value)`: clears the message, then runs the
      callback with `setMessage` as its `fail`. */
  function Validate(rule: CustomRule, attribute: string, value: Value): (r: CustomRule)
    ensures r.passes == rule.passes
    ensures Fails(r) <==> rule.passes(attribute, value) != []
  {
    Report(rule.(message := None), rule.passes(attribute, value))
  }

  /** `fails()`: a message was reported. */
  predicate Fails(rule: CustomRule) {
    rule.message.Some?
  }

  /** `getMessage()`: the message, or the empty string. */
  function GetMessage(rule: CustomRule): (r: string)
    ensures !Fails(rule) ==> r == ""
    ensures Fails(rule) ==> r == rule.message.value
  {
    rule.message.GetOr("")
  }

  /** After `validate`, the message is the callback's last report, and the
      result does not depend on any earlier run. */
  lemma ValidateReportsLast(rule: CustomRule, attribute: string, value: Value, earlier: Option<string>)
    ensures var emitted := rule.passes(attribute, value);
      GetMessage(Validate(rule, attribute, value)) == if emitted == [] then "" else emitted[|emitted| - 1]
    ensures Validate(rule.(message := earlier), attribute, value) == Validate(rule, attribute, value)
  {
  }

  /** Validating twice with the same input is the same as validating once. */
  lemma ValidateIdempotent(rule: CustomRule, attribute: string, value: Value)
    ensures Validate(Validate(rule, attribute, value), attribute, value) == Validate(rule, attribute, value)
  {
  }
}
