/** The static attribute checks of src/ValidateAttribute.ts. */
module ValidateAttribute {
  import opened JsText
  import opened Values
  import opened Rules

  /** `ValidateAttribute.nullable(name, value)`: accepts every value. */
  predicate Nullable(name: string, value: Value)
    ensures Nullable(name, value)
  {
    true
  }

  /** `ValidateAttribute.required(name, value)`: null and undefined are
      absent, a string must have a non-empty trimmed form and an array an
      element; every other value is present. It accepts exactly the values
      RequiredRule lets through. */
  predicate Required(name: string, value: Value)
    ensures Required(name, value) <==> !RequiredFails(value)
    ensures Required(name, value) <==>
      !(value.Null? || value.Undefined? || (value.Str? && IsBlank(value.s)) || (value.Arr? && value.items == []))
  {
    match value
    case Null => false
    case Undefined => false
    case Str(s) => Utf16Length(Trim(s)) > 0
    case Arr(items) => |items| > 0
    case _ => true
  }
}
