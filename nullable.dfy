/** An attribute or lookup that may be absent (`null` in the page scripts). */
module Nullable {
  datatype Option<T> = None | Some(value: T)

  /** An attribute value turned into a string, as a template literal or a
      property lookup does it: `null` becomes "null". */
  function AttributeText(a: Option<string>): string {
    match a
    case None => "null"
    case Some(v) => v
  }
}
