/** Values as the two React components hold them in their state. */
module JsValues {

  datatype Option<+T> = None | Some(value: T)

  /** A JavaScript value as it appears in the component state: the text of an
      input, a number copied from a fetched record, or a checkbox's flag.
      Numbers are integers here (no NaN, no fractions): the only numbers in
      the state are record ids and phone numbers. */
  datatype JsValue = Text(s: string) | Number(n: int) | Flag(b: bool)

  /** JavaScript truthiness, as the `||` operator tests its left operand:
      the empty string, zero and `false` are falsy. */
  predicate Truthy(v: JsValue)
  {
    match v
    case Text(s) => s != ""
    case Number(n) => n != 0
    case Flag(b) => b
  }

  /** `a || b` where `a` may be `undefined` (None): the left operand when it
      is present and truthy, the right one otherwise. */
  function Or(a: Option<JsValue>, b: JsValue): (r: JsValue)
    ensures a.Some? && Truthy(a.value) ==> r == a.value
    ensures !(a.Some? && Truthy(a.value)) ==> r == b
    ensures Truthy(r) <==> (a.Some? && Truthy(a.value)) || Truthy(b)
  {
    if a.Some? && Truthy(a.value) then a.value else b
  }
}
