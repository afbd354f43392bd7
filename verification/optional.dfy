/** Optional values and the JavaScript `a || b` idiom the chart uses for
    defaults on numeric record fields. */
module Optional {

  /** A record field that may be absent (`undefined` or `null` in the page data). */
  datatype Option<+T> = None | Some(value: T)

  /** JavaScript truthiness of an optional number: present and not zero.
      (NaN, also falsy in JavaScript, has no counterpart among exact reals.) */
  predicate Truthy(a: Option<real>) {
    a.Some? && a.value != 0.0
  }

  /** JavaScript `a || b` where `a` is an optional number: `a` wins exactly
      when it is truthy, otherwise the fallback `b` is used. */
  function Or(a: Option<real>, b: real): (r: real)
    ensures Truthy(a) ==> r == a.value
    ensures !Truthy(a) ==> r == b
  {
    if Truthy(a) then a.value else b
  }
}
