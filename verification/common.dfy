/** Small shared vocabulary: optional values, the outcome of one HTTP round
    trip as seen by a `subscribe` callback, navigation targets, ASCII
    character classes and JavaScript's `||` on strings. */
module Common {

  /** A value that may be absent (`null` or `undefined` in the front-end). */
  datatype Option<T> = None | Some(value: T)

  /** What a `subscribe` callback receives: the `next` value of a
      successful request, or a call of the `error` callback. */
  datatype Reply<T> = Ok(value: T) | Failed

  /** The pages the router is asked to show. */
  datatype Route = LoginPage | HomePaciente | HomeTrabajador

  /** A navigation that a `setTimeout` schedules after `delayMs` milliseconds. */
  datatype Redirect = Redirect(route: Route, delayMs: nat)

  predicate IsUpper(c: char) { 'A' <= c <= 'Z' }
  predicate IsLower(c: char) { 'a' <= c <= 'z' }
  predicate IsDigit(c: char) { '0' <= c <= '9' }

  /** A string is truthy in JavaScript exactly when it is not empty. */
  predicate Truthy(s: string) { |s| > 0 }

  /** JavaScript's `s || fallback` on a string. */
  function OrElse(s: string, fallback: string): (r: string)
    ensures Truthy(s) ==> r == s
    ensures !Truthy(s) ==> r == fallback
  {
    if |s| > 0 then s else fallback
  }

  /** JavaScript's `v || fallback` on a value that may also be missing. */
  function OptOrElse(v: Option<string>, fallback: string): (r: string)
    ensures v.Some? && Truthy(v.value) ==> r == v.value
    ensures v.None? || !Truthy(v.value) ==> r == fallback
  {
    match v
    case Some(s) => OrElse(s, fallback)
    case None => fallback
  }
}
