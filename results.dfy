/**
 * Failure-carrying values, and the habit identifier, shared by the modules of
 * the habit tracker model.
 */
module Results {

  /** The `id` of a row of the `habits` table, as the store and the service use it. */
  type HabitId = string

  datatype Option<+T> = None | Some(value: T)

  datatype Result<+T, +E> = Success(value: T) | Failure(error: E)

  /** The outcome of a call that returns nothing but may throw. */
  datatype Outcome<+E> = Pass | Fail(error: E)

  /**
   * `x || undefined` and `x || null` on an optional text: a missing or empty
   * text becomes missing, any other text is kept.
   */
  function NonEmpty(s: Option<string>): (r: Option<string>)
    ensures r.None? <==> (s.None? || s.value == "")
    ensures r.Some? ==> r == s
  {
    if s.Some? && s.value != "" then s else None
  }
}
