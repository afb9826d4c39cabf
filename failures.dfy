/**
 * The exceptions the core raises, as values. `TagNotFound` is the package's
 * own exception; the others stand for the `ValueError`, `IndexError` and
 * `TypeError`/`AttributeError` the Python code lets escape.
 */
module Failures {
  import opened Markup

  datatype Error =
    | TagNotFound(tag: string, attr: Option<Matcher>, val: Matcher)
    | UnknownNumeral(glyph: char)
    | UnknownWeekday(weekday: string)
    | UnknownMonth(month: string)
      /** a list was indexed past its end (too few fields, a cell without children) */
    | MissingField
      /** an element's text was `None` where a string was needed */
    | MissingText

  datatype Result<+T> = Ok(value: T) | Err(error: Error) {
    predicate IsFailure() {
      Err?
    }

    function PropagateFailure<U>(): Result<U>
      requires Err?
    {
      Err(error)
    }

    function Extract(): T
      requires Ok?
    {
      value
    }
  }
}
