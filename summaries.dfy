/** The summary record that flows from the summarizer to the evaluator:
    a JSON object whose keys may be missing or null. */
module Summaries {

  datatype Option<T> = None | Some(value: T)

  /** The state of one key of a JSON object: missing, `null`, or holding a value. */
  datatype Field<T> = Absent | Null | Present(value: T)

  /** The object returned by the summarizer: the four schema keys and `raw`,
      which only the parse-failure fallback sets. */
  datatype Summary = Summary(
    oneLiner: Field<string>,
    bullets: Field<seq<string>>,
    entities: Field<seq<string>>,
    risks: Field<seq<string>>,
    raw: Field<string>)
}
