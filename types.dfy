/** The records exchanged between the HTTP boundary, the validator and the
    submission store (backend/types.ts and the interfaces of backend/database.ts). */
module Types {

  /** `null` versus a value, as the validator returns it. */
  datatype Option<+T> = None | Some(value: T)

  /** A submission as the client sends it and as the store receives it
      (`UserSubmission` / `SubmissionRecord`). */
  datatype Submission = Submission(date: string, firstName: string, lastName: string)

  /** One element of the synthesized reply to an accepted submission. */
  datatype SubmissionResponse = SubmissionResponse(date: string, name: string)

  /** Field name to the list of messages about that field. */
  type ValidationError = map<string, seq<string>>

  /** One line of the history view: a stored submission and the number of
      strictly earlier submissions by the same person. */
  datatype HistoryEntry = HistoryEntry(date: string, firstName: string, lastName: string, count: nat)
}
