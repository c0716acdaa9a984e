/** The two route handlers of the HTTP boundary (backend/server.ts:21-70),
    over an explicitly passed store. What the foreign calls do is given as
    parameters: whether the store's statement succeeds, and the item count
    the reply generator draws. Status 200 is Express's default for `res.json`. */
module Server {
  import opened Types
  import opened History
  import opened Store
  import opened Validation
  import opened Utils

  const STATUS_OK: nat := 200
  const STATUS_BAD_REQUEST: nat := 400
  const STATUS_SERVER_ERROR: nat := 500

  const GENERAL_FIELD: string := "general"
  const SUBMIT_FAILURE_MESSAGE: string := "Something went wrong. Please try again."
  const HISTORY_FAILURE_MESSAGE: string := "Unable to load submission history. Please try again later."

  /** The JSON bodies the handlers send. The submit bodies carry a `success`
      flag; the history bodies do not, and the history error is a bare string
      where the submit error is a field map. */
  datatype Body =
    | SubmitSuccess(data: seq<SubmissionResponse>)
    | SubmitFailure(error: ValidationError)
    | HistoryList(entries: seq<HistoryEntry>)
    | HistoryFailure(message: string)

  datatype Response = Response(status: nat, body: Body)

  /** The `success` field of a body, when it has one. */
  function SuccessField(body: Body): Option<bool>
  {
    match body
    case SubmitSuccess(_) => Some(true)
    case SubmitFailure(_) => Some(false)
    case _ => None
  }

  /** Every stored name is free of whitespace, as when all writes come
      through POST /submit. */
  ghost predicate NamesWithoutWhitespace(rows: seq<Row>)
  {
    forall i :: 0 <= i < |rows| ==> !HasWhitespace(rows[i].firstName) && !HasWhitespace(rows[i].lastName)
  }

  /** The error map of a submission that failed for any reason but validation. */
  function GeneralError(): ValidationError
  {
    map[GENERAL_FIELD := [SUBMIT_FAILURE_MESSAGE]]
  }

  /** POST /submit: validate, then store, then reply. A rejected submission
      stores nothing; an accepted one is stored once, as sent. */
  method Submit(db: Database, request: Submission, storageOk: bool, itemCount: nat) returns (response: Response)
    requires db.Valid()
    requires MIN_ITEMS <= itemCount <= MAX_ITEMS
    modifies db
    ensures db.Valid()
    ensures ValidateSubmission(request).Some? ==>
              && response == Response(STATUS_BAD_REQUEST, SubmitFailure(ValidateSubmission(request).value))
              && db.rows == old(db.rows)
    ensures ValidateSubmission(request).None? && !storageOk ==>
              && response == Response(STATUS_SERVER_ERROR, SubmitFailure(GeneralError()))
              && db.rows == old(db.rows)
    ensures ValidateSubmission(request).None? && storageOk ==>
              && response == Response(STATUS_OK, SubmitSuccess(CreateSampleResponseData(request, itemCount)))
              && |db.rows| == |old(db.rows)| + 1
              && db.rows[..|old(db.rows)|] == old(db.rows)
              && Stores(db.rows[|old(db.rows)|], request)
              && (forall i :: 0 <= i < |old(db.rows)| ==> old(db.rows)[i].id < db.rows[|old(db.rows)|].id)
    ensures ValidateSubmission(request).Some? || !storageOk ==> unchanged(db)
    ensures response.status == STATUS_OK <==> SuccessField(response.body) == Some(true)
    ensures NamesWithoutWhitespace(old(db.rows)) ==> NamesWithoutWhitespace(db.rows)
  {
    var validationErrors := ValidateSubmission(request);
    if validationErrors.Some? {
      return Response(STATUS_BAD_REQUEST, SubmitFailure(validationErrors.value));
    }
    if !storageOk {
      return Response(STATUS_SERVER_ERROR, SubmitFailure(GeneralError()));
    }
    db.SaveSubmission(request);
    var responseData := CreateSampleResponseData(request, itemCount);
    response := Response(STATUS_OK, SubmitSuccess(responseData));
  }

  /** GET /history: the store's history list as is, or a bare error string.
      The store is only read. */
  method GetHistory(db: Database, queryOk: bool) returns (response: Response)
    ensures queryOk ==> response == Response(STATUS_OK, HistoryList(SubmissionHistory(db.rows)))
    ensures queryOk ==> |response.body.entries| <= HISTORY_LIMIT
    ensures queryOk && db.rows == [] ==> response.body.entries == []
    ensures !queryOk ==> response == Response(STATUS_SERVER_ERROR, HistoryFailure(HISTORY_FAILURE_MESSAGE))
    ensures SuccessField(response.body) == None
  {
    if !queryOk {
      return Response(STATUS_SERVER_ERROR, HistoryFailure(HISTORY_FAILURE_MESSAGE));
    }
    var submissions := SubmissionHistory(db.rows);
    response := Response(STATUS_OK, HistoryList(submissions));
  }

  /** On a fresh store, a submission the validator refuses is answered 400
      with the validator's map and leaves the history empty
      (backend/server.test.ts:120-170, 226-234). */
  method RejectedSubmissionScenario(request: Submission) returns (submitted: Response, listed: Response)
    requires HasWhitespace(request.firstName) || HasWhitespace(request.lastName)
    ensures submitted.status == STATUS_BAD_REQUEST && submitted.body.SubmitFailure?
    ensures submitted.body.error.Keys <= {FIRST_NAME_FIELD, LAST_NAME_FIELD}
    ensures FIRST_NAME_FIELD in submitted.body.error <==> HasWhitespace(request.firstName)
    ensures LAST_NAME_FIELD in submitted.body.error <==> HasWhitespace(request.lastName)
    ensures forall field :: field in submitted.body.error ==>
              submitted.body.error[field] == [if field == FIRST_NAME_FIELD then FIRST_NAME_WHITESPACE else LAST_NAME_WHITESPACE]
    ensures listed == Response(STATUS_OK, HistoryList([]))
  {
    var db := new Database([], 0);
    submitted := Submit(db, request, true, MIN_ITEMS);
    listed := GetHistory(db, true);
    assert SubmissionHistory([]) == [];
  }

  /** On a fresh store, an accepted submission is stored once, echoed in
      every reply element, and listed alone with count 0
      (backend/server.test.ts:99-118, 190-206). */
  method AcceptedSubmissionScenario(request: Submission, itemCount: nat) returns (submitted: Response, listed: Response)
    requires ValidateSubmission(request).None?
    requires MIN_ITEMS <= itemCount <= MAX_ITEMS
    ensures submitted.status == STATUS_OK && submitted.body.SubmitSuccess?
    ensures |submitted.body.data| == itemCount
    ensures forall e :: e in submitted.body.data ==>
              e == SubmissionResponse(request.date, request.firstName + " " + request.lastName)
    ensures listed == Response(STATUS_OK, HistoryList([HistoryEntry(request.date, request.firstName, request.lastName, 0)]))
  {
    var db := new Database([], 0);
    submitted := Submit(db, request, true, itemCount);
    var row := db.rows[0];
    assert db.rows == [row];
    SingleRowHistory(row);
    listed := GetHistory(db, true);
  }
}
