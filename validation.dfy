/** Server-side validation of a submission (backend/validation.ts). */
module Validation {
  import opened Types

  const FIRST_NAME_FIELD: string := "first_name"
  const LAST_NAME_FIELD: string := "last_name"

  /** VALIDATION_MESSAGES. */
  const FIRST_NAME_WHITESPACE: string := "No whitespace in first name is allowed"
  const LAST_NAME_WHITESPACE: string := "No whitespace in last name is allowed"

  /** The characters the regular-expression class `\s` matches: the
      ECMAScript WhiteSpace and LineTerminator code points. */
  predicate IsWs(c: char)
  {
    || c == '\t' || c == '\n' || c == '\U{000B}' || c == '\U{000C}' || c == '\r' || c == ' '
    || c == '\U{00A0}' || c == '\U{1680}'
    || ('\U{2000}' <= c <= '\U{200A}')
    || c == '\U{2028}' || c == '\U{2029}' || c == '\U{202F}' || c == '\U{205F}'
    || c == '\U{3000}' || c == '\U{FEFF}'
  }

  /** `/\s/.test(text)`: some character of `text` is whitespace. */
  predicate HasWhitespace(text: string)
  {
    exists i :: 0 <= i < |text| && IsWs(text[i])
  }

  /** `validateSubmission`: `None` for `null`, otherwise the field errors.
      A name is checked only when it is non-empty (the `data.first_name &&`
      guard); the date is not inspected. */
  function ValidateSubmission(data: Submission): (r: Option<ValidationError>)
    ensures r.None? <==> !HasWhitespace(data.firstName) && !HasWhitespace(data.lastName)
    ensures r.Some? ==>
              && |r.value| > 0
              && r.value.Keys <= {FIRST_NAME_FIELD, LAST_NAME_FIELD}
              && (forall field :: field in r.value ==> |r.value[field]| == 1)
    ensures r.Some? ==>
              && (FIRST_NAME_FIELD in r.value <==> HasWhitespace(data.firstName))
              && (LAST_NAME_FIELD in r.value <==> HasWhitespace(data.lastName))
    ensures r.Some? && FIRST_NAME_FIELD in r.value ==> r.value[FIRST_NAME_FIELD] == [FIRST_NAME_WHITESPACE]
    ensures r.Some? && LAST_NAME_FIELD in r.value ==> r.value[LAST_NAME_FIELD] == [LAST_NAME_WHITESPACE]
  {
    var errors: ValidationError := map[];
    var errors := if |data.firstName| > 0 && HasWhitespace(data.firstName)
                  then errors[FIRST_NAME_FIELD := [FIRST_NAME_WHITESPACE]] else errors;
    var errors := if |data.lastName| > 0 && HasWhitespace(data.lastName)
                  then errors[LAST_NAME_FIELD := [LAST_NAME_WHITESPACE]] else errors;
    if |errors| > 0 then Some(errors) else None
  }

  /** The result depends on the two names only. */
  lemma ValidationIgnoresDate(data: Submission, date: string)
    ensures ValidateSubmission(data.(date := date)) == ValidateSubmission(data)
  {
  }

  /** Empty names pass. */
  lemma EmptyNamesValid(date: string)
    ensures ValidateSubmission(Submission(date, "", "")) == None
  {
  }

  /** Any whitespace character in a name is rejected, not only the space:
      with both names bad, both fields are reported, each with its own message. */
  lemma WhitespaceInBothNames(date: string, c: char, d: char, a: string, b: string)
    requires IsWs(c) && IsWs(d)
    ensures ValidateSubmission(Submission(date, a + [c], [d] + b))
         == Some(map[FIRST_NAME_FIELD := [FIRST_NAME_WHITESPACE], LAST_NAME_FIELD := [LAST_NAME_WHITESPACE]])
  {
    assert (a + [c])[|a|] == c;
    assert ([d] + b)[0] == d;
  }

  /** A tab in the first name alone gives exactly the first-name error. */
  lemma TabInFirstName(date: string)
    ensures ValidateSubmission(Submission(date, "John\tDoe", "Smith"))
         == Some(map[FIRST_NAME_FIELD := [FIRST_NAME_WHITESPACE]])
  {
    assert "John\tDoe"[4] == '\t';
  }
}
