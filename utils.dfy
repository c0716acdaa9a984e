/** The synthesized reply to an accepted submission (backend/utils.ts:11-19).
    The random draw of the item count is a parameter; the processing delay
    (a timer) is not modelled. */
module Utils {
  import opened Types
  import opened Validation

  const MIN_ITEMS: nat := 2
  const MAX_ITEMS: nat := 5

  /** `Math.floor(Math.random() * 4) + 2` for a draw in [0, 1). Scaling by a
      power of two and flooring are exact in floating point, so reals give
      the same value. */
  function ItemCount(random: real): (n: nat)
    requires 0.0 <= random < 1.0
    ensures MIN_ITEMS <= n <= MAX_ITEMS
  {
    (random * 4.0).Floor + 2
  }

  /** Every count in the range is drawn, each from a quarter of [0, 1). */
  lemma ItemCountCovers(n: nat)
    requires MIN_ITEMS <= n <= MAX_ITEMS
    ensures ItemCount((n - 2) as real / 4.0) == n
  {
  }

  /** The `name` of each reply element. */
  function FullName(firstName: string, lastName: string): string
  {
    firstName + " " + lastName
  }

  /** `createSampleResponseData` with the drawn item count as a parameter. */
  function CreateSampleResponseData(input: Submission, itemCount: nat): (r: seq<SubmissionResponse>)
    requires MIN_ITEMS <= itemCount <= MAX_ITEMS
    ensures MIN_ITEMS <= |r| <= MAX_ITEMS && |r| == itemCount
    ensures forall i :: 0 <= i < |r| ==> r[i].date == input.date
    ensures forall i :: 0 <= i < |r| ==> r[i].name == input.firstName + " " + input.lastName
  {
    seq(itemCount, _ => SubmissionResponse(input.date, FullName(input.firstName, input.lastName)))
  }

  /** All elements of the reply are the same element. */
  lemma SampleElementsIdentical(input: Submission, itemCount: nat)
    requires MIN_ITEMS <= itemCount <= MAX_ITEMS
    ensures forall i, j :: 0 <= i < j < itemCount ==>
              CreateSampleResponseData(input, itemCount)[i] == CreateSampleResponseData(input, itemCount)[j]
  {
  }

  /** Position of the first space of `s`, or `|s|` when there is none. */
  function FirstSpace(s: string): (k: nat)
    ensures k <= |s|
    ensures forall i :: 0 <= i < k ==> s[i] != ' '
    ensures k < |s| ==> s[k] == ' '
    decreases |s|
  {
    if s == [] || s[0] == ' ' then 0 else 1 + FirstSpace(s[1..])
  }

  /** Cuts a name at its first space into a first and a last name. */
  function SplitName(name: string): (string, string)
  {
    var k := FirstSpace(name);
    if k < |name| then (name[..k], name[k + 1..]) else (name, "")
  }

  /** For names the validator accepts, the reply's name is exactly the first
      name, one space and the last name: cutting it at its space recovers both. */
  lemma SplitFullName(firstName: string, lastName: string)
    requires !HasWhitespace(firstName)
    ensures SplitName(FullName(firstName, lastName)) == (firstName, lastName)
  {
    var name := FullName(firstName, lastName);
    assert name[|firstName|] == ' ';
    var k := FirstSpace(name);
    if k < |firstName| {
      assert name[k] == firstName[k];
      assert IsWs(firstName[k]);
    }
    assert name[..k] == firstName;
    assert name[k + 1..] == lastName;
  }

  /** Every reply element to an accepted submission names its submitter. */
  lemma SampleNamesRecoverInput(input: Submission, itemCount: nat)
    requires MIN_ITEMS <= itemCount <= MAX_ITEMS
    requires ValidateSubmission(input).None?
    ensures forall e :: e in CreateSampleResponseData(input, itemCount) ==>
              SplitName(e.name) == (input.firstName, input.lastName)
  {
    SplitFullName(input.firstName, input.lastName);
  }
}
