/** The history query on the tables of backend/database.test.ts:49-94. */
module HistoryExamples {
  import opened Types
  import opened Collation
  import opened History

  /** The date `2025-01-0d`. */
  function Day(d: char): string
  {
    "2025-01-0" + [d]
  }

  lemma DayOrder(c: char, d: char)
    ensures LexLess(Day(c), Day(d)) == (c < d)
  {
    LexLessCommonPrefix("2025-01-0", [c], [d]);
  }

  /** 1 when `row` joins a current row with these columns, else 0. */
  function Joins(row: Row, firstName: string, lastName: string, date: string): nat
  {
    if IsPrior(row, firstName, lastName, date) then 1 else 0
  }

  lemma PriorCountOfFive(t: seq<Row>, firstName: string, lastName: string, date: string)
    requires |t| == 5
    ensures PriorCount(t, firstName, lastName, date)
         == Joins(t[0], firstName, lastName, date) + Joins(t[1], firstName, lastName, date)
          + Joins(t[2], firstName, lastName, date) + Joins(t[3], firstName, lastName, date)
          + Joins(t[4], firstName, lastName, date)
  {
    assert t[..4][..3][..2][..1][..0] == [];
    assert PriorCount(t[..1], firstName, lastName, date) == Joins(t[0], firstName, lastName, date);
    assert PriorCount(t[..2], firstName, lastName, date)
        == PriorCount(t[..1], firstName, lastName, date) + Joins(t[1], firstName, lastName, date) by {
      assert t[..2][..1] == t[..1];
    }
    assert PriorCount(t[..3], firstName, lastName, date)
        == PriorCount(t[..2], firstName, lastName, date) + Joins(t[2], firstName, lastName, date) by {
      assert t[..3][..2] == t[..2];
    }
    assert PriorCount(t[..4], firstName, lastName, date)
        == PriorCount(t[..3], firstName, lastName, date) + Joins(t[3], firstName, lastName, date) by {
      assert t[..4][..3] == t[..3];
    }
    assert t[..5] == t;
  }

  /** The table of the counting test: three submissions by one person and
      two by another, interleaved. */
  predicate IsCountsTable(t: seq<Row>)
  {
    t == [Row(1, Day('1'), "John", "Smith"), Row(2, Day('2'), "John", "Smith"),
          Row(3, Day('3'), "John", "Smith"), Row(4, Day('1'), "Jane", "Doe"),
          Row(5, Day('4'), "Jane", "Doe")]
  }

  lemma CountsExampleFirstPersonEarliest(t: seq<Row>)
    requires IsCountsTable(t)
    ensures EntryOf(t, t[0]).count == 0
  {
    DayOrder('2', '1'); DayOrder('3', '1');
    LexLessIrreflexive(Day('1'));
    PriorCountOfFive(t, "John", "Smith", Day('1'));
  }

  lemma CountsExampleFirstPersonSecond(t: seq<Row>)
    requires IsCountsTable(t)
    ensures EntryOf(t, t[1]).count == 1
  {
    DayOrder('1', '2'); DayOrder('3', '2');
    LexLessIrreflexive(Day('2'));
    PriorCountOfFive(t, "John", "Smith", Day('2'));
  }

  lemma CountsExampleFirstPersonLatest(t: seq<Row>)
    requires IsCountsTable(t)
    ensures EntryOf(t, t[2]).count == 2
  {
    DayOrder('1', '3'); DayOrder('2', '3');
    LexLessIrreflexive(Day('3'));
    PriorCountOfFive(t, "John", "Smith", Day('3'));
  }

  lemma CountsExampleSecondPerson(t: seq<Row>)
    requires IsCountsTable(t)
    ensures EntryOf(t, t[4]).count == 1 && EntryOf(t, t[3]).count == 0
  {
    DayOrder('1', '4'); DayOrder('4', '1');
    LexLessIrreflexive(Day('1')); LexLessIrreflexive(Day('4'));
    PriorCountOfFive(t, "Jane", "Doe", Day('1'));
    PriorCountOfFive(t, "Jane", "Doe", Day('4'));
  }

  /** The history answer lists each submission with the number of that
      person's strictly earlier dates: 2, 1 and 0 for the first person, 1 and
      0 for the second. */
  lemma CountsExample(t: seq<Row>)
    requires IsCountsTable(t)
    ensures |SubmissionHistory(t)| == 5
    ensures HistoryEntry(Day('3'), "John", "Smith", 2) in SubmissionHistory(t)
    ensures HistoryEntry(Day('2'), "John", "Smith", 1) in SubmissionHistory(t)
    ensures HistoryEntry(Day('1'), "John", "Smith", 0) in SubmissionHistory(t)
    ensures HistoryEntry(Day('4'), "Jane", "Doe", 1) in SubmissionHistory(t)
    ensures HistoryEntry(Day('1'), "Jane", "Doe", 0) in SubmissionHistory(t)
  {
    CountsExampleFirstPersonEarliest(t);
    CountsExampleFirstPersonSecond(t);
    CountsExampleFirstPersonLatest(t);
    CountsExampleSecondPerson(t);
    SmallTableListedInFull(t);
  }

  /** The projection of a row that no other row joins. */
  function Alone(row: Row): HistoryEntry
  {
    HistoryEntry(row.date, row.firstName, row.lastName, 0)
  }

  predicate SamePerson(a: Row, b: Row)
  {
    a.firstName == b.firstName && a.lastName == b.lastName
  }

  /** A person with one submission in the table counts 0. */
  lemma LoneSubmitter(t: seq<Row>, k: nat)
    requires k < |t|
    requires forall i :: 0 <= i < |t| && i != k ==> !SamePerson(t[i], t[k])
    ensures EntryOf(t, t[k]) == Alone(t[k])
  {
    LexLessIrreflexive(t[k].date);
    PriorCountZero(t, t[k].firstName, t[k].lastName, t[k].date);
  }

  lemma NewestFirstSorted(a: Row, b: Row, c: Row)
    requires LexLess(a.date, c.date) && LexLess(c.date, b.date)
    ensures Sorted([Alone(b), Alone(c), Alone(a)])
  {
    LexLessTransitive(a.date, c.date, b.date);
    LexLessAsymmetric(a.date, c.date);
    LexLessAsymmetric(c.date, b.date);
    LexLessAsymmetric(a.date, b.date);
    var s := [Alone(b), Alone(c), Alone(a)];
    assert !Precedes(s[1], s[0]) && !Precedes(s[2], s[1]) && !Precedes(s[2], s[0]);
  }

  lemma ThreePeopleEntries(t: seq<Row>)
    requires |t| == 3
    requires !SamePerson(t[0], t[1]) && !SamePerson(t[1], t[2]) && !SamePerson(t[0], t[2])
    ensures Entries(t) == [Alone(t[0]), Alone(t[1]), Alone(t[2])]
  {
    LoneSubmitter(t, 0);
    LoneSubmitter(t, 1);
    LoneSubmitter(t, 2);
  }

  /** Three people, stored with their dates out of order, come back newest first. */
  lemma ThreePeopleNewestFirst(t: seq<Row>)
    requires |t| == 3
    requires !SamePerson(t[0], t[1]) && !SamePerson(t[1], t[2]) && !SamePerson(t[0], t[2])
    requires LexLess(t[0].date, t[2].date) && LexLess(t[2].date, t[1].date)
    ensures SubmissionHistory(t) == [Alone(t[1]), Alone(t[2]), Alone(t[0])]
  {
    var s := [Alone(t[1]), Alone(t[2]), Alone(t[0])];
    NewestFirstSorted(t[0], t[1], t[2]);
    ThreePeopleEntries(t);
    assert multiset(s) == multiset(Entries(t));
    HistoryUnique(t, s);
    assert HistorySize(|s|) == |s|;
  }

  /** The rows of the ordering test come back as 2025-01-03, 2025-01-02, 2025-01-01. */
  lemma OrderExample(t: seq<Row>)
    requires t == [Row(1, Day('1'), "John", "Doe"), Row(2, Day('3'), "Jane", "Smith"), Row(3, Day('2'), "Bob", "Wilson")]
    ensures |SubmissionHistory(t)| == 3
    ensures SubmissionHistory(t)[0].date == Day('3')
    ensures SubmissionHistory(t)[1].date == Day('2')
    ensures SubmissionHistory(t)[2].date == Day('1')
  {
    DayOrder('1', '2');
    DayOrder('2', '3');
    ThreePeopleNewestFirst(t);
  }
}
