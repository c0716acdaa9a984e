/** The history query of the submission store (backend/database.ts:72-108).

    The store answers one SELECT: a LEFT JOIN of the table with itself on
    equal first and last name and a strictly smaller date, grouped per row
    and counted, ordered by date descending, then first name and last name
    ascending, and cut to the first ten rows. Here the table is a sequence of
    rows and the query is a function of it. */
module History {
  import opened Types
  import opened Collation

  /** LIMIT of the history query. */
  const HISTORY_LIMIT: nat := 10

  /** One row of the `submissions` table. `submitted_at` is never read by the
      query and is not modelled. */
  datatype Row = Row(id: nat, date: string, firstName: string, lastName: string)

  /** The join condition: `previous` joins a current row with these columns. */
  predicate IsPrior(previous: Row, firstName: string, lastName: string, date: string)
  {
    previous.firstName == firstName && previous.lastName == lastName && LexLess(previous.date, date)
  }

  /** COUNT(previous.id) for a current row with these columns: the number of
      rows of the whole table that satisfy the join condition. */
  function PriorCount(table: seq<Row>, firstName: string, lastName: string, date: string): nat
    decreases |table|
  {
    if table == [] then 0
    else
      var last := |table| - 1;
      PriorCount(table[..last], firstName, lastName, date)
        + (if IsPrior(table[last], firstName, lastName, date) then 1 else 0)
  }

  /** The joined partners of a current row, as positions in the table. */
  ghost function PriorPositions(table: seq<Row>, firstName: string, lastName: string, date: string): set<int>
  {
    set i | 0 <= i < |table| && IsPrior(table[i], firstName, lastName, date)
  }

  /** The projected output row for the current row `current`. */
  function EntryOf(table: seq<Row>, current: Row): HistoryEntry
  {
    HistoryEntry(current.date, current.firstName, current.lastName,
                 PriorCount(table, current.firstName, current.lastName, current.date))
  }

  /** The grouped join before ORDER BY and LIMIT: one entry per stored row. */
  function Entries(table: seq<Row>): seq<HistoryEntry>
  {
    seq(|table|, i requires 0 <= i < |table| => EntryOf(table, table[i]))
  }

  /** ORDER BY date DESC, first_name ASC, last_name ASC: `a` comes strictly
      before `b`. The count is not a sort key. */
  predicate Precedes(a: HistoryEntry, b: HistoryEntry)
  {
    || LexLess(b.date, a.date)
    || (a.date == b.date && LexLess(a.firstName, b.firstName))
    || (a.date == b.date && a.firstName == b.firstName && LexLess(a.lastName, b.lastName))
  }

  /** Two entries the ORDER BY cannot tell apart. */
  predicate SameKey(a: HistoryEntry, b: HistoryEntry)
  {
    a.date == b.date && a.firstName == b.firstName && a.lastName == b.lastName
  }

  predicate Sorted(s: seq<HistoryEntry>)
  {
    forall i, j :: 0 <= i < j < |s| ==> !Precedes(s[j], s[i])
  }

  /** Within `m`, entries with the same sort key are the same entry. */
  ghost predicate KeyDetermined(m: multiset<HistoryEntry>)
  {
    forall x, y :: x in m && y in m && SameKey(x, y) ==> x == y
  }

  function HistorySize(n: nat): nat
  {
    if n < HISTORY_LIMIT then n else HISTORY_LIMIT
  }

  // ---------------------------------------------------------------------
  // The sort order

  lemma PrecedesIrreflexive(a: HistoryEntry)
    ensures !Precedes(a, a)
  {
    LexLessIrreflexive(a.date);
    LexLessIrreflexive(a.firstName);
    LexLessIrreflexive(a.lastName);
  }

  lemma PrecedesTransitive(a: HistoryEntry, b: HistoryEntry, c: HistoryEntry)
    ensures Precedes(a, b) && Precedes(b, c) ==> Precedes(a, c)
  {
    if LexLess(c.date, b.date) && LexLess(b.date, a.date) {
      LexLessTransitive(c.date, b.date, a.date);
    }
    if LexLess(a.firstName, b.firstName) && LexLess(b.firstName, c.firstName) {
      LexLessTransitive(a.firstName, b.firstName, c.firstName);
    }
    if LexLess(a.lastName, b.lastName) && LexLess(b.lastName, c.lastName) {
      LexLessTransitive(a.lastName, b.lastName, c.lastName);
    }
  }

  /** The order is total up to the sort key. */
  lemma PrecedesTotal(a: HistoryEntry, b: HistoryEntry)
    ensures SameKey(a, b) || Precedes(a, b) || Precedes(b, a)
  {
    if a.date != b.date {
      LexLessTotal(a.date, b.date);
    } else if a.firstName != b.firstName {
      LexLessTotal(a.firstName, b.firstName);
    } else if a.lastName != b.lastName {
      LexLessTotal(a.lastName, b.lastName);
    }
  }

  // ---------------------------------------------------------------------
  // Sorting

  lemma ConsSorted(x: HistoryEntry, t: seq<HistoryEntry>)
    requires Sorted(t)
    requires forall y :: y in t ==> !Precedes(y, x)
    ensures Sorted([x] + t)
  {
    var r := [x] + t;
    forall i, j | 0 <= i < j < |r|
      ensures !Precedes(r[j], r[i])
    {
      assert r[j] == t[j - 1];
      if i > 0 {
        assert r[i] == t[i - 1];
      }
    }
  }

  /** Placing `e` before a sorted `s` whose head it precedes keeps it sorted. */
  lemma InsertAtHead(e: HistoryEntry, s: seq<HistoryEntry>)
    requires Sorted(s) && s != [] && Precedes(e, s[0])
    ensures Sorted([e] + s)
  {
    forall y | y in s
      ensures !Precedes(y, e)
    {
      var j :| 0 <= j < |s| && s[j] == y;
      PrecedesTransitive(y, e, s[0]);
      PrecedesIrreflexive(s[0]);
    }
    ConsSorted(e, s);
  }

  /** Keeping the head of `s` in front of `t`, a reordering of the rest of `s`
      plus `e`, keeps it sorted when `e` does not precede the head. */
  lemma InsertBehindHead(e: HistoryEntry, s: seq<HistoryEntry>, t: seq<HistoryEntry>)
    requires Sorted(s) && s != [] && !Precedes(e, s[0])
    requires Sorted(t) && multiset(t) == multiset(s[1..]) + multiset{e}
    ensures Sorted([s[0]] + t)
  {
    forall y | y in t
      ensures !Precedes(y, s[0])
    {
      assert y in multiset(t);
      if y != e {
        assert y in multiset(s[1..]);
        var j :| 0 <= j < |s[1..]| && s[1..][j] == y;
        assert s[j + 1] == y;
      }
    }
    ConsSorted(s[0], t);
  }

  lemma SortedTail(s: seq<HistoryEntry>)
    requires Sorted(s) && s != []
    ensures Sorted(s[1..])
  {
    forall i, j | 0 <= i < j < |s[1..]|
      ensures !Precedes(s[1..][j], s[1..][i])
    {
      assert s[1..][j] == s[j + 1] && s[1..][i] == s[i + 1];
    }
  }

  /** Insertion of one entry into a sorted sequence. */
  function Insert(e: HistoryEntry, s: seq<HistoryEntry>): (r: seq<HistoryEntry>)
    requires Sorted(s)
    ensures Sorted(r)
    ensures multiset(r) == multiset(s) + multiset{e}
    decreases |s|
  {
    if s == [] then [e]
    else if Precedes(e, s[0]) then
      InsertAtHead(e, s);
      [e] + s
    else
      SortedTail(s);
      var t := Insert(e, s[1..]);
      InsertBehindHead(e, s, t);
      assert s == [s[0]] + s[1..];
      [s[0]] + t
  }

  /** Sorting by the ORDER BY keys: a sorted reordering of `s`. */
  function Sort(s: seq<HistoryEntry>): (r: seq<HistoryEntry>)
    ensures Sorted(r)
    ensures multiset(r) == multiset(s)
    ensures |r| == |s|
    decreases |s|
  {
    if s == [] then []
    else
      assert s == [s[0]] + s[1..];
      var r := Insert(s[0], Sort(s[1..]));
      assert |multiset(r)| == |r| && |multiset(s)| == |s|;
      r
  }

  /** The rows the history query returns, in order. */
  function SubmissionHistory(table: seq<Row>): (h: seq<HistoryEntry>)
    ensures |h| == HistorySize(|table|)
    ensures Sorted(h)
  {
    var sorted := Sort(Entries(table));
    assert Sorted(sorted[..HistorySize(|table|)]) by {
      forall i, j | 0 <= i < j < HistorySize(|table|)
        ensures !Precedes(sorted[..HistorySize(|table|)][j], sorted[..HistorySize(|table|)][i])
      {
        assert sorted[..HistorySize(|table|)][j] == sorted[j];
        assert sorted[..HistorySize(|table|)][i] == sorted[i];
      }
    }
    sorted[..HistorySize(|table|)]
  }

  // ---------------------------------------------------------------------
  // Properties of the counts

  /** The recursive count is the size of the join: the number of positions in
      the whole table that satisfy the join condition. */
  lemma {:induction false} PriorCountIsJoinSize(table: seq<Row>, firstName: string, lastName: string, date: string)
    ensures PriorCount(table, firstName, lastName, date) == |PriorPositions(table, firstName, lastName, date)|
    decreases |table|
  {
    if table == [] {
      assert PriorPositions(table, firstName, lastName, date) == {};
    } else {
      var last := |table| - 1;
      var prefix := table[..last];
      PriorCountIsJoinSize(prefix, firstName, lastName, date);
      var before := PriorPositions(prefix, firstName, lastName, date);
      var after := PriorPositions(table, firstName, lastName, date);
      forall i | 0 <= i < last
        ensures prefix[i] == table[i]
      {
      }
      if IsPrior(table[last], firstName, lastName, date) {
        assert after == before + {last};
        assert last !in before;
      } else {
        assert after == before;
      }
    }
  }

  /** Appending rows adds their partners to the count. */
  lemma {:induction false} PriorCountAppend(a: seq<Row>, b: seq<Row>, firstName: string, lastName: string, date: string)
    ensures PriorCount(a + b, firstName, lastName, date)
         == PriorCount(a, firstName, lastName, date) + PriorCount(b, firstName, lastName, date)
    decreases |b|
  {
    if b == [] {
      assert a + b == a;
    } else {
      var last := |b| - 1;
      assert (a + b)[..|a + b| - 1] == a + b[..last];
      assert (a + b)[|a + b| - 1] == b[last];
      PriorCountAppend(a, b[..last], firstName, lastName, date);
    }
  }

  /** Taking one row out of the table removes its join, if any, from the count. */
  lemma PriorCountRemove(b: seq<Row>, k: nat, firstName: string, lastName: string, date: string)
    requires k < |b|
    ensures PriorCount(b, firstName, lastName, date)
         == PriorCount(b[..k] + b[k + 1..], firstName, lastName, date)
          + (if IsPrior(b[k], firstName, lastName, date) then 1 else 0)
  {
    assert b == b[..k] + [b[k]] + b[k + 1..];
    PriorCountAppend(b[..k] + [b[k]], b[k + 1..], firstName, lastName, date);
    PriorCountAppend(b[..k], [b[k]], firstName, lastName, date);
    PriorCountAppend(b[..k], b[k + 1..], firstName, lastName, date);
    assert [b[k]][..0] == [];
  }

  lemma RemoveSameElement<T>(a: seq<T>, b: seq<T>, k: nat)
    requires multiset(a) == multiset(b) && a != [] && k < |b| && b[k] == a[0]
    ensures multiset(a[1..]) == multiset(b[..k] + b[k + 1..])
  {
    assert a == [a[0]] + a[1..];
    assert b == b[..k] + [b[k]] + b[k + 1..];
    assert multiset(a[1..]) == multiset(a) - multiset{a[0]};
    assert multiset(b[..k] + b[k + 1..]) == multiset(b) - multiset{b[k]};
  }

  /** A position holding a given element of `b`. */
  lemma PositionOf<T>(x: T, b: seq<T>) returns (k: nat)
    requires x in multiset(b)
    ensures k < |b| && b[k] == x
  {
    assert x in b;
    k :| 0 <= k < |b| && b[k] == x;
  }

  /** Matching one row of `a` with one row of `b` reduces equal counts of
      the remaining rows to equal counts of the whole tables. */
  lemma PriorCountMatched(a: seq<Row>, b: seq<Row>, k: nat, firstName: string, lastName: string, date: string)
    requires a != [] && k < |b| && b[k] == a[0]
    requires PriorCount(a[1..], firstName, lastName, date) == PriorCount(b[..k] + b[k + 1..], firstName, lastName, date)
    ensures PriorCount(a, firstName, lastName, date) == PriorCount(b, firstName, lastName, date)
  {
    PriorCountRemove(a, 0, firstName, lastName, date);
    PriorCountRemove(b, k, firstName, lastName, date);
    assert a[..0] + a[1..] == a[1..];
  }

  /** The count does not depend on the order in which rows were inserted. */
  lemma {:induction false} PriorCountReorder(a: seq<Row>, b: seq<Row>, firstName: string, lastName: string, date: string)
    requires multiset(a) == multiset(b)
    ensures PriorCount(a, firstName, lastName, date) == PriorCount(b, firstName, lastName, date)
    decreases |a|
  {
    if a == [] {
      assert |b| == |multiset(b)| == 0;
    } else {
      assert a[0] in multiset(a);
      var k := PositionOf(a[0], b);
      RemoveSameElement(a, b, k);
      PriorCountReorder(a[1..], b[..k] + b[k + 1..], firstName, lastName, date);
      PriorCountMatched(a, b, k, firstName, lastName, date);
    }
  }

  /** A row never joins itself, so a stored row's count is below the table size. */
  lemma {:induction false} PriorCountBelowTableSize(table: seq<Row>, k: nat)
    requires k < |table|
    ensures EntryOf(table, table[k]).count < |table|
    decreases |table|
  {
    var r := table[k];
    var last := |table| - 1;
    if k == last {
      LexLessIrreflexive(r.date);
      PriorCountAtMost(table[..last], r.firstName, r.lastName, r.date);
    } else {
      assert table[..last][k] == r;
      PriorCountBelowTableSize(table[..last], k);
    }
  }

  lemma {:induction false} PriorCountAtMost(table: seq<Row>, firstName: string, lastName: string, date: string)
    ensures PriorCount(table, firstName, lastName, date) <= |table|
    decreases |table|
  {
    if table != [] {
      PriorCountAtMost(table[..|table| - 1], firstName, lastName, date);
    }
  }

  /** The count is zero exactly when no row of the table joins: in particular
      the earliest-dated submission of a person counts 0. */
  lemma {:induction false} PriorCountZero(table: seq<Row>, firstName: string, lastName: string, date: string)
    ensures PriorCount(table, firstName, lastName, date) == 0
        <==> forall i :: 0 <= i < |table| ==> !IsPrior(table[i], firstName, lastName, date)
    decreases |table|
  {
    if table != [] {
      var last := |table| - 1;
      PriorCountZero(table[..last], firstName, lastName, date);
      forall i | 0 <= i < last
        ensures table[..last][i] == table[i]
      {
      }
    }
  }

  // ---------------------------------------------------------------------
  // Properties of the history view

  /** Every emitted entry is the projection of a distinct stored row, with
      its count taken over the whole table. */
  lemma HistoryFromRows(table: seq<Row>)
    ensures multiset(SubmissionHistory(table)) <= multiset(Entries(table))
    ensures forall e :: e in SubmissionHistory(table) ==> exists k :: 0 <= k < |table| && e == EntryOf(table, table[k])
  {
    var sorted := Sort(Entries(table));
    var n := HistorySize(|table|);
    assert sorted == sorted[..n] + sorted[n..];
    assert multiset(sorted) == multiset(sorted[..n]) + multiset(sorted[n..]);
    forall e | e in SubmissionHistory(table)
      ensures exists k :: 0 <= k < |table| && e == EntryOf(table, table[k])
    {
      assert e in multiset(Entries(table));
      var k :| 0 <= k < |table| && Entries(table)[k] == e;
    }
  }

  /** What a sorted sequence keeps beyond its first `n` elements sorts at or
      after each of them. */
  lemma SortedRemainder(sorted: seq<HistoryEntry>, n: nat)
    requires Sorted(sorted) && n <= |sorted|
    ensures forall e, x :: e in multiset(sorted) - multiset(sorted[..n]) && x in sorted[..n] ==> !Precedes(e, x)
  {
    assert sorted == sorted[..n] + sorted[n..];
    assert multiset(sorted) - multiset(sorted[..n]) == multiset(sorted[n..]);
    forall e, x | e in multiset(sorted[n..]) && x in sorted[..n]
      ensures !Precedes(e, x)
    {
      assert e in sorted[n..];
      var j :| 0 <= j < |sorted[n..]| && sorted[n..][j] == e;
      var i :| 0 <= i < n && sorted[..n][i] == x;
      assert sorted[n + j] == e && sorted[i] == x;
    }
  }

  /** Every stored row left out by the LIMIT sorts at or after every emitted entry. */
  lemma HistoryOmitted(table: seq<Row>)
    ensures forall e, x :: e in multiset(Entries(table)) - multiset(SubmissionHistory(table)) && x in SubmissionHistory(table)
              ==> !Precedes(e, x)
  {
    var sorted := Sort(Entries(table));
    assert SubmissionHistory(table) == sorted[..HistorySize(|table|)];
    SortedRemainder(sorted, HistorySize(|table|));
  }

  /** Below the LIMIT nothing is cut: a table of at most ten rows has every
      one of its entries listed. */
  lemma SmallTableListedInFull(table: seq<Row>)
    requires |table| <= HISTORY_LIMIT
    ensures multiset(SubmissionHistory(table)) == multiset(Entries(table))
    ensures forall k :: 0 <= k < |table| ==> EntryOf(table, table[k]) in SubmissionHistory(table)
  {
    var sorted := Sort(Entries(table));
    assert sorted[..|sorted|] == sorted;
    assert SubmissionHistory(table) == sorted;
    forall k | 0 <= k < |table|
      ensures EntryOf(table, table[k]) in SubmissionHistory(table)
    {
      assert Entries(table)[k] == EntryOf(table, table[k]);
      assert EntryOf(table, table[k]) in multiset(Entries(table));
    }
  }

  /** Two sorted reorderings of the same entries are equal when the sort key
      determines the entry. */
  lemma {:induction false} SortedUnique(s: seq<HistoryEntry>, t: seq<HistoryEntry>)
    requires Sorted(s) && Sorted(t)
    requires multiset(s) == multiset(t)
    requires KeyDetermined(multiset(s))
    ensures s == t
    decreases |s|
  {
    if s == [] {
      assert |t| == |multiset(t)| == 0;
    } else {
      assert |t| == |multiset(t)| == |s|;
      SortedHeadsEqual(s, t);
      SameHeadTails(s, t);
      SortedTail(s);
      SortedTail(t);
      KeyDeterminedTail(s);
      SortedUnique(s[1..], t[1..]);
    }
  }

  /** Equal heads leave equal multisets behind. */
  lemma SameHeadTails(s: seq<HistoryEntry>, t: seq<HistoryEntry>)
    requires s != [] && t != [] && s[0] == t[0]
    requires multiset(s) == multiset(t)
    ensures multiset(s[1..]) == multiset(t[1..])
  {
    assert s == [s[0]] + s[1..] && t == [t[0]] + t[1..];
    assert multiset(s[1..]) == multiset(s) - multiset{s[0]};
    assert multiset(t[1..]) == multiset(t) - multiset{t[0]};
  }

  /** The key still determines the entry after the head is dropped. */
  lemma KeyDeterminedTail(s: seq<HistoryEntry>)
    requires s != [] && KeyDetermined(multiset(s))
    ensures KeyDetermined(multiset(s[1..]))
  {
    assert s == [s[0]] + s[1..];
    assert multiset(s[1..]) <= multiset(s);
  }

  /** The heads of two sorted reorderings of the same entries are equal when
      the sort key determines the entry. */
  lemma SortedHeadsEqual(s: seq<HistoryEntry>, t: seq<HistoryEntry>)
    requires Sorted(s) && Sorted(t) && s != [] && t != []
    requires multiset(s) == multiset(t)
    requires KeyDetermined(multiset(s))
    ensures s[0] == t[0]
  {
    assert s[0] in multiset(t) && t[0] in multiset(s);
    var j :| 0 <= j < |t| && t[j] == s[0];
    var i :| 0 <= i < |s| && s[i] == t[0];
    PrecedesIrreflexive(s[0]);
    PrecedesIrreflexive(t[0]);
    assert !Precedes(s[0], t[0]) by {
      if j > 0 {
        assert !Precedes(t[j], t[0]);
      }
    }
    assert !Precedes(t[0], s[0]) by {
      if i > 0 {
        assert !Precedes(s[i], s[0]);
      }
    }
    PrecedesTotal(s[0], t[0]);
  }

  /** Stored rows with the same date and names get the same count. */
  lemma EntriesKeyDetermined(table: seq<Row>)
    ensures KeyDetermined(multiset(Entries(table)))
  {
    forall x, y | x in multiset(Entries(table)) && y in multiset(Entries(table)) && SameKey(x, y)
      ensures x == y
    {
      var i :| 0 <= i < |table| && Entries(table)[i] == x;
      var j :| 0 <= j < |table| && Entries(table)[j] == y;
    }
  }

  /** SQL leaves the relative order of rows with equal sort keys open; any
      such order gives the same ten entries, so the answer is determined. */
  lemma HistoryUnique(table: seq<Row>, s: seq<HistoryEntry>)
    requires Sorted(s)
    requires multiset(s) == multiset(Entries(table))
    ensures |s| == |table|
    ensures s[..HistorySize(|s|)] == SubmissionHistory(table)
  {
    assert |s| == |multiset(s)| == |Entries(table)|;
    EntriesKeyDetermined(table);
    SortedUnique(s, Sort(Entries(table)));
  }

  /** A table of one row: that row, counting 0. */
  lemma SingleRowHistory(row: Row)
    ensures SubmissionHistory([row]) == [HistoryEntry(row.date, row.firstName, row.lastName, 0)]
  {
    var entry := HistoryEntry(row.date, row.firstName, row.lastName, 0);
    assert EntryOf([row], row) == entry by {
      var t := [row];
      LexLessIrreflexive(row.date);
      assert !IsPrior(t[0], row.firstName, row.lastName, row.date);
      assert t[..0] == [];
      assert PriorCount(t, row.firstName, row.lastName, row.date)
          == PriorCount(t[..0], row.firstName, row.lastName, row.date);
    }
    assert Entries([row]) == [entry];
    HistoryUnique([row], [entry]);
  }
}
