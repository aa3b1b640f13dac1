/**
 The append-only journal and the snapshot an uncached read takes of one corpus:
 the current payload and first position of every shard subject, in first-commit
 order, and the history of shard revisions.
 */
module Journal {
  import opened Sequences
  import opened Sorting

  type Corpus = string
  type Subject = string
  type Payload = string

  datatype Kind = ShardRow | GovernanceRow

  /** A committed row. Positions are contiguous from 0 per corpus, so a row's position is its index. */
  datatype Row = Row(opId: string, kind: Kind, subject: Subject, payload: Payload)

  datatype Entry = Entry(subject: Subject, payload: Payload, first: nat)

  datatype Revision = Revision(position: nat, subject: Subject, opId: string, payload: Payload)

  datatype Snapshot = Snapshot(corpus: Corpus, entries: seq<Entry>, revisions: seq<Revision>, head: nat)

  // What the query promises.

  ghost predicate ShardAt(rows: seq<Row>, i: int, subject: Subject) {
    0 <= i < |rows| && rows[i].kind == ShardRow && rows[i].subject == subject
  }

  /** The subject's first committed row, `MIN(position)`. */
  ghost predicate FirstRow(rows: seq<Row>, subject: Subject, i: int) {
    ShardAt(rows, i, subject) && forall j :: ShardAt(rows, j, subject) ==> i <= j
  }

  /** The subject's latest committed row, `MAX(position)`. */
  ghost predicate LastRow(rows: seq<Row>, subject: Subject, i: int) {
    ShardAt(rows, i, subject) && forall j :: ShardAt(rows, j, subject) ==> j <= i
  }

  ghost predicate EntryExact(rows: seq<Row>, e: Entry) {
    FirstRow(rows, e.subject, e.first) && exists i :: LastRow(rows, e.subject, i) && rows[i].payload == e.payload
  }

  /** One entry per shard subject: its latest payload and its first position; ascending first positions. */
  ghost predicate CurrentExact(rows: seq<Row>, entries: seq<Entry>) {
    && (forall k :: 0 <= k < |entries| ==> EntryExact(rows, entries[k]))
    && (forall s, i {:trigger ShardAt(rows, i, s)} :: ShardAt(rows, i, s) ==> HasEntry(entries, s))
    && (forall k, l :: 0 <= k < l < |entries| ==> entries[k].first < entries[l].first)
  }

  ghost predicate HasEntry(entries: seq<Entry>, s: Subject) {
    exists k :: 0 <= k < |entries| && entries[k].subject == s
  }

  // The same, one committed row at a time.

  function Replace(entries: seq<Entry>, subject: Subject, payload: Payload): (r: seq<Entry>)
    ensures |r| == |entries|
    ensures forall k :: 0 <= k < |r| ==>
      r[k] == if entries[k].subject == subject then entries[k].(payload := payload) else entries[k]
  {
    seq(|entries|, k requires 0 <= k < |entries| =>
      if entries[k].subject == subject then entries[k].(payload := payload) else entries[k])
  }

  /** A revision of a known shard replaces its payload in place; a new shard joins at the end. */
  function Commit(entries: seq<Entry>, position: nat, row: Row): seq<Entry> {
    if row.kind != ShardRow then entries
    else if exists k :: 0 <= k < |entries| && entries[k].subject == row.subject
    then Replace(entries, row.subject, row.payload)
    else entries + [Entry(row.subject, row.payload, position)]
  }

  function Current(rows: seq<Row>): seq<Entry> {
    if rows == [] then [] else Commit(Current(rows[..|rows| - 1]), |rows| - 1, rows[|rows| - 1])
  }

  function Revisions(rows: seq<Row>): seq<Revision> {
    if rows == [] then []
    else
      var n, last := |rows| - 1, rows[|rows| - 1];
      Revisions(rows[..n]) + if last.kind == ShardRow then [Revision(n, last.subject, last.opId, last.payload)] else []
  }

  /** `_read_rows` over all committed rows of the corpus. */
  function ReadRows(corpus: Corpus, rows: seq<Row>): Snapshot
    requires rows != []
  {
    Snapshot(corpus, Current(rows), Revisions(rows), |rows| - 1)
  }

  lemma ShardRows(rows: seq<Row>)
    requires rows != []
    ensures forall s, i :: ShardAt(rows, i, s) <==>
      ShardAt(rows[..|rows| - 1], i, s) || (i == |rows| - 1 && rows[i].kind == ShardRow && rows[i].subject == s)
  {
  }

  /** A commit leaves the entry of every other subject exact. */
  lemma OtherEntriesKeep(rows: seq<Row>, e: Entry)
    requires rows != [] && EntryExact(rows[..|rows| - 1], e)
    requires rows[|rows| - 1].kind == ShardRow ==> rows[|rows| - 1].subject != e.subject
    ensures EntryExact(rows, e)
  {
    ShardRows(rows);
    var i :| LastRow(rows[..|rows| - 1], e.subject, i) && rows[i].payload == e.payload;
    assert LastRow(rows, e.subject, i);
  }

  /** A revision makes the subject's entry carry the new payload. */
  lemma RevisedEntryExact(rows: seq<Row>, e: Entry)
    requires rows != [] && EntryExact(rows[..|rows| - 1], e)
    requires rows[|rows| - 1].kind == ShardRow && rows[|rows| - 1].subject == e.subject
    ensures EntryExact(rows, e.(payload := rows[|rows| - 1].payload))
  {
    ShardRows(rows);
    var n := |rows| - 1;
    assert ShardAt(rows, n, e.subject);
    assert LastRow(rows, e.subject, n);
  }

  lemma NewEntryExact(rows: seq<Row>, entries: seq<Entry>)
    requires rows != [] && CurrentExact(rows[..|rows| - 1], entries)
    requires rows[|rows| - 1].kind == ShardRow && !HasEntry(entries, rows[|rows| - 1].subject)
    ensures var last := rows[|rows| - 1]; EntryExact(rows, Entry(last.subject, last.payload, |rows| - 1))
  {
    ShardRows(rows);
    var n, last := |rows| - 1, rows[|rows| - 1];
    forall j | ShardAt(rows, j, last.subject)
      ensures j == n
    {
      assert !ShardAt(rows[..n], j, last.subject);
    }
    assert LastRow(rows, last.subject, n);
  }

  /** The incremental form computes what the query promises. */
  lemma {:induction false} CurrentIsExact(rows: seq<Row>)
    ensures CurrentExact(rows, Current(rows))
  {
    if rows != [] {
      var n, last := |rows| - 1, rows[|rows| - 1];
      var before, now := Current(rows[..n]), Current(rows);
      CurrentIsExact(rows[..n]);
      ShardRows(rows);
      var known := HasEntry(before, last.subject);
      forall k | 0 <= k < |now|
        ensures EntryExact(rows, now[k])
      {
        if k < |before| {
          assert EntryExact(rows[..n], before[k]);
          if last.kind == ShardRow && before[k].subject == last.subject {
            RevisedEntryExact(rows, before[k]);
          } else {
            OtherEntriesKeep(rows, before[k]);
          }
        } else {
          NewEntryExact(rows, before);
        }
      }
      forall s, i | ShardAt(rows, i, s)
        ensures HasEntry(now, s)
      {
        CommitCovers(before, n, last, s);
        assert ShardAt(rows[..n], i, s) ==> HasEntry(before, s);
      }
      forall k, l | 0 <= k < l < |now|
        ensures now[k].first < now[l].first
      {
        assert EntryExact(rows[..n], before[k]);
      }
    }
  }

  lemma CommitCovers(entries: seq<Entry>, position: nat, row: Row, s: Subject)
    ensures HasEntry(entries, s) || (row.kind == ShardRow && row.subject == s) ==> HasEntry(Commit(entries, position, row), s)
  {
    var now := Commit(entries, position, row);
    if HasEntry(entries, s) {
      var k :| 0 <= k < |entries| && entries[k].subject == s;
      assert now[k].subject == s;
    } else if row.kind == ShardRow && row.subject == s {
      assert now[|entries|].subject == s;
    }
  }

  /** The query's promise has one answer, so any evaluation of it agrees with `Current`. */
  lemma CurrentIsUnique(rows: seq<Row>, a: seq<Entry>)
    requires CurrentExact(rows, a)
    ensures a == Current(rows)
  {
    CurrentIsExact(rows);
    SameEntries(rows, a, Current(rows));
  }

  lemma EntryDetermined(rows: seq<Row>, d: Entry, e: Entry)
    requires EntryExact(rows, d) && EntryExact(rows, e) && (d.subject == e.subject || d.first == e.first)
    ensures d == e
  {
  }

  lemma HasExactEntry(rows: seq<Row>, a: seq<Entry>, e: Entry) returns (k: nat)
    requires CurrentExact(rows, a) && EntryExact(rows, e)
    ensures k < |a| && a[k] == e
  {
    assert ShardAt(rows, e.first, e.subject);
    assert HasEntry(a, e.subject);
    k :| 0 <= k < |a| && a[k].subject == e.subject;
    EntryDetermined(rows, a[k], e);
  }

  lemma SameEntries(rows: seq<Row>, a: seq<Entry>, b: seq<Entry>)
    requires CurrentExact(rows, a) && CurrentExact(rows, b)
    ensures a == b
  {
    forall e
      ensures e in a <==> e in b
    {
      if e in a {
        var k := HasExactEntry(rows, b, e);
      }
      if e in b {
        var k := HasExactEntry(rows, a, e);
      }
    }
    forall d, e | d in a && e in a && d.first == e.first
      ensures d == e
    {
      EntryDetermined(rows, d, e);
    }
    NoDupMultiset(a, b);
    SortedIsUnique(a, b, (d: Entry, e: Entry) => d.first <= e.first);
  }

  ghost predicate RevisionExact(rows: seq<Row>, r: Revision) {
    ShardAt(rows, r.position, r.subject) && rows[r.position].opId == r.opId && rows[r.position].payload == r.payload
  }

  /** Every shard row of the corpus once, in commit order. */
  ghost predicate HistoryExact(rows: seq<Row>, h: seq<Revision>) {
    && (forall k, l :: 0 <= k < l < |h| ==> h[k].position < h[l].position)
    && (forall r :: r in h <==> RevisionExact(rows, r))
  }

  /** `s` is what these committed rows of the corpus amount to. */
  ghost predicate SnapshotOf(corpus: Corpus, rows: seq<Row>, s: Snapshot) {
    s.corpus == corpus && s.head == |rows| - 1 && CurrentExact(rows, s.entries) && HistoryExact(rows, s.revisions)
  }

  lemma ReadRowsExact(corpus: Corpus, rows: seq<Row>)
    requires rows != []
    ensures SnapshotOf(corpus, rows, ReadRows(corpus, rows))
  {
    CurrentIsExact(rows);
    RevisionsExact(rows);
  }

  lemma HistoryIsUnique(rows: seq<Row>, a: seq<Revision>, b: seq<Revision>)
    requires HistoryExact(rows, a) && HistoryExact(rows, b)
    ensures a == b
  {
    forall r
      ensures r in a <==> r in b
    {
    }
    forall r, q | r in a && q in a && r.position == q.position
      ensures r == q
    {
      assert RevisionExact(rows, r) && RevisionExact(rows, q);
    }
    NoDupMultiset(a, b);
    SortedIsUnique(a, b, (r: Revision, q: Revision) => r.position <= q.position);
  }

  /** Rows amount to one snapshot. */
  lemma SnapshotIsUnique(corpus: Corpus, rows: seq<Row>, a: Snapshot, b: Snapshot)
    requires SnapshotOf(corpus, rows, a) && SnapshotOf(corpus, rows, b)
    ensures a == b
  {
    SameEntries(rows, a.entries, b.entries);
    HistoryIsUnique(rows, a.revisions, b.revisions);
  }

  /** The history holds every shard row of the corpus once, in commit order. */
  lemma {:induction false} RevisionsExact(rows: seq<Row>)
    ensures HistoryExact(rows, Revisions(rows))
  {
    if rows != [] {
      var n, last := |rows| - 1, rows[|rows| - 1];
      RevisionsExact(rows[..n]);
      var h, before := Revisions(rows), Revisions(rows[..n]);
      forall r
        ensures r in h <==> RevisionExact(rows, r)
      {
        assert r in before <==> RevisionExact(rows[..n], r);
        assert RevisionExact(rows[..n], r) <==> RevisionExact(rows, r) && r.position < n;
      }
      forall k | 0 <= k < |before|
        ensures before[k].position < n
      {
        assert before[k] in before;
        assert RevisionExact(rows[..n], before[k]);
      }
    }
  }
}
