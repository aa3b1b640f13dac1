/**
 `cached_corpus_snapshot`: a bounded cache of corpus snapshots shared by
 threads, over journals that other writers append to at any moment.
 */
module SnapshotCache {
  import opened Sequences
  import opened OrderedCache
  import opened Journal

  type Path = string
  type Thread = nat

  /** A journal file: its identity, its schema version, and the committed rows of every corpus. */
  datatype File = File(device: nat, inode: nat, version: Option<string>, rows: map<Corpus, seq<Row>>)

  type Disk = map<Path, File>

  const JOURNAL_SCHEMA_VERSION := "1"
  const SNAPSHOT_CACHE_SIZE: nat := 4

  datatype Head = Head(journal: Path, device: nat, inode: nat, corpus: Corpus, position: nat, opId: string)

  datatype ReadError = UnknownCorpus | UnsupportedSchema

  function RowsOf(file: File, corpus: Corpus): seq<Row> {
    if corpus in file.rows then file.rows[corpus] else []
  }

  /** `_read_head` inside the open read transaction. */
  function ReadHead(disk: Disk, journal: Path, corpus: Corpus): Result<Head, ReadError> {
    if journal !in disk then Err(UnknownCorpus)
    else
      var file := disk[journal];
      var rows := RowsOf(file, corpus);
      if file.version.Some? && file.version.value != JOURNAL_SCHEMA_VERSION then Err(UnsupportedSchema)
      else if rows == [] then Err(UnknownCorpus)
      else Ok(Head(journal, file.device, file.inode, corpus, |rows| - 1, rows[|rows| - 1].opId))
  }

  /** `_read` without a cache. */
  function ReadUncached(disk: Disk, journal: Path, corpus: Corpus): (r: Result<(Head, Snapshot), ReadError>) {
    match ReadHead(disk, journal, corpus)
    case Err(e) => Err(e)
    case Ok(head) => Ok((head, ReadRows(corpus, RowsOf(disk[journal], corpus))))
  }

  /** `_read` with the caller's view of the cache: a known head skips the rows. */
  function ReadThrough(disk: Disk, journal: Path, corpus: Corpus, view: map<Head, Snapshot>): Result<(Head, Snapshot), ReadError> {
    match ReadHead(disk, journal, corpus)
    case Err(e) => Err(e)
    case Ok(head) =>
      if head in view then Ok((head, view[head])) else Ok((head, ReadRows(corpus, RowsOf(disk[journal], corpus))))
  }

  // The critical section that stores a snapshot.

  predicate Stale(k: Head, head: Head) {
    k.corpus == head.corpus && k.journal == head.journal && k != head
  }

  function DropStale(c: Cache<Head, Snapshot>, keys: seq<Head>, head: Head): Cache<Head, Snapshot> {
    if keys == [] then c
    else
      var d := DropStale(c, keys[..|keys| - 1], head);
      if Stale(keys[|keys| - 1], head) then Remove(d, keys[|keys| - 1]) else d
  }

  function Stored(c: Cache<Head, Snapshot>, head: Head, snapshot: Snapshot): Cache<Head, Snapshot> {
    Put(DropStale(c, c.order, head), head, snapshot, SNAPSHOT_CACHE_SIZE)
  }

  /** The second locked section: stale heads out, this head in and newest, oldest out while over the bound. */
  method Store(cache: Dict<Head, Snapshot>, head: Head, snapshot: Snapshot)
    modifies cache
    ensures cache.Contents() == Stored(old(cache.Contents()), head, snapshot)
  {
    var keys := cache.order;
    for i := 0 to |keys|
      invariant cache.Contents() == DropStale(old(cache.Contents()), keys[..i], head)
    {
      assert keys[..i + 1][..i] == keys[..i];
      if Stale(keys[i], head) {
        cache.Discard(keys[i]);
      }
    }
    assert keys[..|keys|] == keys;
    cache.PutNewest(head, snapshot, SNAPSHOT_CACHE_SIZE);
  }

  /** The journal names a schema version, and not the supported one. */
  ghost predicate OtherVersion(disk: Disk, journal: Path) {
    journal in disk && disk[journal].version.Some? && disk[journal].version != Some("1")
  }

  /** `rows` are the committed rows of the corpus, at least one. */
  ghost predicate Committed(disk: Disk, journal: Path, corpus: Corpus, rows: seq<Row>) {
    journal in disk && corpus in disk[journal].rows && disk[journal].rows[corpus] == rows && rows != []
  }

  /**
   The answer of a read: the snapshot of the committed rows and the head that names the last of them; or the
   refusal of a journal of another version, or of a corpus without rows.
   */
  ghost predicate AnswersRead(disk: Disk, journal: Path, corpus: Corpus, r: Result<(Head, Snapshot), ReadError>) {
    && (r == Err(UnsupportedSchema) <==> OtherVersion(disk, journal))
    && (r == Err(UnknownCorpus) <==> !OtherVersion(disk, journal) && !exists rows :: Committed(disk, journal, corpus, rows))
    && (r.Ok? ==> exists rows :: Committed(disk, journal, corpus, rows) && SnapshotOf(corpus, rows, r.value.1)
                                   && HeadOf(disk, journal, corpus, rows, r.value.0))
  }

  ghost predicate HeadOf(disk: Disk, journal: Path, corpus: Corpus, rows: seq<Row>, head: Head)
    requires journal in disk && rows != []
  {
    && head.journal == journal && head.device == disk[journal].device && head.inode == disk[journal].inode
    && head.corpus == corpus && head.position == |rows| - 1 && head.opId == rows[|rows| - 1].opId
  }

  /** What is committed is what `RowsOf` finds, when it finds any. */
  lemma CommittedRows(disk: Disk, journal: Path, corpus: Corpus)
    ensures forall rows :: Committed(disk, journal, corpus, rows) <==>
      journal in disk && rows == RowsOf(disk[journal], corpus) && rows != []
  {
  }

  /** An uncached read answers. */
  lemma UncachedAnswers(disk: Disk, journal: Path, corpus: Corpus)
    ensures AnswersRead(disk, journal, corpus, ReadUncached(disk, journal, corpus))
  {
    CommittedRows(disk, journal, corpus);
    if journal in disk {
      var rows := RowsOf(disk[journal], corpus);
      assert Committed(disk, journal, corpus, rows) <==> rows != [];
      if rows != [] {
        ReadRowsExact(corpus, rows);
      }
    }
  }

  lemma ErrorIsOne<T>(r: Result<T, ReadError>)
    ensures r.Err? ==> r == Err(UnknownCorpus) || r == Err(UnsupportedSchema)
  {
    if r.Err? {
      match r.error
      case UnknownCorpus =>
      case UnsupportedSchema =>
    }
  }

  /** There is one answer. */
  lemma OneAnswer(disk: Disk, journal: Path, corpus: Corpus, a: Result<(Head, Snapshot), ReadError>, b: Result<(Head, Snapshot), ReadError>)
    requires AnswersRead(disk, journal, corpus, a) && AnswersRead(disk, journal, corpus, b)
    ensures a == b
  {
    CommittedRows(disk, journal, corpus);
    if a.Ok? && b.Ok? {
      var rows := RowsOf(disk[journal], corpus);
      SnapshotIsUnique(corpus, rows, a.value.1, b.value.1);
      assert a.value.0 == b.value.0;
    } else {
      ErrorIsOne(a);
      ErrorIsOne(b);
    }
  }

  ghost predicate NewestHolds(c: Cache<Head, Snapshot>, head: Head, snapshot: Snapshot) {
    c.order != [] && c.order[|c.order| - 1] == head && head in c.entries && c.entries[head] == snapshot
  }

  /** One call with no other thread in between; `Run` below interleaves them. */
  method CachedSnapshot(cache: Dict<Head, Snapshot>, disk: Disk, journal: Path, corpus: Corpus) returns (r: Result<Snapshot, ReadError>)
    requires CacheSound(disk, cache.Contents())
    modifies cache
    ensures r == Err(UnsupportedSchema) <==> OtherVersion(disk, journal)
    ensures r == Err(UnknownCorpus) <==> !OtherVersion(disk, journal) && !exists rows :: Committed(disk, journal, corpus, rows)
    ensures r.Ok? ==> exists rows :: Committed(disk, journal, corpus, rows) && SnapshotOf(corpus, rows, r.value)
    ensures CacheSound(disk, cache.Contents())
    ensures r.Ok? ==> exists head :: NewestHolds(cache.Contents(), head, r.value) && head.journal == journal && head.corpus == corpus
    ensures r.Err? ==> cache.Contents() == old(cache.Contents())
  {
    var view := cache.entries;
    HitIsCurrent(disk, journal, corpus, view);
    UncachedAnswers(disk, journal, corpus);
    match ReadThrough(disk, journal, corpus, view) {
      case Err(e) => r := Err(e);
      case Ok(answer) =>
        StoredSound(disk, cache.Contents(), answer.0, answer.1);
        Store(cache, answer.0, answer.1);
        r := Ok(answer.1);
        assert NewestHolds(cache.Contents(), answer.0, answer.1);
    }
  }

  // What a cached snapshot is worth.

  /** The head names a row still on disk, and the snapshot is what the rows up to it amount to. */
  ghost predicate Trusted(disk: Disk, head: Head, snapshot: Snapshot) {
    && head.journal in disk
    && var file := disk[head.journal];
    && file.device == head.device && file.inode == head.inode
    && head.corpus in file.rows
    && var rows := file.rows[head.corpus];
    && head.position < |rows| && rows[head.position].opId == head.opId
    && SnapshotOf(head.corpus, rows[..head.position + 1], snapshot)
  }

  ghost predicate AllTrusted(disk: Disk, entries: map<Head, Snapshot>) {
    forall k :: k in entries ==> Trusted(disk, k, entries[k])
  }

  /** Never two heads of one (journal, corpus). */
  ghost predicate OneHead(entries: map<Head, Snapshot>) {
    forall j, k :: j in entries && k in entries && j.journal == k.journal && j.corpus == k.corpus ==> j == k
  }

  ghost predicate CacheSound(disk: Disk, c: Cache<Head, Snapshot>) {
    Valid(c) && |c.order| <= SNAPSHOT_CACHE_SIZE && OneHead(c.entries) && AllTrusted(disk, c.entries)
  }

  /** A head that is current pins the rows, so a hit returns what an uncached read would. */
  lemma HitIsCurrent(disk: Disk, journal: Path, corpus: Corpus, view: map<Head, Snapshot>)
    requires AllTrusted(disk, view)
    ensures ReadThrough(disk, journal, corpus, view) == ReadUncached(disk, journal, corpus)
    ensures match ReadThrough(disk, journal, corpus, view) case Ok(answer) => Trusted(disk, answer.0, answer.1) case Err(_) => true
  {
    match ReadHead(disk, journal, corpus)
    case Err(_) =>
    case Ok(head) =>
      var rows := RowsOf(disk[journal], corpus);
      assert rows[..|rows|] == rows;
      ReadRowsExact(corpus, rows);
      if head in view {
        assert Trusted(disk, head, view[head]);
        SnapshotIsUnique(corpus, rows, view[head], ReadRows(corpus, rows));
      }
  }

  lemma {:induction false} DropStaleEffect(c: Cache<Head, Snapshot>, keys: seq<Head>, head: Head)
    requires Valid(c)
    ensures var d := DropStale(c, keys, head);
      && Valid(d) && |d.order| <= |c.order|
      && InOrder(d.order, c.order)
      && (forall k :: k in d.entries <==> k in c.entries && !(k in keys && Stale(k, head)))
      && (forall k :: k in d.entries ==> d.entries[k] == c.entries[k])
  {
    if keys == [] {
      InOrderAll(c.order);
    } else {
      var front, last := keys[..|keys| - 1], keys[|keys| - 1];
      DropStaleEffect(c, front, head);
      var d := DropStale(c, front, head);
      RemoveValid(d, last);
      WithoutInOrder(d.order, last);
      InOrderThrough(Without(d.order, last), d.order, c.order);
      assert keys == front + [last];
    }
  }

  /** Dropping leaves a sound cache with no other head of this journal and corpus. */
  lemma DroppedSound(disk: Disk, c: Cache<Head, Snapshot>, head: Head)
    requires CacheSound(disk, c)
    ensures CacheSound(disk, DropStale(c, c.order, head))
    ensures forall k :: k in DropStale(c, c.order, head).entries ==> !Stale(k, head)
  {
    DropStaleEffect(c, c.order, head);
  }

  lemma PutSound(disk: Disk, d: Cache<Head, Snapshot>, head: Head, snapshot: Snapshot)
    requires CacheSound(disk, d) && Trusted(disk, head, snapshot)
    requires forall k :: k in d.entries ==> !Stale(k, head)
    ensures CacheSound(disk, Put(d, head, snapshot, SNAPSHOT_CACHE_SIZE))
  {
    PutStores(d, head, snapshot, SNAPSHOT_CACHE_SIZE);
    var p := Put(d, head, snapshot, SNAPSHOT_CACHE_SIZE);
    forall j, k | j in p.entries && k in p.entries
      ensures !Stale(j, k)
    {
    }
  }

  ghost predicate SamePlace(k: Head, head: Head) {
    k.journal == head.journal && k.corpus == head.corpus
  }

  /**
   Storing replaces every head of this journal and corpus by the new one, as the newest, and drops only the
   oldest of the others; every entry left keeps its snapshot.
   */
  lemma StoredEffect(c: Cache<Head, Snapshot>, head: Head, snapshot: Snapshot) returns (others: seq<Head>)
    requires Valid(c)
    ensures InOrder(others, c.order) && forall k :: k in others <==> k in c.order && !SamePlace(k, head)
    ensures var s := Stored(c, head, snapshot);
      && Valid(s) && Newest(s.order, others + [head], SNAPSHOT_CACHE_SIZE)
      && head in s.entries && s.entries[head] == snapshot
      && (forall k :: k in s.entries && k != head ==> k in c.entries && s.entries[k] == c.entries[k])
  {
    var d := DropStale(c, c.order, head);
    DropStaleEffect(c, c.order, head);
    PutStores(d, head, snapshot, SNAPSHOT_CACHE_SIZE);
    others := PutEffect(d, head, snapshot, SNAPSHOT_CACHE_SIZE);
    InOrderThrough(others, d.order, c.order);
  }

  lemma StoredSound(disk: Disk, c: Cache<Head, Snapshot>, head: Head, snapshot: Snapshot)
    requires CacheSound(disk, c) && Trusted(disk, head, snapshot)
    ensures CacheSound(disk, Stored(c, head, snapshot))
    ensures NewestHolds(Stored(c, head, snapshot), head, snapshot)
  {
    var d := DropStale(c, c.order, head);
    DroppedSound(disk, c, head);
    PutSound(disk, d, head, snapshot);
    PutStores(d, head, snapshot, SNAPSHOT_CACHE_SIZE);
  }

  // Threads interleaved with writers.

  /** Where a call of `cached_corpus_snapshot` stands between its atomic sections. */
  datatype Call =
    | Viewed(journal: Path, corpus: Corpus, view: map<Head, Snapshot>)
    | HasRead(head: Head, snapshot: Snapshot)

  datatype State = State(disk: Disk, cache: Cache<Head, Snapshot>, calls: map<Thread, Call>)

  datatype Step =
    | Append(journal: Path, inCorpus: Corpus, row: Row)
    | CreateJournal(newJournal: Path, device: nat, inode: nat)
    | SetVersion(ofJournal: Path, version: Option<string>)
    | TakeView(viewer: Thread, fromJournal: Path, ofCorpus: Corpus)
    | Read(reader: Thread)
    | StoreResult(storer: Thread)
    | ClearCache

  const INITIAL := State(map[], Cache([], map[]), map[])

  /** The journals a step leaves behind; only writers change them. */
  function DiskAfter(d: Disk, step: Step): Disk {
    match step
    case Append(j, c, row) =>
      if j in d then d[j := d[j].(rows := d[j].rows[c := RowsOf(d[j], c) + [row]])] else d
    case CreateJournal(j, device, inode) =>
      if j in d then d else d[j := File(device, inode, None, map[])]
    case SetVersion(j, v) =>
      if j in d then d[j := d[j].(version := v)] else d
    case _ => d
  }

  /** One atomic step; a step that is not enabled changes nothing. */
  function After(s: State, step: Step): State {
    match step
    case TakeView(t, j, c) =>
      if t in s.calls then s else s.(calls := s.calls[t := Viewed(j, c, s.cache.entries)])
    case Read(t) =>
      if !(t in s.calls && s.calls[t].Viewed?) then s
      else
        var call := s.calls[t];
        (match ReadThrough(s.disk, call.journal, call.corpus, call.view)
         case Err(_) => s.(calls := s.calls - {t})
         case Ok(answer) => s.(calls := s.calls[t := HasRead(answer.0, answer.1)]))
    case StoreResult(t) =>
      if !(t in s.calls && s.calls[t].HasRead?) then s
      else s.(cache := Stored(s.cache, s.calls[t].head, s.calls[t].snapshot), calls := s.calls - {t})
    case ClearCache => s.(cache := Cache([], map[]))
    case _ => s.(disk := DiskAfter(s.disk, step))
  }

  ghost predicate CallSound(disk: Disk, call: Call) {
    match call
    case Viewed(_, _, view) => AllTrusted(disk, view)
    case HasRead(head, snapshot) => Trusted(disk, head, snapshot)
  }

  ghost predicate Inv(s: State) {
    CacheSound(s.disk, s.cache) && forall t :: t in s.calls ==> CallSound(s.disk, s.calls[t])
  }

  /** Journals only grow, so whatever was trusted stays trusted. */
  lemma TrustSurvives(d: Disk, step: Step, head: Head, snapshot: Snapshot)
    requires Trusted(d, head, snapshot)
    ensures Trusted(DiskAfter(d, step), head, snapshot)
  {
    var rows := RowsOf(d[head.journal], head.corpus);
    if step.Append? {
      assert (rows + [step.row])[..head.position + 1] == rows[..head.position + 1];
    }
  }

  lemma WriterKeepsInv(s: State, step: Step)
    requires Inv(s)
    ensures Inv(s.(disk := DiskAfter(s.disk, step)))
  {
    var d := DiskAfter(s.disk, step);
    forall h, v | Trusted(s.disk, h, v)
      ensures Trusted(d, h, v)
    {
      TrustSurvives(s.disk, step, h, v);
    }
    forall t | t in s.calls
      ensures CallSound(d, s.calls[t])
    {
      assert CallSound(s.disk, s.calls[t]);
    }
  }

  lemma StepKeepsInv(s: State, step: Step)
    requires Inv(s)
    ensures Inv(After(s, step))
  {
    match step
    case TakeView(t, j, c) =>
    case Read(t) =>
      if t in s.calls && s.calls[t].Viewed? {
        assert CallSound(s.disk, s.calls[t]);
        HitIsCurrent(s.disk, s.calls[t].journal, s.calls[t].corpus, s.calls[t].view);
      }
    case StoreResult(t) =>
      if t in s.calls && s.calls[t].HasRead? {
        assert CallSound(s.disk, s.calls[t]);
        StoredSound(s.disk, s.cache, s.calls[t].head, s.calls[t].snapshot);
      }
    case ClearCache =>
    case _ => WriterKeepsInv(s, step);
  }

  function Run(steps: seq<Step>): State {
    if steps == [] then INITIAL else After(Run(steps[..|steps| - 1]), steps[|steps| - 1])
  }

  /** In every run the cache stays bounded, holds one head per (journal, corpus), and can be trusted. */
  lemma {:induction false} EveryRunKeepsInv(steps: seq<Step>)
    ensures Inv(Run(steps))
  {
    if steps != [] {
      EveryRunKeepsInv(steps[..|steps| - 1]);
      StepKeepsInv(Run(steps[..|steps| - 1]), steps[|steps| - 1]);
    }
  }

  /**
   In every run, the read transaction of every call, whatever other threads stored or evicted since
   its view was taken and whatever was committed meanwhile, answers for the rows committed then: it
   raises, or it goes on with their snapshot and their head.
   */
  lemma CachedReadsAgree(steps: seq<Step>, t: Thread) returns (answer: Result<(Head, Snapshot), ReadError>)
    requires var s := Run(steps); t in s.calls && s.calls[t].Viewed?
    ensures var s := Run(steps);
      var call, next := s.calls[t], After(s, Read(t));
      && AnswersRead(s.disk, call.journal, call.corpus, answer)
      && (answer.Err? ==> t !in next.calls)
      && (answer.Ok? ==> t in next.calls && next.calls[t] == HasRead(answer.value.0, answer.value.1))
  {
    EveryRunKeepsInv(steps);
    var s := Run(steps);
    assert CallSound(s.disk, s.calls[t]);
    var call := s.calls[t];
    HitIsCurrent(s.disk, call.journal, call.corpus, call.view);
    answer := ReadUncached(s.disk, call.journal, call.corpus);
    UncachedAnswers(s.disk, call.journal, call.corpus);
  }

  /** What a call holds, in any run, is the snapshot of the rows up to its head, which are still there. */
  lemma HeldSnapshots(steps: seq<Step>, t: Thread)
    requires var s := Run(steps); t in s.calls && s.calls[t].HasRead?
    ensures var s := Run(steps); Trusted(s.disk, s.calls[t].head, s.calls[t].snapshot)
  {
    EveryRunKeepsInv(steps);
    assert CallSound(Run(steps).disk, Run(steps).calls[t]);
  }

  // From the call to the return, whatever happens in between.

  /** Call `t` asks for this journal and corpus, and has not read yet. */
  ghost predicate ViewOf(s: State, t: Thread, journal: Path, corpus: Corpus) {
    t in s.calls && s.calls[t].Viewed? && s.calls[t].journal == journal && s.calls[t].corpus == corpus
  }

  lemma RunNext(steps: seq<Step>, step: Step)
    ensures Run(steps + [step]) == After(Run(steps), step)
  {
    assert (steps + [step])[..|steps|] == steps;
  }

  lemma StepKeepsView(s: State, step: Step, t: Thread, journal: Path, corpus: Corpus)
    requires ViewOf(s, t, journal, corpus) && step != Read(t)
    ensures ViewOf(After(s, step), t, journal, corpus)
  {
  }

  lemma {:induction false} ViewGoesOn(begun: seq<Step>, later: seq<Step>, t: Thread, journal: Path, corpus: Corpus)
    requires ViewOf(Run(begun), t, journal, corpus) && Read(t) !in later
    ensures ViewOf(Run(begun + later), t, journal, corpus)
    decreases |later|
  {
    if later == [] {
      assert begun + later == begun;
    } else {
      var front, last := later[..|later| - 1], later[|later| - 1];
      assert later == front + [last];
      ViewGoesOn(begun, front, t, journal, corpus);
      RunNext(begun + front, last);
      assert begun + later == begun + front + [last];
      StepKeepsView(Run(begun + front), last, t, journal, corpus);
    }
  }

  /** The first read step after a call answers that call, for the rows committed by then, whatever came in between. */
  lemma ReadAnswersItsCall(earlier: seq<Step>, t: Thread, journal: Path, corpus: Corpus, later: seq<Step>)
    returns (answer: Result<(Head, Snapshot), ReadError>)
    requires t !in Run(earlier).calls && Read(t) !in later
    ensures var s := Run(earlier + [TakeView(t, journal, corpus)] + later);
      && AnswersRead(s.disk, journal, corpus, answer)
      && (answer.Err? ==> t !in After(s, Read(t)).calls)
      && (answer.Ok? ==> t in After(s, Read(t)).calls && After(s, Read(t)).calls[t] == HasRead(answer.value.0, answer.value.1))
  {
    var begun := earlier + [TakeView(t, journal, corpus)];
    RunNext(earlier, TakeView(t, journal, corpus));
    ViewGoesOn(begun, later, t, journal, corpus);
    answer := CachedReadsAgree(begun + later, t);
  }

  lemma StoreStep(s: State, t: Thread)
    requires t in s.calls && s.calls[t].HasRead?
    ensures var r := After(s, StoreResult(t));
      r.disk == s.disk && r.calls == s.calls - {t} && r.cache == Stored(s.cache, s.calls[t].head, s.calls[t].snapshot)
  {
  }

  /** What a call has read it stores as the newest entry, and then it is over. */
  lemma StoresWhatItRead(steps: seq<Step>, t: Thread)
    requires t in Run(steps).calls && Run(steps).calls[t].HasRead?
    ensures var s := Run(steps);
      var r := After(s, StoreResult(t));
      t !in r.calls && r.disk == s.disk && NewestHolds(r.cache, s.calls[t].head, s.calls[t].snapshot)
  {
    EveryRunKeepsInv(steps);
    var s := Run(steps);
    assert CallSound(s.disk, s.calls[t]);
    StoredSound(s.disk, s.cache, s.calls[t].head, s.calls[t].snapshot);
    StoreStep(s, t);
  }
}
