/**
 The manifest under concurrency: appenders of any number of processes, each
 holding the lock in turn, and readers that take no lock. Threads interleave
 their steps in any order: a payload lands a few whole lines at a time, and a
 scan reads a few lines at a time. Runs in which a write is cut short are not
 part of this model.
 */
module ManifestProtocol {
  import opened Sequences
  import opened Manifest

  type Thread = nat
  type Process = nat

  /** The file at one instant. */
  datatype Version = Missing | Present(content: seq<Line>, mtime: nat)

  function Content(v: Version): seq<Line> {
    if v.Missing? then [] else v.content
  }

  function StampOf(v: Version): Option<Stamp> {
    if v.Missing? then None else Some((Size(v.content), v.mtime))
  }

  datatype Progress =
    // append_manifest; `added` are the lines that have yet to land
    | Waiting(process: Process, candidates: seq<Line>)
    | Locked(process: Process, candidates: seq<Line>)
    | Stamped(process: Process, candidates: seq<Line>, found: Option<Stamp>)
    | Selected(process: Process, candidates: seq<Line>, seen: set<Key>, added: seq<Line>)
    | Opened(process: Process, candidates: seq<Line>, seen: set<Key>, added: seq<Line>)
    | Written(process: Process, candidates: seq<Line>, seen: set<Key>)
    | Appended(candidates: seq<Line>)
    // read_manifest; `since` is the file's version when the call began, `at` when its stamp was taken, and
    // `read` the lines scanned so far
    | Reading(process: Process, corpus: Corpus, since: nat)
    | ReadStamped(process: Process, corpus: Corpus, since: nat, at: nat, stamp: Stamp)
    | Scanning(process: Process, corpus: Corpus, since: nat, at: nat, stamp: Stamp, read: seq<Line>)
    | Scanned(process: Process, corpus: Corpus, since: nat, at: nat, stamp: Stamp, out: map<Iri, seq<Line>>)
    | Answered(corpus: Corpus, since: nat, out: map<Iri, seq<Line>>)

  /** `history` ends in the file as it is now; caches are per process. */
  datatype State = State(
    history: seq<Version>,
    lock: Option<Thread>,
    seenCache: map<Process, (Stamp, set<Key>)>,
    readCache: map<(Process, Corpus), (Stamp, map<Iri, seq<Line>>)>,
    threads: map<Thread, Progress>)

  const INITIAL := State([Missing], None, map[], map[], map[])

  datatype Step =
    | BeginAppend(t: Thread, process: Process, candidates: seq<Line>)
    | Acquire(t: Thread)
    | TakeSeenStamp(t: Thread)
    | LookUpSeen(t: Thread)
    | Open(t: Thread, now: nat)
    | Write(t: Thread, lines: nat, now: nat)
    | CacheSeen(t: Thread)
    | Release(t: Thread)
    | BeginRead(t: Thread, process: Process, corpus: Corpus)
    | TakeReadStamp(t: Thread)
    | LookUpRead(t: Thread)
    | ReadMore(t: Thread, lines: nat)
    | EndScan(t: Thread)
    | CacheRead(t: Thread)
    | EvictSeen(process: Process)
    | EvictRead(process: Process, corpus: Corpus)

  function Now(s: State): Version
    requires s.history != []
  {
    s.history[|s.history| - 1]
  }

  function Group(content: seq<Line>, corpus: Corpus): map<Iri, seq<Line>> {
    map iri | iri in (set l | l in content && l.key.corpus == corpus :: l.key.iri) :: LinesFor(content, corpus, iri)
  }

  /** `Group` computes the one grouping there is of a file. */
  lemma GroupIsGrouped(content: seq<Line>, corpus: Corpus)
    ensures Grouped(Group(content, corpus), content, corpus)
  {
    var out := Group(content, corpus);
    forall iri
      ensures iri in out <==> exists k :: IsFor(content, corpus, iri, k)
      ensures GroupOf(LinesFor(content, corpus, iri), content, corpus, iri)
    {
      LinesForExact(content, corpus, iri);
      if iri in out {
        var l :| l in content && l.key.corpus == corpus && l.key.iri == iri;
        var k :| 0 <= k < |content| && content[k] == l;
        assert IsFor(content, corpus, iri, k);
      }
    }
  }

  function Set(s: State, t: Thread, p: Progress): State {
    s.(threads := s.threads[t := p])
  }

  function AppenderStep(s: State, step: Step): State
    requires s.history != []
  {
    match step
    case Acquire(t) =>
      if t in s.threads && s.threads[t].Waiting? && s.lock.None? then
        Set(s.(lock := Some(t)), t, Locked(s.threads[t].process, s.threads[t].candidates))
      else s
    case TakeSeenStamp(t) =>
      if t in s.threads && s.threads[t].Locked? then
        Set(s, t, Stamped(s.threads[t].process, s.threads[t].candidates, StampOf(Now(s))))
      else s
    case LookUpSeen(t) =>
      if t in s.threads && s.threads[t].Stamped? then
        var Stamped(pid, candidates, stamp) := s.threads[t];
        var hit := stamp.Some? && pid in s.seenCache && s.seenCache[pid].0 == stamp.value;
        var seen := if stamp.None? then {} else if hit then s.seenCache[pid].1 else KeysOf(Content(Now(s)));
        var added := NewLines(seen, candidates);
        var cached := if stamp.None? || hit then s else s.(seenCache := s.seenCache[pid := (stamp.value, seen)]);
        Set(cached, t, Selected(pid, candidates, seen + KeysOf(added), added))
      else s
    case Open(t, now) =>
      if t in s.threads && s.threads[t].Selected? && s.threads[t].added != [] then
        var Selected(pid, candidates, seen, added) := s.threads[t];
        var ready := if Now(s).Missing? then s.(history := s.history + [Present([], now)]) else s;
        Set(ready, t, Opened(pid, candidates, seen, added))
      else s
    case Write(t, lines, now) =>
      if t in s.threads && s.threads[t].Opened? && 1 <= lines <= |s.threads[t].added| then
        var Opened(pid, candidates, seen, added) := s.threads[t];
        var landed := s.(history := s.history + [Present(Content(Now(s)) + added[..lines], now)]);
        Set(landed, t, if lines == |added| then Written(pid, candidates, seen) else Opened(pid, candidates, seen, added[lines..]))
      else s
    case CacheSeen(t) =>
      if t in s.threads && s.threads[t].Written? && StampOf(Now(s)).Some? then
        var Written(pid, candidates, seen) := s.threads[t];
        s.(seenCache := s.seenCache[pid := (StampOf(Now(s)).value, seen)])
      else s
    case Release(t) =>
      if t in s.threads && (s.threads[t].Written? || (s.threads[t].Selected? && s.threads[t].added == [])) then
        Set(s.(lock := None), t, Appended(s.threads[t].candidates))
      else s
    case _ => s
  }

  function ReaderStep(s: State, step: Step): State
    requires s.history != []
  {
    match step
    case TakeReadStamp(t) =>
      if t in s.threads && s.threads[t].Reading? then
        var Reading(pid, corpus, since) := s.threads[t];
        var stamp := StampOf(Now(s));
        if stamp.None? then Set(s, t, Answered(corpus, since, map[]))
        else Set(s, t, ReadStamped(pid, corpus, since, |s.history| - 1, stamp.value))
      else s
    case LookUpRead(t) =>
      if t in s.threads && s.threads[t].ReadStamped? then
        var ReadStamped(pid, corpus, since, at, stamp) := s.threads[t];
        if (pid, corpus) in s.readCache && s.readCache[(pid, corpus)].0 == stamp then
          Set(s, t, Answered(corpus, since, s.readCache[(pid, corpus)].1))
        else Set(s, t, Scanning(pid, corpus, since, at, stamp, []))
      else s
    case ReadMore(t, lines) =>
      if t in s.threads && s.threads[t].Scanning? && |s.threads[t].read| + lines <= |Content(Now(s))| then
        var Scanning(pid, corpus, since, at, stamp, read) := s.threads[t];
        Set(s, t, Scanning(pid, corpus, since, at, stamp, read + Content(Now(s))[|read|..|read| + lines]))
      else s
    case EndScan(t) =>
      if t in s.threads && s.threads[t].Scanning? && |s.threads[t].read| == |Content(Now(s))| then
        var Scanning(pid, corpus, since, at, stamp, read) := s.threads[t];
        Set(s, t, Scanned(pid, corpus, since, at, stamp, Group(read, corpus)))
      else s
    case CacheRead(t) =>
      if t in s.threads && s.threads[t].Scanned? then
        var Scanned(pid, corpus, since, at, stamp, out) := s.threads[t];
        Set(s.(readCache := s.readCache[(pid, corpus) := (stamp, out)]), t, Answered(corpus, since, out))
      else s
    case _ => s
  }

  function After(s: State, step: Step): State
    requires s.history != []
  {
    match step
    case BeginAppend(t, pid, candidates) =>
      if t in s.threads then s
      else Set(s, t, if candidates == [] then Appended([]) else Waiting(pid, candidates))
    case BeginRead(t, pid, corpus) =>
      if t in s.threads then s else Set(s, t, Reading(pid, corpus, |s.history| - 1))
    case EvictSeen(pid) => s.(seenCache := s.seenCache - {pid})
    case EvictRead(pid, corpus) => s.(readCache := s.readCache - {(pid, corpus)})
    case TakeReadStamp(_) => ReaderStep(s, step)
    case LookUpRead(_) => ReaderStep(s, step)
    case ReadMore(_, _) => ReaderStep(s, step)
    case EndScan(_) => ReaderStep(s, step)
    case CacheRead(_) => ReaderStep(s, step)
    case _ => AppenderStep(s, step)
  }

  // Invariants.

  /** Version `j` holds version `i`'s lines and then more. */
  ghost predicate Extended(h: seq<Version>, i: int, j: int)
    requires 0 <= i < |h| && 0 <= j < |h|
  {
    Content(h[i]) < Content(h[j])
  }

  /** Missing at first, then an empty file, then strictly longer with every write; no key on two lines. */
  ghost predicate HistorySound(h: seq<Version>) {
    && h != [] && h[0] == Missing
    && (forall i :: 1 <= i < |h| ==> h[i].Present?)
    && (|h| > 1 ==> Content(h[1]) == [])
    && (forall i, j {:trigger Extended(h, i, j)} :: 1 <= i < j < |h| ==> Extended(h, i, j))
    && (forall i {:trigger NoKeyTwice(Content(h[i]))} :: 0 <= i < |h| ==> NoKeyTwice(Content(h[i])))
  }

  /** Because every write adds a line, the size alone tells two versions apart. */
  lemma StampIdentifiesVersion(h: seq<Version>, i: nat, j: nat)
    requires HistorySound(h) && 1 <= i < |h| && 1 <= j < |h| && StampOf(h[i]) == StampOf(h[j])
    ensures i == j
  {
    if i < j {
      assert Extended(h, i, j);
      LongerIsBigger(h[i].content, h[j].content);
    } else if j < i {
      assert Extended(h, j, i);
      LongerIsBigger(h[j].content, h[i].content);
    }
  }

  lemma LongerIsBigger(a: seq<Line>, b: seq<Line>)
    requires a < b
    ensures Size(a) < Size(b)
  {
    assert b == a + b[|a|..];
    SizeOfAppend(a, b[|a|..]);
  }

  /** A cached key set belongs to the version its stamp names. */
  ghost predicate SeenEntrySound(h: seq<Version>, entry: (Stamp, set<Key>)) {
    exists i :: 1 <= i < |h| && StampOf(h[i]) == Some(entry.0) && entry.1 == KeysOf(Content(h[i]))
  }

  /** A cached grouping was read at or after the version its stamp names. */
  ghost predicate ReadEntrySound(h: seq<Version>, corpus: Corpus, entry: (Stamp, map<Iri, seq<Line>>)) {
    exists i, j :: 1 <= i <= j < |h| && StampOf(h[i]) == Some(entry.0) && Grouped(entry.1, Content(h[j]), corpus)
  }

  /** `out` is the grouping of the file as it was at some instant from version `since` on. */
  ghost predicate HeldSince(h: seq<Version>, corpus: Corpus, since: nat, out: map<Iri, seq<Line>>) {
    exists j :: since <= j < |h| && Grouped(out, Content(h[j]), corpus)
  }

  predicate HoldsLock(p: Progress) {
    p.Locked? || p.Stamped? || p.Selected? || p.Opened? || p.Written?
  }

  ghost predicate StampedAt(h: seq<Version>, since: nat, at: nat, stamp: Stamp) {
    1 <= at && since <= at < |h| && StampOf(h[at]) == Some(stamp)
  }

  /** The keys a process believes in under the lock, and the lines it is about to add, fit the file. */
  ghost predicate SelectionSound(now: Version, candidates: seq<Line>, seen: set<Key>, added: seq<Line>) {
    var keys := KeysOf(Content(now));
    added == NewLines(keys, candidates) && seen == keys + KeysOf(added)
  }

  ghost predicate ThreadSound(h: seq<Version>, p: Progress)
    requires h != []
  {
    var now := h[|h| - 1];
    match p
    case Waiting(_, _) => true
    case Locked(_, _) => true
    case Stamped(_, _, stamp) => stamp == StampOf(now)
    case Selected(_, candidates, seen, added) => SelectionSound(now, candidates, seen, added)
    case Opened(_, candidates, seen, added) => SelectionSound(now, candidates, seen, added) && added != [] && now.Present?
    case Written(_, candidates, seen) => now.Present? && seen == KeysOf(Content(now)) && KeysOf(candidates) <= seen
    case Appended(candidates) => KeysOf(candidates) <= KeysOf(Content(now))
    case Reading(_, _, since) => since < |h|
    case ReadStamped(_, _, since, at, stamp) => StampedAt(h, since, at, stamp)
    case Scanning(_, _, since, at, stamp, read) => StampedAt(h, since, at, stamp) && read <= Content(now)
    case Scanned(_, corpus, since, at, stamp, out) => StampedAt(h, since, at, stamp) && HeldSince(h, corpus, at, out)
    case Answered(corpus, since, out) => HeldSince(h, corpus, since, out)
  }

  /** The lock's holder is a thread inside the section it guards, and the only one there. */
  ghost predicate LockSound(s: State) {
    && (s.lock.Some? ==> s.lock.value in s.threads)
    && (forall t {:trigger HoldsLock(s.threads[t])} :: t in s.threads ==> (s.lock == Some(t) <==> HoldsLock(s.threads[t])))
  }

  ghost predicate ThreadsSound(s: State)
    requires s.history != []
  {
    forall t {:trigger ThreadSound(s.history, s.threads[t])} :: t in s.threads ==> ThreadSound(s.history, s.threads[t])
  }

  ghost predicate CachesSound(s: State) {
    && (forall pid {:trigger SeenEntrySound(s.history, s.seenCache[pid])} ::
          pid in s.seenCache ==> SeenEntrySound(s.history, s.seenCache[pid]))
    && (forall k {:trigger ReadEntrySound(s.history, k.1, s.readCache[k])} ::
          k in s.readCache ==> ReadEntrySound(s.history, k.1, s.readCache[k]))
  }

  ghost predicate Inv(s: State) {
    HistorySound(s.history) && LockSound(s) && ThreadsSound(s) && CachesSound(s)
  }

  /** One thread moves on, taking, keeping or giving back the lock. */
  lemma MoveThread(s: State, t: Thread, p: Progress, lock: Option<Thread>)
    requires Inv(s) && ThreadSound(s.history, p)
    requires lock == if HoldsLock(p) then Some(t) else if s.lock == Some(t) then None else s.lock
    requires HoldsLock(p) ==> s.lock == None || s.lock == Some(t)
    ensures Inv(Set(s.(lock := lock), t, p))
  {
    var s' := Set(s.(lock := lock), t, p);
    forall u | u in s'.threads
      ensures s'.lock == Some(u) <==> HoldsLock(s'.threads[u])
      ensures ThreadSound(s'.history, s'.threads[u])
    {
      if u != t {
        assert s.threads[u] == s'.threads[u];
        assert s.lock == Some(u) <==> HoldsLock(s.threads[u]);
        assert ThreadSound(s.history, s.threads[u]);
      }
    }
    CachesSurvive(s, s');
  }

  lemma CachesSurvive(s: State, s': State)
    requires CachesSound(s) && s'.history == s.history && s'.seenCache == s.seenCache && s'.readCache == s.readCache
    ensures CachesSound(s')
  {
    forall pid | pid in s'.seenCache
      ensures SeenEntrySound(s'.history, s'.seenCache[pid])
    {
      assert SeenEntrySound(s.history, s.seenCache[pid]);
    }
    forall k | k in s'.readCache
      ensures ReadEntrySound(s'.history, k.1, s'.readCache[k])
    {
      assert ReadEntrySound(s.history, k.1, s.readCache[k]);
    }
  }

  lemma ThreadsSurvive(s: State, s': State)
    requires Inv(s) && s'.history == s.history && s'.threads == s.threads && s'.lock == s.lock
    ensures LockSound(s') && ThreadsSound(s')
  {
    forall u | u in s'.threads
      ensures s'.lock == Some(u) <==> HoldsLock(s'.threads[u])
      ensures ThreadSound(s'.history, s'.threads[u])
    {
      assert s.lock == Some(u) <==> HoldsLock(s.threads[u]);
      assert ThreadSound(s.history, s.threads[u]);
    }
  }

  lemma PutSeen(s: State, pid: Process, entry: (Stamp, set<Key>))
    requires Inv(s) && SeenEntrySound(s.history, entry)
    ensures Inv(s.(seenCache := s.seenCache[pid := entry]))
  {
    var s' := s.(seenCache := s.seenCache[pid := entry]);
    ThreadsSurvive(s, s');
    forall q | q in s'.seenCache
      ensures SeenEntrySound(s'.history, s'.seenCache[q])
    {
      assert q != pid ==> SeenEntrySound(s.history, s.seenCache[q]);
    }
    forall k | k in s'.readCache
      ensures ReadEntrySound(s'.history, k.1, s'.readCache[k])
    {
      assert ReadEntrySound(s.history, k.1, s.readCache[k]);
    }
  }

  lemma PutRead(s: State, key: (Process, Corpus), entry: (Stamp, map<Iri, seq<Line>>))
    requires Inv(s) && ReadEntrySound(s.history, key.1, entry)
    ensures Inv(s.(readCache := s.readCache[key := entry]))
  {
    var s' := s.(readCache := s.readCache[key := entry]);
    ThreadsSurvive(s, s');
    forall q | q in s'.seenCache
      ensures SeenEntrySound(s'.history, s'.seenCache[q])
    {
      assert SeenEntrySound(s.history, s.seenCache[q]);
    }
    forall k | k in s'.readCache
      ensures ReadEntrySound(s'.history, k.1, s'.readCache[k])
    {
      assert k != key ==> ReadEntrySound(s.history, k.1, s.readCache[k]);
    }
  }

  lemma Evict(s: State, s': State)
    requires Inv(s) && s'.history == s.history && s'.threads == s.threads && s'.lock == s.lock
    requires forall pid :: pid in s'.seenCache ==> pid in s.seenCache && s'.seenCache[pid] == s.seenCache[pid]
    requires forall k :: k in s'.readCache ==> k in s.readCache && s'.readCache[k] == s.readCache[k]
    ensures Inv(s')
  {
    ThreadsSurvive(s, s');
    forall q | q in s'.seenCache
      ensures SeenEntrySound(s'.history, s'.seenCache[q])
    {
      assert SeenEntrySound(s.history, s.seenCache[q]);
    }
    forall k | k in s'.readCache
      ensures ReadEntrySound(s'.history, k.1, s'.readCache[k])
    {
      assert ReadEntrySound(s.history, k.1, s.readCache[k]);
    }
  }

  // The file grows by one version: everything said about the past survives.

  lemma SeenEntrySurvives(h: seq<Version>, v: Version, entry: (Stamp, set<Key>))
    requires SeenEntrySound(h, entry)
    ensures SeenEntrySound(h + [v], entry)
  {
    var i :| 1 <= i < |h| && StampOf(h[i]) == Some(entry.0) && entry.1 == KeysOf(Content(h[i]));
    assert (h + [v])[i] == h[i];
  }

  lemma ReadEntrySurvives(h: seq<Version>, v: Version, corpus: Corpus, entry: (Stamp, map<Iri, seq<Line>>))
    requires ReadEntrySound(h, corpus, entry)
    ensures ReadEntrySound(h + [v], corpus, entry)
  {
    var i, j :| 1 <= i <= j < |h| && StampOf(h[i]) == Some(entry.0) && Grouped(entry.1, Content(h[j]), corpus);
    assert (h + [v])[i] == h[i] && (h + [v])[j] == h[j];
  }

  lemma HeldSurvives(h: seq<Version>, v: Version, corpus: Corpus, since: nat, out: map<Iri, seq<Line>>)
    requires HeldSince(h, corpus, since, out)
    ensures HeldSince(h + [v], corpus, since, out)
  {
    var j :| since <= j < |h| && Grouped(out, Content(h[j]), corpus);
    assert (h + [v])[j] == h[j];
  }

  /** A thread outside the lock keeps its claims when the file grows. */
  lemma ThreadSurvives(h: seq<Version>, v: Version, p: Progress)
    requires h != [] && ThreadSound(h, p) && !HoldsLock(p)
    requires Content(h[|h| - 1]) <= Content(v)
    ensures ThreadSound(h + [v], p)
  {
    var old' := Content(h[|h| - 1]);
    assert Content(v) == old' + Content(v)[|old'|..];
    KeysOfAppend(old', Content(v)[|old'|..]);
    if p.Scanned? {
      HeldSurvives(h, v, p.corpus, p.at, p.out);
    } else if p.Answered? {
      HeldSurvives(h, v, p.corpus, p.since, p.out);
    }
  }

  /** The lock holder `t` writes: every other thread and both caches keep what they claim. */
  lemma GrowHistory(s: State, v: Version, t: Thread, p: Progress)
    requires Inv(s) && s.lock == Some(t) && HoldsLock(p)
    requires HistorySound(s.history + [v]) && Content(Now(s)) <= Content(v) && ThreadSound(s.history + [v], p)
    ensures Inv(Set(s.(history := s.history + [v]), t, p))
  {
    var s' := Set(s.(history := s.history + [v]), t, p);
    forall u | u in s'.threads
      ensures s'.lock == Some(u) <==> HoldsLock(s'.threads[u])
      ensures ThreadSound(s'.history, s'.threads[u])
    {
      if u != t {
        assert s.threads[u] == s'.threads[u];
        assert s.lock == Some(u) <==> HoldsLock(s.threads[u]);
        assert ThreadSound(s.history, s.threads[u]);
        ThreadSurvives(s.history, v, s.threads[u]);
      }
    }
    forall pid | pid in s'.seenCache
      ensures SeenEntrySound(s'.history, s'.seenCache[pid])
    {
      assert SeenEntrySound(s.history, s.seenCache[pid]);
      SeenEntrySurvives(s.history, v, s.seenCache[pid]);
    }
    forall k | k in s'.readCache
      ensures ReadEntrySound(s'.history, k.1, s'.readCache[k])
    {
      assert ReadEntrySound(s.history, k.1, s.readCache[k]);
      ReadEntrySurvives(s.history, v, k.1, s.readCache[k]);
    }
  }

  lemma HistoryGrows(h: seq<Version>, v: Version)
    requires HistorySound(h) && v.Present? && NoKeyTwice(v.content)
    requires if |h| == 1 then v.content == [] else Content(h[|h| - 1]) < v.content
    ensures HistorySound(h + [v])
  {
    var g, last := h + [v], |h| - 1;
    forall i, j | 1 <= i < j < |g|
      ensures Extended(g, i, j)
    {
      if j < |h| {
        assert Extended(h, i, j);
      } else if i < last {
        assert Extended(h, i, last);
      }
    }
    forall i | 0 <= i < |g|
      ensures NoKeyTwice(Content(g[i]))
    {
      if i < |h| {
        assert NoKeyTwice(Content(h[i]));
      }
    }
  }

  // Every step keeps the invariant.

  /** A thread's claims, and where the lock stands, once it is known to exist. */
  lemma Claims(s: State, t: Thread)
    requires Inv(s) && t in s.threads
    ensures ThreadSound(s.history, s.threads[t]) && (s.lock == Some(t) <==> HoldsLock(s.threads[t]))
    ensures s.history[|s.history| - 1] == Now(s) && (Now(s).Present? ==> |s.history| > 1)
  {
    assert ThreadSound(s.history, s.threads[t]);
    assert s.lock == Some(t) <==> HoldsLock(s.threads[t]);
  }

  /** A stamp that matches a cached one was taken of the very version the entry describes. */
  lemma SeenHit(h: seq<Version>, entry: (Stamp, set<Key>))
    requires HistorySound(h) && SeenEntrySound(h, entry) && |h| > 1 && StampOf(h[|h| - 1]) == Some(entry.0)
    ensures entry.1 == KeysOf(Content(h[|h| - 1]))
  {
    var i :| 1 <= i < |h| && StampOf(h[i]) == Some(entry.0) && entry.1 == KeysOf(Content(h[i]));
    StampIdentifiesVersion(h, i, |h| - 1);
  }

  /** Hit or rescan, `_seen_keys` under the lock is the key set of the file. */
  lemma SeenIsRescan(s: State, pid: Process)
    requires Inv(s) && pid in s.seenCache && StampOf(Now(s)) == Some(s.seenCache[pid].0)
    ensures s.seenCache[pid].1 == KeysOf(Content(Now(s)))
  {
    assert SeenEntrySound(s.history, s.seenCache[pid]);
    SeenHit(s.history, s.seenCache[pid]);
  }

  lemma FreshEntry(h: seq<Version>, stamp: Stamp)
    requires |h| > 1 && StampOf(h[|h| - 1]) == Some(stamp)
    ensures SeenEntrySound(h, (stamp, KeysOf(Content(h[|h| - 1]))))
  {
  }

  lemma RescanKeeps(s: State, t: Thread, pid: Process, stamp: Stamp, p: Progress)
    requires Inv(s) && s.lock == Some(t) && HoldsLock(p) && ThreadSound(s.history, p)
    requires |s.history| > 1 && StampOf(Now(s)) == Some(stamp)
    ensures Inv(Set(s.(seenCache := s.seenCache[pid := (stamp, KeysOf(Content(Now(s))))]), t, p))
  {
    var entry := (stamp, KeysOf(Content(Now(s))));
    FreshEntry(s.history, stamp);
    PutSeen(s, pid, entry);
    MoveThread(s.(seenCache := s.seenCache[pid := entry]), t, p, s.lock);
  }

  lemma LookUpSeenKeeps(s: State, t: Thread)
    requires Inv(s) && t in s.threads && s.threads[t].Stamped?
    ensures Inv(AppenderStep(s, LookUpSeen(t)))
  {
    var Stamped(pid, candidates, stamp) := s.threads[t];
    Claims(s, t);
    var keys := KeysOf(Content(Now(s)));
    var added := NewLines(keys, candidates);
    var p := Selected(pid, candidates, keys + KeysOf(added), added);
    if stamp.Some? && !(pid in s.seenCache && s.seenCache[pid].0 == stamp.value) {
      RescanKeeps(s, t, pid, stamp.value, p);
    } else {
      if stamp.Some? {
        SeenIsRescan(s, pid);
      } else {
        assert KeysOf([]) == {};
      }
      MoveThread(s, t, p, s.lock);
    }
  }

  lemma OpenKeeps(s: State, t: Thread, now: nat)
    requires Inv(s) && t in s.threads && s.threads[t].Selected? && s.threads[t].added != []
    ensures Inv(AppenderStep(s, Open(t, now)))
  {
    var Selected(pid, candidates, seen, added) := s.threads[t];
    Claims(s, t);
    var p := Opened(pid, candidates, seen, added);
    if Now(s).Missing? {
      HistoryGrows(s.history, Present([], now));
      GrowHistory(s, Present([], now), t, p);
    } else {
      MoveThread(s, t, p, s.lock);
    }
  }

  /** Landing the first `n` selected lines extends the history soundly, and the others are what is still missing. */
  lemma WriteIsSound(h: seq<Version>, candidates: seq<Line>, seen: set<Key>, added: seq<Line>, n: nat, v: Version)
    requires HistorySound(h) && h[|h| - 1].Present? && 1 <= n <= |added|
    requires SelectionSound(h[|h| - 1], candidates, seen, added)
    requires v.Present? && v.content == Content(h[|h| - 1]) + added[..n]
    ensures HistorySound(h + [v]) && SelectionSound(v, candidates, seen, added[n..])
    ensures n == |added| ==> seen == KeysOf(Content(v)) && KeysOf(candidates) <= seen
  {
    var content := Content(h[|h| - 1]);
    LastVersionSound(h);
    LandedKeepsKeys(content, candidates, n);
    LandedKeys(content, added, n);
    RestIsStillNew(KeysOf(content), candidates, n);
    HistoryGrows(h, v);
    if n == |added| {
      NothingNew(KeysOf(Content(v)), candidates);
    }
  }

  lemma WriteKeeps(s: State, t: Thread, lines: nat, now: nat)
    requires Inv(s) && t in s.threads && s.threads[t].Opened? && 1 <= lines <= |s.threads[t].added|
    ensures Inv(AppenderStep(s, Write(t, lines, now)))
  {
    var Opened(pid, candidates, seen, added) := s.threads[t];
    Claims(s, t);
    var v := Present(Content(Now(s)) + added[..lines], now);
    WriteIsSound(s.history, candidates, seen, added, lines, v);
    if lines == |added| {
      GrowHistory(s, v, t, Written(pid, candidates, seen));
    } else {
      GrowHistory(s, v, t, Opened(pid, candidates, seen, added[lines..]));
    }
  }

  lemma LastVersionSound(h: seq<Version>)
    requires HistorySound(h)
    ensures NoKeyTwice(Content(h[|h| - 1]))
  {
    var last := |h| - 1;
    assert NoKeyTwice(Content(h[last]));
  }

  lemma ReleaseKeeps(s: State, t: Thread)
    requires Inv(s) && t in s.threads
    requires s.threads[t].Written? || (s.threads[t].Selected? && s.threads[t].added == [])
    ensures Inv(AppenderStep(s, Release(t)))
  {
    Claims(s, t);
    if s.threads[t].Selected? {
      NothingNew(KeysOf(Content(Now(s))), s.threads[t].candidates);
    }
    MoveThread(s, t, Appended(s.threads[t].candidates), None);
  }

  lemma CacheSeenKeeps(s: State, t: Thread)
    requires Inv(s) && t in s.threads && s.threads[t].Written?
    ensures Inv(AppenderStep(s, CacheSeen(t)))
  {
    var Written(pid, candidates, seen) := s.threads[t];
    Claims(s, t);
    var stamp := StampOf(Now(s)).value;
    var entry := (stamp, seen);
    assert AppenderStep(s, CacheSeen(t)) == s.(seenCache := s.seenCache[pid := entry]);
    FreshEntry(s.history, stamp);
    PutSeen(s, pid, entry);
  }

  lemma AcquireKeeps(s: State, step: Step)
    requires Inv(s) && (step.Acquire? || step.TakeSeenStamp?)
    ensures Inv(AppenderStep(s, step))
  {
    var t := step.t;
    if t in s.threads {
      Claims(s, t);
      if step.Acquire? && s.threads[t].Waiting? && s.lock.None? {
        MoveThread(s, t, Locked(s.threads[t].process, s.threads[t].candidates), Some(t));
      } else if step.TakeSeenStamp? && s.threads[t].Locked? {
        MoveThread(s, t, Stamped(s.threads[t].process, s.threads[t].candidates, StampOf(Now(s))), s.lock);
      }
    }
  }

  lemma AppenderStepKeeps(s: State, step: Step)
    requires Inv(s)
    ensures Inv(AppenderStep(s, step))
  {
    match step
    case Acquire(_) => AcquireKeeps(s, step);
    case TakeSeenStamp(_) => AcquireKeeps(s, step);
    case LookUpSeen(t) => if t in s.threads && s.threads[t].Stamped? { LookUpSeenKeeps(s, t); }
    case Open(t, now) =>
      if t in s.threads && s.threads[t].Selected? && s.threads[t].added != [] { OpenKeeps(s, t, now); }
    case Write(t, lines, now) =>
      if t in s.threads && s.threads[t].Opened? && 1 <= lines <= |s.threads[t].added| { WriteKeeps(s, t, lines, now); }
    case CacheSeen(t) => if t in s.threads && s.threads[t].Written? { CacheSeenKeeps(s, t); }
    case Release(t) =>
      if t in s.threads && (s.threads[t].Written? || (s.threads[t].Selected? && s.threads[t].added == [])) {
        ReleaseKeeps(s, t);
      }
    case _ =>
  }

  lemma TakeReadStampKeeps(s: State, t: Thread)
    requires Inv(s) && t in s.threads && s.threads[t].Reading?
    ensures Inv(ReaderStep(s, TakeReadStamp(t)))
  {
    var Reading(pid, corpus, since) := s.threads[t];
    Claims(s, t);
    var last := |s.history| - 1;
    if Now(s).Missing? {
      assert Content(s.history[last]) == [];
      assert Grouped(map[], Content(s.history[last]), corpus);
      assert HeldSince(s.history, corpus, since, map[]);
      MoveThread(s, t, Answered(corpus, since, map[]), s.lock);
    } else {
      MoveThread(s, t, ReadStamped(pid, corpus, since, last, StampOf(Now(s)).value), s.lock);
    }
  }

  /** A hit may carry lines newer than its stamp, but only lines the file held since that stamp was taken. */
  lemma ReadHit(h: seq<Version>, corpus: Corpus, entry: (Stamp, map<Iri, seq<Line>>), since: nat, at: nat)
    requires HistorySound(h) && ReadEntrySound(h, corpus, entry) && StampedAt(h, since, at, entry.0)
    ensures HeldSince(h, corpus, since, entry.1)
  {
    var i, j :| 1 <= i <= j < |h| && StampOf(h[i]) == Some(entry.0) && Grouped(entry.1, Content(h[j]), corpus);
    StampIdentifiesVersion(h, i, at);
  }

  lemma LookUpReadKeeps(s: State, t: Thread)
    requires Inv(s) && t in s.threads && s.threads[t].ReadStamped?
    ensures Inv(ReaderStep(s, LookUpRead(t)))
  {
    var ReadStamped(pid, corpus, since, at, stamp) := s.threads[t];
    Claims(s, t);
    var key := (pid, corpus);
    if key in s.readCache && s.readCache[key].0 == stamp {
      assert ReadEntrySound(s.history, key.1, s.readCache[key]);
      ReadHit(s.history, corpus, s.readCache[key], since, at);
      MoveThread(s, t, Answered(corpus, since, s.readCache[key].1), s.lock);
    } else {
      MoveThread(s, t, Scanning(pid, corpus, since, at, stamp, []), s.lock);
    }
  }

  lemma PrefixGrows(read: seq<Line>, content: seq<Line>, lines: nat)
    requires read <= content && |read| + lines <= |content|
    ensures read + content[|read|..|read| + lines] <= content
  {
    assert read == content[..|read|];
  }

  lemma ReadMoreKeeps(s: State, t: Thread, lines: nat)
    requires Inv(s) && t in s.threads && s.threads[t].Scanning? && |s.threads[t].read| + lines <= |Content(Now(s))|
    ensures Inv(ReaderStep(s, ReadMore(t, lines)))
  {
    var Scanning(pid, corpus, since, at, stamp, read) := s.threads[t];
    Claims(s, t);
    var more := read + Content(Now(s))[|read|..|read| + lines];
    PrefixGrows(read, Content(Now(s)), lines);
    MoveThread(s, t, Scanning(pid, corpus, since, at, stamp, more), s.lock);
  }

  /** A scan that stands at the end of the file has read the file as it is now, whatever landed on the way. */
  lemma EndScanKeeps(s: State, t: Thread)
    requires Inv(s) && t in s.threads && s.threads[t].Scanning? && |s.threads[t].read| == |Content(Now(s))|
    ensures Inv(ReaderStep(s, EndScan(t)))
  {
    var Scanning(pid, corpus, since, at, stamp, read) := s.threads[t];
    Claims(s, t);
    var out, last := Group(read, corpus), |s.history| - 1;
    assert read == Content(Now(s));
    GroupIsGrouped(read, corpus);
    assert Grouped(out, Content(s.history[last]), corpus);
    MoveThread(s, t, Scanned(pid, corpus, since, at, stamp, out), s.lock);
  }

  lemma CacheReadKeeps(s: State, t: Thread)
    requires Inv(s) && t in s.threads && s.threads[t].Scanned?
    ensures Inv(ReaderStep(s, CacheRead(t)))
  {
    var Scanned(pid, corpus, since, at, stamp, out) := s.threads[t];
    Claims(s, t);
    ScannedEntry(s.history, corpus, since, at, stamp, out);
    var key := (pid, corpus);
    PutRead(s, key, (stamp, out));
    MoveThread(s.(readCache := s.readCache[(pid, corpus) := (stamp, out)]), t, Answered(corpus, since, out), s.lock);
  }

  lemma ScannedEntry(h: seq<Version>, corpus: Corpus, since: nat, at: nat, stamp: Stamp, out: map<Iri, seq<Line>>)
    requires StampedAt(h, since, at, stamp) && HeldSince(h, corpus, at, out)
    ensures ReadEntrySound(h, corpus, (stamp, out)) && HeldSince(h, corpus, since, out)
  {
    var j :| at <= j < |h| && Grouped(out, Content(h[j]), corpus);
  }

  lemma ReaderStepKeeps(s: State, step: Step)
    requires Inv(s)
    ensures Inv(ReaderStep(s, step))
  {
    match step
    case TakeReadStamp(t) => if t in s.threads && s.threads[t].Reading? { TakeReadStampKeeps(s, t); }
    case LookUpRead(t) => if t in s.threads && s.threads[t].ReadStamped? { LookUpReadKeeps(s, t); }
    case ReadMore(t, lines) =>
      if t in s.threads && s.threads[t].Scanning? && |s.threads[t].read| + lines <= |Content(Now(s))| {
        ReadMoreKeeps(s, t, lines);
      }
    case EndScan(t) =>
      if t in s.threads && s.threads[t].Scanning? && |s.threads[t].read| == |Content(Now(s))| { EndScanKeeps(s, t); }
    case CacheRead(t) => if t in s.threads && s.threads[t].Scanned? { CacheReadKeeps(s, t); }
    case _ =>
  }

  lemma BeginKeeps(s: State, t: Thread, p: Progress)
    requires Inv(s) && t !in s.threads && !HoldsLock(p) && ThreadSound(s.history, p)
    ensures Inv(Set(s, t, p))
  {
    MoveThread(s, t, p, s.lock);
  }

  lemma StepKeepsInv(s: State, step: Step)
    requires Inv(s)
    ensures Inv(After(s, step))
  {
    match step
    case BeginAppend(t, pid, candidates) =>
      if t !in s.threads {
        BeginKeeps(s, t, if candidates == [] then Appended([]) else Waiting(pid, candidates));
      }
    case BeginRead(t, pid, corpus) =>
      if t !in s.threads {
        BeginKeeps(s, t, Reading(pid, corpus, |s.history| - 1));
      }
    case EvictSeen(pid) => Evict(s, After(s, step));
    case EvictRead(pid, corpus) => Evict(s, After(s, step));
    case TakeReadStamp(_) => ReaderStepKeeps(s, step);
    case LookUpRead(_) => ReaderStepKeeps(s, step);
    case ReadMore(_, _) => ReaderStepKeeps(s, step);
    case EndScan(_) => ReaderStepKeeps(s, step);
    case CacheRead(_) => ReaderStepKeeps(s, step);
    case _ => AppenderStepKeeps(s, step);
  }

  function Run(steps: seq<Step>): (s: State)
    ensures s.history != []
  {
    if steps == [] then INITIAL
    else
      var before := Run(steps[..|steps| - 1]);
      After(before, steps[|steps| - 1])
  }

  lemma {:induction false} EveryRunKeepsInv(steps: seq<Step>)
    ensures Inv(Run(steps))
  {
    if steps == [] {
      assert HistorySound([Missing]);
    } else {
      EveryRunKeepsInv(steps[..|steps| - 1]);
      StepKeepsInv(Run(steps[..|steps| - 1]), steps[|steps| - 1]);
    }
  }

  // What callers see, in every run.

  /** No key is ever on two lines. */
  lemma NoKeyIsEverTwice(steps: seq<Step>)
    ensures NoKeyTwice(Content(Now(Run(steps))))
  {
    EveryRunKeepsInv(steps);
    LastVersionSound(Run(steps).history);
  }

  /** When an append has returned, the key of every candidate is in the file, and the same append would add nothing. */
  lemma AppendedMeansRecorded(steps: seq<Step>, t: Thread)
    requires t in Run(steps).threads && Run(steps).threads[t].Appended?
    ensures var s := Run(steps);
      && KeysOf(s.threads[t].candidates) <= KeysOf(Content(Now(s)))
      && NewLines(KeysOf(Content(Now(s))), s.threads[t].candidates) == []
  {
    var s := Run(steps);
    EveryRunKeepsInv(steps);
    Claims(s, t);
    NothingNew(KeysOf(Content(Now(s))), s.threads[t].candidates);
  }

  /** The lines a thread is about to write under the lock: the first candidate of every key the file lacks, in order. */
  lemma SelectionIsARescan(steps: seq<Step>, t: Thread)
    requires t in Run(steps).threads && (Run(steps).threads[t].Selected? || Run(steps).threads[t].Opened?)
    ensures var s := Run(steps);
      FirstOfKeys(s.threads[t].added, KeysOf(Content(Now(s))), s.threads[t].candidates)
  {
    var s := Run(steps);
    EveryRunKeepsInv(steps);
    Claims(s, t);
    NewLinesAreFirst(KeysOf(Content(Now(s))), s.threads[t].candidates);
  }

  predicate Appends(p: Progress) {
    p.Waiting? || p.Appended? || HoldsLock(p)
  }

  /** The line was a candidate of some append. */
  ghost predicate Offered(s: State, l: Line) {
    exists t :: t in s.threads && Appends(s.threads[t]) && l in s.threads[t].candidates
  }

  /** An append stays an append of the same candidates. */
  ghost predicate StillAppends(s: State, s': State, t: Thread) {
    t in s.threads && Appends(s.threads[t]) ==>
      t in s'.threads && Appends(s'.threads[t]) && s'.threads[t].candidates == s.threads[t].candidates
  }

  lemma AppenderKeepsCandidates(s: State, step: Step, t: Thread)
    requires s.history != []
    ensures StillAppends(s, AppenderStep(s, step), t)
  {
  }

  lemma ReaderKeepsCandidates(s: State, step: Step, t: Thread)
    requires s.history != []
    ensures StillAppends(s, ReaderStep(s, step), t)
  {
  }

  lemma StepKeepsOffers(s: State, step: Step, l: Line)
    requires s.history != [] && Offered(s, l)
    ensures Offered(After(s, step), l)
  {
    var t :| t in s.threads && Appends(s.threads[t]) && l in s.threads[t].candidates;
    AppenderKeepsCandidates(s, step, t);
    ReaderKeepsCandidates(s, step, t);
    assert StillAppends(s, After(s, step), t);
  }

  lemma OnlyWriteAdds(s: State, step: Step)
    requires s.history != []
    ensures Content(Now(After(s, step))) != Content(Now(s)) ==>
      step.Write? && step.t in s.threads && s.threads[step.t].Opened? && 1 <= step.lines <= |s.threads[step.t].added|
  {
  }

  lemma WriteAdds(s: State, t: Thread, lines: nat, now: nat, l: Line)
    requires s.history != [] && t in s.threads && s.threads[t].Opened? && 1 <= lines <= |s.threads[t].added|
    requires l in Content(Now(After(s, Write(t, lines, now)))) && l !in Content(Now(s))
    ensures l in s.threads[t].added
  {
    var added := s.threads[t].added;
    assert Content(Now(AppenderStep(s, Write(t, lines, now)))) == Content(Now(s)) + added[..lines];
    assert l in added[..lines];
  }

  /** Only a write adds lines, and only lines of its own candidates. */
  lemma StepAddsOffers(s: State, step: Step, l: Line)
    requires Inv(s) && l in Content(Now(After(s, step))) && l !in Content(Now(s))
    ensures Offered(s, l)
  {
    OnlyWriteAdds(s, step);
    var t := step.t;
    Claims(s, t);
    WriteAdds(s, t, step.lines, step.now, l);
    NewLinesExact(KeysOf(Content(Now(s))), s.threads[t].candidates);
  }

  /** Every line of the file was offered, as it stands, by some append. */
  lemma {:induction false} EveryLineWasOffered(steps: seq<Step>, l: Line)
    requires l in Content(Now(Run(steps)))
    ensures Offered(Run(steps), l)
  {
    if steps != [] {
      var before, step := steps[..|steps| - 1], steps[|steps| - 1];
      EveryRunKeepsInv(before);
      if l in Content(Now(Run(before))) {
        EveryLineWasOffered(before, l);
      } else {
        StepAddsOffers(Run(before), step, l);
      }
      StepKeepsOffers(Run(before), step, l);
    }
  }

  /** A finished lock-free read returned the corpus's lines as they stood at some instant since the call began. */
  lemma ReadsAreInstants(steps: seq<Step>, t: Thread)
    requires t in Run(steps).threads && Run(steps).threads[t].Answered?
    ensures var s := Run(steps); HeldSince(s.history, s.threads[t].corpus, s.threads[t].since, s.threads[t].out)
  {
    EveryRunKeepsInv(steps);
    Claims(Run(steps), t);
  }

  lemma StepExtendsHistory(s: State, step: Step)
    requires s.history != []
    ensures s.history <= After(s, step).history
  {
  }

  lemma {:induction false} HistoryIsAppendOnly(earlier: seq<Step>, later: seq<Step>)
    ensures Run(earlier).history <= Run(earlier + later).history
    decreases |later|
  {
    if later == [] {
      assert earlier + later == earlier;
    } else {
      var steps := earlier + later;
      assert steps[..|steps| - 1] == earlier + later[..|later| - 1];
      HistoryIsAppendOnly(earlier, later[..|later| - 1]);
      StepExtendsHistory(Run(steps[..|steps| - 1]), steps[|steps| - 1]);
    }
  }

  /** No line that was in the file is ever changed, moved or removed. */
  lemma EarlierLinesNeverChange(earlier: seq<Step>, later: seq<Step>)
    ensures Content(Now(Run(earlier))) <= Content(Now(Run(earlier + later)))
  {
    HistoryIsAppendOnly(earlier, later);
    RunHistorySound(earlier + later);
    LaterExtends(Run(earlier), Run(earlier + later));
  }

  lemma RunHistorySound(steps: seq<Step>)
    ensures HistorySound(Run(steps).history)
  {
    EveryRunKeepsInv(steps);
  }

  lemma LaterExtends(s: State, s': State)
    requires s.history != [] && s.history <= s'.history && HistorySound(s'.history)
    ensures Content(Now(s)) <= Content(Now(s'))
  {
    var h, g := s.history, s'.history;
    var i, j := |h| - 1, |g| - 1;
    assert h[i] == g[i];
    if 1 <= i < j {
      assert Extended(g, i, j);
    }
  }
}
