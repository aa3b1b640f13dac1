/**
 What a caller of the manifest gets, told of the steps alone: an append records the very candidates it was
 called with, a read answers for the file since its own call, and either of them, undisturbed, gets through.
 */
module ManifestRuns {
  import opened Sequences
  import opened Manifest
  import opened ManifestProtocol

  // From the call to the return, whatever happens in between.

  /** Thread `t` appends these candidates. */
  ghost predicate AppendOf(s: State, t: Thread, candidates: seq<Line>) {
    t in s.threads && Appends(s.threads[t]) && s.threads[t].candidates == candidates
  }

  lemma StepKeepsAppend(s: State, step: Step, t: Thread, candidates: seq<Line>)
    requires s.history != [] && AppendOf(s, t, candidates)
    ensures AppendOf(After(s, step), t, candidates)
  {
    AppenderKeepsCandidates(s, step, t);
    ReaderKeepsCandidates(s, step, t);
  }

  lemma RunNext(steps: seq<Step>, step: Step)
    ensures Run(steps + [step]) == After(Run(steps), step)
  {
    assert (steps + [step])[..|steps|] == steps;
  }

  lemma {:induction false} AppendGoesOn(begun: seq<Step>, later: seq<Step>, t: Thread, candidates: seq<Line>)
    requires AppendOf(Run(begun), t, candidates)
    ensures AppendOf(Run(begun + later), t, candidates)
    decreases |later|
  {
    if later == [] {
      assert begun + later == begun;
    } else {
      var front, last := later[..|later| - 1], later[|later| - 1];
      AppendGoesOn(begun, front, t, candidates);
      RunNext(begun + front, last);
      assert begun + later == begun + front + [last];
      StepKeepsAppend(Run(begun + front), last, t, candidates);
    }
  }

  /** When an append has returned, every line it was called with has its key in the file. */
  lemma AppendRecordsItsCandidates(earlier: seq<Step>, t: Thread, pid: Process, candidates: seq<Line>, later: seq<Step>)
    requires t !in Run(earlier).threads
    ensures var s := Run(earlier + [BeginAppend(t, pid, candidates)] + later);
      && t in s.threads
      && (s.threads[t].Appended? ==> forall l :: l in candidates ==> exists i :: 0 <= i < |Content(Now(s))| && Content(Now(s))[i].key == l.key)
  {
    var begun := earlier + [BeginAppend(t, pid, candidates)];
    RunNext(earlier, BeginAppend(t, pid, candidates));
    AppendGoesOn(begun, later, t, candidates);
    var s := Run(begun + later);
    if s.threads[t].Appended? {
      AppendedMeansRecorded(begun + later, t);
      forall l | l in candidates
        ensures exists i :: 0 <= i < |Content(Now(s))| && Content(Now(s))[i].key == l.key
      {
        var k :| 0 <= k < |candidates| && candidates[k] == l;
        assert l.key in KeysOf(candidates);
      }
    }
  }

  predicate Reads(p: Progress) {
    p.Reading? || p.ReadStamped? || p.Scanning? || p.Scanned? || p.Answered?
  }

  /** Thread `t` reads this corpus, in a call that began at version `since`. */
  ghost predicate ReadOf(s: State, t: Thread, corpus: Corpus, since: nat) {
    t in s.threads && Reads(s.threads[t]) && s.threads[t].corpus == corpus && s.threads[t].since == since
  }

  lemma ReaderKeepsCall(s: State, step: Step, t: Thread, corpus: Corpus, since: nat)
    requires s.history != [] && ReadOf(s, t, corpus, since)
    ensures ReadOf(ReaderStep(s, step), t, corpus, since)
  {
  }

  lemma AppenderKeepsCall(s: State, step: Step, t: Thread, corpus: Corpus, since: nat)
    requires s.history != [] && ReadOf(s, t, corpus, since)
    ensures ReadOf(AppenderStep(s, step), t, corpus, since)
  {
  }

  lemma StepKeepsCall(s: State, step: Step, t: Thread, corpus: Corpus, since: nat)
    requires s.history != [] && ReadOf(s, t, corpus, since)
    ensures ReadOf(After(s, step), t, corpus, since)
  {
    ReaderKeepsCall(s, step, t, corpus, since);
    AppenderKeepsCall(s, step, t, corpus, since);
  }

  lemma {:induction false} ReadGoesOn(begun: seq<Step>, later: seq<Step>, t: Thread, corpus: Corpus, since: nat)
    requires ReadOf(Run(begun), t, corpus, since)
    ensures ReadOf(Run(begun + later), t, corpus, since)
    decreases |later|
  {
    if later == [] {
      assert begun + later == begun;
    } else {
      var front, last := later[..|later| - 1], later[|later| - 1];
      ReadGoesOn(begun, front, t, corpus, since);
      RunNext(begun + front, last);
      assert begun + later == begun + front + [last];
      StepKeepsCall(Run(begun + front), last, t, corpus, since);
    }
  }

  /** When a read has returned, it has the grouping, for the corpus it was called with, of the file as it was at some instant since that call. */
  lemma ReadAnswersItsCall(earlier: seq<Step>, t: Thread, pid: Process, corpus: Corpus, later: seq<Step>)
    requires t !in Run(earlier).threads
    ensures var s, begin := Run(earlier + [BeginRead(t, pid, corpus)] + later), |Run(earlier).history| - 1;
      t in s.threads && (s.threads[t].Answered? ==>
        exists j :: begin <= j < |s.history| && Grouped(s.threads[t].out, Content(s.history[j]), corpus))
  {
    var begun, begin := earlier + [BeginRead(t, pid, corpus)], |Run(earlier).history| - 1;
    RunNext(earlier, BeginRead(t, pid, corpus));
    ReadGoesOn(begun, later, t, corpus, begin);
    var s := Run(begun + later);
    if s.threads[t].Answered? {
      ReadsAreInstants(begun + later, t);
      assert HeldSince(s.history, corpus, begin, s.threads[t].out);
    }
  }

  // Undisturbed, a call gets through.

  ghost function Then(s: State, step: Step): (r: State)
    requires s.history != []
    ensures r == After(s, step) && r.history != []
  {
    StepExtendsHistory(s, step);
    After(s, step)
  }

  /** An append up to its selection, with nothing in between. */
  ghost function SelectSolo(s: State, t: Thread, pid: Process, candidates: seq<Line>): (r: State)
    requires s.history != []
    ensures r.history != []
  {
    Then(Then(Then(Then(s, BeginAppend(t, pid, candidates)), Acquire(t)), TakeSeenStamp(t)), LookUpSeen(t))
  }

  /** The rest of it, the whole payload in one write. */
  ghost function WriteSolo(s: State, t: Thread, n: nat, now: nat): (r: State)
    requires s.history != []
    ensures r.history != []
  {
    Then(Then(Then(Then(s, Open(t, now)), Write(t, n, now)), CacheSeen(t)), Release(t))
  }

  lemma AcquireStep(s: State, t: Thread, pid: Process, candidates: seq<Line>)
    requires s.history != [] && s.lock.None? && t !in s.threads && candidates != []
    ensures var r := Then(Then(s, BeginAppend(t, pid, candidates)), Acquire(t));
      r.history == s.history && r.lock == Some(t) && t in r.threads && r.threads[t] == Locked(pid, candidates)
  {
  }

  lemma LookUpStep(s: State, t: Thread)
    requires s.history != [] && t in s.threads && s.threads[t].Locked?
    ensures var r := Then(Then(s, TakeSeenStamp(t)), LookUpSeen(t));
      && r.history == s.history && r.lock == s.lock && t in r.threads
      && r.threads[t].Selected? && r.threads[t].candidates == s.threads[t].candidates
  {
    var r := Then(s, TakeSeenStamp(t));
    assert r.threads[t].Stamped? && r.history == s.history && r.lock == s.lock;
  }

  lemma SelectKeepsInv(s: State, t: Thread, pid: Process, candidates: seq<Line>)
    requires Inv(s)
    ensures Inv(SelectSolo(s, t, pid, candidates))
  {
    var s1 := Then(s, BeginAppend(t, pid, candidates));
    StepKeepsInv(s, BeginAppend(t, pid, candidates));
    StepKeepsInv(s1, Acquire(t));
    StepKeepsInv(Then(s1, Acquire(t)), TakeSeenStamp(t));
    StepKeepsInv(Then(Then(s1, Acquire(t)), TakeSeenStamp(t)), LookUpSeen(t));
  }

  lemma AddedIsMissing(s: State, t: Thread)
    requires Inv(s) && t in s.threads && s.threads[t].Selected?
    ensures s.threads[t].added == NewLines(KeysOf(Content(Now(s))), s.threads[t].candidates)
  {
    Claims(s, t);
  }

  lemma OpenStep(s: State, t: Thread, now: nat)
    requires s.history != [] && t in s.threads && s.threads[t].Selected? && s.threads[t].added != []
    ensures var r := Then(s, Open(t, now));
      && Content(Now(r)) == Content(Now(s)) && t in r.threads
      && r.threads[t].Opened? && r.threads[t].added == s.threads[t].added && r.threads[t].candidates == s.threads[t].candidates
  {
  }

  lemma WriteStep(s: State, t: Thread, now: nat)
    requires s.history != [] && t in s.threads && s.threads[t].Opened? && s.threads[t].added != []
    ensures var r := Then(s, Write(t, |s.threads[t].added|, now));
      && Content(Now(r)) == Content(Now(s)) + s.threads[t].added && t in r.threads
      && r.threads[t].Written? && r.threads[t].candidates == s.threads[t].candidates
  {
    assert s.threads[t].added[..|s.threads[t].added|] == s.threads[t].added;
  }

  lemma ReturnStep(s: State, t: Thread)
    requires s.history != [] && t in s.threads && s.threads[t].Written?
    ensures var r := Then(Then(s, CacheSeen(t)), Release(t));
      r.history == s.history && r.lock == None && t in r.threads && r.threads[t] == Appended(s.threads[t].candidates)
  {
    var r := Then(s, CacheSeen(t));
    assert t in r.threads && r.threads[t] == s.threads[t] && r.history == s.history;
  }

  lemma NothingToWrite(s: State, t: Thread, n: nat, now: nat)
    requires s.history != [] && t in s.threads && s.threads[t].Selected? && s.threads[t].added == []
    ensures WriteSolo(s, t, n, now) == Then(s, Release(t))
  {
    assert Then(s, Open(t, now)) == s && Then(s, Write(t, n, now)) == s && Then(s, CacheSeen(t)) == s;
  }

  lemma WritesSolo(s: State, t: Thread, now: nat)
    requires s.history != [] && t in s.threads && s.threads[t].Selected?
    ensures var r := WriteSolo(s, t, |s.threads[t].added|, now);
      && r.lock == None && t in r.threads && r.threads[t] == Appended(s.threads[t].candidates)
      && Content(Now(r)) == Content(Now(s)) + s.threads[t].added
  {
    var more := s.threads[t].added;
    if more == [] {
      NothingToWrite(s, t, |more|, now);
      assert Content(Now(s)) + more == Content(Now(s));
    } else {
      var s5 := Then(s, Open(t, now));
      OpenStep(s, t, now);
      WriteStep(s5, t, now);
      ReturnStep(Then(s5, Write(t, |more|, now)), t);
    }
  }

  /** An append that finds the lock free and is left alone returns, with exactly the missing lines added and the lock given back. */
  lemma AppendGetsThrough(s: State, t: Thread, pid: Process, candidates: seq<Line>, now: nat) returns (more: seq<Line>)
    requires Inv(s) && s.lock.None? && t !in s.threads && candidates != []
    ensures FirstOfKeys(more, KeysOf(Content(Now(s))), candidates)
    ensures var r := WriteSolo(SelectSolo(s, t, pid, candidates), t, |more|, now);
      && r.lock == None && t in r.threads && r.threads[t] == Appended(candidates)
      && Content(Now(r)) == Content(Now(s)) + more
  {
    more := NewLines(KeysOf(Content(Now(s))), candidates);
    NewLinesAreFirst(KeysOf(Content(Now(s))), candidates);
    AcquireStep(s, t, pid, candidates);
    LookUpStep(Then(Then(s, BeginAppend(t, pid, candidates)), Acquire(t)), t);
    SelectKeepsInv(s, t, pid, candidates);
    var selected := SelectSolo(s, t, pid, candidates);
    AddedIsMissing(selected, t);
    WritesSolo(selected, t, now);
  }

  /** A read up to its look at the cache, with nothing in between. */
  ghost function LookSolo(s: State, t: Thread, pid: Process, corpus: Corpus): (r: State)
    requires s.history != []
    ensures r.history != []
  {
    Then(Then(Then(s, BeginRead(t, pid, corpus)), TakeReadStamp(t)), LookUpRead(t))
  }

  /** The rest of it, the whole file in one go. */
  ghost function ScanSolo(s: State, t: Thread): (r: State)
    requires s.history != []
    ensures r.history != []
  {
    Then(Then(Then(s, ReadMore(t, |Content(Now(s))|)), EndScan(t)), CacheRead(t))
  }

  lemma LooksSolo(s: State, t: Thread, pid: Process, corpus: Corpus)
    requires s.history != [] && t !in s.threads
    ensures var r := LookSolo(s, t, pid, corpus);
      && r.history == s.history && ReadOf(r, t, corpus, |s.history| - 1)
      && (r.threads[t].Answered? || (r.threads[t].Scanning? && r.threads[t].read == []))
  {
    var s1 := Then(s, BeginRead(t, pid, corpus));
    assert ReadOf(s1, t, corpus, |s.history| - 1) && s1.threads[t].Reading?;
    var s2 := Then(s1, TakeReadStamp(t));
    StepKeepsCall(s1, TakeReadStamp(t), t, corpus, |s.history| - 1);
    assert s2.history == s.history && (s2.threads[t].Answered? || s2.threads[t].ReadStamped?);
    StepKeepsCall(s2, LookUpRead(t), t, corpus, |s.history| - 1);
  }

  lemma LookKeepsInv(s: State, t: Thread, pid: Process, corpus: Corpus)
    requires Inv(s)
    ensures Inv(LookSolo(s, t, pid, corpus))
  {
    var s1 := Then(s, BeginRead(t, pid, corpus));
    StepKeepsInv(s, BeginRead(t, pid, corpus));
    StepKeepsInv(s1, TakeReadStamp(t));
    StepKeepsInv(Then(s1, TakeReadStamp(t)), LookUpRead(t));
  }

  lemma AnsweredStays(s: State, t: Thread)
    requires s.history != [] && t in s.threads && s.threads[t].Answered?
    ensures ScanSolo(s, t) == s
  {
  }

  lemma AnsweredIsCurrent(s: State, t: Thread, corpus: Corpus)
    requires Inv(s) && ReadOf(s, t, corpus, |s.history| - 1) && s.threads[t].Answered?
    ensures Grouped(s.threads[t].out, Content(Now(s)), corpus)
  {
    Claims(s, t);
    assert HeldSince(s.history, corpus, |s.history| - 1, s.threads[t].out);
  }

  lemma ScansSolo(s: State, t: Thread, corpus: Corpus)
    requires s.history != [] && t in s.threads && s.threads[t].Scanning? && s.threads[t].corpus == corpus && s.threads[t].read == []
    ensures var r := ScanSolo(s, t);
      t in r.threads && r.threads[t].Answered? && Grouped(r.threads[t].out, Content(Now(s)), corpus)
  {
    var content := Content(Now(s));
    var s4 := Then(s, ReadMore(t, |content|));
    assert [] + content[0..|content|] == content;
    assert s4.threads[t].Scanning? && s4.threads[t].read == content && s4.history == s.history;
    var s5 := Then(s4, EndScan(t));
    assert s5.threads[t].Scanned? && s5.threads[t].out == Group(content, corpus);
    GroupIsGrouped(content, corpus);
  }

  /** A read that is left alone returns the grouping of the file as it is, cached or not. */
  lemma ReadGetsThrough(s: State, t: Thread, pid: Process, corpus: Corpus)
    requires Inv(s) && t !in s.threads
    ensures var r := ScanSolo(LookSolo(s, t, pid, corpus), t);
      t in r.threads && r.threads[t].Answered? && Grouped(r.threads[t].out, Content(Now(s)), corpus)
  {
    var looked := LookSolo(s, t, pid, corpus);
    LooksSolo(s, t, pid, corpus);
    LookKeepsInv(s, t, pid, corpus);
    assert Content(Now(looked)) == Content(Now(s));
    if looked.threads[t].Answered? {
      AnsweredIsCurrent(looked, t, corpus);
      AnsweredStays(looked, t);
    } else {
      ScansSolo(looked, t, corpus);
    }
  }
}
