/**
 `ingest_record`: check, write, re-check and retry against a store that another
 writer changes at any moment. The store's `ingest_shards` keeps its contract: a
 batch is atomic, an absent IRI is added, an identical record is left alone, a
 different record is an identity violation, and any gate may refuse.
 */
module Ingest {
  import opened Sequences
  import Manifest
  import Sorting

  type Iri = string

  datatype Shard = Shard(iri: Iri, body: string)

  datatype Outcome = Accepted | Refused | IdentityViolation | OperationIdConflict | StorageFailure

  /** What this ingest asked of the store, and how it was answered, in order. */
  datatype Event = Checked(iri: Iri, present: bool) | Submitted(iris: seq<Iri>, outcome: Outcome)

  /** The last answer to a check of `iri`. */
  ghost function LastCheck(log: seq<Event>, iri: Iri): Option<bool> {
    if log == [] then None
    else
      var last := log[|log| - 1];
      if last.Checked? && last.iri == iri then Some(last.present) else LastCheck(log[..|log| - 1], iri)
  }

  predicate Lands(e: Event, iri: Iri) {
    e.Submitted? && e.outcome == Accepted && iri in e.iris
  }

  /** A batch with `iri` was accepted after the last check of it. */
  ghost predicate AcceptedSince(log: seq<Event>, iri: Iri) {
    log != [] &&
    var last := log[|log| - 1];
    !(last.Checked? && last.iri == iri) && (Lands(last, iri) || AcceptedSince(log[..|log| - 1], iri))
  }

  /** Absent when last checked, and in an accepted batch after that: this ingest put it there. */
  ghost predicate CreatedBy(log: seq<Event>, iri: Iri) {
    LastCheck(log, iri) == Some(false) && AcceptedSince(log, iri)
  }

  /** Present when last checked. */
  ghost predicate FoundBy(log: seq<Event>, iri: Iri) {
    LastCheck(log, iri) == Some(true)
  }

  /** Absent when last checked, and in no accepted batch after that. */
  ghost predicate LeftOutBy(log: seq<Event>, iri: Iri) {
    LastCheck(log, iri) == Some(false) && !AcceptedSince(log, iri)
  }

  /** `iri` is not checked after position `k`. */
  ghost predicate UncheckedAfter(log: seq<Event>, iri: Iri, k: int) {
    forall j :: 0 <= j < |log| && k < j ==> !(log[j].Checked? && log[j].iri == iri)
  }

  /** At position `k`, `iri` was submitted alone and refused, and it was not checked after that. */
  ghost predicate RefusedAt(log: seq<Event>, iri: Iri, k: int) {
    && 0 <= k < |log| && UncheckedAfter(log, iri, k)
    && (log[k] == Submitted([iri], Refused) || log[k] == Submitted([iri], IdentityViolation))
  }

  /** `iri` was refused alone after the last check of it. */
  ghost predicate RefusedAlone(log: seq<Event>, iri: Iri) {
    exists k :: RefusedAt(log, iri, k)
  }

  ghost predicate RecheckedAt(log: seq<Event>, iri: Iri, k: int) {
    0 <= k < |log| && UncheckedAfter(log, iri, k) && log[k] == Checked(iri, false) && RefusedAlone(log[..k], iri)
  }

  /** `iri` was refused alone after the last check but one, and the last check did not find it. */
  ghost predicate RefusedAndAbsent(log: seq<Event>, iri: Iri) {
    exists k :: RecheckedAt(log, iri, k)
  }

  /** How often `iri` was checked. */
  ghost function Checks(log: seq<Event>, iri: Iri): nat {
    if log == [] then 0
    else
      var last := log[|log| - 1];
      Checks(log[..|log| - 1], iri) + if last.Checked? && last.iri == iri then 1 else 0
  }

  /** The event did not fail for a reason that stops the writing. */
  ghost predicate Harmless(e: Event) {
    e.Submitted? ==> e.outcome != StorageFailure && e.outcome != OperationIdConflict
  }

  /** `more` goes on from `log` with harmless events. */
  ghost predicate HarmlessSince(log: seq<Event>, more: seq<Event>) {
    log <= more && forall k :: |log| <= k < |more| ==> Harmless(more[k])
  }

  /** `more` goes on from `log` with harmless events and then a submission that ended in `outcome`. */
  ghost predicate EndedBy(log: seq<Event>, more: seq<Event>, outcome: Outcome) {
    && log < more && HarmlessSince(log, more[..|more| - 1])
    && more[|more| - 1].Submitted? && more[|more| - 1].outcome == outcome
  }

  /** Nothing was answered that the loop must not pass over. */
  ghost predicate NothingFatal(log: seq<Event>, callersOp: bool) {
    forall k :: 0 <= k < |log| && log[k].Submitted? ==>
      log[k].outcome != StorageFailure && !(callersOp && log[k].outcome == OperationIdConflict)
  }

  /** Both logs say the same of `iri`. */
  ghost predicate SameFor(log: seq<Event>, log': seq<Event>, iri: Iri) {
    LastCheck(log', iri) == LastCheck(log, iri) && AcceptedSince(log', iri) == AcceptedSince(log, iri)
  }

  /** Whatever was submitted was absent when last checked before that. */
  ghost predicate SubmitsOnlyAbsent(log: seq<Event>) {
    forall k :: 0 <= k < |log| && log[k].Submitted? ==> forall iri :: iri in log[k].iris ==> LastCheck(log[..k], iri) == Some(false)
  }

  lemma LogOne(log: seq<Event>, e: Event)
    ensures forall iri :: LastCheck(log + [e], iri) == if e.Checked? && e.iri == iri then Some(e.present) else LastCheck(log, iri)
    ensures forall iri :: AcceptedSince(log + [e], iri) <==>
      !(e.Checked? && e.iri == iri) && (Lands(e, iri) || AcceptedSince(log, iri))
    ensures forall iri :: Checks(log + [e], iri) == Checks(log, iri) + if e.Checked? && e.iri == iri then 1 else 0
  {
    var more := log + [e];
    assert more[..|more| - 1] == log;
  }

  lemma RefusalOne(log: seq<Event>, e: Event, iri: Iri)
    ensures RefusedAlone(log, iri) && !(e.Checked? && e.iri == iri) ==> RefusedAlone(log + [e], iri)
    ensures RefusedAndAbsent(log, iri) && !(e.Checked? && e.iri == iri) ==> RefusedAndAbsent(log + [e], iri)
    ensures e == Submitted([iri], Refused) || e == Submitted([iri], IdentityViolation) ==> RefusedAlone(log + [e], iri)
    ensures RefusedAlone(log, iri) && e == Checked(iri, false) ==> RefusedAndAbsent(log + [e], iri)
  {
    var more, n := log + [e], |log|;
    if k :| RefusedAt(log, iri, k) {
      assert !(e.Checked? && e.iri == iri) ==> RefusedAt(more, iri, k);
    }
    if k :| RecheckedAt(log, iri, k) {
      assert more[..k] == log[..k];
      assert !(e.Checked? && e.iri == iri) ==> RecheckedAt(more, iri, k);
    }
    if e == Submitted([iri], Refused) || e == Submitted([iri], IdentityViolation) {
      assert RefusedAt(more, iri, n);
    }
    if RefusedAlone(log, iri) && e == Checked(iri, false) {
      assert more[..n] == log;
      assert RecheckedAt(more, iri, n);
    }
  }

  lemma LogKeepsSubmissions(log: seq<Event>, e: Event)
    requires SubmitsOnlyAbsent(log) && (e.Submitted? ==> forall iri :: iri in e.iris ==> LastCheck(log, iri) == Some(false))
    ensures SubmitsOnlyAbsent(log + [e])
  {
    var more := log + [e];
    forall k | 0 <= k < |more| && more[k].Submitted?
      ensures forall iri :: iri in more[k].iris ==> LastCheck(more[..k], iri) == Some(false)
    {
      assert more[..k] == log[..k];
    }
    assert log[..|log|] == log;
  }

  function Iris(shards: seq<Shard>): (r: seq<Iri>)
    ensures |r| == |shards|
    ensures forall i :: 0 <= i < |r| ==> r[i] == shards[i].iri
  {
    seq(|shards|, i requires 0 <= i < |shards| => shards[i].iri)
  }

  /** Adds the batch, one record after the other. */
  function AddAll(records: map<Iri, Shard>, batch: seq<Shard>): (r: map<Iri, Shard>)
    ensures records.Keys <= r.Keys
    ensures forall s :: s in batch ==> s.iri in r
  {
    if batch == [] then records
    else
      assert batch == batch[..|batch| - 1] + [batch[|batch| - 1]];
      AddAll(records, batch[..|batch| - 1])[batch[|batch| - 1].iri := batch[|batch| - 1]]
  }

  class Store {
    var records: map<Iri, Shard>
    ghost var log: seq<Event>

    /** Any other writer, at any moment: records may appear or be revised, never disappear. */
    method OthersWrite()
      modifies this`records
      ensures old(records.Keys) <= records.Keys
    {
      var theirs: map<Iri, Shard> := *;
      records := records + theirs;
    }

    /** `await ctx.shards.get_record(iri) is not None`. */
    method Check(iri: Iri) returns (present: bool)
      modifies this
      ensures old(records.Keys) <= records.Keys
      ensures present <==> iri in records
      ensures log == old(log) + [Checked(iri, present)]
    {
      OthersWrite();
      present := iri in records;
      log := log + [Checked(iri, present)];
    }

    method IngestShards(batch: seq<Shard>) returns (outcome: Outcome)
      modifies this
      ensures old(records.Keys) <= records.Keys
      ensures outcome == Accepted ==> forall s :: s in batch ==> s.iri in records
      ensures log == old(log) + [Submitted(Iris(batch), outcome)]
    {
      OthersWrite();
      outcome := *;
      if outcome == Accepted || outcome == IdentityViolation {
        if exists s :: s in batch && s.iri in records && records[s.iri] != s {
          outcome := IdentityViolation;
        } else {
          records := AddAll(records, batch);
          outcome := Accepted;
        }
      }
      log := log + [Submitted(Iris(batch), outcome)];
    }
  }

  datatype Written = Wrote(created: seq<Iri>, refused: seq<Iri>) | Raised(outcome: Outcome)

  predicate IsRefusal(o: Outcome) {
    o == Refused || o == IdentityViolation
  }

  /** Every shard was absent when last checked, and none has been accepted since. */
  ghost predicate AllAbsent(log: seq<Event>, shards: seq<Shard>) {
    forall i :: 0 <= i < |shards| ==> LeftOutBy(log, shards[i].iri)
  }

  /** A submission checks nothing; accepted, it creates what it holds, and nothing else. */
  lemma SubmitFor(log: seq<Event>, iris: seq<Iri>, outcome: Outcome, iri: Iri)
    ensures var more := log + [Submitted(iris, outcome)];
      && LastCheck(more, iri) == LastCheck(log, iri) && Checks(more, iri) == Checks(log, iri)
      && (AcceptedSince(more, iri) <==> AcceptedSince(log, iri) || (outcome == Accepted && iri in iris))
      && (RefusedAlone(log, iri) ==> RefusedAlone(more, iri))
      && (iris == [iri] && IsRefusal(outcome) ==> RefusedAlone(more, iri))
  {
    LogOne(log, Submitted(iris, outcome));
    RefusalOne(log, Submitted(iris, outcome), iri);
  }

  /** `log` goes on from `before` without a check. */
  ghost predicate OnlySubmits(before: seq<Event>, log: seq<Event>) {
    && SubmitsOnlyAbsent(log) && before <= log
    && (forall iri :: LastCheck(log, iri) == LastCheck(before, iri) && Checks(log, iri) == Checks(before, iri))
  }

  lemma SubmitKeeps(before: seq<Event>, log: seq<Event>, iris: seq<Iri>, outcome: Outcome)
    requires OnlySubmits(before, log) && forall iri :: iri in iris ==> LastCheck(log, iri) == Some(false)
    ensures OnlySubmits(before, log + [Submitted(iris, outcome)])
  {
    LogOne(log, Submitted(iris, outcome));
    LogKeepsSubmissions(log, Submitted(iris, outcome));
  }

  lemma AbsentIris(log: seq<Event>, shards: seq<Shard>)
    requires AllAbsent(log, shards)
    ensures forall iri :: iri in Iris(shards) ==> LeftOutBy(log, iri)
  {
  }

  /** The two lists split the IRIs, in order: created by this call, or refused alone. */
  ghost predicate WroteTruly(before: seq<Event>, log: seq<Event>, iris: seq<Iri>, created: seq<Iri>, refused: seq<Iri>) {
    && OnlySubmits(before, log) && HarmlessSince(before, log)
    && Split(iris, |iris|, created, refused)
    && (forall iri :: iri in created ==> CreatedBy(log, iri))
    && (forall iri :: iri in refused ==> LeftOutBy(log, iri) && RefusedAlone(log, iri))
  }

  /** The last submission ended in what is raised; a plain refusal is raised for a single shard only. */
  ghost predicate RaisedTruly(before: seq<Event>, log: seq<Event>, iris: seq<Iri>, outcome: Outcome) {
    && OnlySubmits(before, log) && outcome != Accepted && EndedBy(before, log, outcome)
    && (outcome == Refused ==> |iris| == 1 && LeftOutBy(log, iris[0]) && RefusedAlone(log, iris[0]))
  }

  ghost predicate WrittenTruly(before: seq<Event>, log: seq<Event>, iris: seq<Iri>, r: Written) {
    && (r.Wrote? ==> WroteTruly(before, log, iris, r.created, r.refused))
    && (r.Raised? ==> RaisedTruly(before, log, iris, r.outcome))
  }

  /** `_write_new`: one batch, then, when the batch is refused, every shard alone. */
  method WriteNew(store: Store, shards: seq<Shard>) returns (r: Written)
    requires shards != [] && NoDup(Iris(shards)) && AllAbsent(store.log, shards) && SubmitsOnlyAbsent(store.log)
    modifies store
    ensures old(store.records.Keys) <= store.records.Keys
    ensures WrittenTruly(old(store.log), store.log, Iris(shards), r)
    ensures r.Wrote? ==> forall iri :: iri in r.created ==> iri in store.records
  {
    AbsentIris(store.log, shards);
    ghost var before, iris := store.log, Iris(shards);
    var outcome := store.IngestShards(shards);
    if outcome == Accepted {
      BatchCreates(before, iris);
      forall iri | iri in iris
        ensures iri in store.records
      {
        var i :| 0 <= i < |shards| && iris[i] == iri;
        assert shards[i] in shards;
      }
      return Wrote(Iris(shards), []);
    }
    if !IsRefusal(outcome) || |shards| == 1 {
      BatchRaises(before, iris, outcome);
      return Raised(outcome);
    }
    StillAbsent(before, shards, outcome);
    r := WriteSingly(store, shards);
    SinglesAreTrue(before, outcome, store.log, iris, r);
  }

  /** An accepted batch creates everything. */
  lemma BatchCreates(before: seq<Event>, iris: seq<Iri>)
    requires SubmitsOnlyAbsent(before) && forall iri :: iri in iris ==> LeftOutBy(before, iri)
    ensures WroteTruly(before, before + [Submitted(iris, Accepted)], iris, iris, [])
  {
    SubmitKeeps(before, before, iris, Accepted);
    assert iris[..|iris|] == iris;
    InOrderAll(iris);
    InOrderNone(iris);
    forall iri | iri in iris
      ensures CreatedBy(before + [Submitted(iris, Accepted)], iri)
    {
      SubmitFor(before, iris, Accepted, iri);
    }
  }

  /** A batch that fails, or a batch of one that is refused, is raised. */
  lemma BatchRaises(before: seq<Event>, iris: seq<Iri>, outcome: Outcome)
    requires SubmitsOnlyAbsent(before) && iris != [] && forall iri :: iri in iris ==> LeftOutBy(before, iri)
    requires outcome != Accepted && (IsRefusal(outcome) ==> |iris| == 1)
    ensures RaisedTruly(before, before + [Submitted(iris, outcome)], iris, outcome)
  {
    var log := before + [Submitted(iris, outcome)];
    SubmitKeeps(before, before, iris, outcome);
    assert log[..|log| - 1] == before;
    SubmitFor(before, iris, outcome, iris[0]);
    assert iris[0] in iris && (|iris| == 1 ==> iris == [iris[0]]);
  }

  lemma StillAbsent(before: seq<Event>, shards: seq<Shard>, outcome: Outcome)
    requires SubmitsOnlyAbsent(before) && AllAbsent(before, shards) && outcome != Accepted
    ensures var log := before + [Submitted(Iris(shards), outcome)];
      OnlySubmits(before, log) && AllAbsent(log, shards)
  {
    var log := before + [Submitted(Iris(shards), outcome)];
    AbsentIris(before, shards);
    SubmitKeeps(before, before, Iris(shards), outcome);
    forall i | 0 <= i < |shards|
      ensures LeftOutBy(log, shards[i].iri)
    {
      SubmitFor(before, Iris(shards), outcome, shards[i].iri);
    }
  }

  /** A refused batch changes nothing that is then said of its shards, one by one. */
  lemma SinglesAreTrue(before: seq<Event>, outcome: Outcome, log: seq<Event>, iris: seq<Iri>, r: Written)
    requires IsRefusal(outcome) && OnlySubmits(before, before + [Submitted(iris, outcome)])
    requires WrittenTruly(before + [Submitted(iris, outcome)], log, iris, r)
    ensures WrittenTruly(before, log, iris, r)
  {
    GoesOn(before, Submitted(iris, outcome), log);
  }

  /** Harmless events after a harmless one. */
  lemma GoesOn(log: seq<Event>, e: Event, more: seq<Event>)
    requires Harmless(e) && log + [e] <= more
    ensures log <= more
    ensures HarmlessSince(log + [e], more) ==> HarmlessSince(log, more)
    ensures forall o :: EndedBy(log + [e], more, o) ==> EndedBy(log, more, o)
  {
    assert (log + [e])[|log|] == e;
    assert forall k :: 0 <= k <= |log| ==> more[k] == (log + [e])[k];
  }

  /** The first `n` IRIs, in order, are split in two. */
  ghost predicate Split(iris: seq<Iri>, n: nat, created: seq<Iri>, refused: seq<Iri>) {
    && n <= |iris| && multiset(created) + multiset(refused) == multiset(iris[..n])
    && InOrder(created, iris[..n]) && InOrder(refused, iris[..n])
  }

  lemma SplitOne(iris: seq<Iri>, n: nat, created: seq<Iri>, refused: seq<Iri>)
    requires NoDup(iris) && Split(iris, n, created, refused) && n < |iris|
    ensures Split(iris, n + 1, created + [iris[n]], refused) && Split(iris, n + 1, created, refused + [iris[n]])
  {
    assert iris[..n + 1] == iris[..n] + [iris[n]];
    assert iris[n] !in iris[..n];
    InOrderMore(created, iris[..n], iris[n]);
    InOrderMore(refused, iris[..n], iris[n]);
  }

  lemma SplitMembers(iris: seq<Iri>, n: nat, created: seq<Iri>, refused: seq<Iri>, x: Iri)
    requires Split(iris, n, created, refused)
    ensures x in iris[..n] <==> x in created || x in refused
  {
    assert x in iris[..n] <==> x in multiset(iris[..n]);
    assert x in created <==> x in multiset(created);
    assert x in refused <==> x in multiset(refused);
  }

  /** Submitted one by one, the created and the refused; the IRIs from `n` on are as they were. */
  ghost predicate Singles(before: seq<Event>, log: seq<Event>, iris: seq<Iri>, n: nat, created: seq<Iri>, refused: seq<Iri>) {
    && n <= |iris| && OnlySubmits(before, log) && HarmlessSince(before, log)
    && (forall iri :: iri in created ==> CreatedBy(log, iri))
    && (forall iri :: iri in refused ==> LeftOutBy(log, iri) && RefusedAlone(log, iri))
    && (forall k :: n <= k < |iris| ==> LeftOutBy(log, iris[k]))
  }

  lemma SingleCreated(before: seq<Event>, log: seq<Event>, iris: seq<Iri>, n: nat, created: seq<Iri>, refused: seq<Iri>)
    requires NoDup(iris) && Singles(before, log, iris, n, created, refused) && n < |iris| && iris[n] !in refused
    ensures Singles(before, log + [Submitted([iris[n]], Accepted)], iris, n + 1, created + [iris[n]], refused)
  {
    var more := log + [Submitted([iris[n]], Accepted)];
    SubmitKeeps(before, log, [iris[n]], Accepted);
    forall iri
      ensures iri in created + [iris[n]] ==> CreatedBy(more, iri)
      ensures iri in refused ==> LeftOutBy(more, iri) && RefusedAlone(more, iri)
    {
      SubmitFor(log, [iris[n]], Accepted, iri);
    }
    forall k | n + 1 <= k < |iris|
      ensures LeftOutBy(more, iris[k])
    {
      SubmitFor(log, [iris[n]], Accepted, iris[k]);
    }
  }

  lemma SingleRefused(before: seq<Event>, log: seq<Event>, iris: seq<Iri>, n: nat, created: seq<Iri>, refused: seq<Iri>, outcome: Outcome)
    requires NoDup(iris) && Singles(before, log, iris, n, created, refused) && n < |iris| && IsRefusal(outcome)
    ensures Singles(before, log + [Submitted([iris[n]], outcome)], iris, n + 1, created, refused + [iris[n]])
  {
    var more := log + [Submitted([iris[n]], outcome)];
    SubmitKeeps(before, log, [iris[n]], outcome);
    forall iri
      ensures iri in created ==> CreatedBy(more, iri)
      ensures iri in refused + [iris[n]] ==> LeftOutBy(more, iri) && RefusedAlone(more, iri)
    {
      SubmitFor(log, [iris[n]], outcome, iri);
    }
    forall k | n + 1 <= k < |iris|
      ensures LeftOutBy(more, iris[k])
    {
      SubmitFor(log, [iris[n]], outcome, iris[k]);
    }
  }

  lemma SingleFails(before: seq<Event>, log: seq<Event>, iris: seq<Iri>, n: nat, created: seq<Iri>, refused: seq<Iri>, outcome: Outcome)
    requires Singles(before, log, iris, n, created, refused) && n < |iris| && outcome != Accepted && !IsRefusal(outcome)
    ensures RaisedTruly(before, log + [Submitted([iris[n]], outcome)], iris, outcome)
  {
    SubmitKeeps(before, log, [iris[n]], outcome);
    assert (log + [Submitted([iris[n]], outcome)])[..|log|] == log;
  }

  ghost predicate SplitSingles(before: seq<Event>, log: seq<Event>, iris: seq<Iri>, n: nat, created: seq<Iri>, refused: seq<Iri>) {
    Split(iris, n, created, refused) && Singles(before, log, iris, n, created, refused)
  }

  /** One more shard submitted alone: created, refused, or the end of the writing. */
  lemma OneSingle(before: seq<Event>, log: seq<Event>, iris: seq<Iri>, n: nat, created: seq<Iri>, refused: seq<Iri>, outcome: Outcome)
    requires NoDup(iris) && SplitSingles(before, log, iris, n, created, refused) && n < |iris|
    ensures var more := log + [Submitted([iris[n]], outcome)];
      && (outcome == Accepted ==> SplitSingles(before, more, iris, n + 1, created + [iris[n]], refused))
      && (IsRefusal(outcome) ==> SplitSingles(before, more, iris, n + 1, created, refused + [iris[n]]))
      && (outcome != Accepted && !IsRefusal(outcome) ==> RaisedTruly(before, more, iris, outcome))
  {
    SplitOne(iris, n, created, refused);
    SplitMembers(iris, n, created, refused, iris[n]);
    assert iris[n] !in iris[..n];
    if outcome == Accepted {
      SingleCreated(before, log, iris, n, created, refused);
    } else if IsRefusal(outcome) {
      SingleRefused(before, log, iris, n, created, refused, outcome);
    } else {
      SingleFails(before, log, iris, n, created, refused, outcome);
    }
  }

  method SubmitAlone(store: Store, shard: Shard) returns (outcome: Outcome)
    modifies store
    ensures old(store.records.Keys) <= store.records.Keys
    ensures outcome == Accepted ==> shard.iri in store.records
    ensures store.log == old(store.log) + [Submitted([shard.iri], outcome)]
  {
    assert Iris([shard]) == [shard.iri] && shard in [shard];
    outcome := store.IngestShards([shard]);
  }

  /** After the batch was refused: every shard alone; a failure that is no refusal is raised. */
  method WriteSingly(store: Store, shards: seq<Shard>) returns (r: Written)
    requires NoDup(Iris(shards)) && AllAbsent(store.log, shards) && SubmitsOnlyAbsent(store.log)
    modifies store
    ensures old(store.records.Keys) <= store.records.Keys
    ensures WrittenTruly(old(store.log), store.log, Iris(shards), r)
    ensures r.Wrote? ==> forall iri :: iri in r.created ==> iri in store.records
    ensures r.Raised? ==> r.outcome == OperationIdConflict || r.outcome == StorageFailure
  {
    AbsentIris(store.log, shards);
    ghost var iris := Iris(shards);
    var created: seq<Iri>, refused: seq<Iri> := [], [];
    InOrderNone(iris[..0]);
    for i := 0 to |shards|
      invariant old(store.records.Keys) <= store.records.Keys
      invariant SplitSingles(old(store.log), store.log, iris, i, created, refused)
      invariant forall iri :: iri in created ==> iri in store.records
    {
      ghost var log := store.log;
      var single := SubmitAlone(store, shards[i]);
      OneSingle(old(store.log), log, iris, i, created, refused, single);
      if IsRefusal(single) {
        refused := refused + [shards[i].iri];
      } else if single == Accepted {
        created := created + [shards[i].iri];
      } else {
        return Raised(single);
      }
    }
    r := Wrote(created, refused);
    assert iris[..|iris|] == iris;
  }

  /** The first `n` IRIs were checked, each once more than before: found, or absent. */
  ghost predicate RoundChecked(before: seq<Event>, log: seq<Event>, iris: seq<Iri>, n: nat, existing: seq<Iri>, absent: seq<Iri>) {
    && n <= |iris| && SubmitsOnlyAbsent(log) && HarmlessSince(before, log)
    && (forall iri :: iri in existing ==> FoundBy(log, iri))
    && (forall iri :: iri in absent ==> LeftOutBy(log, iri))
    && (forall iri :: Checks(log, iri) == Checks(before, iri) + if iri in iris[..n] then 1 else 0)
  }

  lemma CheckFor(log: seq<Event>, iri: Iri, present: bool)
    requires SubmitsOnlyAbsent(log)
    ensures var more := log + [Checked(iri, present)];
      && SubmitsOnlyAbsent(more)
      && (if present then FoundBy(more, iri) else LeftOutBy(more, iri))
      && (forall other :: other != iri ==> SameFor(log, more, other))
      && (forall other :: Checks(more, other) == Checks(log, other) + if other == iri then 1 else 0)
  {
    LogOne(log, Checked(iri, present));
    LogKeepsSubmissions(log, Checked(iri, present));
  }

  lemma RoundOne(before: seq<Event>, log: seq<Event>, iris: seq<Iri>, n: nat, existing: seq<Iri>, absent: seq<Iri>, present: bool)
    requires NoDup(iris) && RoundChecked(before, log, iris, n, existing, absent) && n < |iris|
    requires Split(iris, n, existing, absent)
    ensures var more := log + [Checked(iris[n], present)];
      if present then RoundChecked(before, more, iris, n + 1, existing + [iris[n]], absent)
      else RoundChecked(before, more, iris, n + 1, existing, absent + [iris[n]])
  {
    CheckFor(log, iris[n], present);
    SplitMembers(iris, n, existing, absent, iris[n]);
    assert iris[..n + 1] == iris[..n] + [iris[n]];
    assert iris[n] !in iris[..n];
  }

  /** The check that opens a round: who is in the corpus already, and who is to be written. */
  method CheckRound(store: Store, shards: seq<Shard>) returns (existing: seq<Iri>, absent: seq<Shard>)
    requires NoDup(Iris(shards)) && SubmitsOnlyAbsent(store.log)
    modifies store
    ensures old(store.records.Keys) <= store.records.Keys
    ensures Split(Iris(shards), |shards|, existing, Iris(absent))
    ensures RoundChecked(old(store.log), store.log, Iris(shards), |shards|, existing, Iris(absent))
    ensures forall iri :: iri in existing ==> iri in store.records
  {
    ghost var iris := Iris(shards);
    existing, absent := [], [];
    InOrderNone(iris[..0]);
    for i := 0 to |shards|
      invariant old(store.records.Keys) <= store.records.Keys
      invariant Split(iris, i, existing, Iris(absent))
      invariant RoundChecked(old(store.log), store.log, iris, i, existing, Iris(absent))
      invariant forall iri :: iri in existing ==> iri in store.records
    {
      ghost var before := store.log;
      var present := store.Check(shards[i].iri);
      RoundOne(old(store.log), before, iris, i, existing, Iris(absent), present);
      SplitOne(iris, i, existing, Iris(absent));
      if present {
        existing := existing + [shards[i].iri];
      } else {
        assert Iris(absent + [shards[i]]) == Iris(absent) + [shards[i].iri];
        absent := absent + [shards[i]];
      }
    }
  }

  /** The first `n` refused IRIs were checked again; nothing else was. */
  ghost predicate Rechecked(before: seq<Event>, log: seq<Event>, refused: seq<Iri>, n: nat, moved: seq<Iri>, still: seq<Iri>) {
    && n <= |refused| && SubmitsOnlyAbsent(log) && HarmlessSince(before, log)
    && (forall iri :: iri in moved ==> FoundBy(log, iri))
    && (forall iri :: iri in still ==> LeftOutBy(log, iri) && RefusedAndAbsent(log, iri))
    && (forall k :: n <= k < |refused| ==> RefusedAlone(log, refused[k]))
    && (forall iri :: iri !in refused ==> SameFor(before, log, iri))
    && (forall iri :: Checks(log, iri) == Checks(before, iri) + if iri in refused[..n] then 1 else 0)
  }

  lemma OneRecheck(before: seq<Event>, log: seq<Event>, refused: seq<Iri>, n: nat, moved: seq<Iri>, still: seq<Iri>, present: bool)
    requires NoDup(refused) && Rechecked(before, log, refused, n, moved, still) && n < |refused|
    requires Split(refused, n, moved, still)
    ensures var more := log + [Checked(refused[n], present)];
      if present then Rechecked(before, more, refused, n + 1, moved + [refused[n]], still)
      else Rechecked(before, more, refused, n + 1, moved, still + [refused[n]])
  {
    CheckFor(log, refused[n], present);
    SplitMembers(refused, n, moved, still, refused[n]);
    assert refused[..n + 1] == refused[..n] + [refused[n]];
    assert refused[n] !in refused[..n];
    var e := Checked(refused[n], present);
    RefusalOne(log, e, refused[n]);
    forall iri | iri in still
      ensures RefusedAndAbsent(log + [e], iri)
    {
      RefusalOne(log, e, iri);
    }
    forall k | n + 1 <= k < |refused|
      ensures RefusedAlone(log + [e], refused[k])
    {
      RefusalOne(log, e, refused[k]);
    }
  }

  /** Every refused shard is checked once more; one that landed meanwhile moves to `existing`. */
  method Recheck(store: Store, refused: seq<Iri>) returns (moved: seq<Iri>, still: seq<Iri>)
    requires SubmitsOnlyAbsent(store.log) && NoDup(refused) && forall iri :: iri in refused ==> RefusedAlone(store.log, iri)
    modifies store
    ensures old(store.records.Keys) <= store.records.Keys
    ensures Split(refused, |refused|, moved, still)
    ensures Rechecked(old(store.log), store.log, refused, |refused|, moved, still)
    ensures forall iri :: iri in moved ==> iri in store.records
  {
    moved, still := [], [];
    InOrderNone(refused[..0]);
    for i := 0 to |refused|
      invariant old(store.records.Keys) <= store.records.Keys
      invariant Split(refused, i, moved, still)
      invariant Rechecked(old(store.log), store.log, refused, i, moved, still)
      invariant forall iri :: iri in moved ==> iri in store.records
    {
      ghost var before := store.log;
      var present := store.Check(refused[i]);
      OneRecheck(old(store.log), before, refused, i, moved, still, present);
      SplitOne(refused, i, moved, still);
      if present {
        moved := moved + [refused[i]];
      } else {
        still := still + [refused[i]];
      }
    }
  }

  /** `sorted(set(existing), key=order)`: the mapped order, each IRI once. */
  function InMappedOrder(iris: seq<Iri>, members: seq<Iri>): seq<Iri> {
    if iris == [] then []
    else
      var last := iris[|iris| - 1];
      InMappedOrder(iris[..|iris| - 1], members) + if last in members then [last] else []
  }

  /** Reordering distinct mapped IRIs loses and adds none, and leaves them in mapped order. */
  lemma {:induction false} InMappedOrderKeeps(iris: seq<Iri>, members: seq<Iri>)
    requires NoDup(iris)
    ensures forall x :: x in InMappedOrder(iris, members) <==> x in iris && x in members
    ensures NoDup(InMappedOrder(iris, members)) && InOrder(InMappedOrder(iris, members), iris)
  {
    if iris == [] {
      InOrderNone(iris);
    } else {
      var front, last := iris[..|iris| - 1], iris[|iris| - 1];
      InMappedOrderKeeps(front, members);
      assert iris == front + [last];
      assert last !in front;
      InOrderMore(InMappedOrder(front, members), front, last);
      assert InMappedOrder(front, members) + [] == InMappedOrder(front, members);
    }
  }

  datatype Report = Report(created: seq<Iri>, existing: seq<Iri>, refused: seq<Iri>)

  const MAX_ATTEMPTS: nat := 3

  /** The report's three lists hold every mapped IRI exactly once. */
  ghost predicate Partition(r: Report, iris: seq<Iri>) {
    multiset(r.created) + multiset(r.existing) + multiset(r.refused) == multiset(iris)
  }

  /** What the rounds return: three lists in mapped order that hold every IRI once, each by its verdict. */
  ghost predicate Sorted3(log: seq<Event>, iris: seq<Iri>, existing: seq<Iri>, created: seq<Iri>, refused: seq<Iri>) {
    && multiset(existing) + multiset(created) + multiset(refused) == multiset(iris)
    && InOrder(existing, iris) && InOrder(created, iris) && InOrder(refused, iris)
    && (forall iri :: iri in existing ==> FoundBy(log, iri))
    && (forall iri :: iri in created ==> CreatedBy(log, iri))
    && (forall iri :: iri in refused ==> LeftOutBy(log, iri) && RefusedAlone(log, iri))
  }

  /** The last submission ended in `outcome`, and nothing before it should have ended the loop. */
  ghost predicate FailedWith(log: seq<Event>, outcome: Outcome, callersOp: bool) {
    && log != [] && log[|log| - 1].Submitted? && log[|log| - 1].outcome == outcome
    && NothingFatal(log[..|log| - 1], callersOp)
  }

  /** Each mapped IRI was checked once in every round. */
  ghost predicate CheckedEachRound(before: seq<Event>, log: seq<Event>, iris: seq<Iri>, rounds: nat) {
    forall iri :: iri in iris ==> Checks(log, iri) == Checks(before, iri) + rounds
  }

  /** The retry loop: who existed, who was created and who was refused when it ended, or what it raised. */
  method RunRounds(store: Store, shards: seq<Shard>, callersOp: bool)
    returns (failure: Option<Outcome>, existing: seq<Iri>, created: seq<Iri>, refused: seq<Iri>, rounds: nat)
    requires NoDup(Iris(shards)) && SubmitsOnlyAbsent(store.log) && NothingFatal(store.log, callersOp)
    modifies store
    ensures old(store.records.Keys) <= store.records.Keys
    ensures 1 <= rounds <= MAX_ATTEMPTS && CheckedEachRound(old(store.log), store.log, Iris(shards), rounds)
    ensures SubmitsOnlyAbsent(store.log)
    ensures failure.None? ==> Sorted3(store.log, Iris(shards), existing, created, refused) && NothingFatal(store.log, callersOp)
    ensures failure.None? ==> forall iri :: iri in existing || iri in created ==> iri in store.records
    ensures failure.Some? ==> failure.value == IdentityViolation || failure.value == OperationIdConflict || failure.value == StorageFailure
    ensures failure.Some? ==> FailedWith(store.log, failure.value, callersOp)
    ensures failure == Some(IdentityViolation) || (failure == Some(OperationIdConflict) && !callersOp) ==> rounds == MAX_ATTEMPTS
  {
    existing, created, refused, rounds := [], [], [], 0;
    ghost var iris := Iris(shards);
    for attempt := 0 to MAX_ATTEMPTS
      invariant attempt < MAX_ATTEMPTS && rounds == attempt
      invariant old(store.records.Keys) <= store.records.Keys
      invariant SubmitsOnlyAbsent(store.log) && NothingFatal(store.log, callersOp)
      invariant CheckedEachRound(old(store.log), store.log, iris, rounds)
    {
      var absent;
      existing, absent := CheckRound(store, shards);
      rounds := rounds + 1;
      ghost var checked := store.log;
      assert iris[..|iris|] == iris;
      RoundIsSorted(checked, iris, existing, Iris(absent));
      if absent == [] {
        return None, existing, [], [], rounds;
      }
      AbsentLeftOut(checked, absent);
      var written := WriteNew(store, absent);
      if written.Wrote? {
        WrittenIsSorted(checked, store.log, iris, existing, Iris(absent), written.created, written.refused);
        return None, existing, written.created, written.refused, rounds;
      }
      StopsAt(checked, store.log, written.outcome, callersOp);
      if written.outcome == Refused {
        assert Iris(absent) == [absent[0].iri];
        OneIsSorted(checked, store.log, iris, existing, absent[0].iri);
        return None, existing, [], [absent[0].iri], rounds;
      }
      if written.outcome == StorageFailure || attempt == MAX_ATTEMPTS - 1 || (callersOp && written.outcome == OperationIdConflict) {
        return Some(written.outcome), [], [], [], rounds;
      }
    }
    failure := None;
  }

  lemma AbsentLeftOut(log: seq<Event>, absent: seq<Shard>)
    requires forall iri :: iri in Iris(absent) ==> LeftOutBy(log, iri)
    ensures AllAbsent(log, absent)
  {
    forall i | 0 <= i < |absent|
      ensures LeftOutBy(log, absent[i].iri)
    {
      assert Iris(absent)[i] in Iris(absent);
    }
  }

  /** The check of a round splits the IRIs, in order, and the absent ones are distinct. */
  lemma RoundIsSorted(log: seq<Event>, iris: seq<Iri>, existing: seq<Iri>, absent: seq<Iri>)
    requires NoDup(iris) && Split(iris, |iris|, existing, absent)
    requires forall iri :: iri in existing ==> FoundBy(log, iri)
    ensures NoDup(absent) && InOrder(existing, iris) && InOrder(absent, iris)
    ensures absent == [] ==> Sorted3(log, iris, existing, [], [])
  {
    assert iris[..|iris|] == iris;
    InOrderNone(iris);
    PartIsNoDup(iris, existing, [], absent);
  }

  lemma WrittenIsSorted(before: seq<Event>, log: seq<Event>, iris: seq<Iri>, existing: seq<Iri>, absent: seq<Iri>, created: seq<Iri>, refused: seq<Iri>)
    requires NoDup(iris) && Split(iris, |iris|, existing, absent)
    requires forall iri :: iri in existing ==> FoundBy(before, iri)
    requires WroteTruly(before, log, absent, created, refused)
    ensures Sorted3(log, iris, existing, created, refused)
  {
    assert iris[..|iris|] == iris && absent[..|absent|] == absent;
    InOrderThrough(created, absent, iris);
    InOrderThrough(refused, absent, iris);
  }

  lemma OneIsSorted(before: seq<Event>, log: seq<Event>, iris: seq<Iri>, existing: seq<Iri>, absent: Iri)
    requires NoDup(iris) && Split(iris, |iris|, existing, [absent]) && OnlySubmits(before, log)
    requires forall iri :: iri in existing ==> FoundBy(before, iri)
    requires LeftOutBy(log, absent) && RefusedAlone(log, absent)
    ensures Sorted3(log, iris, existing, [], [absent])
  {
    assert iris[..|iris|] == iris;
    InOrderNone(iris);
  }

  lemma StopsAt(before: seq<Event>, log: seq<Event>, outcome: Outcome, callersOp: bool)
    requires NothingFatal(before, callersOp) && EndedBy(before, log, outcome)
    ensures FailedWith(log, outcome, callersOp)
    ensures outcome != StorageFailure && !(callersOp && outcome == OperationIdConflict) ==> NothingFatal(log, callersOp)
  {
    var front := log[..|log| - 1];
    assert forall k :: 0 <= k < |before| ==> front[k] == before[k];
    assert forall k :: 0 <= k < |front| ==> log[k] == front[k];
  }

  /** The report's lists are the mapped IRIs, in mapped order, that the log says were created, found and refused. */
  ghost predicate Truthful(log: seq<Event>, r: Report, iris: seq<Iri>) {
    && Picks(r.created, iris, set k | 0 <= k < |iris| && CreatedBy(log, iris[k]))
    && Picks(r.existing, iris, set k | 0 <= k < |iris| && FoundBy(log, iris[k]))
    && Picks(r.refused, iris, set k | 0 <= k < |iris| && LeftOutBy(log, iris[k]))
    && (forall iri :: iri in r.refused ==> RefusedAndAbsent(log, iri))
  }

  function EntryIris(entries: seq<Manifest.Entry>): (r: seq<Iri>)
    ensures |r| == |entries|
    ensures forall i :: 0 <= i < |r| ==> r[i] == entries[i].iri
  {
    seq(|entries|, i requires 0 <= i < |entries| => entries[i].iri)
  }

  /** `[entry for entry in mapped.manifest if entry.iri in landed]`. */
  function WithIris(entries: seq<Manifest.Entry>, landed: seq<Iri>): seq<Manifest.Entry> {
    if entries == [] then []
    else
      var last := entries[|entries| - 1];
      WithIris(entries[..|entries| - 1], landed) + if last.iri in landed then [last] else []
  }

  /** The entries whose IRI is among `landed`, each once and in order. */
  lemma {:induction false} WithIrisExact(entries: seq<Manifest.Entry>, landed: seq<Iri>)
    ensures Picks(WithIris(entries, landed), entries, set k | 0 <= k < |entries| && entries[k].iri in landed)
  {
    var keep := set k | 0 <= k < |entries| && entries[k].iri in landed;
    if entries == [] {
      PicksNone(entries);
      assert keep == {};
    } else {
      var front, last := entries[..|entries| - 1], entries[|entries| - 1];
      var before := set k | 0 <= k < |front| && front[k].iri in landed;
      WithIrisExact(front, landed);
      PicksMore(WithIris(front, landed), front, before, last);
      assert entries == front + [last];
      assert keep == before + if last.iri in landed then {|front|} else {};
      assert WithIris(front, landed) + [] == WithIris(front, landed);
    }
  }

  /**
   `ingest_record` after the mapping: what it reports, and the mapped manifest entries it hands on. The log
   starts empty, so all it says is of this call.
   */
  method IngestRecord(store: Store, shards: seq<Shard>, manifest: seq<Manifest.Entry>, callersOp: bool)
    returns (r: Result<Report, Outcome>, offered: seq<Manifest.Entry>, rounds: nat)
    requires NoDup(Iris(shards)) && EntryIris(manifest) == Iris(shards)
    modifies store
    ensures old(store.records.Keys) <= store.records.Keys
    ensures SubmitsOnlyAbsent(store.log)
    ensures r.Ok? ==> Partition(r.value, Iris(shards)) && Truthful(store.log, r.value, Iris(shards))
    ensures r.Ok? ==> NothingFatal(store.log, callersOp)
    ensures r.Ok? ==> forall iri :: iri in r.value.created || iri in r.value.existing ==> iri in store.records
    ensures r.Ok? ==>
      Picks(offered, manifest, set k | 0 <= k < |manifest| && (manifest[k].iri in r.value.created || manifest[k].iri in r.value.existing))
    ensures r.Err? ==> offered == [] && FailedWith(store.log, r.error, callersOp)
    ensures r.Err? ==> r.error == IdentityViolation || r.error == OperationIdConflict || r.error == StorageFailure
    ensures 1 <= rounds <= MAX_ATTEMPTS
    ensures r == Err(IdentityViolation) || (r == Err(OperationIdConflict) && !callersOp) ==> rounds == MAX_ATTEMPTS
    ensures forall iri :: iri in Iris(shards) ==> rounds <= Checks(store.log, iri) <= rounds + if r.Ok? then 1 else 0
  {
    var failure, existing, created, refused;
    offered, store.log := [], [];
    failure, existing, created, refused, rounds := RunRounds(store, shards, callersOp);
    if failure.Some? {
      return Err(failure.value), offered, rounds;
    }
    ghost var before, iris := store.log, Iris(shards);
    PartIsNoDup(iris, existing, created, refused);
    var moved, still := Recheck(store, refused);
    var present := InMappedOrder(Iris(shards), existing + moved);
    InMappedOrderKeeps(iris, existing + moved);
    FatalSurvives(before, store.log, callersOp);
    ReportIsTrue(before, store.log, iris, existing, created, refused, moved, still, present);
    var landed := created + present;
    offered := WithIris(manifest, landed);
    WithIrisExact(manifest, landed);
    assert (set k | 0 <= k < |manifest| && manifest[k].iri in landed) ==
      set k | 0 <= k < |manifest| && (manifest[k].iri in created || manifest[k].iri in present);
    r := Ok(Report(created, present, still));
  }

  lemma FatalSurvives(before: seq<Event>, log: seq<Event>, callersOp: bool)
    requires NothingFatal(before, callersOp) && HarmlessSince(before, log)
    ensures NothingFatal(log, callersOp)
  {
    assert forall k :: 0 <= k < |before| ==> log[k] == before[k];
  }

  /** After the second check the report still sorts every IRI by what the log says of it. */
  lemma ReportIsTrue(before: seq<Event>, log: seq<Event>, iris: seq<Iri>, existing: seq<Iri>, created: seq<Iri>, refused: seq<Iri>,
                     moved: seq<Iri>, still: seq<Iri>, present: seq<Iri>)
    requires NoDup(iris) && Sorted3(before, iris, existing, created, refused)
    requires Split(refused, |refused|, moved, still) && Rechecked(before, log, refused, |refused|, moved, still)
    requires present == InMappedOrder(iris, existing + moved)
    ensures var r := Report(created, present, still); Partition(r, iris) && Truthful(log, r, iris)
    ensures forall iri :: iri in present ==> iri in existing || iri in moved
  {
    var r := Report(created, present, still);
    assert refused[..|refused|] == refused;
    PartIsNoDup(iris, existing, created, refused);
    Reassemble(iris, created, existing, moved, still, present);
    InMappedOrderKeeps(iris, existing + moved);
    InOrderThrough(still, refused, iris);
    forall iri
      ensures iri in created ==> CreatedBy(log, iri)
      ensures iri in present ==> FoundBy(log, iri)
      ensures iri in still ==> LeftOutBy(log, iri)
    {
      SplitMembers(refused, |refused|, moved, still, iri);
    }
    PartitionIsTruthful(log, r, iris);
  }

  /** The three verdicts exclude each other, so ordered lists that go by them are the whole truth. */
  lemma PartitionIsTruthful(log: seq<Event>, r: Report, iris: seq<Iri>)
    requires Partition(r, iris) && InOrder(r.created, iris) && InOrder(r.existing, iris) && InOrder(r.refused, iris)
    requires forall iri :: iri in r.created ==> CreatedBy(log, iri)
    requires forall iri :: iri in r.existing ==> FoundBy(log, iri)
    requires forall iri :: iri in r.refused ==> LeftOutBy(log, iri) && RefusedAndAbsent(log, iri)
    ensures Truthful(log, r, iris)
  {
    forall k | 0 <= k < |iris|
      ensures iris[k] in r.created || iris[k] in r.existing || iris[k] in r.refused
    {
      assert iris[k] in multiset(iris);
      assert iris[k] in multiset(r.created) || iris[k] in multiset(r.existing) || iris[k] in multiset(r.refused);
    }
    assert (set k | 0 <= k < |iris| && CreatedBy(log, iris[k])) == set k | 0 <= k < |iris| && iris[k] in r.created;
    assert (set k | 0 <= k < |iris| && FoundBy(log, iris[k])) == set k | 0 <= k < |iris| && iris[k] in r.existing;
    assert (set k | 0 <= k < |iris| && LeftOutBy(log, iris[k])) == set k | 0 <= k < |iris| && iris[k] in r.refused;
  }

  lemma PartIsNoDup(iris: seq<Iri>, existing: seq<Iri>, created: seq<Iri>, refused: seq<Iri>)
    requires NoDup(iris) && multiset(existing) + multiset(created) + multiset(refused) == multiset(iris)
    ensures NoDup(refused) && NoDup(existing)
    ensures forall x :: x in refused ==> x !in existing && x !in created
  {
    forall x
      ensures multiset(refused)[x] + multiset(existing)[x] + multiset(created)[x] <= 1
    {
      Sorting.CountOfNoDup(iris, x);
    }
    forall x | x in refused
      ensures x !in existing && x !in created
    {
      assert x in multiset(refused);
      assert x in existing ==> x in multiset(existing);
      assert x in created ==> x in multiset(created);
    }
    Sorting.NoDupByCount(refused);
    Sorting.NoDupByCount(existing);
  }

  lemma Reassemble(iris: seq<Iri>, created: seq<Iri>, existing: seq<Iri>, moved: seq<Iri>, still: seq<Iri>, present: seq<Iri>)
    requires NoDup(iris) && multiset(existing) + multiset(created) + multiset(moved) + multiset(still) == multiset(iris)
    requires present == InMappedOrder(iris, existing + moved)
    ensures multiset(created) + multiset(present) + multiset(still) == multiset(iris)
    ensures forall iri :: iri in present ==> iri in existing || iri in moved
  {
    forall x
      ensures multiset(existing + moved)[x] <= 1
      ensures x in existing + moved ==> x in iris
    {
      Sorting.CountOfNoDup(iris, x);
      assert x in existing + moved ==> x in multiset(existing + moved) && x in multiset(iris);
    }
    Sorting.NoDupByCount(existing + moved);
    InMappedOrderKeeps(iris, existing + moved);
    Sorting.NoDupMultiset(present, existing + moved);
  }
}
