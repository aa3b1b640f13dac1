/**
 The bridge-ingest provenance manifest: what an append adds, what a read
 groups, and the loops that do both. `ManifestProtocol` interleaves them.
 */
module Manifest {
  import opened Sequences
  import opened OrderedCache

  type Corpus = string
  type Iri = string

  datatype Key = Key(corpus: Corpus, iri: Iri, documentId: string, propositionId: string)

  /** A JSON line: the four fields that make its key, and its serialized text without the newline. */
  datatype Line = Line(key: Key, text: string)

  ghost predicate NoKeyTwice(content: seq<Line>) {
    forall i, j :: 0 <= i < j < |content| ==> content[i].key != content[j].key
  }

  function KeysOf(content: seq<Line>): (r: set<Key>)
    ensures forall i :: 0 <= i < |content| ==> content[i].key in r
    ensures forall k :: k in r ==> exists i :: 0 <= i < |content| && content[i].key == k
  {
    set i | 0 <= i < |content| :: content[i].key
  }

  /** The candidate lines whose key is neither seen nor on an earlier candidate, in order. */
  function NewLines(seen: set<Key>, candidates: seq<Line>): seq<Line> {
    if candidates == [] then []
    else
      var front, last := NewLines(seen, candidates[..|candidates| - 1]), candidates[|candidates| - 1];
      if last.key in seen || last.key in KeysOf(front) then front else front + [last]
  }

  lemma KeysOfAppend(a: seq<Line>, b: seq<Line>)
    ensures KeysOf(a + b) == KeysOf(a) + KeysOf(b)
  {
    forall k
      ensures k in KeysOf(a + b) <==> k in KeysOf(a) || k in KeysOf(b)
    {
      if k in KeysOf(a) {
        var i :| 0 <= i < |a| && a[i].key == k;
        assert (a + b)[i].key == k;
      }
      if k in KeysOf(b) {
        var i :| 0 <= i < |b| && b[i].key == k;
        assert (a + b)[|a| + i].key == k;
      }
    }
  }

  /** Candidate `k` has a key that is neither seen nor on an earlier candidate. */
  predicate FirstOfKey(seen: set<Key>, candidates: seq<Line>, k: int) {
    0 <= k < |candidates| && candidates[k].key !in seen && forall j :: 0 <= j < k ==> candidates[j].key != candidates[k].key
  }

  /** The first candidate of every unseen key, in candidate order. */
  ghost predicate FirstOfKeys(more: seq<Line>, seen: set<Key>, candidates: seq<Line>) {
    Picks(more, candidates, set k | 0 <= k < |candidates| && FirstOfKey(seen, candidates, k))
  }

  lemma FirstOfKeysMore(more: seq<Line>, seen: set<Key>, candidates: seq<Line>, l: Line)
    requires FirstOfKeys(more, seen, candidates)
    ensures FirstOfKeys(if l.key in seen || l.key in KeysOf(candidates) then more else more + [l], seen, candidates + [l])
  {
    var longer := candidates + [l];
    var keep := set k | 0 <= k < |candidates| && FirstOfKey(seen, candidates, k);
    PicksMore(more, candidates, keep, l);
    forall k | 0 <= k < |candidates|
      ensures FirstOfKey(seen, longer, k) <==> FirstOfKey(seen, candidates, k)
    {
      assert forall j :: 0 <= j <= k ==> longer[j] == candidates[j];
    }
    var n := |candidates|;
    assert FirstOfKey(seen, longer, n) <==> l.key !in seen && l.key !in KeysOf(candidates) by {
      assert longer[n] == l && forall j :: 0 <= j < n ==> longer[j] == candidates[j];
    }
    assert (set k | 0 <= k < |longer| && FirstOfKey(seen, longer, k)) ==
      if l.key in seen || l.key in KeysOf(candidates) then keep else keep + {n};
  }

  /** New lines have fresh, distinct keys, come from the candidates, and leave no candidate key out. */
  lemma {:induction false} NewLinesExact(seen: set<Key>, candidates: seq<Line>)
    ensures var more := NewLines(seen, candidates);
      && NoKeyTwice(more)
      && KeysOf(more) !! seen
      && KeysOf(more) + seen == KeysOf(candidates) + seen
      && (forall l :: l in more ==> l in candidates)
  {
    if candidates != [] {
      var front, last := candidates[..|candidates| - 1], candidates[|candidates| - 1];
      NewLinesExact(seen, front);
      assert candidates == front + [last];
      KeysOfAppend(front, [last]);
      KeysOfAppend(NewLines(seen, front), [last]);
      assert KeysOf([last]) == {last.key} by {
        assert [last][0].key == last.key;
      }
    }
  }

  lemma FirstOfNone(seen: set<Key>)
    ensures FirstOfKeys([], seen, [])
  {
    PicksNone<Line>([]);
    var none: seq<Line> := [];
    assert (set k | 0 <= k < |none| && FirstOfKey(seen, none, k)) == {};
  }

  lemma NewLinesMore(seen: set<Key>, candidates: seq<Line>, l: Line)
    ensures NewLines(seen, candidates + [l]) ==
      if l.key in seen || l.key in KeysOf(candidates) then NewLines(seen, candidates) else NewLines(seen, candidates) + [l]
  {
    NewLinesExact(seen, candidates);
    assert (candidates + [l])[..|candidates|] == candidates;
    assert l.key in KeysOf(NewLines(seen, candidates)) + seen <==> l.key in KeysOf(candidates) + seen;
  }

  lemma FirstStaysFirst(seen: set<Key>, candidates: seq<Line>, l: Line)
    requires FirstOfKeys(NewLines(seen, candidates), seen, candidates)
    ensures FirstOfKeys(NewLines(seen, candidates + [l]), seen, candidates + [l])
  {
    FirstOfKeysMore(NewLines(seen, candidates), seen, candidates, l);
    NewLinesMore(seen, candidates, l);
  }

  /** New lines are the first candidate of every unseen key, each once and in order. */
  lemma {:induction false} NewLinesAreFirst(seen: set<Key>, candidates: seq<Line>)
    ensures FirstOfKeys(NewLines(seen, candidates), seen, candidates)
  {
    if candidates == [] {
      FirstOfNone(seen);
    } else {
      var front, last := candidates[..|candidates| - 1], candidates[|candidates| - 1];
      NewLinesAreFirst(seen, front);
      FirstStaysFirst(seen, front, last);
      assert candidates == front + [last];
    }
  }

  /** Appending what is new keeps every key on one line and puts every candidate's key in the file. */
  lemma AppendKeepsKeys(content: seq<Line>, candidates: seq<Line>)
    requires NoKeyTwice(content)
    ensures var grown := content + NewLines(KeysOf(content), candidates);
      NoKeyTwice(grown) && KeysOf(grown) == KeysOf(content) + KeysOf(candidates)
  {
    var more := NewLines(KeysOf(content), candidates);
    NewLinesExact(KeysOf(content), candidates);
    KeysOfAppend(content, more);
    forall i, j | 0 <= i < j < |content + more|
      ensures (content + more)[i].key != (content + more)[j].key
    {
      assert i < |content| ==> content[i].key in KeysOf(content);
      assert j >= |content| ==> more[j - |content|].key in KeysOf(more);
    }
  }

  /** A repeated append has nothing to add. */
  lemma {:induction false} NothingNew(seen: set<Key>, candidates: seq<Line>)
    ensures NewLines(seen, candidates) == [] <==> KeysOf(candidates) <= seen
  {
    NewLinesExact(seen, candidates);
    var more := NewLines(seen, candidates);
    if more != [] {
      assert more[0].key in KeysOf(more);
    }
  }

  /** Once the first of the new lines have landed, the others are what is still new. */
  lemma {:induction false} RestIsStillNew(seen: set<Key>, candidates: seq<Line>, n: nat)
    requires n <= |NewLines(seen, candidates)|
    ensures var more := NewLines(seen, candidates); NewLines(seen + KeysOf(more[..n]), candidates) == more[n..]
    decreases |candidates|
  {
    var more := NewLines(seen, candidates);
    if n == |more| {
      assert more[..n] == more && more[n..] == [];
      NewLinesExact(seen, candidates);
      NothingNew(seen + KeysOf(more), candidates);
    } else {
      var front, last := candidates[..|candidates| - 1], candidates[|candidates| - 1];
      var before := NewLines(seen, front);
      RestIsStillNew(seen, front, n);
      assert more[..n] == before[..n];
      CutKeys(before, n);
    }
  }

  lemma CutKeys(lines: seq<Line>, n: nat)
    requires n <= |lines|
    ensures KeysOf(lines) == KeysOf(lines[..n]) + KeysOf(lines[n..])
  {
    KeysOfAppend(lines[..n], lines[n..]);
    assert lines[..n] + lines[n..] == lines;
  }

  lemma LandedKeys(content: seq<Line>, added: seq<Line>, n: nat)
    requires n <= |added|
    ensures KeysOf(content + added[..n]) == KeysOf(content) + KeysOf(added[..n])
    ensures KeysOf(added) == KeysOf(added[..n]) + KeysOf(added[n..])
  {
    KeysOfAppend(content, added[..n]);
    KeysOfAppend(added[..n], added[n..]);
    assert added[..n] + added[n..] == added;
  }

  lemma LandedKeepsKeys(content: seq<Line>, candidates: seq<Line>, n: nat)
    requires NoKeyTwice(content) && n <= |NewLines(KeysOf(content), candidates)|
    ensures NoKeyTwice(content + NewLines(KeysOf(content), candidates)[..n])
  {
    var added := NewLines(KeysOf(content), candidates);
    AppendKeepsKeys(content, candidates);
    assert forall i :: 0 <= i < |content + added[..n]| ==> (content + added[..n])[i] == (content + added)[i];
  }

  /** The deduplicating loop of `append_manifest`. */
  method SelectNew(seen0: set<Key>, candidates: seq<Line>) returns (more: seq<Line>, seen: set<Key>)
    ensures more == NewLines(seen0, candidates) && FirstOfKeys(more, seen0, candidates)
    ensures seen == seen0 + KeysOf(more)
  {
    NewLinesAreFirst(seen0, candidates);
    more, seen := [], seen0;
    for i := 0 to |candidates|
      invariant more == NewLines(seen0, candidates[..i])
      invariant seen == seen0 + KeysOf(more)
    {
      assert candidates[..i + 1][..i] == candidates[..i];
      if candidates[i].key !in seen {
        KeysOfAppend(more, [candidates[i]]);
        assert [candidates[i]][0].key == candidates[i].key;
        more, seen := more + [candidates[i]], seen + {candidates[i].key};
      }
    }
    assert candidates[..|candidates|] == candidates;
  }

  // The PII gate and the lines of an ingest.

  /** The proposition-level provenance of one shard. */
  datatype Entry = Entry(iri: Iri, sources: seq<Source>)

  datatype Source = Source(documentId: string, propositionId: string, text: string)

  function SourceLines(corpus: Corpus, iri: Iri, sources: seq<Source>): (r: seq<Line>)
    ensures |r| == |sources|
    ensures forall i :: 0 <= i < |r| ==> r[i] == Line(Key(corpus, iri, sources[i].documentId, sources[i].propositionId), sources[i].text)
  {
    seq(|sources|, i requires 0 <= i < |sources| =>
      Line(Key(corpus, iri, sources[i].documentId, sources[i].propositionId), sources[i].text))
  }

  /** `manifest_lines`. */
  function ManifestLines(corpus: Corpus, entries: seq<Entry>): seq<Line> {
    if entries == [] then []
    else
      var last := entries[|entries| - 1];
      ManifestLines(corpus, entries[..|entries| - 1]) + SourceLines(corpus, last.iri, last.sources)
  }

  lemma ManifestLinesNext(corpus: Corpus, entries: seq<Entry>, e: Entry)
    ensures ManifestLines(corpus, entries + [e]) == ManifestLines(corpus, entries) + SourceLines(corpus, e.iri, e.sources)
  {
    assert (entries + [e])[..|entries|] == entries;
  }

  /** One line per source of an entry, in order. */
  ghost predicate LinesOfEntry(corpus: Corpus, e: Entry, lines: seq<Line>) {
    && |lines| == |e.sources|
    && forall i :: 0 <= i < |lines| ==>
         lines[i].key == Key(corpus, e.iri, e.sources[i].documentId, e.sources[i].propositionId) && lines[i].text == e.sources[i].text
  }

  lemma OneEntryLines(corpus: Corpus, e: Entry)
    ensures LinesOfEntry(corpus, e, ManifestLines(corpus, [e]))
  {
    ManifestLinesNext(corpus, [], e);
    assert [] + [e] == [e];
    assert [] + SourceLines(corpus, e.iri, e.sources) == SourceLines(corpus, e.iri, e.sources);
  }

  lemma Glue(a: seq<Line>, b: seq<Line>, c: seq<Line>)
    ensures (a + b) + c == a + (b + c)
  {
  }

  lemma ManifestLinesMore(corpus: Corpus, a: seq<Entry>, b: seq<Entry>, e: Entry, whole: seq<Entry>)
    requires ManifestLines(corpus, a + b) == ManifestLines(corpus, a) + ManifestLines(corpus, b) && whole == (a + b) + [e]
    ensures ManifestLines(corpus, whole) == ManifestLines(corpus, a) + ManifestLines(corpus, b + [e])
  {
    ManifestLinesNext(corpus, a + b, e);
    ManifestLinesNext(corpus, b, e);
    Glue(ManifestLines(corpus, a), ManifestLines(corpus, b), SourceLines(corpus, e.iri, e.sources));
  }

  /** Entry after entry. */
  lemma {:induction false} ManifestLinesJoin(corpus: Corpus, a: seq<Entry>, b: seq<Entry>)
    ensures ManifestLines(corpus, a + b) == ManifestLines(corpus, a) + ManifestLines(corpus, b)
    decreases |b|
  {
    if b == [] {
      assert a + b == a;
    } else {
      var front, last := b[..|b| - 1], b[|b| - 1];
      ManifestLinesJoin(corpus, a, front);
      assert a + b == (a + front) + [last] && b == front + [last];
      ManifestLinesMore(corpus, a, front, last, a + b);
    }
  }

  /** The lines on which the gate gives this verdict, each once and in order. */
  ghost predicate Screened(part: seq<Line>, lines: seq<Line>, clean: Line -> bool, verdict: bool) {
    Picks(part, lines, set k | 0 <= k < |lines| && clean(lines[k]) == verdict)
  }

  lemma ScreenOne(part: seq<Line>, lines: seq<Line>, clean: Line -> bool, verdict: bool, l: Line)
    requires Screened(part, lines, clean, verdict)
    ensures Screened(if clean(l) == verdict then part + [l] else part, lines + [l], clean, verdict)
  {
    var keep := set k | 0 <= k < |lines| && clean(lines[k]) == verdict;
    var more := set k | 0 <= k < |lines + [l]| && clean((lines + [l])[k]) == verdict;
    PicksMore(part, lines, keep, l);
    assert forall k :: 0 <= k < |lines| ==> (lines + [l])[k] == lines[k];
    assert more == if clean(l) == verdict then keep + {|lines|} else keep;
  }

  /** Both parts of the lines, and nothing lost. */
  ghost predicate Sifted(lines: seq<Line>, clean: Line -> bool, candidates: seq<Line>, refused: seq<Line>) {
    && Screened(candidates, lines, clean, true) && Screened(refused, lines, clean, false)
    && multiset(candidates) + multiset(refused) == multiset(lines)
  }

  lemma SiftOne(lines: seq<Line>, clean: Line -> bool, candidates: seq<Line>, refused: seq<Line>, l: Line)
    requires Sifted(lines, clean, candidates, refused)
    ensures clean(l) ==> Sifted(lines + [l], clean, candidates + [l], refused)
    ensures !clean(l) ==> Sifted(lines + [l], clean, candidates, refused + [l])
  {
    ScreenOne(candidates, lines, clean, true, l);
    ScreenOne(refused, lines, clean, false, l);
  }

  /** Splits lines by the gate's verdict, both parts in order. */
  method Screen(lines: seq<Line>, clean: Line -> bool) returns (candidates: seq<Line>, refused: seq<Line>)
    ensures Sifted(lines, clean, candidates, refused)
    ensures KeysOf(candidates) == (set l | l in lines && clean(l) :: l.key)
  {
    candidates, refused := [], [];
    PicksNone<Line>([]);
    for i := 0 to |lines|
      invariant Sifted(lines[..i], clean, candidates, refused)
    {
      assert lines[..i + 1] == lines[..i] + [lines[i]];
      SiftOne(lines[..i], clean, candidates, refused, lines[i]);
      if clean(lines[i]) {
        candidates := candidates + [lines[i]];
      } else {
        refused := refused + [lines[i]];
      }
    }
    assert lines[..|lines|] == lines;
    CleanKeys(candidates, lines, clean);
  }

  lemma CleanKeys(candidates: seq<Line>, lines: seq<Line>, clean: Line -> bool)
    requires Screened(candidates, lines, clean, true)
    ensures KeysOf(candidates) == (set l | l in lines && clean(l) :: l.key)
  {
    PicksMembers(candidates, lines, set k | 0 <= k < |lines| && clean(lines[k]) == true);
    KeysOfMembers(candidates);
    forall l
      ensures l in candidates <==> l in lines && clean(l)
    {
      if l in lines && clean(l) {
        var k :| 0 <= k < |lines| && lines[k] == l;
      }
    }
  }

  lemma KeysOfMembers(s: seq<Line>)
    ensures KeysOf(s) == set l | l in s :: l.key
  {
  }

  // Reading.

  function Lookup(out: map<Iri, seq<Line>>, iri: Iri): seq<Line> {
    if iri in out then out[iri] else []
  }

  /** The corpus's lines for one IRI, in file order. */
  function LinesFor(content: seq<Line>, corpus: Corpus, iri: Iri): seq<Line> {
    if content == [] then []
    else
      var last := content[|content| - 1];
      LinesFor(content[..|content| - 1], corpus, iri) +
      if last.key.corpus == corpus && last.key.iri == iri then [last] else []
  }

  /** Line `k` is of this corpus and this IRI. */
  predicate IsFor(content: seq<Line>, corpus: Corpus, iri: Iri, k: int) {
    0 <= k < |content| && content[k].key.corpus == corpus && content[k].key.iri == iri
  }

  /** `group` is every line of the corpus and the IRI, each once and in file order. */
  ghost predicate GroupOf(group: seq<Line>, content: seq<Line>, corpus: Corpus, iri: Iri) {
    Picks(group, content, set k | 0 <= k < |content| && IsFor(content, corpus, iri, k))
  }

  /** `iri -> manifest lines` for one corpus: the IRIs that have lines, each with all of its lines. */
  ghost predicate Grouped(out: map<Iri, seq<Line>>, content: seq<Line>, corpus: Corpus) {
    && (forall iri :: iri in out <==> exists k :: IsFor(content, corpus, iri, k))
    && (forall iri :: iri in out ==> GroupOf(out[iri], content, corpus, iri))
  }

  lemma GroupOfMore(group: seq<Line>, content: seq<Line>, corpus: Corpus, iri: Iri, l: Line)
    requires GroupOf(group, content, corpus, iri)
    ensures GroupOf(if l.key.corpus == corpus && l.key.iri == iri then group + [l] else group, content + [l], corpus, iri)
  {
    var keep, n := set k | 0 <= k < |content| && IsFor(content, corpus, iri, k), |content|;
    PicksMore(group, content, keep, l);
    assert forall k :: 0 <= k < n ==> (IsFor(content + [l], corpus, iri, k) <==> IsFor(content, corpus, iri, k));
    assert (set k | 0 <= k < |content + [l]| && IsFor(content + [l], corpus, iri, k)) ==
      if l.key.corpus == corpus && l.key.iri == iri then keep + {n} else keep;
  }

  lemma GroupOfNothing(content: seq<Line>, corpus: Corpus, iri: Iri)
    requires forall k :: !IsFor(content, corpus, iri, k)
    ensures GroupOf([], content, corpus, iri)
  {
    PicksNone(content);
    assert (set k | 0 <= k < |content| && IsFor(content, corpus, iri, k)) == {};
  }

  lemma LinesForNext(content: seq<Line>, corpus: Corpus, iri: Iri, l: Line)
    ensures LinesFor(content + [l], corpus, iri) ==
      if l.key.corpus == corpus && l.key.iri == iri then LinesFor(content, corpus, iri) + [l] else LinesFor(content, corpus, iri)
  {
    assert (content + [l])[..|content|] == content;
  }

  lemma {:induction false} LinesForExact(content: seq<Line>, corpus: Corpus, iri: Iri)
    ensures GroupOf(LinesFor(content, corpus, iri), content, corpus, iri)
  {
    if content == [] {
      GroupOfNothing(content, corpus, iri);
    } else {
      var front, last := content[..|content| - 1], content[|content| - 1];
      LinesForExact(front, corpus, iri);
      LinesForStep(front, corpus, iri, last);
      assert content == front + [last];
    }
  }

  lemma LinesForStep(content: seq<Line>, corpus: Corpus, iri: Iri, l: Line)
    requires GroupOf(LinesFor(content, corpus, iri), content, corpus, iri)
    ensures GroupOf(LinesFor(content + [l], corpus, iri), content + [l], corpus, iri)
  {
    GroupOfMore(LinesFor(content, corpus, iri), content, corpus, iri, l);
    LinesForNext(content, corpus, iri, l);
  }

  /** The grouping is determined by the file. */
  lemma GroupedIsUnique(a: map<Iri, seq<Line>>, b: map<Iri, seq<Line>>, content: seq<Line>, corpus: Corpus)
    requires Grouped(a, content, corpus) && Grouped(b, content, corpus)
    ensures a == b
  {
    forall iri | iri in a
      ensures a[iri] == b[iri]
    {
      PicksOnce(a[iri], b[iri], content, set k | 0 <= k < |content| && IsFor(content, corpus, iri, k));
    }
  }

  lemma IsForMore(content: seq<Line>, corpus: Corpus, iri: Iri, l: Line)
    ensures (exists k :: IsFor(content + [l], corpus, iri, k)) <==>
      (exists k :: IsFor(content, corpus, iri, k)) || (l.key.corpus == corpus && l.key.iri == iri)
  {
    var more := content + [l];
    if k :| IsFor(content, corpus, iri, k) {
      assert IsFor(more, corpus, iri, k);
    }
    if l.key.corpus == corpus && l.key.iri == iri {
      assert IsFor(more, corpus, iri, |content|);
    }
    if k :| IsFor(more, corpus, iri, k) {
      assert k < |content| ==> IsFor(content, corpus, iri, k);
    }
  }

  lemma GroupAfterOne(out: map<Iri, seq<Line>>, content: seq<Line>, corpus: Corpus, iri: Iri, l: Line)
    requires Grouped(out, content, corpus)
    ensures GroupOf(if l.key.corpus == corpus && l.key.iri == iri then Lookup(out, iri) + [l] else Lookup(out, iri), content + [l], corpus, iri)
  {
    if iri !in out {
      GroupOfNothing(content, corpus, iri);
    }
    GroupOfMore(Lookup(out, iri), content, corpus, iri, l);
  }

  /** Filing one more line under its IRI, when it is of the corpus. */
  lemma GroupOne(out: map<Iri, seq<Line>>, content: seq<Line>, corpus: Corpus, l: Line)
    requires Grouped(out, content, corpus)
    ensures Grouped(if l.key.corpus == corpus then out[l.key.iri := Lookup(out, l.key.iri) + [l]] else out, content + [l], corpus)
  {
    var more := if l.key.corpus == corpus then out[l.key.iri := Lookup(out, l.key.iri) + [l]] else out;
    forall iri
      ensures iri in more <==> exists k :: IsFor(content + [l], corpus, iri, k)
    {
      IsForMore(content, corpus, iri, l);
    }
    forall iri | iri in more
      ensures GroupOf(more[iri], content + [l], corpus, iri)
    {
      GroupAfterOne(out, content, corpus, iri, l);
    }
  }

  /** The loop of `read_manifest` over the lines of the file. */
  method GroupLines(content: seq<Line>, corpus: Corpus) returns (out: map<Iri, seq<Line>>)
    ensures Grouped(out, content, corpus)
  {
    out := map[];
    for i := 0 to |content|
      invariant Grouped(out, content[..i], corpus)
    {
      GroupOne(out, content[..i], corpus, content[i]);
      assert content[..i + 1] == content[..i] + [content[i]];
      var line := content[i];
      if line.key.corpus == corpus {
        out := out[line.key.iri := Lookup(out, line.key.iri) + [line]];
      }
    }
    assert content[..|content|] == content;
  }

  // Stamps, and the section under the lock.

  /** The bytes of the file: every line is followed by its newline. */
  function Size(content: seq<Line>): nat {
    if content == [] then 0 else Size(content[..|content| - 1]) + |content[|content| - 1].text| + 1
  }

  /** `(st_size, st_mtime_ns)`. */
  type Stamp = (nat, nat)

  lemma {:induction false} SizeOfAppend(a: seq<Line>, b: seq<Line>)
    ensures Size(a + b) == Size(a) + Size(b)
    ensures b != [] ==> Size(b) > 0
    ensures |b| == 1 ==> Size(b) == |b[0].text| + 1
  {
    if b == [] {
      assert a + b == a;
    } else {
      var front := b[..|b| - 1];
      SizeOfAppend(a, front);
      assert (a + b)[..|a + b| - 1] == a + front;
    }
  }

  const CACHE_MAX: nat := 8

  /** The manifest file of one storage root; `None` until the first append creates it. */
  class File {
    const path: string
    var content: Option<seq<Line>>
    var mtime: nat

    constructor (path: string)
      ensures this.path == path && content == None
    {
      this.path, content, mtime := path, None, 0;
    }

    ghost function Lines(): seq<Line>
      reads this
    {
      if content.Some? then content.value else []
    }

    method GetStamp() returns (stamp: Option<Stamp>)
      ensures stamp == if content.Some? then Some((Size(content.value), mtime)) else None
    {
      stamp := if content.Some? then Some((Size(content.value), mtime)) else None;
    }

    /** Open for append, creating the file, and write whole lines; the clock may show anything. */
    method Append(lines: seq<Line>, now: nat)
      modifies this
      ensures content == Some(old(Lines()) + lines)
    {
      content := Some((if content.Some? then content.value else []) + lines);
      mtime := now;
    }
  }

  /** A cached key set is right when its stamp is the file's. */
  ghost predicate SeenAgrees(file: File, cache: Dict<string, (Stamp, set<Key>)>)
    reads file, cache
  {
    file.path in cache.entries && file.content.Some? &&
    cache.entries[file.path].0 == (Size(file.content.value), file.mtime) ==>
      cache.entries[file.path].1 == KeysOf(file.content.value)
  }

  /** `_seen_keys`, under the lock: the key set of a full rescan, cached or not. */
  method SeenKeys(file: File, cache: Dict<string, (Stamp, set<Key>)>) returns (seen: set<Key>)
    requires Valid(cache.Contents()) && SeenAgrees(file, cache)
    modifies cache
    ensures seen == KeysOf(file.Lines())
    ensures Valid(cache.Contents()) && SeenAgrees(file, cache)
  {
    var stamp := file.GetStamp();
    if stamp.None? {
      return {};
    }
    var cached := cache.Get(file.path);
    if cached.Some? && cached.value.0 == stamp.value {
      return cached.value.1;
    }
    seen := KeysOf(file.content.value);
    PutStores(cache.Contents(), file.path, (stamp.value, seen), CACHE_MAX);
    cache.PutNewest(file.path, (stamp.value, seen), CACHE_MAX);
  }

  /** The section of `append_manifest` under the lock. */
  method AppendLocked(file: File, cache: Dict<string, (Stamp, set<Key>)>, candidates: seq<Line>, now: nat) returns (added: nat)
    requires Valid(cache.Contents()) && SeenAgrees(file, cache) && NoKeyTwice(file.Lines())
    modifies file, cache
    ensures old(file.Lines()) <= file.Lines() && added == |file.Lines()| - |old(file.Lines())|
    ensures FirstOfKeys(file.Lines()[|old(file.Lines())|..], KeysOf(old(file.Lines())), candidates)
    ensures NoKeyTwice(file.Lines()) && KeysOf(file.Lines()) == KeysOf(old(file.Lines())) + KeysOf(candidates)
    ensures Valid(cache.Contents()) && SeenAgrees(file, cache)
  {
    AppendKeepsKeys(file.Lines(), candidates);
    ghost var before := file.Lines();
    var seen0 := SeenKeys(file, cache);
    var more, seen := SelectNew(seen0, candidates);
    KeysOfAppend(before, more);
    if more != [] {
      file.Append(more, now);
      var stamp := file.GetStamp();
      PutStores(cache.Contents(), file.path, (stamp.value, seen), CACHE_MAX);
      cache.PutNewest(file.path, (stamp.value, seen), CACHE_MAX);
    }
    added := |more|;
    assert file.Lines() == before + more && file.Lines()[|before|..] == more;
  }
}
