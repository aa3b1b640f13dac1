/** Climbing a class's ancestry to the top-level branches of the ontology. */
module Spine {
  import opened Sequences
  import opened Sorting
  import opened PyText

  type Iri = string

  datatype Branch = Branch(title: string, iri: Iri, spineClass: Iri, category: string)

  /** The branch table, and the resolver that gives the direct parents of a class, when there is one. */
  datatype Ontology = Ontology(table: map<Iri, Branch>, resolver: Option<Iri -> seq<Iri>>)

  function Parents(o: Ontology, node: Iri): seq<Iri> {
    if o.resolver.None? then [] else o.resolver.value(node)
  }

  /** The resolver names `x` as a direct parent of `node`. */
  ghost predicate IsParent(o: Ontology, node: Iri, x: Iri) {
    o.resolver.Some? && exists i :: 0 <= i < |o.resolver.value(node)| && o.resolver.value(node)[i] == x
  }

  lemma ParentsAre(o: Ontology, node: Iri)
    ensures forall x :: x in Parents(o, node) <==> IsParent(o, node, x)
  {
  }

  ghost predicate Keyed(table: map<Iri, Branch>) {
    forall iri :: iri in table ==> table[iri].iri == iri
  }

  // What the walk should find.

  /** `p` goes from child to parent, and above no branch. */
  ghost predicate Ascends(o: Ontology, p: seq<Iri>) {
    p != [] && forall i {:trigger p[i]} :: 0 <= i < |p| - 1 ==> p[i] !in o.table && IsParent(o, p[i], p[i + 1])
  }

  ghost predicate Leads(o: Ontology, p: seq<Iri>, start: Iri, target: Iri, steps: int) {
    Ascends(o, p) && p[0] == start && p[|p| - 1] == target && |p| - 1 <= steps
  }

  /** Some parent path of at most `steps` steps leads there with no earlier branch on it. */
  ghost predicate Reaches(o: Ontology, start: Iri, target: Iri, steps: int) {
    exists p {:trigger Leads(o, p, start, target, steps)} :: Leads(o, p, start, target, steps)
  }

  /** The branches within reach, in the order of their IRIs, each one once. */
  ghost predicate IsAnswer(o: Ontology, start: Iri, maxDepth: int, answer: seq<Branch>) {
    && (forall i, j :: 0 <= i < j < |answer| ==> Below(answer[i].iri, answer[j].iri))
    && (forall b :: b in answer <==>
          b.iri in o.table && o.table[b.iri] == b && Reaches(o, start, b.iri, maxDepth))
  }

  ghost predicate OneAbove(o: Ontology, start: Iri, via: Iri, x: Iri, steps: int) {
    Reaches(o, start, via, steps) && via !in o.table && IsParent(o, via, x)
  }

  lemma ReachesMore(o: Ontology, start: Iri, x: Iri, m: int, n: int)
    requires Reaches(o, start, x, m) && m <= n
    ensures Reaches(o, start, x, n)
  {
    var p :| Leads(o, p, start, x, m);
    assert Leads(o, p, start, x, n);
  }

  lemma ReachesHere(o: Ontology, start: Iri, x: Iri)
    ensures Reaches(o, start, x, 0) <==> x == start
    ensures !Reaches(o, start, x, -1)
  {
    if x == start {
      assert Leads(o, [start], start, x, 0);
    }
  }

  lemma OneStepUp(o: Ontology, start: Iri, via: Iri, x: Iri, n: int)
    requires OneAbove(o, start, via, x, n)
    ensures Reaches(o, start, x, n + 1)
  {
    var p :| Leads(o, p, start, via, n);
    var q := p + [x];
    assert forall i :: 0 <= i < |p| ==> q[i] == p[i];
    assert Leads(o, q, start, x, n + 1);
  }

  lemma LastStep(o: Ontology, start: Iri, x: Iri, n: nat) returns (via: Iri)
    requires Reaches(o, start, x, n + 1) && !Reaches(o, start, x, n)
    ensures OneAbove(o, start, via, x, n)
  {
    var p :| Leads(o, p, start, x, n + 1);
    assert !Leads(o, p, start, x, n);
    var q := p[..|p| - 1];
    via := p[|p| - 2];
    assert IsParent(o, p[|p| - 2], p[|p| - 2 + 1]);
    assert forall i :: 0 <= i < |q| ==> q[i] == p[i];
    assert Leads(o, q, start, via, n);
  }

  // The walk, level by level.

  /** Before level `n`: what has been seen, what is new at distance `n`, and the branches found so far. */
  ghost predicate AtLevel(o: Ontology, start: Iri, n: nat, frontier: seq<Iri>, seen: set<Iri>, found: seq<Iri>) {
    && NoDup(frontier) && NoDup(found)
    && (forall x :: x in seen <==> Reaches(o, start, x, n))
    && (forall x :: x in frontier <==> Reaches(o, start, x, n) && !Reaches(o, start, x, n - 1))
    && (forall x :: x in found <==> x in o.table && Reaches(o, start, x, n - 1))
  }

  ghost predicate Offered(o: Ontology, frontier: seq<Iri>, n: nat, x: Iri)
    requires n <= |frontier|
  {
    exists i :: 0 <= i < n && frontier[i] !in o.table && IsParent(o, frontier[i], x)
  }

  lemma StartsAtLevelZero(o: Ontology, start: Iri)
    ensures AtLevel(o, start, 0, [start], {start}, [])
  {
    forall x
      ensures x in {start} <==> Reaches(o, start, x, 0)
      ensures !Reaches(o, start, x, -1)
    {
      ReachesHere(o, start, x);
    }
  }

  /** The nodes first reached in `n + 1` steps are the unseen parents of the non-branches of level `n`. */
  lemma NewAtNextLevel(o: Ontology, start: Iri, n: nat, frontier: seq<Iri>, seen: set<Iri>, found: seq<Iri>, x: Iri)
    requires AtLevel(o, start, n, frontier, seen, found)
    ensures Reaches(o, start, x, n + 1) && !Reaches(o, start, x, n)
      <==> x !in seen && Offered(o, frontier, |frontier|, x)
  {
    if Reaches(o, start, x, n + 1) && !Reaches(o, start, x, n) {
      var via := LastStep(o, start, x, n);
      if Reaches(o, start, via, n - 1) {
        OneStepUp(o, start, via, x, n - 1);
      }
      assert via in frontier;
    }
    if x !in seen && Offered(o, frontier, |frontier|, x) {
      var i :| 0 <= i < |frontier| && frontier[i] !in o.table && IsParent(o, frontier[i], x);
      assert frontier[i] in frontier;
      assert OneAbove(o, start, frontier[i], x, n);
      OneStepUp(o, start, frontier[i], x, n);
    }
  }

  lemma NextLevel(o: Ontology, start: Iri, n: nat, frontier: seq<Iri>, seen: set<Iri>, found: seq<Iri>,
                  next: seq<Iri>, seen': set<Iri>, found': seq<Iri>)
    requires AtLevel(o, start, n, frontier, seen, found)
    requires Expanded(o, frontier, seen, found, |frontier|, next, seen', found')
    ensures AtLevel(o, start, n + 1, next, seen', found')
  {
    forall x
      ensures x in next <==> Reaches(o, start, x, n + 1) && !Reaches(o, start, x, n)
      ensures x in seen' <==> Reaches(o, start, x, n + 1)
      ensures x in found' <==> x in o.table && Reaches(o, start, x, n)
    {
      NewAtNextLevel(o, start, n, frontier, seen, found, x);
      if Reaches(o, start, x, n) {
        ReachesMore(o, start, x, n, n + 1);
      }
      if Reaches(o, start, x, n - 1) {
        ReachesMore(o, start, x, n - 1, n);
      }
      assert x in frontier[..|frontier|] <==> x in frontier;
    }
  }

  /** Once a level is empty, nothing lies beyond it. */
  lemma {:induction false} NothingBeyond(o: Ontology, start: Iri, n: nat, m: int, seen: set<Iri>, found: seq<Iri>, x: Iri)
    requires AtLevel(o, start, n, [], seen, found) && Reaches(o, start, x, m)
    ensures Reaches(o, start, x, n - 1)
    decreases m
  {
    assert x !in [];
    if m < n {
      ReachesMore(o, start, x, m, n - 1);
    } else if m > n {
      if Reaches(o, start, x, m - 1) {
        NothingBeyond(o, start, n, m - 1, seen, found, x);
      } else {
        var via := LastStep(o, start, x, m - 1);
        NothingBeyond(o, start, n, m - 1, seen, found, via);
        OneStepUp(o, start, via, x, n - 1);
      }
    }
  }

  // The loops.

  /** The first `n` nodes of a level have been handled. */
  ghost predicate Expanded(o: Ontology, frontier: seq<Iri>, seen: set<Iri>, found: seq<Iri>, n: nat,
                           next: seq<Iri>, seen': set<Iri>, found': seq<Iri>)
  {
    && n <= |frontier|
    && NoDup(next) && NoDup(found')
    && (forall x :: x in next <==> x !in seen && Offered(o, frontier, n, x))
    && (forall x :: x in seen' <==> x in seen || x in next)
    && (forall x :: x in found' <==> x in found || (x in frontier[..n] && x in o.table))
  }

  method OfferParents(parents: seq<Iri>, seen: set<Iri>, next: seq<Iri>) returns (seen': set<Iri>, next': seq<Iri>)
    requires NoDup(next) && forall x :: x in next ==> x in seen
    ensures NoDup(next')
    ensures forall x :: x in next' <==> x in next || (x in parents && x !in seen)
    ensures forall x :: x in seen' <==> x in seen || x in parents
  {
    seen', next' := seen, next;
    for i := 0 to |parents|
      invariant NoDup(next') && forall x :: x in next' ==> x in seen'
      invariant forall x :: x in next' <==> x in next || (x in parents[..i] && x !in seen)
      invariant forall x :: x in seen' <==> x in seen || x in parents[..i]
    {
      var parent := parents[i];
      if parent !in seen' {
        seen', next' := seen' + {parent}, next' + [parent];
      }
      assert parents[..i + 1] == parents[..i] + [parent];
    }
    assert parents[..|parents|] == parents;
  }

  lemma OfferedNext(o: Ontology, frontier: seq<Iri>, n: nat, x: Iri)
    requires n < |frontier|
    ensures Offered(o, frontier, n + 1, x) <==>
      Offered(o, frontier, n, x) || (frontier[n] !in o.table && IsParent(o, frontier[n], x))
  {
  }

  method ExpandLevel(o: Ontology, frontier: seq<Iri>, seen: set<Iri>, found: seq<Iri>)
    returns (next: seq<Iri>, seen': set<Iri>, found': seq<Iri>)
    requires NoDup(found)
    ensures Expanded(o, frontier, seen, found, |frontier|, next, seen', found')
  {
    next, seen', found' := [], seen, found;
    for n := 0 to |frontier|
      invariant Expanded(o, frontier, seen, found, n, next, seen', found')
    {
      var node := frontier[n];
      forall x
        ensures Offered(o, frontier, n + 1, x) <==>
          Offered(o, frontier, n, x) || (node !in o.table && IsParent(o, node, x))
      {
        OfferedNext(o, frontier, n, x);
      }
      ParentsAre(o, node);
      assert frontier[..n + 1] == frontier[..n] + [node];
      if node in o.table {
        if node !in found' {
          found' := found' + [node];
        }
      } else {
        seen', next := OfferParents(Parents(o, node), seen', next);
      }
    }
  }

  /** `top_level_branches`: the branches within reach, whatever the shape of the ancestry. */
  method TopLevelBranches(o: Ontology, iri: Iri, maxDepth: int) returns (answer: seq<Branch>)
    requires Keyed(o.table)
    ensures IsAnswer(o, iri, maxDepth, answer)
  {
    var frontier, seen, depth := [iri], {iri}, 0;
    var found: seq<Iri> := [];
    StartsAtLevelZero(o, iri);
    while frontier != [] && depth <= maxDepth
      invariant AtLevel(o, iri, depth, frontier, seen, found)
      invariant depth == 0 || depth <= maxDepth + 1
      decreases maxDepth - depth
    {
      var next, seen', found' := ExpandLevel(o, frontier, seen, found);
      NextLevel(o, iri, depth, frontier, seen, found, next, seen', found');
      frontier, seen, found, depth := next, seen', found', depth + 1;
    }
    forall x
      ensures x in found <==> x in o.table && Reaches(o, iri, x, maxDepth)
    {
      if Reaches(o, iri, x, maxDepth) && frontier == [] {
        NothingBeyond(o, iri, depth, maxDepth, seen, found, x);
      }
      if Reaches(o, iri, x, depth - 1) && depth - 1 <= maxDepth {
        ReachesMore(o, iri, x, depth - 1, maxDepth);
      }
      ReachesHere(o, iri, x);
    }
    answer := Listed(o, found);
    ListedIsAnswer(o, iri, maxDepth, found);
  }

  function Listed(o: Ontology, found: seq<Iri>): seq<Branch>
    requires forall x :: x in found ==> x in o.table
  {
    var keys := Sort(found, StrLe);
    SortKeeps(found, StrLe);
    seq(|keys|, i requires 0 <= i < |keys| => o.table[keys[i]])
  }

  lemma ListedInOrder(o: Ontology, found: seq<Iri>)
    requires Keyed(o.table) && NoDup(found) && forall x :: x in found ==> x in o.table
    ensures forall i, j :: 0 <= i < j < |Listed(o, found)| ==> Below(Listed(o, found)[i].iri, Listed(o, found)[j].iri)
  {
    var keys, answer := Sort(found, StrLe), Listed(o, found);
    StrLeIsOrder();
    SortKeeps(found, StrLe);
    SortSorted(found, StrLe);
    SortNoDup(found, StrLe);
    forall i, j | 0 <= i < j < |answer|
      ensures Below(answer[i].iri, answer[j].iri)
    {
      StrLtExact(answer[i].iri, answer[j].iri);
      assert StrLe(keys[i], keys[j]) && keys[i] != keys[j];
      assert keys[i] in found && keys[j] in found;
    }
  }

  lemma ListedMembers(o: Ontology, found: seq<Iri>, b: Branch)
    requires Keyed(o.table) && forall x :: x in found ==> x in o.table
    ensures b in Listed(o, found) <==> b.iri in found && o.table[b.iri] == b
  {
    var keys, answer := Sort(found, StrLe), Listed(o, found);
    SortKeeps(found, StrLe);
    if b.iri in found && o.table[b.iri] == b {
      var i :| 0 <= i < |keys| && keys[i] == b.iri;
      assert answer[i] == b;
    }
    if b in answer {
      var i :| 0 <= i < |answer| && answer[i] == b;
      assert keys[i] in found;
    }
  }

  lemma ListedIsAnswer(o: Ontology, iri: Iri, maxDepth: int, found: seq<Iri>)
    requires Keyed(o.table) && NoDup(found)
    requires forall x :: x in found <==> x in o.table && Reaches(o, iri, x, maxDepth)
    ensures IsAnswer(o, iri, maxDepth, Listed(o, found))
  {
    ListedInOrder(o, found);
    forall b
      ensures b in Listed(o, found) <==> b.iri in o.table && o.table[b.iri] == b && Reaches(o, iri, b.iri, maxDepth)
    {
      ListedMembers(o, found, b);
    }
  }

  // What the answer does not depend on.

  /** Both resolvers name the same parents of every class, in whatever order and however often. */
  ghost predicate SameAncestry(o: Ontology, o': Ontology) {
    o.table == o'.table && forall node, x :: IsParent(o, node, x) <==> IsParent(o', node, x)
  }

  lemma ReachIsAncestry(o: Ontology, o': Ontology, start: Iri, x: Iri, steps: int)
    requires SameAncestry(o, o') && Reaches(o, start, x, steps)
    ensures Reaches(o', start, x, steps)
  {
    var p :| Leads(o, p, start, x, steps);
    assert Leads(o', p, start, x, steps);
  }

  lemma AnswerAscends(answer: seq<Branch>)
    requires forall i, j :: 0 <= i < j < |answer| ==> Below(answer[i].iri, answer[j].iri)
    ensures forall i, j :: 0 <= i < j < |answer| ==> StrLe(answer[i].iri, answer[j].iri) && answer[i].iri != answer[j].iri
    ensures forall x, y :: x in answer && y in answer && x.iri == y.iri ==> x == y
    ensures NoDup(answer)
  {
    forall i, j | 0 <= i < j < |answer|
      ensures StrLe(answer[i].iri, answer[j].iri) && answer[i].iri != answer[j].iri
    {
      StrLtExact(answer[i].iri, answer[j].iri);
    }
  }

  /** There is one answer, and neither order nor repeats among the parents change it. */
  lemma AnswerIgnoresParentOrder(o: Ontology, o': Ontology, iri: Iri, maxDepth: int, a: seq<Branch>, b: seq<Branch>)
    requires SameAncestry(o, o')
    requires IsAnswer(o, iri, maxDepth, a) && IsAnswer(o', iri, maxDepth, b)
    ensures a == b
  {
    forall x
      ensures x in a <==> x in b
    {
      if Reaches(o, iri, x.iri, maxDepth) {
        ReachIsAncestry(o, o', iri, x.iri, maxDepth);
      }
      if Reaches(o', iri, x.iri, maxDepth) {
        ReachIsAncestry(o', o, iri, x.iri, maxDepth);
      }
    }
    AnswerAscends(a);
    AnswerAscends(b);
    StrLeIsOrder();
    NoDupMultiset(a, b);
    var le := (x: Branch, y: Branch) => StrLe(x.iri, y.iri);
    assert NoTies(a, le);
    SortedIsUnique(a, b, le);
  }

  lemma NoFirstStep(o: Ontology, p: seq<Iri>)
    requires Ascends(o, p) && (p[0] in o.table || o.resolver.None?)
    ensures |p| == 1
  {
    assert 0 < |p| - 1 ==> p[0] !in o.table && IsParent(o, p[0], p[0 + 1]);
  }

  lemma BranchReachesItself(o: Ontology, iri: Iri, x: Iri, maxDepth: int)
    requires maxDepth >= 0 && (iri in o.table || o.resolver.None?)
    ensures Reaches(o, iri, x, maxDepth) <==> x == iri
  {
    ReachesHere(o, iri, x);
    if x == iri {
      ReachesMore(o, iri, x, 0, maxDepth);
    }
    if Reaches(o, iri, x, maxDepth) {
      var p :| Leads(o, p, iri, x, maxDepth);
      NoFirstStep(o, p);
    }
  }

  /** A branch stands for itself; without a resolver nothing else resolves; a negative bound finds nothing. */
  lemma TrivialAnswers(o: Ontology, iri: Iri, maxDepth: int, answer: seq<Branch>)
    requires Keyed(o.table) && IsAnswer(o, iri, maxDepth, answer)
    ensures maxDepth < 0 ==> answer == []
    ensures maxDepth >= 0 && iri in o.table ==> answer == [o.table[iri]]
    ensures iri !in o.table && o.resolver.None? ==> answer == []
  {
    if answer != [] {
      assert answer[0] in answer;
    }
    if maxDepth >= 0 && (iri in o.table || o.resolver.None?) {
      forall x
        ensures Reaches(o, iri, x, maxDepth) <==> x == iri
      {
        BranchReachesItself(o, iri, x, maxDepth);
      }
      if iri in o.table {
        assert o.table[iri] in answer;
        forall i | 0 <= i < |answer|
          ensures answer[i] == o.table[iri]
        {
          assert answer[i] in answer;
        }
        AnswerAscends(answer);
        assert |answer| > 1 ==> answer[0].iri != answer[1].iri;
      }
    }
  }
}
