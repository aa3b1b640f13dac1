/**
 `_keep_edges`: which edges survive the edge cap. One edge per tree pair is
 reserved; every other choice follows field rank, then position.
 */
module EdgeCap {
  import opened Sequences
  import opened Sorting
  import opened DependencyGraph

  datatype Edge = Edge(from: Iri, to: Iri, field: Field)

  function Pair(e: Edge): (Iri, Iri) {
    (e.from, e.to)
  }

  function RankAt(edges: seq<Edge>, i: nat): nat {
    if i < |edges| then edges[i].field.Rank() else 4
  }

  /** The sort key `(rank[field], i)`. */
  predicate Before(edges: seq<Edge>, i: nat, j: nat) {
    RankAt(edges, i) < RankAt(edges, j) || (RankAt(edges, i) == RankAt(edges, j) && i < j)
  }

  /** Of the edges joining one tree pair, `i` is the one that comes first. */
  ghost predicate Reserved(edges: seq<Edge>, tree: set<(Iri, Iri)>, i: nat) {
    i < |edges| && Pair(edges[i]) in tree && forall j :: 0 <= j < |edges| && Pair(edges[j]) == Pair(edges[i]) ==> !Before(edges, j, i)
  }

  /** Reserved edges first, then by rank, then by position. */
  ghost predicate Precedes(edges: seq<Edge>, tree: set<(Iri, Iri)>, i: nat, j: nat) {
    if Reserved(edges, tree, i) == Reserved(edges, tree, j) then Before(edges, i, j) else Reserved(edges, tree, i)
  }

  ghost predicate Ascending(s: seq<nat>) {
    forall a, b :: 0 <= a < b < |s| ==> s[a] < s[b]
  }

  function Min(a: nat, b: nat): nat {
    if a < b then a else b
  }

  /** The promise of `_keep_edges` about the positions it keeps. */
  ghost predicate Kept(edges: seq<Edge>, tree: set<(Iri, Iri)>, cap: nat, keep: seq<nat>) {
    && |keep| == Min(cap, |edges|)
    && Ascending(keep) && (forall i :: i in keep ==> i < |edges|)
    && forall i, j :: i in keep && 0 <= j < |edges| && Precedes(edges, tree, j, i) ==> j in keep
  }

  /** Edge `i` comes before edge `j`: its field does, or the field is the same and its place does. */
  ghost predicate ComesBefore(edges: seq<Edge>, i: nat, j: nat)
    requires i < |edges| && j < |edges|
  {
    EarlierField(edges[i].field, edges[j].field) || (edges[i].field == edges[j].field && i < j)
  }

  /** Edge `i` is the first between the two nodes of a tree pair. */
  ghost predicate FirstOfTree(edges: seq<Edge>, tree: set<(Iri, Iri)>, i: nat)
    requires i < |edges|
  {
    && (edges[i].from, edges[i].to) in tree
    && forall j: nat :: j < |edges| && edges[j].from == edges[i].from && edges[j].to == edges[i].to ==> j == i || ComesBefore(edges, i, j)
  }

  /**
   As many edges as the cap admits, in their order; first of tree pairs go before others, and among equals the
   one that comes first stays.
   */
  ghost predicate Chosen(edges: seq<Edge>, tree: set<(Iri, Iri)>, cap: nat, keep: seq<nat>) {
    && |keep| == (if cap < |edges| then cap else |edges|)
    && (forall a, b :: 0 <= a < b < |keep| ==> keep[a] < keep[b]) && (forall i :: i in keep ==> i < |edges|)
    && forall i: nat, j: nat :: i < |edges| && j < |edges| && i in keep && j !in keep ==>
         && (FirstOfTree(edges, tree, j) ==> FirstOfTree(edges, tree, i))
         && (FirstOfTree(edges, tree, j) == FirstOfTree(edges, tree, i) ==> ComesBefore(edges, i, j))
  }

  lemma BeforeExact(edges: seq<Edge>, i: nat, j: nat)
    requires i < |edges| && j < |edges|
    ensures Before(edges, i, j) <==> ComesBefore(edges, i, j)
  {
    RankExact(edges[i].field, edges[j].field);
  }

  lemma ReservedExact(edges: seq<Edge>, tree: set<(Iri, Iri)>, i: nat)
    requires i < |edges|
    ensures Reserved(edges, tree, i) <==> FirstOfTree(edges, tree, i)
  {
    forall j: nat | j < |edges|
      ensures !Before(edges, j, i) <==> j == i || ComesBefore(edges, i, j)
    {
      BeforeExact(edges, j, i);
      BeforeExact(edges, i, j);
    }
  }

  /** The selection is the chosen one. */
  lemma KeptIsChosen(edges: seq<Edge>, tree: set<(Iri, Iri)>, cap: nat, keep: seq<nat>)
    requires Kept(edges, tree, cap, keep)
    ensures Chosen(edges, tree, cap, keep)
  {
    forall i: nat, j: nat | i < |edges| && j < |edges| && i in keep && j !in keep
      ensures FirstOfTree(edges, tree, j) ==> FirstOfTree(edges, tree, i)
      ensures FirstOfTree(edges, tree, j) == FirstOfTree(edges, tree, i) ==> ComesBefore(edges, i, j)
    {
      ReservedExact(edges, tree, i);
      ReservedExact(edges, tree, j);
      BeforeExact(edges, i, j);
      BeforeExact(edges, j, i);
      assert !Precedes(edges, tree, j, i);
    }
  }

  function Range(n: nat): (r: seq<nat>)
    ensures |r| == n && forall i :: 0 <= i < n ==> r[i] == i
  {
    seq(n, i => i)
  }

  function ByRank(edges: seq<Edge>): (nat, nat) -> bool {
    (i: nat, j: nat) => !Before(edges, j, i)
  }

  /** Strictly ascending in the sort key. */
  ghost predicate Ranked(edges: seq<Edge>, s: seq<nat>) {
    forall a, b :: 0 <= a < b < |s| ==> Before(edges, s[a], s[b])
  }

  /** `order` holds every position of `edges` and nothing else. */
  ghost predicate Positions(edges: seq<Edge>, order: seq<nat>) {
    && (forall i: nat :: i in order <==> i < |edges|)
    && (forall m :: 0 <= m < |order| ==> order[m] < |edges|)
  }

  /** All positions, in key order. */
  function RankOrder(edges: seq<Edge>): seq<nat> {
    Sort(Range(|edges|), ByRank(edges))
  }

  lemma RankOrderExact(edges: seq<Edge>)
    ensures Ranked(edges, RankOrder(edges))
    ensures Positions(edges, RankOrder(edges))
    ensures |RankOrder(edges)| == |edges|
  {
    var r, order := Range(|edges|), RankOrder(edges);
    SortKeeps(r, ByRank(edges));
    SortSorted(r, ByRank(edges));
    assert NoDup(r);
    SortNoDup(r, ByRank(edges));
    forall i: nat
      ensures i in order <==> i < |edges|
    {
      assert i < |edges| ==> r[i] == i;
    }
    forall m | 0 <= m < |order|
      ensures order[m] < |edges|
    {
      assert order[m] in order;
    }
    forall a, b | 0 <= a < b < |order|
      ensures Before(edges, order[a], order[b])
    {
      assert ByRank(edges)(order[a], order[b]);
    }
  }

  /** `reaching`: for every tree pair that has an edge, the first position in key order. */
  method Reaching(edges: seq<Edge>, tree: set<(Iri, Iri)>, order: seq<nat>) returns (values: seq<nat>)
    requires Ranked(edges, order) && Positions(edges, order)
    ensures Ranked(edges, values)
    ensures forall i :: i in values <==> 0 <= i < |edges| && Reserved(edges, tree, i)
  {
    var reaching: map<(Iri, Iri), nat> := map[];
    values := [];
    for k := 0 to |order|
      invariant forall p :: p in reaching <==> p in tree && exists m :: 0 <= m < k && Pair(edges[order[m]]) == p
      invariant forall i :: i in values <==> i in order[..k] && Reserved(edges, tree, i)
      invariant Ranked(edges, values)
    {
      var i := order[k];
      var pair := Pair(edges[i]);
      assert order[..k + 1] == order[..k] + [i];
      FirstIsReserved(edges, tree, order, k);
      if pair in tree && pair !in reaching {
        reaching := reaching[pair := i];
        forall a | 0 <= a < |values|
          ensures Before(edges, values[a], i)
        {
          assert values[a] in order[..k];
        }
        values := values + [i];
      }
    }
    assert order[..|order|] == order;
  }

  lemma FirstIsReserved(edges: seq<Edge>, tree: set<(Iri, Iri)>, order: seq<nat>, k: nat)
    requires Ranked(edges, order) && Positions(edges, order) && k < |order|
    ensures
      Reserved(edges, tree, order[k]) <==>
      Pair(edges[order[k]]) in tree && !exists m :: 0 <= m < k && Pair(edges[order[m]]) == Pair(edges[order[k]])
  {
    var i := order[k];
    forall j | 0 <= j < |edges| && Before(edges, j, i)
      ensures exists m :: 0 <= m < k && order[m] == j
    {
      assert j in order;
      var m :| 0 <= m < |order| && order[m] == j;
    }
  }

  /** `[i for i in order if i not in reserved]`. */
  method Others(edges: seq<Edge>, order: seq<nat>, reserved: seq<nat>) returns (rest: seq<nat>)
    requires Ranked(edges, order)
    ensures Ranked(edges, rest)
    ensures forall i :: i in rest <==> i in order && i !in reserved
  {
    rest := [];
    for k := 0 to |order|
      invariant Ranked(edges, rest)
      invariant forall i :: i in rest <==> i in order[..k] && i !in reserved
    {
      assert order[..k + 1] == order[..k] + [order[k]];
      if order[k] !in reserved {
        forall a | 0 <= a < |rest|
          ensures Before(edges, rest[a], order[k])
        {
          assert rest[a] in order[..k];
        }
        rest := rest + [order[k]];
      }
    }
    assert order[..|order|] == order;
  }

  /** The first `cap` positions in precedence order are what the promise asks for. */
  lemma PrefixIsKept(edges: seq<Edge>, tree: set<(Iri, Iri)>, cap: nat, values: seq<nat>, rest: seq<nat>, keep: seq<nat>)
    requires Ranked(edges, values) && Ranked(edges, rest)
    requires forall i :: i in values <==> 0 <= i < |edges| && Reserved(edges, tree, i)
    requires forall i :: i in rest <==> 0 <= i < |edges| && !Reserved(edges, tree, i)
    requires cap < |edges| && |values + rest| == |edges|
    requires Ascending(keep) && |keep| == cap && forall i :: i in keep <==> i in (values + rest)[..cap]
    ensures Kept(edges, tree, cap, keep)
  {
    var all := values + rest;
    forall i | i in keep
      ensures i < |edges|
    {
      assert i in values || i in rest;
    }
    forall i, j | i in keep && 0 <= j < |edges| && Precedes(edges, tree, j, i)
      ensures j in keep
    {
      var a :| 0 <= a < cap && all[a] == i;
      assert j in values || j in rest;
      assert j in all;
      var b :| 0 <= b < |all| && all[b] == j;
      assert all[a] == if a < |values| then values[a] else rest[a - |values|];
      assert all[b] == if b < |values| then values[b] else rest[b - |values|];
      assert b < |values| ==> j in values;
      assert a < |values| ==> i in values;
      assert b >= |values| ==> j in rest;
      assert a >= |values| ==> i in rest;
      assert b < a;
      assert all[..cap][b] == j;
    }
  }

  lemma AllPositions(edges: seq<Edge>, values: seq<nat>, rest: seq<nat>)
    requires Ranked(edges, values) && Ranked(edges, rest)
    requires forall i :: i in values || i in rest <==> 0 <= i < |edges|
    requires forall i :: !(i in values && i in rest)
    ensures NoDup(values + rest) && |values + rest| == |edges|
  {
    var all := values + rest;
    forall a, b | 0 <= a < b < |all|
      ensures all[a] != all[b]
    {
      assert a < |values| ==> all[a] in values;
      assert b >= |values| ==> all[b] in rest;
    }
    assert NoDup(Range(|edges|));
    forall i
      ensures i in all <==> i in Range(|edges|)
    {
      assert 0 <= i < |edges| ==> Range(|edges|)[i] == i;
      assert i in all <==> i in values || i in rest;
    }
    NoDupMultiset(all, Range(|edges|));
    SameMembers(all, Range(|edges|));
  }

  /** Sorting distinct positions ascends strictly. */
  lemma SortPositions(s: seq<nat>)
    requires NoDup(s)
    ensures var r := Sort(s, (a: nat, b: nat) => a <= b); Ascending(r) && |r| == |s| && forall i :: i in r <==> i in s
  {
    var le := (a: nat, b: nat) => a <= b;
    var r := Sort(s, le);
    SortKeeps(s, le);
    SortSorted(s, le);
    SortNoDup(s, le);
    forall a, b | 0 <= a < b < |r|
      ensures r[a] < r[b]
    {
      assert le(r[a], r[b]);
    }
  }

  lemma AllAreKept(edges: seq<Edge>, tree: set<(Iri, Iri)>, cap: nat)
    requires |edges| <= cap
    ensures Kept(edges, tree, cap, Range(|edges|))
  {
    var r := Range(|edges|);
    forall j | 0 <= j < |edges|
      ensures j in r
    {
      assert r[j] == j;
    }
  }

  /** At most `cap` of the edges, in their original order. */
  method KeepEdges(edges: seq<Edge>, tree: set<(Iri, Iri)>, cap: nat) returns (kept: seq<Edge>, ghost keep: seq<nat>)
    ensures |kept| == Min(cap, |edges|) && (|edges| <= cap ==> kept == edges)
    ensures Kept(edges, tree, cap, keep) && Chosen(edges, tree, cap, keep)
    ensures |kept| == |keep| && forall k :: 0 <= k < |kept| ==> keep[k] < |edges| && kept[k] == edges[keep[k]]
  {
    if |edges| <= cap {
      AllAreKept(edges, tree, cap);
      KeptIsChosen(edges, tree, cap, Range(|edges|));
      return edges, Range(|edges|);
    }
    var order := RankOrder(edges);
    RankOrderExact(edges);
    var values := Reaching(edges, tree, order);
    var rest := Others(edges, order, values);
    AllPositions(edges, values, rest);
    var chosen := (values + rest)[..cap];
    SortPositions(chosen);
    var positions := Sort(chosen, (a: nat, b: nat) => a <= b);
    PrefixIsKept(edges, tree, cap, values, rest, positions);
    KeptIsChosen(edges, tree, cap, positions);
    forall k | 0 <= k < |positions|
      ensures positions[k] < |edges|
    {
      assert positions[k] in positions;
    }
    kept, keep := seq(|positions|, k requires 0 <= k < |positions| => edges[positions[k]]), positions;
  }

  lemma PrecedesTotal(edges: seq<Edge>, tree: set<(Iri, Iri)>, i: nat, j: nat)
    requires i != j
    ensures Precedes(edges, tree, i, j) || Precedes(edges, tree, j, i)
  {
  }

  /** The promise leaves no choice: two selections that meet it are the same. */
  lemma KeptIsUnique(edges: seq<Edge>, tree: set<(Iri, Iri)>, cap: nat, a: seq<nat>, b: seq<nat>)
    requires Kept(edges, tree, cap, a) && Kept(edges, tree, cap, b)
    ensures a == b
  {
    KeptSameMembers(edges, tree, cap, a, b);
    KeptSameMembers(edges, tree, cap, b, a);
    NoDupMultiset(a, b);
    SortedIsUnique(a, b, (x: nat, y: nat) => x <= y);
  }

  lemma KeptSameMembers(edges: seq<Edge>, tree: set<(Iri, Iri)>, cap: nat, a: seq<nat>, b: seq<nat>)
    requires Kept(edges, tree, cap, a) && Kept(edges, tree, cap, b)
    ensures forall i :: i in a ==> i in b
  {
    forall i | i in a
      ensures i in b
    {
      if i !in b {
        forall j | j in b
          ensures j in a && j != i
        {
          PrecedesTotal(edges, tree, i, j);
        }
        assert i < |edges|;
        forall j | j in b + [i]
          ensures j in a
        {
        }
        assert NoDup(b + [i]);
        SubsetLength(b + [i], a);
        assert false;
      }
    }
  }

  /** The first edge of a pair, in key order, is its reserved one. */
  lemma FirstOfPair(edges: seq<Edge>, tree: set<(Iri, Iri)>, i: nat) returns (r: nat)
    requires i < |edges| && Pair(edges[i]) in tree
    ensures Reserved(edges, tree, r) && Pair(edges[r]) == Pair(edges[i])
  {
    r := i;
    for j := 0 to |edges|
      invariant r < |edges| && Pair(edges[r]) == Pair(edges[i])
      invariant forall k :: 0 <= k < j && Pair(edges[k]) == Pair(edges[i]) ==> !Before(edges, k, r)
    {
      if Pair(edges[j]) == Pair(edges[i]) && Before(edges, j, r) {
        r := j;
      }
    }
  }

  /** Reserved edges stand for different pairs, so there are no more of them than pairs. */
  lemma ReservedAtMostTree(edges: seq<Edge>, tree: set<(Iri, Iri)>, keep: seq<nat>)
    requires NoDup(keep) && forall k :: 0 <= k < |keep| ==> Reserved(edges, tree, keep[k])
    ensures |keep| <= |tree|
  {
    var pairs := seq(|keep|, k requires 0 <= k < |keep| => Pair(edges[keep[k]]));
    forall a, b | 0 <= a < b < |pairs|
      ensures pairs[a] != pairs[b]
    {
      assert Reserved(edges, tree, keep[a]) && Reserved(edges, tree, keep[b]);
    }
    SetSizeOfNoDup(pairs);
    SubsetSize((set p | p in pairs), tree);
  }

  /** Under a cap of at least the number of tree pairs, every tree pair that has an edge keeps one. */
  lemma TreePairIsKept(edges: seq<Edge>, tree: set<(Iri, Iri)>, cap: nat, keep: seq<nat>, i: nat)
    requires Kept(edges, tree, cap, keep) && |tree| <= cap
    requires i < |edges| && Pair(edges[i]) in tree
    ensures exists r :: r in keep && r < |edges| && Pair(edges[r]) == Pair(edges[i])
  {
    var r := FirstOfPair(edges, tree, i);
    if r !in keep {
      var more := keep + [r];
      forall k | 0 <= k < |more|
        ensures Reserved(edges, tree, more[k])
      {
        if k < |keep| {
          assert keep[k] in keep;
          PrecedesTotal(edges, tree, r, keep[k]);
        }
      }
      ReservedAtMostTree(edges, tree, more);
      MissingMeansCapped(edges, keep, r);
      assert false;
    }
  }

  lemma MissingMeansCapped(edges: seq<Edge>, keep: seq<nat>, r: nat)
    requires Ascending(keep) && (forall i :: i in keep ==> i < |edges|)
    requires r < |edges| && r !in keep
    ensures |keep| < |edges|
  {
    forall i | i in keep + [r]
      ensures i in Range(|edges|)
    {
      assert Range(|edges|)[i] == i;
    }
    assert NoDup(keep + [r]);
    SubsetLength(keep + [r], Range(|edges|));
  }
}
