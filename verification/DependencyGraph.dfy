/**
 The dependency web of a corpus and what a bounded walk around one shard is
 supposed to find: chains of dependency steps and their lengths. Nothing here
 says how the walk proceeds; `GraphWalk` does.
 */
module DependencyGraph {
  import opened Sequences

  type Iri = string

  /** The four dependency fields, in the order that ranks edges. */
  datatype Field = Axioms | Definitions | Precedents | Shards {
    function Rank(): nat {
      match this
      case Axioms => 0
      case Definitions => 1
      case Precedents => 2
      case Shards => 3
    }
  }

  /** Axioms before definitions before precedents before shards. */
  ghost predicate EarlierField(f: Field, g: Field) {
    || (f == Axioms && g != Axioms)
    || (f == Definitions && (g == Precedents || g == Shards))
    || (f == Precedents && g == Shards)
  }

  lemma RankExact(f: Field, g: Field)
    ensures f.Rank() < g.Rank() <==> EarlierField(f, g)
    ensures f.Rank() == g.Rank() <==> f == g
  {
  }

  datatype Shard = Shard(
    iri: Iri,
    axioms: seq<Iri>,
    definitions: seq<Iri>,
    precedents: seq<Iri>,
    shards: seq<Iri>)
  {
    function Targets(f: Field): seq<Iri> {
      match f
      case Axioms => axioms
      case Definitions => definitions
      case Precedents => precedents
      case Shards => shards
    }

    predicate Names(target: Iri) {
      target in axioms || target in definitions || target in precedents || target in shards
    }
  }

  /** A corpus's current shards in commit order, and the IRIs of the packaged kernel. */
  datatype Web = Web(shards: seq<Shard>, kernel: set<Iri>)

  ghost predicate DistinctIris(shards: seq<Shard>) {
    forall i, j :: 0 <= i < j < |shards| ==> shards[i].iri != shards[j].iri
  }

  function Find(shards: seq<Shard>, iri: Iri): (r: Option<Shard>)
    ensures r.Some? ==> r.value in shards && r.value.iri == iri
    ensures r.None? ==> forall s :: s in shards ==> s.iri != iri
  {
    if shards == [] then None
    else if shards[|shards| - 1].iri == iri then Some(shards[|shards| - 1])
    else
      assert shards == shards[..|shards| - 1] + [shards[|shards| - 1]];
      Find(shards[..|shards| - 1], iri)
  }

  lemma FindIs(shards: seq<Shard>, s: Shard)
    requires DistinctIris(shards) && s in shards
    ensures Find(shards, s.iri) == Some(s)
  {
  }

  function Tagged(f: Field, targets: seq<Iri>): (r: seq<(Field, Iri)>)
    ensures |r| == |targets|
    ensures forall i :: 0 <= i < |r| ==> r[i] == (f, targets[i])
  {
    seq(|targets|, i requires 0 <= i < |targets| => (f, targets[i]))
  }

  /** `_out_edges`: field order, then list order, a target once per field. */
  function OutEdges(s: Shard): seq<(Field, Iri)> {
    Tagged(Axioms, Dedup(s.axioms)) + Tagged(Definitions, Dedup(s.definitions)) +
    Tagged(Precedents, Dedup(s.precedents)) + Tagged(Shards, Dedup(s.shards))
  }

  ghost predicate RanksAscend(edges: seq<(Field, Iri)>) {
    forall i, j :: 0 <= i < j < |edges| ==> edges[i].0 == edges[j].0 || EarlierField(edges[i].0, edges[j].0)
  }

  /** Edges of later fields, put after, keep the ranks ascending and every pair once. */
  lemma AppendLaterField(edges: seq<(Field, Iri)>, f: Field, targets: seq<Iri>)
    requires NoDup(edges) && RanksAscend(edges) && NoDup(targets)
    requires forall i :: 0 <= i < |edges| ==> edges[i].0.Rank() < f.Rank()
    ensures NoDup(edges + Tagged(f, targets)) && RanksAscend(edges + Tagged(f, targets))
    ensures forall i :: 0 <= i < |edges + Tagged(f, targets)| ==> (edges + Tagged(f, targets))[i].0.Rank() <= f.Rank()
  {
  }

  lemma OutEdgesMember(s: Shard, f: Field, t: Iri)
    ensures (f, t) in OutEdges(s) <==> t in s.Targets(f)
  {
    TaggedMembers(Axioms, Dedup(s.axioms), f, t);
    TaggedMembers(Definitions, Dedup(s.definitions), f, t);
    TaggedMembers(Precedents, Dedup(s.precedents), f, t);
    TaggedMembers(Shards, Dedup(s.shards), f, t);
  }

  /** Edges of one field are in the order in which its list first names their targets. */
  ghost predicate FieldOrder(s: Shard, edges: seq<(Field, Iri)>) {
    forall i, j :: 0 <= i < j < |edges| && edges[i].0 == edges[j].0 ==>
      AppearsBefore(s.Targets(edges[i].0), edges[i].1, edges[j].1)
  }

  lemma AppendFieldOrder(s: Shard, edges: seq<(Field, Iri)>, f: Field)
    requires FieldOrder(s, edges) && forall i :: 0 <= i < |edges| ==> edges[i].0.Rank() < f.Rank()
    ensures FieldOrder(s, edges + Tagged(f, Dedup(s.Targets(f))))
  {
    var targets := Dedup(s.Targets(f));
    var all := edges + Tagged(f, targets);
    forall i, j | 0 <= i < j < |all| && all[i].0 == all[j].0
      ensures AppearsBefore(s.Targets(all[i].0), all[i].1, all[j].1)
    {
      if i >= |edges| {
        DedupKeepsOrder(s.Targets(f), i - |edges|, j - |edges|);
      }
    }
  }

  /** `t` is in the list of field `f`. */
  ghost predicate InField(s: Shard, f: Field, t: Iri) {
    (f == Axioms && t in s.axioms) || (f == Definitions && t in s.definitions) ||
    (f == Precedents && t in s.precedents) || (f == Shards && t in s.shards)
  }

  /** The (field, target) pairs of the record, each once: fields in order, each list in order. */
  ghost predicate EdgeList(s: Shard, edges: seq<(Field, Iri)>) {
    && (forall f, t :: (f, t) in edges <==> InField(s, f, t))
    && NoDup(edges) && RanksAscend(edges) && FieldOrder(s, edges)
  }

  /** The out-edges are exactly the (field, target) pairs of the record, each once: fields in order, each list in order. */
  lemma OutEdgesExact(s: Shard)
    ensures forall f, t :: (f, t) in OutEdges(s) <==> t in s.Targets(f)
    ensures EdgeList(s, OutEdges(s))
  {
    forall f, t
      ensures (f, t) in OutEdges(s) <==> t in s.Targets(f)
    {
      OutEdgesMember(s, f, t);
    }
    var a := Tagged(Axioms, Dedup(s.axioms));
    var d := a + Tagged(Definitions, Dedup(s.definitions));
    var p := d + Tagged(Precedents, Dedup(s.precedents));
    AppendLaterField(a, Definitions, Dedup(s.definitions));
    AppendLaterField(d, Precedents, Dedup(s.precedents));
    AppendLaterField(p, Shards, Dedup(s.shards));
    OutEdgesInOrder(s);
    forall f, t
      ensures t in s.Targets(f) <==> InField(s, f, t)
    {
    }
  }

  lemma OutEdgesInOrder(s: Shard)
    ensures FieldOrder(s, OutEdges(s))
  {
    var a := Tagged(Axioms, Dedup(s.axioms));
    var d := a + Tagged(Definitions, Dedup(s.definitions));
    var p := d + Tagged(Precedents, Dedup(s.precedents));
    AppendFieldOrder(s, [], Axioms);
    assert [] + a == a;
    AppendFieldOrder(s, a, Definitions);
    AppendFieldOrder(s, d, Precedents);
    AppendFieldOrder(s, p, Shards);
  }

  lemma TaggedMembers(f: Field, targets: seq<Iri>, g: Field, t: Iri)
    ensures (g, t) in Tagged(f, targets) <==> f == g && t in targets
  {
    if f == g && t in targets {
      var i :| 0 <= i < |targets| && targets[i] == t;
      assert Tagged(f, targets)[i] == (g, t);
    }
  }

  /** `a` is a stored shard that names `b` in one of its fields. */
  ghost predicate DependsOn(shards: seq<Shard>, a: Iri, b: Iri) {
    exists s :: s in shards && s.iri == a && s.Names(b)
  }

  datatype Direction = Root | Upstream | Downstream

  /** Whom one hop reaches: what `x` derives from, unless `x` is a kernel node; or who derives from `x`. */
  ghost predicate Step(web: Web, d: Direction, x: Iri, y: Iri) {
    match d
    case Root => false
    case Upstream => x !in web.kernel && DependsOn(web.shards, x, y)
    case Downstream => DependsOn(web.shards, y, x)
  }

  /** A nonempty sequence of nodes, each one hop in direction `d` from the one before. */
  ghost predicate Chain(web: Web, d: Direction, p: seq<Iri>) {
    |p| >= 1 && forall i {:trigger p[i + 1]} :: 0 <= i < |p| - 1 ==> Step(web, d, p[i], p[i + 1])
  }

  /** `x` is exactly `n` hops from `root` along some chain. */
  ghost predicate ReachedIn(web: Web, d: Direction, root: Iri, x: Iri, n: nat) {
    exists p :: Chain(web, d, p) && p[0] == root && p[|p| - 1] == x && |p| == n + 1
  }

  /** `n` is the shortest distance from `root` to `x` in direction `d`. */
  ghost predicate ShortestDistance(web: Web, d: Direction, root: Iri, x: Iri, n: nat) {
    ReachedIn(web, d, root, x, n) && forall k: nat :: ReachedIn(web, d, root, x, k) ==> n <= k
  }

  /** A walk along dependency edges, kernel nodes included. */
  ghost predicate DependencyPath(shards: seq<Shard>, p: seq<Iri>) {
    |p| >= 1 && forall i {:trigger p[i + 1]} :: 0 <= i < |p| - 1 ==> DependsOn(shards, p[i], p[i + 1])
  }

  /** No dependency cycle of at most `n` hops leads through `x`. */
  ghost predicate NoCycleWithin(shards: seq<Shard>, x: Iri, n: nat) {
    forall p :: DependencyPath(shards, p) && 2 <= |p| <= n + 1 && p[0] == x ==> p[|p| - 1] != x
  }

  /** `x` lies on no dependency cycle; in an acyclic corpus no IRI does. */
  ghost predicate OffCycle(shards: seq<Shard>, x: Iri) {
    forall p :: DependencyPath(shards, p) && |p| >= 2 && p[0] == x ==> p[|p| - 1] != x
  }

  lemma ExtendReach(web: Web, d: Direction, root: Iri, x: Iri, y: Iri, n: nat)
    requires ReachedIn(web, d, root, x, n) && Step(web, d, x, y)
    ensures ReachedIn(web, d, root, y, n + 1)
  {
    var p :| Chain(web, d, p) && p[0] == root && p[|p| - 1] == x && |p| == n + 1;
    var q := p + [y];
    forall i {:trigger q[i + 1]} | 0 <= i < |q| - 1
      ensures Step(web, d, q[i], q[i + 1])
    {
      if i < |p| - 1 {
        assert q[i + 1] == p[i + 1];
      }
    }
    assert Chain(web, d, q);
  }

  function Reverse(p: seq<Iri>): (r: seq<Iri>)
    ensures |r| == |p|
    ensures forall i :: 0 <= i < |p| ==> r[i] == p[|p| - 1 - i]
  {
    seq(|p|, i requires 0 <= i < |p| => p[|p| - 1 - i])
  }

  /** Upstream chains are dependency paths; downstream chains are dependency paths read backwards. */
  lemma ChainIsPath(web: Web, d: Direction, p: seq<Iri>)
    requires Chain(web, d, p) && d != Root
    ensures d == Upstream ==> DependencyPath(web.shards, p)
    ensures d == Downstream ==> DependencyPath(web.shards, Reverse(p))
  {
    if d == Downstream {
      var r := Reverse(p);
      forall i {:trigger r[i + 1]} | 0 <= i < |r| - 1
        ensures DependsOn(web.shards, r[i], r[i + 1])
      {
        var k := |p| - 2 - i;
        assert Step(web, d, p[k], p[k + 1]);
      }
    } else {
      forall i {:trigger p[i + 1]} | 0 <= i < |p| - 1
        ensures DependsOn(web.shards, p[i], p[i + 1])
      {
        assert Step(web, d, p[i], p[i + 1]);
      }
    }
  }

  lemma JoinPaths(shards: seq<Shard>, p: seq<Iri>, q: seq<Iri>)
    requires DependencyPath(shards, p) && DependencyPath(shards, q) && p[|p| - 1] == q[0]
    ensures DependencyPath(shards, p + q[1..])
    ensures (p + q[1..])[|p| + |q| - 2] == q[|q| - 1]
  {
    var r := p + q[1..];
    forall i {:trigger r[i + 1]} | 0 <= i < |r| - 1
      ensures DependsOn(shards, r[i], r[i + 1])
    {
      if i < |p| - 1 {
        assert r[i + 1] == p[i + 1];
      } else {
        var k := i - (|p| - 1);
        assert r[i] == q[k] && r[i + 1] == q[k + 1];
      }
    }
  }

  /** Around a root on no short cycle nothing is both upstream and downstream nearby, and the root is neither. */
  lemma SidesAreDisjoint(web: Web, root: Iri, x: Iri, up: nat, down: nat)
    requires NoCycleWithin(web.shards, root, up + down)
    requires ReachedIn(web, Upstream, root, x, up) && ReachedIn(web, Downstream, root, x, down)
    ensures up == 0 && down == 0
  {
    var p :| Chain(web, Upstream, p) && p[0] == root && p[|p| - 1] == x && |p| == up + 1;
    var q :| Chain(web, Downstream, q) && q[0] == root && q[|q| - 1] == x && |q| == down + 1;
    ChainIsPath(web, Upstream, p);
    ChainIsPath(web, Downstream, q);
    var back := Reverse(q);
    JoinPaths(web.shards, p, back);
    var r := p + back[1..];
    assert r[0] == root && r[|r| - 1] == root;
  }

  lemma NotReachedAgain(web: Web, d: Direction, root: Iri, n: nat)
    requires OffCycle(web.shards, root) && d != Root
    requires ReachedIn(web, d, root, root, n)
    ensures n == 0
  {
    var here := [root];
    assert forall e :: Chain(web, e, here);
    assert ReachedIn(web, Upstream, root, root, 0) && ReachedIn(web, Downstream, root, root, 0);
    if d == Upstream {
      SidesAreDisjoint(web, root, root, n, 0);
    } else {
      SidesAreDisjoint(web, root, root, 0, n);
    }
  }
}
