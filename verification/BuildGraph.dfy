/**
 `build_graph` as a whole: the walk, the logical edges between placed nodes,
 the edge cap, and the reasons reported; and how the kept edges join every
 node to the root.
 */
module BuildGraph {
  import opened Sequences
  import opened DependencyGraph
  import opened GraphWalk
  import opened GraphProperties
  import opened EdgeCap

  datatype Node = Node(iri: Iri, stored: bool, isKernel: bool, direction: Direction, distance: nat)

  datatype Reason = DepthReason | NodeCapReason | EdgeCapReason

  datatype Graph = Graph(nodes: seq<Node>, edges: seq<Edge>, reasons: seq<Reason>)

  datatype GraphError = BadBounds | UnknownRoot

  // Logical edges between placed nodes.

  function EdgesOf(iri: Iri, outs: seq<(Field, Iri)>, placed: map<Iri, Place>): seq<Edge> {
    if outs == [] then []
    else
      var last := outs[|outs| - 1];
      EdgesOf(iri, outs[..|outs| - 1], placed) + if last.1 in placed then [Edge(iri, last.1, last.0)] else []
  }

  function NodeEdges(shards: seq<Shard>, iri: Iri, placed: map<Iri, Place>): seq<Edge> {
    var shard := Find(shards, iri);
    if shard.None? then [] else EdgesOf(iri, OutEdges(shard.value), placed)
  }

  /** Node order first, then the order of the node's out-edges. */
  function LogicalEdges(shards: seq<Shard>, order: seq<Iri>, placed: map<Iri, Place>): seq<Edge> {
    if order == [] then []
    else LogicalEdges(shards, order[..|order| - 1], placed) + NodeEdges(shards, order[|order| - 1], placed)
  }

  /** The dependency that an edge of the response stands for. */
  ghost predicate Logical(shards: seq<Shard>, e: Edge) {
    exists s :: s in shards && s.iri == e.from && e.to in s.Targets(e.field)
  }

  lemma {:induction false} EdgesOfExact(iri: Iri, outs: seq<(Field, Iri)>, placed: map<Iri, Place>)
    requires NoDup(outs)
    ensures forall e :: e in EdgesOf(iri, outs, placed) <==> e.from == iri && (e.field, e.to) in outs && e.to in placed
    ensures NoDup(EdgesOf(iri, outs, placed))
  {
    if outs != [] {
      var front, last := outs[..|outs| - 1], outs[|outs| - 1];
      EdgesOfExact(iri, front, placed);
      assert outs == front + [last];
      assert last !in front;
    }
  }

  lemma NodeEdgesExact(shards: seq<Shard>, iri: Iri, placed: map<Iri, Place>)
    requires DistinctIris(shards)
    ensures forall e :: e in NodeEdges(shards, iri, placed) <==> e.from == iri && Logical(shards, e) && e.to in placed
    ensures NoDup(NodeEdges(shards, iri, placed))
  {
    var shard := Find(shards, iri);
    if shard.Some? {
      OutEdgesExact(shard.value);
      EdgesOfExact(iri, OutEdges(shard.value), placed);
    }
    forall e
      ensures e in NodeEdges(shards, iri, placed) <==> e.from == iri && Logical(shards, e) && e.to in placed
    {
      if e.from == iri && Logical(shards, e) {
        var s :| s in shards && s.iri == e.from && e.to in s.Targets(e.field);
        FindIs(shards, s);
      }
    }
  }

  /** The edge list holds each logical dependency between placed nodes exactly once. */
  lemma {:induction false} LogicalEdgesExact(shards: seq<Shard>, order: seq<Iri>, placed: map<Iri, Place>)
    requires DistinctIris(shards) && NoDup(order)
    ensures forall e :: e in LogicalEdges(shards, order, placed) <==> e.from in order && Logical(shards, e) && e.to in placed
    ensures NoDup(LogicalEdges(shards, order, placed))
  {
    if order != [] {
      var front, last := order[..|order| - 1], order[|order| - 1];
      LogicalEdgesExact(shards, front, placed);
      NodeEdgesExact(shards, last, placed);
      assert order == front + [last];
      JoinNoDup(LogicalEdges(shards, front, placed), NodeEdges(shards, last, placed));
    }
  }

  // The order of the edges.

  /** The targets of one field keep their order, fields keep theirs, and edges of a node that comes first come first. */
  ghost predicate EdgeBefore(shards: seq<Shard>, order: seq<Iri>, e: Edge, f: Edge) {
    if e.from != f.from then AppearsBefore(order, e.from, f.from)
    else || EarlierField(e.field, f.field)
         || (e.field == f.field && forall s :: s in shards && s.iri == e.from ==> AppearsBefore(s.Targets(e.field), e.to, f.to))
  }

  ghost predicate InEdgeOrder(shards: seq<Shard>, order: seq<Iri>, edges: seq<Edge>) {
    forall i, j :: 0 <= i < j < |edges| ==> EdgeBefore(shards, order, edges[i], edges[j])
  }

  lemma {:induction false} EdgesOfPlaces(iri: Iri, outs: seq<(Field, Iri)>, placed: map<Iri, Place>) returns (idx: seq<int>)
    ensures AscendingIn(idx, |outs|) && |idx| == |EdgesOf(iri, outs, placed)|
    ensures forall m :: 0 <= m < |idx| ==> EdgesOf(iri, outs, placed)[m] == Edge(iri, outs[idx[m]].1, outs[idx[m]].0)
  {
    if outs == [] {
      idx := [];
    } else {
      var front, last := outs[..|outs| - 1], outs[|outs| - 1];
      idx := EdgesOfPlaces(iri, front, placed);
      if last.1 in placed {
        idx := idx + [|front|];
      }
    }
  }

  lemma NodeEdgesInOrder(shards: seq<Shard>, order: seq<Iri>, iri: Iri, placed: map<Iri, Place>)
    requires DistinctIris(shards)
    ensures InEdgeOrder(shards, order, NodeEdges(shards, iri, placed))
  {
    var shard := Find(shards, iri);
    if shard.Some? {
      var outs := OutEdges(shard.value);
      var edges := EdgesOf(iri, outs, placed);
      OutEdgesExact(shard.value);
      var idx := EdgesOfPlaces(iri, outs, placed);
      forall i, j | 0 <= i < j < |edges|
        ensures EdgeBefore(shards, order, edges[i], edges[j])
      {
        assert outs[idx[i]].0 == outs[idx[j]].0 || EarlierField(outs[idx[i]].0, outs[idx[j]].0);
        forall s | s in shards && s.iri == iri && edges[i].field == edges[j].field
          ensures AppearsBefore(s.Targets(edges[i].field), edges[i].to, edges[j].to)
        {
          FindIs(shards, s);
        }
      }
    }
  }

  lemma AppearsBeforeMore<T>(s: seq<T>, last: T, x: T, y: T)
    ensures AppearsBefore(s, x, y) ==> AppearsBefore(s + [last], x, y)
    ensures x in s && y !in s ==> AppearsBefore(s + [last], x, y)
  {
    var more := s + [last];
    if AppearsBefore(s, x, y) {
      var p :| 0 <= p < |s| && s[p] == x && y !in s[..p + 1];
      assert more[p] == x && more[..p + 1] == s[..p + 1];
    }
    if x in s && y !in s {
      var p :| 0 <= p < |s| && s[p] == x;
      assert more[p] == x && forall q :: 0 <= q <= p ==> more[q] in s;
    }
  }

  /** Node order first, then field order, then list order. */
  lemma {:induction false} LogicalEdgesInOrder(shards: seq<Shard>, order: seq<Iri>, placed: map<Iri, Place>)
    requires DistinctIris(shards) && NoDup(order)
    ensures InEdgeOrder(shards, order, LogicalEdges(shards, order, placed))
  {
    if order != [] {
      var front, last := order[..|order| - 1], order[|order| - 1];
      var before, more := LogicalEdges(shards, front, placed), NodeEdges(shards, last, placed);
      LogicalEdgesInOrder(shards, front, placed);
      LogicalEdgesExact(shards, front, placed);
      NodeEdgesExact(shards, last, placed);
      NodeEdgesInOrder(shards, order, last, placed);
      assert order == front + [last];
      forall i, j | 0 <= i < j < |before + more|
        ensures EdgeBefore(shards, order, (before + more)[i], (before + more)[j])
      {
        var e, f := (before + more)[i], (before + more)[j];
        AppearsBeforeMore(front, last, e.from, f.from);
        if j < |before| {
          assert EdgeBefore(shards, front, before[i], before[j]);
        } else if i < |before| {
          assert e in before && f in more;
        } else {
          assert EdgeBefore(shards, order, more[i - |before|], more[j - |before|]);
        }
      }
    }
  }

  lemma JoinNoDup<T>(a: seq<T>, b: seq<T>)
    requires NoDup(a) && NoDup(b) && forall x :: !(x in a && x in b)
    ensures NoDup(a + b)
  {
    forall i, j | 0 <= i < j < |a + b|
      ensures (a + b)[i] != (a + b)[j]
    {
      assert i < |a| ==> (a + b)[i] in a;
      assert j >= |a| ==> (a + b)[j] in b;
    }
  }

  /** The edge loop of `build_graph`. */
  method CollectEdges(shards: seq<Shard>, order: seq<Iri>, placed: map<Iri, Place>) returns (edges: seq<Edge>)
    ensures edges == LogicalEdges(shards, order, placed)
  {
    edges := [];
    for i := 0 to |order|
      invariant edges == LogicalEdges(shards, order[..i], placed)
    {
      var more := CollectNodeEdges(shards, order[i], placed);
      edges := edges + more;
      assert order[..i + 1][..i] == order[..i];
    }
    assert order[..|order|] == order;
  }

  method CollectNodeEdges(shards: seq<Shard>, iri: Iri, placed: map<Iri, Place>) returns (edges: seq<Edge>)
    ensures edges == NodeEdges(shards, iri, placed)
  {
    edges := [];
    var shard := Find(shards, iri);
    if shard.Some? {
      edges := CollectOutEdges(iri, OutEdges(shard.value), placed);
    }
  }

  lemma EdgesOfNext(iri: Iri, outs: seq<(Field, Iri)>, placed: map<Iri, Place>, j: nat)
    requires j < |outs|
    ensures EdgesOf(iri, outs[..j + 1], placed) ==
            EdgesOf(iri, outs[..j], placed) + if outs[j].1 in placed then [Edge(iri, outs[j].1, outs[j].0)] else []
  {
    assert outs[..j + 1][..j] == outs[..j];
  }

  method CollectOutEdges(iri: Iri, outs: seq<(Field, Iri)>, placed: map<Iri, Place>) returns (edges: seq<Edge>)
    ensures edges == EdgesOf(iri, outs, placed)
  {
    edges := [];
    for j := 0 to |outs|
      invariant edges == EdgesOf(iri, outs[..j], placed)
    {
      EdgesOfNext(iri, outs, placed, j);
      if outs[j].1 in placed {
        edges := edges + [Edge(iri, outs[j].1, outs[j].0)];
      }
    }
    assert outs[..|outs|] == outs;
  }

  function NodesOf(web: Web, w: Walk): seq<Node>
    requires forall x :: x in w.order ==> x in w.placed
  {
    seq(|w.order|, i requires 0 <= i < |w.order| =>
      var iri := w.order[i];
      Node(iri, Find(web.shards, iri).Some?, iri in web.kernel, w.placed[iri].direction, w.placed[iri].distance))
  }

  /** The bounds that were hit, in the order they are reported. */
  function Reasons(depthCut: bool, nodeCapped: bool, edgeCapped: bool): (r: seq<Reason>)
    ensures DepthReason in r <==> depthCut
    ensures NodeCapReason in r <==> nodeCapped
    ensures EdgeCapReason in r <==> edgeCapped
  {
    (if depthCut then [DepthReason] else []) + (if nodeCapped then [NodeCapReason] else []) +
    (if edgeCapped then [EdgeCapReason] else [])
  }

  /** A graph response, seen from the walk and the edge selection behind it. */
  ghost predicate Response(web: Web, root: Iri, depth: nat, nodeCap: nat, edgeCap: nat, g: Graph, w: Walk, full: nat, keep: seq<nat>) {
    && Finished(web, root, depth, nodeCap, w, full)
    && g.nodes == NodesOf(web, w)
    && var all := LogicalEdges(web.shards, w.order, w.placed);
    && Kept(all, w.tree, edgeCap, keep)
    && |g.edges| == |keep| && (forall k :: 0 <= k < |keep| ==> keep[k] < |all| && g.edges[k] == all[keep[k]])
    && g.reasons == Reasons(OpenAt(web, w, depth), w.capped, |all| > edgeCap)
  }

  // What a response says, told of the web and the request alone.

  /** `n` is walked from in direction `d`; the root is in both. */
  ghost predicate LooksTo(n: Node, d: Direction) {
    d != Root && (n.direction == d || n.direction == Root)
  }

  ghost predicate InGraph(g: Graph, x: Iri) {
    exists i :: 0 <= i < |g.nodes| && g.nodes[i].iri == x
  }

  /** Fewer hops, or as many hops and not downstream before upstream. */
  ghost predicate NoLater(d: Direction, k: nat, e: Direction, l: nat) {
    k < l || (k == l && (d == e || d == Upstream))
  }

  /** What is said of one node is true of it: its place is that of some chain from the root. */
  ghost predicate NodeTells(web: Web, root: Iri, depth: nat, n: Node) {
    && n.distance <= depth
    && (n.direction == Root <==> n.iri == root) && (n.direction == Root <==> n.distance == 0)
    && (n.direction != Root ==> ReachedIn(web, n.direction, root, n.iri, n.distance))
    && (n.stored <==> exists s :: s in web.shards && s.iri == n.iri)
    && (n.isKernel <==> n.iri in web.kernel)
  }

  /** `m` is a hop nearer than `n`, in whose direction it leads to `n`. */
  ghost predicate LeadsTo(web: Web, m: Node, n: Node) {
    LooksTo(m, n.direction) && m.distance + 1 == n.distance && Step(web, n.direction, m.iri, n.iri)
  }

  ghost predicate HasLead(web: Web, g: Graph, n: Node) {
    exists m :: m in g.nodes && LeadsTo(web, m, n)
  }

  /** `n` has a neighbour, in a direction it is walked in, that is not in the graph. */
  ghost predicate Misses(web: Web, g: Graph, n: Node) {
    exists d, x :: LooksTo(n, d) && Step(web, d, n.iri, x) && !InGraph(g, x)
  }

  /** The root first, every IRI once, hop by hop and upstream first, within the cap. */
  ghost predicate Listing(root: Iri, cap: nat, g: Graph) {
    && 1 <= |g.nodes| <= cap && g.nodes[0].iri == root
    && forall i, j :: 0 <= i < j < |g.nodes| ==>
         && g.nodes[i].iri != g.nodes[j].iri
         && NoLater(g.nodes[i].direction, g.nodes[i].distance, g.nodes[j].direction, g.nodes[j].distance)
  }

  /** Every node is true, was reached from a node before it, and no node leads to it any sooner (any graph). */
  ghost predicate NodesTell(web: Web, root: Iri, depth: nat, cap: nat, g: Graph) {
    && Listing(root, cap, g)
    && (forall n :: n in g.nodes ==> NodeTells(web, root, depth, n) && (n.iri != root ==> HasLead(web, g, n)))
    && (forall m, n :: m in g.nodes && n in g.nodes ==> NoSooner(web, m, n))
  }

  /** `n` stands no later than one hop from `m`, when `m` leads there. */
  ghost predicate NoSooner(web: Web, m: Node, n: Node) {
    forall d :: LooksTo(m, d) && Step(web, d, m.iri, n.iri) ==> NoLater(n.direction, n.distance, d, m.distance + 1)
  }

  ghost predicate MissesAt(web: Web, g: Graph, hop: nat) {
    exists n :: n in g.nodes && n.distance == hop && Misses(web, g, n)
  }

  ghost predicate MissesBelow(web: Web, g: Graph, hop: nat) {
    exists n :: n in g.nodes && n.distance < hop && Misses(web, g, n)
  }

  /** Depth, then node cap, then edge cap, each at most once. */
  ghost predicate InReasonOrder(reasons: seq<Reason>) {
    forall i, j :: 0 <= i < j < |reasons| ==>
      reasons[i] != reasons[j] && (reasons[i] == DepthReason || reasons[j] == EdgeCapReason)
  }

  /** The bounds that cut something off, in this order, and nothing else. */
  ghost predicate ReasonsTell(web: Web, depth: nat, cap: nat, edgesCut: bool, g: Graph) {
    && (DepthReason in g.reasons <==> MissesAt(web, g, depth))
    && (NodeCapReason in g.reasons <==> MissesBelow(web, g, depth))
    && (NodeCapReason in g.reasons ==> |g.nodes| == cap)
    && (EdgeCapReason in g.reasons <==> edgesCut)
    && InReasonOrder(g.reasons)
  }

  /** Around a root alone on both sides: shortest distances, nearest nodes first, and without a cut everything within `depth`. */
  ghost predicate OneSidedTells(web: Web, root: Iri, depth: nat, g: Graph) {
    && (forall n :: n in g.nodes && n.iri != root ==> ShortestDistance(web, n.direction, root, n.iri, n.distance))
    && (forall x, d, n, k: nat :: d != Root && ReachedIn(web, d, root, x, k) && !InGraph(g, x) && n in g.nodes ==> n.distance <= k)
    && (NodeCapReason !in g.reasons ==>
          && (forall x, d :: d != Root && x != root && Within(web, d, root, x, depth) ==> exists n :: n in g.nodes && n.iri == x && n.direction == d)
          && (forall x :: InGraph(g, x) <==> Within(web, Upstream, root, x, depth) || Within(web, Downstream, root, x, depth)))
  }

  /** `all` is every dependency between nodes of the graph once: node order, then field order, then list order. */
  ghost predicate EdgesBetween(web: Web, g: Graph, order: seq<Iri>, all: seq<Edge>) {
    && |order| == |g.nodes| && (forall i :: 0 <= i < |order| ==> order[i] == g.nodes[i].iri)
    && NoDup(all) && InEdgeOrder(web.shards, order, all)
    && (forall e :: e in all <==> InGraph(g, e.from) && InGraph(g, e.to) && RecordSays(web.shards, e))
  }

  ghost predicate RecordSays(shards: seq<Shard>, e: Edge) {
    exists s :: s in shards && s.iri == e.from && InField(s, e.field, e.to)
  }

  /** The edge `(from, to)` by which `m` leads to `n` is a tree pair. */
  ghost predicate TreeLead(web: Web, tree: set<(Iri, Iri)>, m: Node, n: Node) {
    LeadsTo(web, m, n) && (if n.direction == Upstream then (m.iri, n.iri) else (n.iri, m.iri)) in tree
  }

  /** One tree pair for every node but the root, from a node that leads to it. */
  ghost predicate TreeOf(web: Web, root: Iri, g: Graph, tree: set<(Iri, Iri)>) {
    && |tree| == |g.nodes| - 1
    && forall n :: n in g.nodes && n.iri != root ==> exists m :: m in g.nodes && TreeLead(web, tree, m, n)
  }

  /** The edges returned are the chosen ones of all. */
  ghost predicate EdgesTell(web: Web, root: Iri, edgeCap: nat, g: Graph, order: seq<Iri>, all: seq<Edge>, tree: set<(Iri, Iri)>, keep: seq<nat>) {
    && EdgesBetween(web, g, order, all) && TreeOf(web, root, g, tree)
    && Chosen(all, tree, edgeCap, keep)
    && |g.edges| == |keep| && (forall k :: 0 <= k < |keep| ==> keep[k] < |all| && g.edges[k] == all[keep[k]])
  }

  /** The whole answer. */
  ghost predicate Answers(web: Web, root: Iri, depth: nat, nodeCap: nat, edgeCap: nat, g: Graph) {
    && NodesTell(web, root, depth, nodeCap, g)
    && (OneSided(web, root, depth) ==> OneSidedTells(web, root, depth, g))
    && exists order, all, tree, keep {:trigger EdgesTell(web, root, edgeCap, g, order, all, tree, keep)} ::
         EdgesTell(web, root, edgeCap, g, order, all, tree, keep) && ReasonsTell(web, depth, nodeCap, |all| > edgeCap, g)
  }

  // A response answers.

  /** The node listed for a placed IRI. */
  lemma NodeOf(web: Web, w: Walk, g: Graph, x: Iri) returns (n: Node)
    requires (forall y :: y in w.order <==> y in w.placed) && g.nodes == NodesOf(web, w) && x in w.placed
    ensures n in g.nodes && n.iri == x && n.direction == w.placed[x].direction && n.distance == w.placed[x].distance
  {
    var i :| 0 <= i < |w.order| && w.order[i] == x;
    n := g.nodes[i];
  }

  lemma NodesArePlaced(root: Iri, cap: nat, web: Web, w: Walk, g: Graph)
    requires Ordered(root, cap, w) && g.nodes == NodesOf(web, w)
    ensures forall n :: n in g.nodes ==> n.iri in w.placed && n.direction == w.placed[n.iri].direction && n.distance == w.placed[n.iri].distance
    ensures forall x :: InGraph(g, x) <==> x in w.placed
  {
    forall n | n in g.nodes
      ensures n.iri in w.placed && n.direction == w.placed[n.iri].direction && n.distance == w.placed[n.iri].distance
    {
      var i :| 0 <= i < |w.order| && g.nodes[i] == n;
      assert w.order[i] in w.order;
    }
    forall x
      ensures InGraph(g, x) <==> x in w.placed
    {
      if x in w.placed {
        var i :| 0 <= i < |w.order| && w.order[i] == x;
        assert g.nodes[i].iri == x;
      }
    }
  }

  lemma PlacedTells(web: Web, root: Iri, depth: nat, cap: nat, w: Walk, full: nat, g: Graph, n: Node)
    requires Finished(web, root, depth, cap, w, full) && g.nodes == NodesOf(web, w) && n in g.nodes
    ensures NodeTells(web, root, depth, n) && (n.iri != root ==> HasLead(web, g, n))
  {
    var i :| 0 <= i < |w.order| && g.nodes[i] == n;
    NodesArePlaced(root, cap, web, w, g);
    assert Level(w.placed[n.iri]) <= HopLevel(Downstream, depth);
    assert n.stored <==> exists s :: s in web.shards && s.iri == n.iri;
    if n.iri != root {
      assert HasParent(web, w, n.iri);
      var y :| Parent(web, w, n.iri, y);
      var m := NodeOf(web, w, g, y);
      assert LeadsTo(web, m, n);
      DistanceIsAChain(web, root, cap, w, n.iri, n.direction);
    }
  }

  lemma PlacedListing(web: Web, root: Iri, cap: nat, w: Walk, g: Graph)
    requires Sound(web, root, cap, w) && g.nodes == NodesOf(web, w)
    ensures Listing(root, cap, g)
  {
    forall i, j | 0 <= i < j < |g.nodes|
      ensures g.nodes[i].iri != g.nodes[j].iri
      ensures NoLater(g.nodes[i].direction, g.nodes[i].distance, g.nodes[j].direction, g.nodes[j].distance)
    {
      var x, y := w.order[i], w.order[j];
      assert x in w.order && y in w.order && y != root;
      assert HasParent(web, w, y);
      assert x != root ==> HasParent(web, w, x);
      assert Level(w.placed[x]) <= Level(w.placed[y]);
    }
  }

  /** What the walk and the listing say of the nodes, on any graph. */
  lemma WalkTells(web: Web, root: Iri, depth: nat, cap: nat, w: Walk, full: nat, g: Graph)
    requires Finished(web, root, depth, cap, w, full) && g.nodes == NodesOf(web, w)
    ensures NodesTell(web, root, depth, cap, g)
  {
    NodesArePlaced(root, cap, web, w, g);
    PlacedListing(web, root, cap, w, g);
    forall n | n in g.nodes
      ensures NodeTells(web, root, depth, n) && (n.iri != root ==> HasLead(web, g, n))
    {
      PlacedTells(web, root, depth, cap, w, full, g, n);
    }
    forall m, n | m in g.nodes && n in g.nodes
      ensures NoSooner(web, m, n)
    {
      PlacedNoSooner(web, root, cap, w, g, m, n);
    }
  }

  lemma PlacedNoSooner(web: Web, root: Iri, cap: nat, w: Walk, g: Graph, m: Node, n: Node)
    requires Sound(web, root, cap, w) && NoneLate(web, w) && g.nodes == NodesOf(web, w) && m in g.nodes && n in g.nodes
    ensures NoSooner(web, m, n)
  {
    NodesArePlaced(root, cap, web, w, g);
    forall d | LooksTo(m, d) && Step(web, d, m.iri, n.iri)
      ensures NoLater(n.direction, n.distance, d, m.distance + 1)
    {
      assert Level(w.placed[n.iri]) <= HopLevel(d, w.placed[m.iri].distance + 1);
    }
  }

  lemma WalkTellsOneSided(web: Web, root: Iri, depth: nat, cap: nat, w: Walk, full: nat, g: Graph)
    requires Finished(web, root, depth, cap, w, full) && g.nodes == NodesOf(web, w) && OneSided(web, root, depth)
    requires NodeCapReason in g.reasons <==> w.capped
    ensures OneSidedTells(web, root, depth, g)
  {
    NodesArePlaced(root, cap, web, w, g);
    OneSidedWalk(web, root, depth, cap, w, full);
    forall n | n in g.nodes && n.iri != root
      ensures ShortestDistance(web, n.direction, root, n.iri, n.distance)
    {
      assert Walks(w.placed[n.iri], n.direction);
      assert PlacedRight(web, root, w, n.direction, n.iri);
    }
    if !w.capped {
      UncappedWalkIsExact(web, root, depth, cap, w, full);
      forall x, d | d != Root && x != root && Within(web, d, root, x, depth)
        ensures exists n :: n in g.nodes && n.iri == x && n.direction == d
      {
        assert PlacedRight(web, root, w, d, x);
        var n := NodeOf(web, w, g, x);
      }
    }
  }

  lemma MissesIsOpen(root: Iri, cap: nat, web: Web, w: Walk, g: Graph, n: Node)
    requires Ordered(root, cap, w) && g.nodes == NodesOf(web, w) && n in g.nodes
    ensures Misses(web, g, n) <==> exists d, x :: Open(web, w, d, n.iri, x)
  {
    NodesArePlaced(root, cap, web, w, g);
    if Misses(web, g, n) {
      var d, x :| LooksTo(n, d) && Step(web, d, n.iri, x) && !InGraph(g, x);
      assert Open(web, w, d, n.iri, x);
    }
    if d, x :| Open(web, w, d, n.iri, x) {
      assert LooksTo(n, d) && Step(web, d, n.iri, x) && !InGraph(g, x);
    }
  }

  lemma DepthCutTells(web: Web, root: Iri, cap: nat, w: Walk, g: Graph, hop: nat)
    requires Ordered(root, cap, w) && g.nodes == NodesOf(web, w)
    ensures OpenAt(web, w, hop) <==> MissesAt(web, g, hop)
  {
    NodesArePlaced(root, cap, web, w, g);
    if OpenAt(web, w, hop) {
      var d, y, x :| Open(web, w, d, y, x) && w.placed[y].distance == hop;
      var n := NodeOf(web, w, g, y);
      MissesIsOpen(root, cap, web, w, g, n);
    }
    if n :| n in g.nodes && n.distance == hop && Misses(web, g, n) {
      MissesIsOpen(root, cap, web, w, g, n);
      var d, x :| Open(web, w, d, n.iri, x);
    }
  }

  lemma NodeCapTells(web: Web, root: Iri, depth: nat, cap: nat, w: Walk, full: nat, g: Graph)
    requires Finished(web, root, depth, cap, w, full) && g.nodes == NodesOf(web, w)
    ensures w.capped <==> MissesBelow(web, g, depth)
    ensures w.capped ==> |g.nodes| == cap
  {
    NodesArePlaced(root, cap, web, w, g);
    if w.capped {
      var d, y, x :| Open(web, w, d, y, x) && w.placed[y].distance < depth;
      var n := NodeOf(web, w, g, y);
      MissesIsOpen(root, cap, web, w, g, n);
    }
    if n :| n in g.nodes && n.distance < depth && Misses(web, g, n) {
      MissesIsOpen(root, cap, web, w, g, n);
      var d, x :| Open(web, w, d, n.iri, x);
      assert !w.capped ==> x in w.placed;
    }
  }

  lemma RecordSaysExact(shards: seq<Shard>, e: Edge)
    ensures Logical(shards, e) <==> RecordSays(shards, e)
  {
    if s :| s in shards && s.iri == e.from && e.to in s.Targets(e.field) {
      assert InField(s, e.field, e.to);
    }
    if s :| s in shards && s.iri == e.from && InField(s, e.field, e.to) {
      assert e.to in s.Targets(e.field);
    }
  }

  lemma ResponseEdges(web: Web, root: Iri, depth: nat, nodeCap: nat, edgeCap: nat, g: Graph, w: Walk, full: nat, keep: seq<nat>)
    requires DistinctIris(web.shards) && Response(web, root, depth, nodeCap, edgeCap, g, w, full, keep)
    ensures EdgesTell(web, root, edgeCap, g, w.order, LogicalEdges(web.shards, w.order, w.placed), w.tree, keep)
  {
    WalkEdges(web, root, nodeCap, g, w);
    WalkTree(web, root, nodeCap, g, w);
    KeptIsChosen(LogicalEdges(web.shards, w.order, w.placed), w.tree, edgeCap, keep);
  }

  lemma WalkEdges(web: Web, root: Iri, cap: nat, g: Graph, w: Walk)
    requires DistinctIris(web.shards) && Ordered(root, cap, w) && g.nodes == NodesOf(web, w)
    ensures EdgesBetween(web, g, w.order, LogicalEdges(web.shards, w.order, w.placed))
  {
    var all := LogicalEdges(web.shards, w.order, w.placed);
    NodesArePlaced(root, cap, web, w, g);
    LogicalEdgesExact(web.shards, w.order, w.placed);
    LogicalEdgesInOrder(web.shards, w.order, w.placed);
    forall e
      ensures e in all <==> InGraph(g, e.from) && InGraph(g, e.to) && RecordSays(web.shards, e)
    {
      RecordSaysExact(web.shards, e);
    }
  }

  lemma WalkTree(web: Web, root: Iri, cap: nat, g: Graph, w: Walk)
    requires Sound(web, root, cap, w) && g.nodes == NodesOf(web, w)
    ensures TreeOf(web, root, g, w.tree)
  {
    NodesArePlaced(root, cap, web, w, g);
    forall n | n in g.nodes && n.iri != root
      ensures exists m :: m in g.nodes && TreeLead(web, w.tree, m, n)
    {
      assert HasParent(web, w, n.iri);
      var y :| Parent(web, w, n.iri, y);
      var m := NodeOf(web, w, g, y);
      assert TreeLead(web, w.tree, m, n);
    }
  }

  lemma ResponseAnswers(web: Web, root: Iri, depth: nat, nodeCap: nat, edgeCap: nat, g: Graph, w: Walk, full: nat, keep: seq<nat>)
    requires DistinctIris(web.shards) && Response(web, root, depth, nodeCap, edgeCap, g, w, full, keep)
    ensures Answers(web, root, depth, nodeCap, edgeCap, g)
  {
    var all := LogicalEdges(web.shards, w.order, w.placed);
    WalkTells(web, root, depth, nodeCap, w, full, g);
    if OneSided(web, root, depth) {
      WalkTellsOneSided(web, root, depth, nodeCap, w, full, g);
    }
    ResponseEdges(web, root, depth, nodeCap, edgeCap, g, w, full, keep);
    ResponseReasons(web, root, depth, nodeCap, w, full, g, |all| > edgeCap);
  }

  lemma ResponseReasons(web: Web, root: Iri, depth: nat, cap: nat, w: Walk, full: nat, g: Graph, edgesCut: bool)
    requires Finished(web, root, depth, cap, w, full) && g.nodes == NodesOf(web, w)
    requires g.reasons == Reasons(OpenAt(web, w, depth), w.capped, edgesCut)
    ensures ReasonsTell(web, depth, cap, edgesCut, g)
  {
    DepthCutTells(web, root, cap, w, g, depth);
    NodeCapTells(web, root, depth, cap, w, full, g);
    ReasonsInOrder(OpenAt(web, w, depth), w.capped, edgesCut);
  }

  lemma ReasonsInOrder(depthCut: bool, nodeCapped: bool, edgeCapped: bool)
    ensures InReasonOrder(Reasons(depthCut, nodeCapped, edgeCapped))
  {
  }

  /** The bounded dependency graph around `root`, or the refusal of its arguments. */
  method Build(web: Web, root: Iri, depth: int, nodeCap: int, edgeCap: int)
    returns (r: Result<Graph, GraphError>, ghost w: Walk, ghost full: nat, ghost keep: seq<nat>)
    requires DistinctIris(web.shards)
    ensures r == Err(BadBounds) <==> depth < 0 || nodeCap < 1 || edgeCap < 1
    ensures r == Err(UnknownRoot) <==> r != Err(BadBounds) && (forall s :: s in web.shards ==> s.iri != root) && root !in web.kernel
    ensures r.Ok? ==> Answers(web, root, depth, nodeCap, edgeCap, r.value)
    ensures r.Ok? ==> Response(web, root, depth, nodeCap, edgeCap, r.value, w, full, keep)
  {
    w, full, keep := Walk([], map[], {}, false), 0, [];
    if depth < 0 || nodeCap < 1 || edgeCap < 1 {
      return Err(BadBounds), w, full, keep;
    }
    if Find(web.shards, root).None? && root !in web.kernel {
      return Err(UnknownRoot), w, full, keep;
    }
    var walk, depthCut;
    walk, depthCut, full := RunWalk(web, root, depth, nodeCap);
    w := walk;
    var edges := CollectEdges(web.shards, walk.order, walk.placed);
    var edgeCapped := |edges| > edgeCap;
    var kept;
    kept, keep := KeepEdges(edges, walk.tree, edgeCap);
    r := Ok(Graph(NodesOf(web, walk), kept, Reasons(depthCut, walk.capped, edgeCapped)));
    ResponseAnswers(web, root, depth, nodeCap, edgeCap, r.value, w, full, keep);
  }
}
