/** How the returned edges join the returned nodes to the root, and exactly when they all do. */
module GraphEdges {
  import opened Sequences
  import opened DependencyGraph
  import opened GraphWalk
  import opened GraphProperties
  import opened EdgeCap
  import opened BuildGraph

  /** A returned edge by which `y` leads one hop to `x` in direction `d`. */
  ghost predicate Linked(edges: seq<Edge>, d: Direction, y: Iri, x: Iri) {
    exists e :: e in edges && Pair(e) == Link(d, y, x)
  }

  /** `p` starts at the root, is at distance `i` after `i` hops, and every hop is a returned edge. */
  ghost predicate KeptChain(edges: seq<Edge>, w: Walk, root: Iri, d: Direction, p: seq<Iri>) {
    && |p| >= 1 && p[0] == root
    && (forall i :: 0 <= i < |p| ==> WalkedAt(w, p[i], d, i))
    && forall i {:trigger p[i + 1]} :: 0 <= i < |p| - 1 ==> Linked(edges, d, p[i], p[i + 1])
  }

  /** A node at distance `n` is joined to the root by a chain of exactly `n` returned edges in its direction. */
  ghost predicate Joined(edges: seq<Edge>, w: Walk, root: Iri, x: Iri)
    requires x in w.placed
  {
    exists p :: KeptChain(edges, w, root, w.placed[x].direction, p) && p[|p| - 1] == x && |p| == w.placed[x].distance + 1
  }

  ghost predicate AllJoined(edges: seq<Edge>, w: Walk, root: Iri) {
    forall x {:trigger Joined(edges, w, root, x)} :: x in w.placed ==> Joined(edges, w, root, x)
  }

  lemma TreePairHasEdge(web: Web, root: Iri, cap: nat, w: Walk, a: Iri, b: Iri) returns (i: nat)
    requires DistinctIris(web.shards) && Ordered(root, cap, w) && TreeSound(web, w) && (a, b) in w.tree
    ensures var all := LogicalEdges(web.shards, w.order, w.placed); i < |all| && Pair(all[i]) == (a, b)
  {
    var all := LogicalEdges(web.shards, w.order, w.placed);
    var s :| s in web.shards && s.iri == a && s.Names(b);
    var f :| b in s.Targets(f) by {
      assert b in s.Targets(Axioms) || b in s.Targets(Definitions) || b in s.Targets(Precedents) || b in s.Targets(Shards);
    }
    LogicalEdgesExact(web.shards, w.order, w.placed);
    assert Logical(web.shards, Edge(a, b, f));
    assert Edge(a, b, f) in all;
    i :| 0 <= i < |all| && all[i] == Edge(a, b, f);
  }

  lemma TreePairIsLinked(web: Web, root: Iri, depth: nat, nodeCap: nat, edgeCap: nat, g: Graph, w: Walk, full: nat, keep: seq<nat>, a: Iri, b: Iri)
    requires DistinctIris(web.shards) && Response(web, root, depth, nodeCap, edgeCap, g, w, full, keep)
    requires |w.order| - 1 <= edgeCap && (a, b) in w.tree
    ensures exists e :: e in g.edges && Pair(e) == (a, b)
  {
    var all := LogicalEdges(web.shards, w.order, w.placed);
    var i := TreePairHasEdge(web, root, nodeCap, w, a, b);
    TreePairIsKept(all, w.tree, edgeCap, keep, i);
    var r :| r in keep && r < |all| && Pair(all[r]) == Pair(all[i]);
    var k :| 0 <= k < |keep| && keep[k] == r;
    assert g.edges[k] == all[r] && g.edges[k] in g.edges;
  }

  lemma ExtendChain(edges: seq<Edge>, w: Walk, root: Iri, d: Direction, q: seq<Iri>, x: Iri)
    requires KeptChain(edges, w, root, d, q) && WalkedAt(w, x, d, |q|) && Linked(edges, d, q[|q| - 1], x)
    ensures KeptChain(edges, w, root, d, q + [x])
  {
    var p := q + [x];
    forall i {:trigger p[i + 1]} | 0 <= i < |p| - 1
      ensures Linked(edges, d, p[i], p[i + 1])
    {
      if i < |q| - 1 {
        assert q[i + 1] == p[i + 1];
      }
    }
  }

  lemma {:induction false} ChainFromRoot(web: Web, root: Iri, depth: nat, nodeCap: nat, edgeCap: nat, g: Graph, w: Walk, full: nat, keep: seq<nat>, x: Iri, d: Direction)
    returns (p: seq<Iri>)
    requires DistinctIris(web.shards) && Response(web, root, depth, nodeCap, edgeCap, g, w, full, keep)
    requires |w.order| - 1 <= edgeCap && x in w.placed && Walks(w.placed[x], d)
    ensures KeptChain(g.edges, w, root, d, p) && p[|p| - 1] == x && |p| == w.placed[x].distance + 1
    decreases w.placed[x].distance
  {
    if x == root {
      p := [root];
    } else {
      assert HasParent(web, w, x);
      var y :| Parent(web, w, x, y);
      var q := ChainFromRoot(web, root, depth, nodeCap, edgeCap, g, w, full, keep, y, d);
      p := q + [x];
      var link := Link(d, y, x);
      TreePairIsLinked(web, root, depth, nodeCap, edgeCap, g, w, full, keep, link.0, link.1);
      ExtendChain(g.edges, w, root, d, q, x);
    }
  }

  /** Every non-root node's chain ends in a returned edge, and no two nodes share it. */
  ghost function NextToLast(edges: seq<Edge>, w: Walk, root: Iri, x: Iri): (y: Iri)
    requires x in w.placed && w.placed[x].distance >= 1 && Joined(edges, w, root, x)
    ensures Linked(edges, w.placed[x].direction, y, x) && WalkedAt(w, y, w.placed[x].direction, w.placed[x].distance - 1)
  {
    var p :| KeptChain(edges, w, root, w.placed[x].direction, p) && p[|p| - 1] == x && |p| == w.placed[x].distance + 1;
    var last := |p| - 2;
    assert p[last + 1] == x;
    p[last]
  }

  ghost function LastPair(edges: seq<Edge>, w: Walk, root: Iri, x: Iri): (Iri, Iri)
    requires x in w.placed && w.placed[x].distance >= 1 && Joined(edges, w, root, x)
  {
    Link(w.placed[x].direction, NextToLast(edges, w, root, x), x)
  }

  lemma LastPairsDiffer(edges: seq<Edge>, w: Walk, root: Iri, cap: nat, x: Iri, z: Iri)
    requires Ordered(root, cap, w) && x in w.placed && z in w.placed && x != z && x != root && z != root
    requires w.placed[x].distance >= 1 && w.placed[z].distance >= 1
    requires Joined(edges, w, root, x) && Joined(edges, w, root, z)
    ensures LastPair(edges, w, root, x) != LastPair(edges, w, root, z)
  {
  }

  lemma JoiningNeedsEdges(web: Web, root: Iri, depth: nat, cap: nat, w: Walk, full: nat, edges: seq<Edge>)
    requires Finished(web, root, depth, cap, w, full) && AllJoined(edges, w, root)
    ensures |w.order| - 1 <= |edges|
  {
    var others := w.order[1..];
    forall i | 0 <= i < |others|
      ensures others[i] in w.placed && others[i] != root && w.placed[others[i]].distance >= 1 && Joined(edges, w, root, others[i])
    {
      assert others[i] == w.order[i + 1] && w.order[i + 1] in w.order;
      assert HasParent(web, w, others[i]);
    }
    var pairs := seq(|others|, i requires 0 <= i < |others| => LastPair(edges, w, root, others[i]));
    forall i, j | 0 <= i < j < |pairs|
      ensures pairs[i] != pairs[j]
    {
      LastPairsDiffer(edges, w, root, cap, others[i], others[j]);
    }
    var kept := seq(|edges|, k requires 0 <= k < |edges| => Pair(edges[k]));
    forall q | q in pairs
      ensures q in kept
    {
      var i :| 0 <= i < |pairs| && pairs[i] == q;
      var e :| e in edges && Pair(e) == q;
      var k :| 0 <= k < |edges| && edges[k] == e;
      assert kept[k] == q;
    }
    SubsetLength(pairs, kept);
  }

  // The same, told of the response alone.

  /** The response lists `x` at distance `k`, walked in direction `d`. */
  ghost predicate Stands(g: Graph, x: Iri, d: Direction, k: nat) {
    exists n :: n in g.nodes && n.iri == x && n.distance == k && (n.direction == d || n.direction == Root)
  }

  /** A returned edge by which `y` leads one hop to `x` in direction `d`. */
  ghost predicate EdgeLeads(g: Graph, d: Direction, y: Iri, x: Iri) {
    exists e :: e in g.edges && if d == Upstream then e.from == y && e.to == x else e.from == x && e.to == y
  }

  /** `p` starts at the root, is at distance `i` after `i` hops, and every hop is a returned edge. */
  ghost predicate ChainInGraph(g: Graph, root: Iri, d: Direction, p: seq<Iri>) {
    && |p| >= 1 && p[0] == root
    && (forall i :: 0 <= i < |p| ==> Stands(g, p[i], d, i))
    && forall i {:trigger p[i + 1]} :: 0 <= i < |p| - 1 ==> EdgeLeads(g, d, p[i], p[i + 1])
  }

  /** As many returned edges as the node is hops away join it to the root, hop by hop in its direction. */
  ghost predicate NodeJoined(g: Graph, root: Iri, n: Node) {
    exists p :: ChainInGraph(g, root, n.direction, p) && p[|p| - 1] == n.iri && |p| == n.distance + 1
  }

  ghost predicate EveryNodeJoined(g: Graph, root: Iri) {
    forall n :: n in g.nodes ==> NodeJoined(g, root, n)
  }

  lemma StandsIsWalked(web: Web, root: Iri, cap: nat, w: Walk, g: Graph, x: Iri, d: Direction, k: nat)
    requires Ordered(root, cap, w) && g.nodes == NodesOf(web, w)
    ensures Stands(g, x, d, k) <==> WalkedAt(w, x, d, k)
  {
    NodesArePlaced(root, cap, web, w, g);
    if WalkedAt(w, x, d, k) {
      var n := NodeOf(web, w, g, x);
    }
  }

  lemma LeadsIsLinked(g: Graph, d: Direction, y: Iri, x: Iri)
    ensures EdgeLeads(g, d, y, x) <==> Linked(g.edges, d, y, x)
  {
    if EdgeLeads(g, d, y, x) {
      var e :| e in g.edges && if d == Upstream then e.from == y && e.to == x else e.from == x && e.to == y;
      assert Pair(e) == Link(d, y, x);
    }
  }

  lemma ChainIsKept(web: Web, root: Iri, cap: nat, w: Walk, g: Graph, d: Direction, p: seq<Iri>)
    requires Ordered(root, cap, w) && g.nodes == NodesOf(web, w)
    ensures ChainInGraph(g, root, d, p) <==> KeptChain(g.edges, w, root, d, p)
  {
    forall i | 0 <= i < |p|
      ensures Stands(g, p[i], d, i) <==> WalkedAt(w, p[i], d, i)
    {
      StandsIsWalked(web, root, cap, w, g, p[i], d, i);
    }
    forall i {:trigger p[i + 1]} | 0 <= i < |p| - 1
      ensures EdgeLeads(g, d, p[i], p[i + 1]) <==> Linked(g.edges, d, p[i], p[i + 1])
    {
      LeadsIsLinked(g, d, p[i], p[i + 1]);
    }
  }

  lemma NodeJoinedIs(web: Web, root: Iri, cap: nat, w: Walk, g: Graph, n: Node)
    requires Ordered(root, cap, w) && g.nodes == NodesOf(web, w) && n in g.nodes && n.iri in w.placed
    requires n.direction == w.placed[n.iri].direction && n.distance == w.placed[n.iri].distance
    ensures NodeJoined(g, root, n) <==> Joined(g.edges, w, root, n.iri)
  {
    if p :| ChainInGraph(g, root, n.direction, p) && p[|p| - 1] == n.iri && |p| == n.distance + 1 {
      ChainIsKept(web, root, cap, w, g, n.direction, p);
    }
    if Joined(g.edges, w, root, n.iri) {
      var p :| KeptChain(g.edges, w, root, n.direction, p) && p[|p| - 1] == n.iri && |p| == n.distance + 1;
      ChainIsKept(web, root, cap, w, g, n.direction, p);
    }
  }

  lemma EveryNodeJoinedIs(web: Web, root: Iri, cap: nat, w: Walk, g: Graph)
    requires Ordered(root, cap, w) && g.nodes == NodesOf(web, w)
    ensures EveryNodeJoined(g, root) <==> AllJoined(g.edges, w, root)
  {
    NodesArePlaced(root, cap, web, w, g);
    forall n | n in g.nodes
      ensures NodeJoined(g, root, n) <==> Joined(g.edges, w, root, n.iri)
    {
      NodeJoinedIs(web, root, cap, w, g, n);
    }
    if EveryNodeJoined(g, root) {
      forall x | x in w.placed
        ensures Joined(g.edges, w, root, x)
      {
        var n := NodeOf(web, w, g, x);
        assert NodeJoined(g, root, n);
      }
    }
  }

  /** Every returned node is joined to the root exactly when the edge cap admits one edge per node but the root. */
  lemma JoinedIffCapAdmits(web: Web, root: Iri, depth: nat, nodeCap: nat, edgeCap: nat, g: Graph, w: Walk, full: nat, keep: seq<nat>)
    requires DistinctIris(web.shards) && Response(web, root, depth, nodeCap, edgeCap, g, w, full, keep)
    ensures EveryNodeJoined(g, root) <==> |g.nodes| - 1 <= edgeCap
  {
    if |g.nodes| - 1 <= edgeCap {
      forall x | x in w.placed
        ensures Joined(g.edges, w, root, x)
      {
        var p := ChainFromRoot(web, root, depth, nodeCap, edgeCap, g, w, full, keep, x, w.placed[x].direction);
      }
    }
    if AllJoined(g.edges, w, root) {
      JoiningNeedsEdges(web, root, depth, nodeCap, w, full, g.edges);
    }
    EveryNodeJoinedIs(web, root, nodeCap, w, g);
  }

  /** The routes' bounds always admit it. */
  const GRAPH_NODE_CAP := 500
  const GRAPH_EDGE_CAP := 2000

  lemma RoutesJoinEveryNode(web: Web, root: Iri, depth: nat, g: Graph, w: Walk, full: nat, keep: seq<nat>)
    requires DistinctIris(web.shards) && Response(web, root, depth, GRAPH_NODE_CAP, GRAPH_EDGE_CAP, g, w, full, keep)
    ensures EveryNodeJoined(g, root)
  {
    JoinedIffCapAdmits(web, root, depth, GRAPH_NODE_CAP, GRAPH_EDGE_CAP, g, w, full, keep);
  }

  /** Every neighbour of a returned node, in a direction it is walked in, is a returned node. */
  ghost predicate GraphClosed(web: Web, g: Graph) {
    forall n :: n in g.nodes ==> !Misses(web, g, n)
  }

  /** The response names neither the depth nor the node cap exactly when it is closed (any graph). */
  lemma NoReasonIffClosed(web: Web, root: Iri, depth: nat, nodeCap: nat, edgeCap: nat, g: Graph)
    requires Answers(web, root, depth, nodeCap, edgeCap, g)
    ensures DepthReason !in g.reasons && NodeCapReason !in g.reasons <==> GraphClosed(web, g)
  {
    forall n | n in g.nodes && Misses(web, g, n)
      ensures MissesAt(web, g, depth) || MissesBelow(web, g, depth)
    {
      assert NodeTells(web, root, depth, n);
    }
  }
}
