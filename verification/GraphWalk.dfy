/**
 The bounded two-direction walk of `build_graph`: what it keeps while it
 places nodes, and the loops that place them.
 */
module GraphWalk {
  import opened Sequences
  import opened DependencyGraph

  datatype Place = Place(direction: Direction, distance: nat)

  /** `placed` with its insertion order, the edges that placed nodes, and whether the cap refused one. */
  datatype Walk = Walk(order: seq<Iri>, placed: map<Iri, Place>, tree: set<(Iri, Iri)>, capped: bool)

  /** Hop `n` upstream comes before hop `n` downstream, which comes before hop `n + 1`. */
  function HopLevel(d: Direction, hop: nat): nat {
    2 * hop + if d == Downstream then 1 else 0
  }

  function Level(p: Place): nat {
    HopLevel(p.direction, p.distance)
  }

  /** The dependency edge `(from, to)` by which `y` placed `x`. */
  function Link(d: Direction, y: Iri, x: Iri): (Iri, Iri) {
    if d == Upstream then (y, x) else (x, y)
  }

  predicate Walks(p: Place, d: Direction) {
    p.direction == d || p.direction == Root
  }

  /** `x` is placed at distance `k` and is walked in direction `d` (the root is walked in both). */
  ghost predicate WalkedAt(w: Walk, x: Iri, d: Direction, k: nat) {
    x in w.placed && w.placed[x].distance == k && Walks(w.placed[x], d)
  }

  ghost predicate Parent(web: Web, w: Walk, x: Iri, y: Iri)
    requires x in w.placed
  {
    var p := w.placed[x];
    p.distance >= 1 && WalkedAt(w, y, p.direction, p.distance - 1) &&
    Step(web, p.direction, y, x) && Link(p.direction, y, x) in w.tree
  }

  /** A walked node `y` has a neighbour `x` that is not placed. */
  ghost predicate Open(web: Web, w: Walk, d: Direction, y: Iri, x: Iri) {
    d != Root && y in w.placed && Walks(w.placed[y], d) && Step(web, d, y, x) && x !in w.placed
  }

  /** `order` lists the placed nodes once each, the root first, hop by hop. */
  ghost predicate Ordered(root: Iri, cap: nat, w: Walk) {
    && 1 <= |w.order| <= cap && w.order[0] == root && NoDup(w.order)
    && (forall x :: x in w.order <==> x in w.placed)
    && root in w.placed && w.placed[root] == Place(Root, 0)
    && (forall x :: x in w.placed && x != root ==> w.placed[x].direction != Root)
    && (forall i, j :: 0 <= i < j < |w.order| ==> Level(w.placed[w.order[i]]) <= Level(w.placed[w.order[j]]))
  }

  ghost predicate HasParent(web: Web, w: Walk, x: Iri)
    requires x in w.placed
  {
    exists y :: Parent(web, w, x, y)
  }

  /** Every node but the root was placed one hop after a node walked in its direction. */
  ghost predicate Parented(web: Web, root: Iri, w: Walk) {
    forall x {:trigger HasParent(web, w, x)} :: x in w.placed && x != root ==> HasParent(web, w, x)
  }

  /** One distinct pair per node but the root, each a real dependency between placed nodes. */
  ghost predicate TreeSound(web: Web, w: Walk) {
    && |w.tree| == |w.order| - 1
    && (forall a, b :: (a, b) in w.tree ==> a in w.placed && b in w.placed && DependsOn(web.shards, a, b))
  }

  /** The flag is up only when the cap is reached and a walked node still has an unplaced neighbour. */
  ghost predicate CapSound(web: Web, cap: nat, w: Walk) {
    w.capped ==> |w.order| == cap && exists d, y, x :: Open(web, w, d, y, x)
  }

  /** What holds after every single placement, on every graph. */
  ghost predicate Sound(web: Web, root: Iri, cap: nat, w: Walk) {
    Ordered(root, cap, w) && Parented(web, root, w) && TreeSound(web, w) && CapSound(web, cap, w)
  }

  /** Every neighbour of a node walked in direction `d` below distance `full` is placed, no later than its hop. */
  ghost predicate Settled(web: Web, w: Walk, d: Direction, full: nat) {
    forall y, x :: y in w.placed && Walks(w.placed[y], d) && w.placed[y].distance < full && Step(web, d, y, x)
                   ==> x in w.placed && Level(w.placed[x]) <= HopLevel(d, w.placed[y].distance + 1)
  }

  /** No node is placed later than some walked node offered it. */
  ghost predicate NoneLate(web: Web, w: Walk) {
    forall d, y, x :: d != Root && y in w.placed && Walks(w.placed[y], d) && Step(web, d, y, x) && x in w.placed
                      ==> Level(w.placed[x]) <= HopLevel(d, w.placed[y].distance + 1)
  }

  ghost predicate AtMost(w: Walk, level: nat) {
    forall x :: x in w.placed ==> Level(w.placed[x]) <= level
  }

  /** `w'` only adds to `w`, and only nodes placed as `p`. */
  ghost predicate Grows(w: Walk, w': Walk, p: Place) {
    && w.order <= w'.order
    && (forall x :: x in w.placed ==> x in w'.placed && w'.placed[x] == w.placed[x])
    && (forall x :: x in w'.placed && x !in w.placed ==> w'.placed[x] == p)
    && w.tree <= w'.tree
    && (w.capped ==> w'.capped)
  }

  function PlaceNode(w: Walk, d: Direction, hop: nat, y: Iri, x: Iri): Walk {
    Walk(w.order + [x], w.placed[x := Place(d, hop)], w.tree + {Link(d, y, x)}, w.capped)
  }

  lemma PlaceNodeOrdered(root: Iri, cap: nat, w: Walk, d: Direction, hop: nat, y: Iri, x: Iri)
    requires Ordered(root, cap, w) && |w.order| < cap && d != Root
    requires x !in w.placed && AtMost(w, HopLevel(d, hop))
    ensures Ordered(root, cap, PlaceNode(w, d, hop, y, x))
    ensures Grows(w, PlaceNode(w, d, hop, y, x), Place(d, hop))
    ensures AtMost(PlaceNode(w, d, hop, y, x), HopLevel(d, hop))
  {
    var v := PlaceNode(w, d, hop, y, x);
    forall i, j | 0 <= i < j < |v.order|
      ensures v.order[i] != v.order[j]
      ensures Level(v.placed[v.order[i]]) <= Level(v.placed[v.order[j]])
    {
      assert w.order[i] in w.placed;
      if j < |w.order| {
        assert w.order[j] in w.placed;
      }
    }
  }

  lemma GrowthKeepsParents(web: Web, root: Iri, w: Walk, v: Walk)
    requires Parented(web, root, w) && w.tree <= v.tree
    requires forall z :: z in w.placed ==> z in v.placed && v.placed[z] == w.placed[z]
    ensures forall z {:trigger HasParent(web, v, z)} :: z in w.placed && z != root ==> HasParent(web, v, z)
  {
    forall z | z in w.placed && z != root
      ensures HasParent(web, v, z)
    {
      assert HasParent(web, w, z);
      var u :| Parent(web, w, z, u);
      assert Parent(web, v, z, u);
    }
  }

  lemma PlaceNodeParented(web: Web, root: Iri, w: Walk, d: Direction, hop: nat, y: Iri, x: Iri)
    requires Parented(web, root, w) && d != Root && hop >= 1
    requires WalkedAt(w, y, d, hop - 1) && Step(web, d, y, x) && x !in w.placed
    ensures Parented(web, root, PlaceNode(w, d, hop, y, x))
  {
    var v := PlaceNode(w, d, hop, y, x);
    GrowthKeepsParents(web, root, w, v);
    assert Parent(web, v, x, y);
  }

  lemma PlaceNodeTree(web: Web, w: Walk, d: Direction, hop: nat, y: Iri, x: Iri)
    requires TreeSound(web, w) && d != Root && y in w.placed && Step(web, d, y, x) && x !in w.placed
    ensures TreeSound(web, PlaceNode(w, d, hop, y, x))
  {
    assert Link(d, y, x) !in w.tree;
  }

  /** One placement keeps everything the walk keeps. */
  lemma PlaceNodeSound(web: Web, root: Iri, cap: nat, w: Walk, d: Direction, hop: nat, y: Iri, x: Iri)
    requires Sound(web, root, cap, w) && |w.order| < cap && d != Root && hop >= 1
    requires WalkedAt(w, y, d, hop - 1) && Step(web, d, y, x) && x !in w.placed
    requires AtMost(w, HopLevel(d, hop))
    ensures Sound(web, root, cap, PlaceNode(w, d, hop, y, x))
    ensures Grows(w, PlaceNode(w, d, hop, y, x), Place(d, hop))
    ensures AtMost(PlaceNode(w, d, hop, y, x), HopLevel(d, hop))
  {
    PlaceNodeOrdered(root, cap, w, d, hop, y, x);
    PlaceNodeParented(web, root, w, d, hop, y, x);
    PlaceNodeTree(web, w, d, hop, y, x);
  }

  /** The cap refuses `x`: nothing moves but the flag, and the refusal stays visible. */
  lemma RefusalSound(web: Web, root: Iri, cap: nat, w: Walk, d: Direction, y: Iri, x: Iri)
    requires Sound(web, root, cap, w) && |w.order| >= cap
    requires Open(web, w, d, y, x)
    ensures Sound(web, root, cap, w.(capped := true))
  {
    var v := w.(capped := true);
    assert Open(web, v, d, y, x);
    GrowthKeepsParents(web, root, w, v);
  }

  lemma GrowsTransitive(w: Walk, v: Walk, u: Walk, p: Place)
    requires Grows(w, v, p) && Grows(v, u, p)
    ensures Grows(w, u, p)
  {
  }

  /** The first `n` neighbours are placed, unless the cap refused one. */
  ghost predicate Offered(w: Walk, neighbours: seq<Iri>, n: nat) {
    !w.capped ==> forall k :: 0 <= k < n && k < |neighbours| ==> neighbours[k] in w.placed
  }

  lemma OfferOne(w: Walk, v: Walk, p: Place, neighbours: seq<Iri>, n: nat)
    requires Offered(w, neighbours, n) && Grows(w, v, p)
    requires n < |neighbours| && (neighbours[n] in v.placed || v.capped)
    ensures Offered(v, neighbours, n + 1)
  {
  }

  // Which nodes a scan places, and in which order.

  /** The distinct members of `xs` that are not placed, in order of first appearance. */
  function Fresh(w: Walk, xs: seq<Iri>): seq<Iri> {
    if xs == [] then []
    else
      var front, last := Fresh(w, xs[..|xs| - 1]), xs[|xs| - 1];
      if last in w.placed || last in front then front else front + [last]
  }

  function Room(cap: nat, w: Walk): nat {
    if |w.order| < cap then cap - |w.order| else 0
  }

  function Take(s: seq<Iri>, n: nat): seq<Iri> {
    if n < |s| then s[..n] else s
  }

  /** Scanning `xs` places the fresh ones, as many as there is room for, and raises the flag when there are more. */
  ghost predicate Scanned(cap: nat, w: Walk, xs: seq<Iri>, w': Walk, reached: seq<Iri>) {
    && reached == Take(Fresh(w, xs), Room(cap, w))
    && w'.order == w.order + reached
    && (forall x :: x in w'.placed <==> x in w.placed || x in reached)
    && (w'.capped <==> w.capped || |Fresh(w, xs)| > Room(cap, w))
  }

  /** What offering `x` to node `y` makes of a walk. */
  ghost predicate Offers(cap: nat, w: Walk, d: Direction, hop: nat, y: Iri, x: Iri, w': Walk, placed: bool) {
    && (placed <==> x !in w.placed && |w.order| < cap)
    && w' == if x in w.placed then w else if |w.order| >= cap then w.(capped := true) else PlaceNode(w, d, hop, y, x)
  }

  lemma ScanOne(cap: nat, w: Walk, xs: seq<Iri>, v: Walk, reached: seq<Iri>, d: Direction, hop: nat, y: Iri, x: Iri, v': Walk, placed: bool)
    requires Scanned(cap, w, xs, v, reached) && Offers(cap, v, d, hop, y, x, v', placed)
    ensures Scanned(cap, w, xs + [x], v', if placed then reached + [x] else reached)
  {
    FreshNext(w, xs, x);
    FreshMembers(w, xs, x);
    if x !in v.placed && |v.order| < cap {
      assert reached == Fresh(w, xs);
      assert w.order + (reached + [x]) == (w.order + reached) + [x];
    }
  }

  lemma FreshNext(w: Walk, xs: seq<Iri>, x: Iri)
    ensures Fresh(w, xs + [x]) == if x in w.placed || x in Fresh(w, xs) then Fresh(w, xs) else Fresh(w, xs) + [x]
  {
    assert (xs + [x])[..|xs|] == xs;
  }

  lemma {:induction false} FreshMembers(w: Walk, xs: seq<Iri>, x: Iri)
    ensures x in Fresh(w, xs) ==> x !in w.placed
  {
    if xs != [] {
      FreshMembers(w, xs[..|xs| - 1], x);
    }
  }

  lemma {:induction false} FreshAppend(w: Walk, v: Walk, a: seq<Iri>, b: seq<Iri>)
    requires forall x :: x in v.placed <==> x in w.placed || x in Fresh(w, a)
    ensures Fresh(w, a + b) == Fresh(w, a) + Fresh(v, b)
  {
    if b == [] {
      assert a + b == a;
    } else {
      var front, last := b[..|b| - 1], b[|b| - 1];
      FreshAppend(w, v, a, front);
      assert (a + b)[..|a + b| - 1] == a + front;
    }
  }

  lemma {:induction false} FreshGrows(w: Walk, a: seq<Iri>, b: seq<Iri>)
    ensures Fresh(w, a) <= Fresh(w, a + b)
  {
    if b == [] {
      assert a + b == a;
    } else {
      FreshGrows(w, a, b[..|b| - 1]);
      assert (a + b)[..|a + b| - 1] == a + b[..|b| - 1];
    }
  }

  /** Two scans in a row are one scan of both lists. */
  lemma ScanTwice(cap: nat, w: Walk, a: seq<Iri>, v: Walk, first: seq<Iri>, b: seq<Iri>, u: Walk, second: seq<Iri>)
    requires Scanned(cap, w, a, v, first) && Scanned(cap, v, b, u, second)
    ensures Scanned(cap, w, a + b, u, first + second)
  {
    FreshGrows(w, a, b);
    if |Fresh(w, a)| <= Room(cap, w) {
      FreshAppend(w, v, a, b);
    } else {
      assert Room(cap, v) == 0 && second == [];
      assert first + second == first;
    }
  }

  /** The body of the innermost loop: skip a placed neighbour, refuse one at the cap, place any other. */
  method Offer(web: Web, root: Iri, cap: nat, w0: Walk, d: Direction, hop: nat, node: Iri, neighbour: Iri)
    returns (w: Walk, placed: bool)
    requires Sound(web, root, cap, w0) && d != Root && hop >= 1
    requires WalkedAt(w0, node, d, hop - 1) && AtMost(w0, HopLevel(d, hop))
    requires Step(web, d, node, neighbour)
    ensures Sound(web, root, cap, w) && Grows(w0, w, Place(d, hop)) && AtMost(w, HopLevel(d, hop))
    ensures forall x :: x in w.placed <==> x in w0.placed || (placed && x == neighbour)
    ensures placed ==> neighbour !in w0.placed
    ensures neighbour in w.placed || w.capped
    ensures Offers(cap, w0, d, hop, node, neighbour, w, placed)
  {
    w, placed := w0, false;
    if neighbour in w.placed {
    } else if |w.order| >= cap {
      RefusalSound(web, root, cap, w, d, node, neighbour);
      w := w.(capped := true);
    } else {
      PlaceNodeSound(web, root, cap, w, d, hop, node, neighbour);
      w, placed := PlaceNode(w, d, hop, node, neighbour), true;
    }
  }

  /** After the first `n` neighbours of a frontier node. */
  ghost predicate Visiting(web: Web, root: Iri, cap: nat, w0: Walk, d: Direction, hop: nat, neighbours: seq<Iri>, n: nat, w: Walk, reached: seq<Iri>) {
    && n <= |neighbours|
    && Sound(web, root, cap, w) && Grows(w0, w, Place(d, hop)) && AtMost(w, HopLevel(d, hop))
    && Offered(w, neighbours, n)
    && Scanned(cap, w0, neighbours[..n], w, reached)
  }

  lemma VisitNext(web: Web, root: Iri, cap: nat, w0: Walk, d: Direction, hop: nat, node: Iri, neighbours: seq<Iri>, n: nat,
                  w: Walk, reached: seq<Iri>, w': Walk, placed: bool)
    requires Visiting(web, root, cap, w0, d, hop, neighbours, n, w, reached) && n < |neighbours|
    requires Sound(web, root, cap, w') && Grows(w, w', Place(d, hop)) && AtMost(w', HopLevel(d, hop))
    requires Offers(cap, w, d, hop, node, neighbours[n], w', placed)
    requires neighbours[n] in w'.placed || w'.capped
    ensures Visiting(web, root, cap, w0, d, hop, neighbours, n + 1, w', if placed then reached + [neighbours[n]] else reached)
  {
    GrowsTransitive(w0, w, w', Place(d, hop));
    OfferOne(w, w', Place(d, hop), neighbours, n);
    ScanOne(cap, w0, neighbours[..n], w, reached, d, hop, node, neighbours[n], w', placed);
    assert neighbours[..n + 1] == neighbours[..n] + [neighbours[n]];
  }

  lemma ScannedReached(cap: nat, w: Walk, xs: seq<Iri>, w': Walk, reached: seq<Iri>)
    requires Scanned(cap, w, xs, w', reached)
    ensures forall x :: x in reached <==> x in w'.placed && x !in w.placed
  {
    forall x | x in reached
      ensures x !in w.placed
    {
      FreshMembers(w, xs, x);
    }
  }

  lemma StartVisiting(web: Web, root: Iri, cap: nat, w: Walk, d: Direction, hop: nat, neighbours: seq<Iri>)
    requires Sound(web, root, cap, w) && AtMost(w, HopLevel(d, hop))
    ensures Visiting(web, root, cap, w, d, hop, neighbours, 0, w, [])
  {
    assert w.order + [] == w.order;
  }

  /** One frontier node: the innermost loop of the walk. */
  method VisitNode(web: Web, root: Iri, cap: nat, w0: Walk, d: Direction, hop: nat, node: Iri, neighbours: seq<Iri>)
    returns (w: Walk, reached: seq<Iri>)
    requires Sound(web, root, cap, w0) && d != Root && hop >= 1
    requires WalkedAt(w0, node, d, hop - 1) && AtMost(w0, HopLevel(d, hop))
    requires forall x :: x in neighbours ==> Step(web, d, node, x)
    ensures Sound(web, root, cap, w) && Grows(w0, w, Place(d, hop)) && AtMost(w, HopLevel(d, hop))
    ensures Offered(w, neighbours, |neighbours|)
    ensures Scanned(cap, w0, neighbours, w, reached)
  {
    w, reached := w0, [];
    StartVisiting(web, root, cap, w0, d, hop, neighbours);
    for i := 0 to |neighbours|
      invariant Visiting(web, root, cap, w0, d, hop, neighbours, i, w, reached)
    {
      var before := w;
      var placed;
      w, placed := Offer(web, root, cap, w, d, hop, node, neighbours[i]);
      VisitNext(web, root, cap, w0, d, hop, node, neighbours, i, before, reached, w, placed);
      if placed {
        reached := reached + [neighbours[i]];
      }
    }
    assert neighbours[..|neighbours|] == neighbours;
  }

  // The neighbour lists the loops iterate over.

  function Second(edges: seq<(Field, Iri)>): (r: seq<Iri>)
    ensures |r| == |edges|
    ensures forall i :: 0 <= i < |r| ==> r[i] == edges[i].1
  {
    seq(|edges|, i requires 0 <= i < |edges| => edges[i].1)
  }

  /** The shards that name `target`, in commit order. */
  function DependentsOf(shards: seq<Shard>, target: Iri): seq<Iri> {
    if shards == [] then []
    else
      var last := shards[|shards| - 1];
      DependentsOf(shards[..|shards| - 1], target) + if last.Names(target) then [last.iri] else []
  }

  lemma {:induction false} DependentsOfExact(shards: seq<Shard>, target: Iri)
    ensures forall y :: y in DependentsOf(shards, target) <==> DependsOn(shards, y, target)
  {
    if shards != [] {
      var front, last := shards[..|shards| - 1], shards[|shards| - 1];
      assert shards == front + [last];
      DependentsOfExact(front, target);
      forall y
        ensures y in DependentsOf(shards, target) <==> DependsOn(shards, y, target)
      {
        if DependsOn(shards, y, target) {
          var s :| s in shards && s.iri == y && s.Names(target);
          assert s in front || s == last;
        }
      }
    }
  }

  function Lookup(dependents: map<Iri, seq<Iri>>, target: Iri): seq<Iri> {
    if target in dependents then dependents[target] else []
  }

  ghost predicate IndexExact(shards: seq<Shard>, dependents: map<Iri, seq<Iri>>) {
    forall t :: Lookup(dependents, t) == DependentsOf(shards, t)
  }

  /** `upstream(node)` and `downstream(node)`. */
  function Neighbours(web: Web, dependents: map<Iri, seq<Iri>>, d: Direction, node: Iri): seq<Iri> {
    match d
    case Root => []
    case Upstream =>
      var shard := Find(web.shards, node);
      if node in web.kernel || shard.None? then [] else Second(OutEdges(shard.value))
    case Downstream => Lookup(dependents, node)
  }

  lemma SecondOfOutEdges(s: Shard, t: Iri)
    ensures t in Second(OutEdges(s)) <==> s.Names(t)
  {
    OutEdgesExact(s);
    var edges := OutEdges(s);
    if t in Second(edges) {
      var i :| 0 <= i < |edges| && Second(edges)[i] == t;
      assert edges[i] == (edges[i].0, t) && edges[i] in edges;
      assert t in s.Targets(edges[i].0);
    }
    if s.Names(t) {
      var f :| t in s.Targets(f) by {
        assert t in s.Targets(Axioms) || t in s.Targets(Definitions) || t in s.Targets(Precedents) || t in s.Targets(Shards);
      }
      assert (f, t) in edges;
      var i :| 0 <= i < |edges| && edges[i] == (f, t);
      assert Second(edges)[i] == t;
    }
  }

  lemma NeighboursAreSteps(web: Web, dependents: map<Iri, seq<Iri>>, d: Direction, x: Iri, y: Iri)
    requires DistinctIris(web.shards) && IndexExact(web.shards, dependents)
    ensures y in Neighbours(web, dependents, d, x) <==> Step(web, d, x, y)
  {
    match d
    case Root =>
    case Upstream =>
      var shard := Find(web.shards, x);
      if DependsOn(web.shards, x, y) {
        var s :| s in web.shards && s.iri == x && s.Names(y);
        FindIs(web.shards, s);
      }
      if shard.Some? {
        SecondOfOutEdges(shard.value, y);
      }
    case Downstream =>
      DependentsOfExact(web.shards, x);
  }

  function IrisOf(shards: seq<Shard>): (r: seq<Iri>)
    ensures |r| == |shards| && forall i :: 0 <= i < |r| ==> r[i] == shards[i].iri
  {
    seq(|shards|, i requires 0 <= i < |shards| => shards[i].iri)
  }

  ghost predicate NamesIn(s: Shard, target: Iri) {
    exists f :: InField(s, f, target)
  }

  lemma NamesExact(s: Shard, target: Iri)
    ensures s.Names(target) <==> NamesIn(s, target)
  {
    assert target in s.axioms ==> InField(s, Axioms, target);
    assert target in s.definitions ==> InField(s, Definitions, target);
    assert target in s.precedents ==> InField(s, Precedents, target);
    assert target in s.shards ==> InField(s, Shards, target);
  }

  /** The dependents stand in commit order. */
  lemma {:induction false} DependentsInOrder(shards: seq<Shard>, target: Iri)
    ensures Picks(DependentsOf(shards, target), IrisOf(shards), set k | 0 <= k < |shards| && NamesIn(shards[k], target))
  {
    var keep := set k | 0 <= k < |shards| && NamesIn(shards[k], target);
    if shards == [] {
      PicksNone(IrisOf(shards));
      assert keep == {};
    } else {
      var front, last := shards[..|shards| - 1], shards[|shards| - 1];
      var before := set k | 0 <= k < |front| && NamesIn(front[k], target);
      DependentsInOrder(front, target);
      PicksMore(DependentsOf(front, target), IrisOf(front), before, last.iri);
      assert IrisOf(shards) == IrisOf(front) + [last.iri];
      NamesExact(last, target);
      assert shards == front + [last];
      assert keep == before + if last.Names(target) then {|front|} else {};
      assert DependentsOf(front, target) + [] == DependentsOf(front, target);
    }
  }

  ghost predicate TargetsOf(ys: seq<Iri>, edges: seq<(Field, Iri)>) {
    |ys| == |edges| && forall i :: 0 <= i < |ys| ==> ys[i] == edges[i].1
  }

  /** Upstream, what the record names, in edge order, or nothing for a kernel node; downstream, who names it, in commit order. */
  ghost predicate NeighbourList(web: Web, d: Direction, x: Iri, ys: seq<Iri>) {
    && (d == Root ==> ys == [])
    && (d == Upstream && (x in web.kernel || !exists s :: s in web.shards && s.iri == x) ==> ys == [])
    && (d == Upstream && x !in web.kernel ==> forall s :: s in web.shards && s.iri == x ==>
          exists edges {:trigger EdgeList(s, edges)} :: EdgeList(s, edges) && TargetsOf(ys, edges))
    && (d == Downstream ==> Picks(ys, IrisOf(web.shards), set k | 0 <= k < |web.shards| && NamesIn(web.shards[k], x)))
  }

  lemma NeighboursInOrder(web: Web, dependents: map<Iri, seq<Iri>>, d: Direction, x: Iri)
    requires DistinctIris(web.shards) && IndexExact(web.shards, dependents)
    ensures NeighbourList(web, d, x, Neighbours(web, dependents, d, x))
  {
    if d == Upstream && x !in web.kernel {
      forall s | s in web.shards && s.iri == x
        ensures exists edges {:trigger EdgeList(s, edges)} :: EdgeList(s, edges) && TargetsOf(Neighbours(web, dependents, d, x), edges)
      {
        FindIs(web.shards, s);
        OutEdgesExact(s);
        assert EdgeList(s, OutEdges(s));
      }
    }
    if d == Downstream {
      DependentsInOrder(web.shards, x);
    }
  }

  /** What one shard adds to every bucket once its first `n` out-edges are read. */
  ghost predicate Indexed(before: map<Iri, seq<Iri>>, after: map<Iri, seq<Iri>>, targets: seq<Iri>, n: nat, iri: Iri)
    requires n <= |targets|
  {
    forall t :: Lookup(after, t) == Lookup(before, t) + if t in targets[..n] then [iri] else []
  }

  /** `bucket = dependents.setdefault(target, [])`, appended to unless the shard is already its last entry. */
  function AddDependent(dependents: map<Iri, seq<Iri>>, target: Iri, iri: Iri): map<Iri, seq<Iri>> {
    var bucket := Lookup(dependents, target);
    if bucket == [] || bucket[|bucket| - 1] != iri then dependents[target := bucket + [iri]] else dependents
  }

  lemma IndexOne(before: map<Iri, seq<Iri>>, after: map<Iri, seq<Iri>>, targets: seq<Iri>, n: nat, iri: Iri)
    requires n < |targets| && Indexed(before, after, targets, n, iri)
    requires iri !in Lookup(before, targets[n])
    ensures Indexed(before, AddDependent(after, targets[n], iri), targets, n + 1, iri)
  {
    assert targets[..n + 1] == targets[..n] + [targets[n]];
    var bucket := Lookup(after, targets[n]);
    if targets[n] in targets[..n] {
      assert bucket[|bucket| - 1] == iri;
    } else {
      assert bucket == Lookup(before, targets[n]);
      assert bucket != [] ==> bucket[|bucket| - 1] in bucket;
    }
  }

  /** One shard of the index: its IRI joins the bucket of every target it names, once. */
  method IndexShard(targets: seq<Iri>, iri: Iri, before: map<Iri, seq<Iri>>) returns (dependents: map<Iri, seq<Iri>>)
    requires forall k :: 0 <= k < |targets| ==> iri !in Lookup(before, targets[k])
    ensures Indexed(before, dependents, targets, |targets|, iri)
  {
    dependents := before;
    for j := 0 to |targets|
      invariant Indexed(before, dependents, targets, j, iri)
    {
      IndexOne(before, dependents, targets, j, iri);
      dependents := AddDependent(dependents, targets[j], iri);
    }
  }

  /** The inverse index, built while reading every shard's out-edges once. */
  method IndexDependents(shards: seq<Shard>) returns (dependents: map<Iri, seq<Iri>>)
    requires DistinctIris(shards)
    ensures IndexExact(shards, dependents)
  {
    dependents := map[];
    for i := 0 to |shards|
      invariant IndexExact(shards[..i], dependents)
    {
      var targets := Second(OutEdges(shards[i]));
      forall k | 0 <= k < |targets|
        ensures shards[i].iri !in Lookup(dependents, targets[k])
      {
        LastDependent(shards, i, dependents, targets[k]);
      }
      ghost var before := dependents;
      dependents := IndexShard(targets, shards[i].iri, dependents);
      IndexGrows(shards, i, before, dependents);
    }
    assert shards[..|shards|] == shards;
  }

  /** Before shard `i` is read, no bucket holds its IRI. */
  lemma LastDependent(shards: seq<Shard>, i: nat, before: map<Iri, seq<Iri>>, target: Iri)
    requires DistinctIris(shards) && i < |shards| && IndexExact(shards[..i], before)
    ensures shards[i].iri !in Lookup(before, target)
  {
    DependentsOfExact(shards[..i], target);
  }

  lemma IndexGrows(shards: seq<Shard>, i: nat, before: map<Iri, seq<Iri>>, after: map<Iri, seq<Iri>>)
    requires i < |shards| && IndexExact(shards[..i], before)
    requires var targets := Second(OutEdges(shards[i])); Indexed(before, after, targets, |targets|, shards[i].iri)
    ensures IndexExact(shards[..i + 1], after)
  {
    var targets := Second(OutEdges(shards[i]));
    assert shards[..i + 1][..i] == shards[..i];
    assert targets[..|targets|] == targets;
    forall t
      ensures Lookup(after, t) == DependentsOf(shards[..i + 1], t)
    {
      SecondOfOutEdges(shards[i], t);
    }
  }

  /** Every hop from one of the first `n` frontier nodes is placed, unless the cap refused one. */
  ghost predicate Visited(web: Web, w: Walk, d: Direction, frontier: seq<Iri>, n: nat) {
    !w.capped ==> forall k, x :: 0 <= k < n && k < |frontier| && Step(web, d, frontier[k], x) ==> x in w.placed
  }

  lemma VisitOne(web: Web, dependents: map<Iri, seq<Iri>>, w: Walk, v: Walk, p: Place, d: Direction, frontier: seq<Iri>, n: nat)
    requires DistinctIris(web.shards) && IndexExact(web.shards, dependents)
    requires Visited(web, w, d, frontier, n) && Grows(w, v, p) && n < |frontier|
    requires var neighbours := Neighbours(web, dependents, d, frontier[n]); Offered(v, neighbours, |neighbours|)
    ensures Visited(web, v, d, frontier, n + 1)
  {
    var neighbours := Neighbours(web, dependents, d, frontier[n]);
    if !v.capped {
      forall x | Step(web, d, frontier[n], x)
        ensures x in v.placed
      {
        NeighboursAreSteps(web, dependents, d, frontier[n], x);
        var k :| 0 <= k < |neighbours| && neighbours[k] == x;
      }
    }
  }

  /** All the neighbours one hop in one direction iterates over, in order. */
  function AllNeighbours(web: Web, dependents: map<Iri, seq<Iri>>, d: Direction, frontier: seq<Iri>): seq<Iri> {
    if frontier == [] then []
    else AllNeighbours(web, dependents, d, frontier[..|frontier| - 1]) + Neighbours(web, dependents, d, frontier[|frontier| - 1])
  }

  lemma NextNeighbours(web: Web, dependents: map<Iri, seq<Iri>>, d: Direction, frontier: seq<Iri>, i: nat)
    requires i < |frontier|
    ensures AllNeighbours(web, dependents, d, frontier[..i + 1])
      == AllNeighbours(web, dependents, d, frontier[..i]) + Neighbours(web, dependents, d, frontier[i])
  {
    assert frontier[..i + 1][..i] == frontier[..i];
  }

  /** After the first `n` frontier nodes. */
  ghost predicate Expanding(web: Web, dependents: map<Iri, seq<Iri>>, root: Iri, cap: nat, w0: Walk, d: Direction, hop: nat,
                            frontier: seq<Iri>, n: nat, w: Walk, reached: seq<Iri>) {
    && n <= |frontier|
    && Sound(web, root, cap, w) && Grows(w0, w, Place(d, hop)) && AtMost(w, HopLevel(d, hop))
    && Visited(web, w, d, frontier, n)
    && Scanned(cap, w0, AllNeighbours(web, dependents, d, frontier[..n]), w, reached)
  }

  lemma ExpandNext(web: Web, dependents: map<Iri, seq<Iri>>, root: Iri, cap: nat, w0: Walk, d: Direction, hop: nat,
                   frontier: seq<Iri>, n: nat, w: Walk, reached: seq<Iri>, w': Walk, more: seq<Iri>)
    requires DistinctIris(web.shards) && IndexExact(web.shards, dependents)
    requires Expanding(web, dependents, root, cap, w0, d, hop, frontier, n, w, reached) && n < |frontier|
    requires Sound(web, root, cap, w') && Grows(w, w', Place(d, hop)) && AtMost(w', HopLevel(d, hop))
    requires var neighbours := Neighbours(web, dependents, d, frontier[n]);
      Offered(w', neighbours, |neighbours|) && Scanned(cap, w, neighbours, w', more)
    ensures Expanding(web, dependents, root, cap, w0, d, hop, frontier, n + 1, w', reached + more)
  {
    GrowsTransitive(w0, w, w', Place(d, hop));
    VisitOne(web, dependents, w, w', Place(d, hop), d, frontier, n);
    ScanTwice(cap, w0, AllNeighbours(web, dependents, d, frontier[..n]), w, reached,
              Neighbours(web, dependents, d, frontier[n]), w', more);
    NextNeighbours(web, dependents, d, frontier, n);
  }

  lemma StartExpanding(web: Web, dependents: map<Iri, seq<Iri>>, root: Iri, cap: nat, w: Walk, d: Direction, hop: nat, frontier: seq<Iri>)
    requires Sound(web, root, cap, w) && AtMost(w, HopLevel(d, hop))
    ensures Expanding(web, dependents, root, cap, w, d, hop, frontier, 0, w, [])
  {
    assert w.order + [] == w.order;
  }

  /**
   One hop in one direction: every frontier node is visited, and the nodes placed, which form the next
   frontier, are the first new ones among all their neighbours, as many as the cap leaves room for.
   */
  method ExpandLevel(web: Web, dependents: map<Iri, seq<Iri>>, root: Iri, cap: nat, w0: Walk, d: Direction, hop: nat, frontier: seq<Iri>)
    returns (w: Walk, reached: seq<Iri>)
    requires DistinctIris(web.shards) && IndexExact(web.shards, dependents)
    requires Sound(web, root, cap, w0) && d != Root && hop >= 1 && AtMost(w0, HopLevel(d, hop))
    requires forall x :: x in frontier ==> WalkedAt(w0, x, d, hop - 1)
    ensures Sound(web, root, cap, w) && Grows(w0, w, Place(d, hop)) && AtMost(w, HopLevel(d, hop))
    ensures forall x :: x in reached <==> x in w.placed && x !in w0.placed
    ensures Visited(web, w, d, frontier, |frontier|)
    ensures Scanned(cap, w0, AllNeighbours(web, dependents, d, frontier), w, reached)
  {
    w, reached := w0, [];
    StartExpanding(web, dependents, root, cap, w0, d, hop, frontier);
    for i := 0 to |frontier|
      invariant Expanding(web, dependents, root, cap, w0, d, hop, frontier, i, w, reached)
    {
      var before, node := w, frontier[i];
      var neighbours := Neighbours(web, dependents, d, node);
      assert node in frontier;
      forall x | x in neighbours
        ensures Step(web, d, node, x)
      {
        NeighboursAreSteps(web, dependents, d, node, x);
      }
      var more;
      w, more := VisitNode(web, root, cap, w, d, hop, node, neighbours);
      ExpandNext(web, dependents, root, cap, w0, d, hop, frontier, i, before, reached, w, more);
      reached := reached + more;
    }
    assert frontier[..|frontier|] == frontier;
    ScannedReached(cap, w0, AllNeighbours(web, dependents, d, frontier), w, reached);
  }

  // The hop loop.

  /** When the flag is up, a node walked from, nearer than `hop`, has an unplaced neighbour. */
  ghost predicate CappedBelow(web: Web, w: Walk, hop: nat) {
    w.capped ==> exists d, y, x :: Open(web, w, d, y, x) && w.placed[y].distance < hop
  }

  lemma {:induction false} FromFrontier(web: Web, dependents: map<Iri, seq<Iri>>, d: Direction, frontier: seq<Iri>, x: Iri) returns (y: Iri)
    requires DistinctIris(web.shards) && IndexExact(web.shards, dependents)
    requires x in AllNeighbours(web, dependents, d, frontier)
    ensures y in frontier && Step(web, d, y, x)
  {
    var front, last := frontier[..|frontier| - 1], frontier[|frontier| - 1];
    if x in AllNeighbours(web, dependents, d, front) {
      y := FromFrontier(web, dependents, d, front, x);
      assert y in frontier;
    } else {
      y := last;
      NeighboursAreSteps(web, dependents, d, y, x);
    }
  }

  lemma {:induction false} FreshIsNoDup(w: Walk, xs: seq<Iri>)
    ensures NoDup(Fresh(w, xs)) && forall x :: x in Fresh(w, xs) ==> x in xs
  {
    if xs != [] {
      FreshIsNoDup(w, xs[..|xs| - 1]);
      assert xs == xs[..|xs| - 1] + [xs[|xs| - 1]];
    }
  }

  /** `xs[k]` is not placed, and is in `xs` for the first time. */
  ghost predicate FirstUnplaced(w: Walk, xs: seq<Iri>, k: int) {
    0 <= k < |xs| && xs[k] !in w.placed && forall j :: 0 <= j < k ==> xs[j] != xs[k]
  }

  /** The fresh nodes are the unplaced ones, in order of first appearance. */
  lemma {:induction false} FreshIsFirst(w: Walk, xs: seq<Iri>)
    ensures Picks(Fresh(w, xs), xs, set k | 0 <= k < |xs| && FirstUnplaced(w, xs, k))
  {
    var keep := set k | 0 <= k < |xs| && FirstUnplaced(w, xs, k);
    if xs == [] {
      PicksNone(xs);
      assert keep == {};
    } else {
      var front, last := xs[..|xs| - 1], xs[|xs| - 1];
      var before := set k | 0 <= k < |front| && FirstUnplaced(w, front, k);
      FreshIsFirst(w, front);
      PicksMore(Fresh(w, front), front, before, last);
      assert xs == front + [last];
      FreshHasAll(w, front, last);
      assert forall k :: 0 <= k < |front| ==> (FirstUnplaced(w, xs, k) <==> FirstUnplaced(w, front, k));
      assert FirstUnplaced(w, xs, |front|) <==> last !in w.placed && last !in front;
      assert keep == before + if last in w.placed || last in Fresh(w, front) then {} else {|front|};
    }
  }

  lemma {:induction false} FreshHasAll(w: Walk, xs: seq<Iri>, x: Iri)
    ensures x in Fresh(w, xs) <==> x in xs && x !in w.placed
  {
    if xs != [] {
      FreshHasAll(w, xs[..|xs| - 1], x);
      assert xs == xs[..|xs| - 1] + [xs[|xs| - 1]];
    }
  }

  /** The hop that raises the flag refuses a neighbour of its own frontier. */
  lemma CapIsBelow(web: Web, dependents: map<Iri, seq<Iri>>, cap: nat, w: Walk, v: Walk, d: Direction, hop: nat, frontier: seq<Iri>, reached: seq<Iri>)
    requires DistinctIris(web.shards) && IndexExact(web.shards, dependents) && d != Root
    requires CappedBelow(web, w, hop + 1) && Grows(w, v, Place(d, hop + 1)) && (w.capped ==> v.placed == w.placed)
    requires FrontierIs(w, frontier, d, hop)
    requires Scanned(cap, w, AllNeighbours(web, dependents, d, frontier), v, reached)
    ensures CappedBelow(web, v, hop + 1)
  {
    var all := AllNeighbours(web, dependents, d, frontier);
    if w.capped {
      var e, y, x :| Open(web, w, e, y, x) && w.placed[y].distance < hop + 1;
      assert Open(web, v, e, y, x);
    } else if v.capped {
      var news := Fresh(w, all);
      var x := news[|reached|];
      FreshIsNoDup(w, all);
      FreshMembers(w, all, x);
      assert x !in reached;
      assert x in news;
      var y := FromFrontier(web, dependents, d, frontier, x);
      assert WalkedAt(w, y, d, hop);
      assert Open(web, v, d, y, x);
    }
  }

  /** The frontier holds exactly the nodes walked in direction `d` at distance `hop`. */
  ghost predicate FrontierIs(w: Walk, frontier: seq<Iri>, d: Direction, hop: nat) {
    forall x :: x in frontier <==> WalkedAt(w, x, d, hop)
  }

  /**
   What holds between hops. `full` counts the hops completed without a refusal: below it every
   neighbour is placed, and nothing placed lies more than one hop beyond it.
   */
  ghost predicate AtHop(web: Web, root: Iri, cap: nat, w: Walk, hop: nat, up: seq<Iri>, down: seq<Iri>, full: nat) {
    && Sound(web, root, cap, w)
    && full <= hop && (!w.capped ==> full == hop)
    && AtMost(w, HopLevel(Downstream, hop)) && AtMost(w, HopLevel(Downstream, full + 1))
    && Settled(web, w, Upstream, full) && Settled(web, w, Downstream, full)
    && NoneLate(web, w) && CappedBelow(web, w, hop)
    && FrontierIs(w, up, Upstream, hop) && FrontierIs(w, down, Downstream, hop)
  }

  lemma SettledGrows(web: Web, w: Walk, v: Walk, p: Place, d: Direction, full: nat)
    requires Settled(web, w, d, full) && Grows(w, v, p) && p.distance >= full
    ensures Settled(web, v, d, full)
  {
  }

  lemma SettleFrontier(web: Web, w: Walk, v: Walk, d: Direction, hop: nat, frontier: seq<Iri>)
    requires d != Root && Settled(web, w, d, hop) && Grows(w, v, Place(d, hop + 1))
    requires FrontierIs(w, frontier, d, hop) && Visited(web, v, d, frontier, |frontier|)
    requires !v.capped && AtMost(v, HopLevel(d, hop + 1))
    ensures Settled(web, v, d, hop + 1)
  {
    SettledGrows(web, w, v, Place(d, hop + 1), d, hop);
    forall y, x | y in v.placed && Walks(v.placed[y], d) && v.placed[y].distance < hop + 1 && Step(web, d, y, x)
      ensures x in v.placed && Level(v.placed[x]) <= HopLevel(d, v.placed[y].distance + 1)
    {
      if v.placed[y].distance == hop {
        assert WalkedAt(w, y, d, hop);
        var k :| 0 <= k < |frontier| && frontier[k] == y;
      }
    }
  }

  /** Placing nodes as `p` leaves a frontier alone unless `p` belongs to it. */
  lemma FrontierGrows(w: Walk, v: Walk, p: Place, frontier: seq<Iri>, d: Direction, hop: nat)
    requires FrontierIs(w, frontier, d, hop) && Grows(w, v, p) && !(Walks(p, d) && p.distance == hop)
    ensures FrontierIs(v, frontier, d, hop)
  {
  }

  lemma NextFrontier(w: Walk, v: Walk, d: Direction, hop: nat, reached: seq<Iri>)
    requires d != Root && hop >= 1 && AtMost(w, HopLevel(d, hop) - 1) && Grows(w, v, Place(d, hop))
    requires forall x :: x in w.placed && w.placed[x].direction == Root ==> w.placed[x].distance == 0
    requires forall x :: x in reached <==> x in v.placed && x !in w.placed
    ensures FrontierIs(v, reached, d, hop)
  {
    forall x | WalkedAt(v, x, d, hop)
      ensures x in reached
    {
      if x in w.placed {
        assert false;
      }
    }
  }

  /** Once the cap is reached no node is placed any more. */
  lemma CappedStays(web: Web, root: Iri, cap: nat, w: Walk, v: Walk, p: Place)
    requires Sound(web, root, cap, w) && Sound(web, root, cap, v) && w.capped && Grows(w, v, p)
    ensures v.placed == w.placed
  {
    assert w.order == v.order;
  }

  /** What the upstream half of hop `hop + 1` places was offered by no walked node before. */
  lemma UpstreamIsNotLate(web: Web, root: Iri, cap: nat, w: Walk, w1: Walk, hop: nat, up: seq<Iri>, down: seq<Iri>, full: nat)
    requires AtHop(web, root, cap, w, hop, up, down, full)
    requires Sound(web, root, cap, w1) && Grows(w, w1, Place(Upstream, hop + 1))
    ensures NoneLate(web, w1)
  {
    if w.capped {
      CappedStays(web, root, cap, w, w1, Place(Upstream, hop + 1));
    } else {
      forall d, y, x | d != Root && y in w1.placed && Walks(w1.placed[y], d) && Step(web, d, y, x) && x in w1.placed
        ensures Level(w1.placed[x]) <= HopLevel(d, w1.placed[y].distance + 1)
      {
        NewUpstreamIsNotLate(web, w, w1, hop, d, y, x);
      }
    }
  }

  lemma NewUpstreamIsNotLate(web: Web, w: Walk, w1: Walk, hop: nat, d: Direction, y: Iri, x: Iri)
    requires Settled(web, w, d, hop) && AtMost(w, HopLevel(Downstream, hop)) && NoneLate(web, w)
    requires Grows(w, w1, Place(Upstream, hop + 1))
    requires d != Root && y in w1.placed && Walks(w1.placed[y], d) && Step(web, d, y, x) && x in w1.placed
    ensures Level(w1.placed[x]) <= HopLevel(d, w1.placed[y].distance + 1)
  {
    if y in w.placed && w.placed[y].distance < hop {
      assert x in w.placed;
    }
  }

  /** Nor what the downstream half places: the upstream half would have placed it. */
  lemma DownstreamIsNotLate(web: Web, root: Iri, cap: nat, w: Walk, w1: Walk, w2: Walk, hop: nat, up: seq<Iri>, down: seq<Iri>, full: nat)
    requires AtHop(web, root, cap, w, hop, up, down, full)
    requires Sound(web, root, cap, w1) && Grows(w, w1, Place(Upstream, hop + 1)) && NoneLate(web, w1)
    requires Sound(web, root, cap, w2) && Grows(w1, w2, Place(Downstream, hop + 1))
    requires Visited(web, w1, Upstream, up, |up|)
    ensures NoneLate(web, w2)
  {
    if w1.capped {
      CappedStays(web, root, cap, w1, w2, Place(Downstream, hop + 1));
    } else {
      forall d, y, x | d != Root && y in w2.placed && Walks(w2.placed[y], d) && Step(web, d, y, x) && x in w2.placed
        ensures Level(w2.placed[x]) <= HopLevel(d, w2.placed[y].distance + 1)
      {
        NewIsNotLate(web, root, cap, w, w1, w2, hop, up, down, full, d, y, x);
      }
    }
  }

  lemma NewIsNotLate(web: Web, root: Iri, cap: nat, w: Walk, w1: Walk, w2: Walk, hop: nat, up: seq<Iri>, down: seq<Iri>, full: nat,
                     d: Direction, y: Iri, x: Iri)
    requires AtHop(web, root, cap, w, hop, up, down, full) && !w1.capped
    requires Grows(w, w1, Place(Upstream, hop + 1)) && NoneLate(web, w1)
    requires Grows(w1, w2, Place(Downstream, hop + 1))
    requires Visited(web, w1, Upstream, up, |up|)
    requires d != Root && y in w2.placed && Walks(w2.placed[y], d) && Step(web, d, y, x) && x in w2.placed
    ensures Level(w2.placed[x]) <= HopLevel(d, w2.placed[y].distance + 1)
  {
    if y in w.placed && w.placed[y].distance >= hop && d == Upstream {
      assert Level(w.placed[y]) <= HopLevel(Downstream, hop);
      assert WalkedAt(w, y, Upstream, hop) && y in up;
      assert x in w1.placed;
    }
  }

  /** Hop `hop + 1`: first upstream, then downstream. */
  method TakeHop(web: Web, dependents: map<Iri, seq<Iri>>, root: Iri, cap: nat, w0: Walk, hop: nat, up0: seq<Iri>, down0: seq<Iri>, ghost full0: nat)
    returns (w: Walk, up: seq<Iri>, down: seq<Iri>, ghost full: nat)
    requires DistinctIris(web.shards) && IndexExact(web.shards, dependents)
    requires AtHop(web, root, cap, w0, hop, up0, down0, full0)
    ensures Sound(web, root, cap, w) && AtMost(w, HopLevel(Downstream, hop + 1))
    ensures FrontierIs(w, up, Upstream, hop + 1) && FrontierIs(w, down, Downstream, hop + 1)
    ensures AtHop(web, root, cap, w, hop + 1, up, down, full)
    ensures w.order == w0.order + up + down
  {
    var w1;
    w1, up := ExpandLevel(web, dependents, root, cap, w0, Upstream, hop + 1, up0);
    FrontierGrows(w0, w1, Place(Upstream, hop + 1), down0, Downstream, hop);
    w, down := ExpandLevel(web, dependents, root, cap, w1, Downstream, hop + 1, down0);
    HopFrontiers(web, root, cap, w0, w1, w, hop, up, down);
    full := HopSettles(web, root, cap, w0, w1, w, hop, up0, down0, full0);
    UpstreamIsNotLate(web, root, cap, w0, w1, hop, up0, down0, full0);
    DownstreamIsNotLate(web, root, cap, w0, w1, w, hop, up0, down0, full0);
    HopCaps(web, dependents, root, cap, w0, w1, w, hop, up0, down0, up, down);
  }

  lemma HopCaps(web: Web, dependents: map<Iri, seq<Iri>>, root: Iri, cap: nat, w: Walk, w1: Walk, w2: Walk, hop: nat,
                up0: seq<Iri>, down0: seq<Iri>, up: seq<Iri>, down: seq<Iri>)
    requires DistinctIris(web.shards) && IndexExact(web.shards, dependents) && CappedBelow(web, w, hop)
    requires Sound(web, root, cap, w) && Sound(web, root, cap, w1) && Sound(web, root, cap, w2)
    requires Grows(w, w1, Place(Upstream, hop + 1)) && Grows(w1, w2, Place(Downstream, hop + 1))
    requires FrontierIs(w, up0, Upstream, hop) && FrontierIs(w1, down0, Downstream, hop)
    requires Scanned(cap, w, AllNeighbours(web, dependents, Upstream, up0), w1, up)
    requires Scanned(cap, w1, AllNeighbours(web, dependents, Downstream, down0), w2, down)
    ensures CappedBelow(web, w2, hop + 1)
  {
    if w.capped {
      CappedStays(web, root, cap, w, w1, Place(Upstream, hop + 1));
    }
    CapIsBelow(web, dependents, cap, w, w1, Upstream, hop, up0, up);
    if w1.capped {
      CappedStays(web, root, cap, w1, w2, Place(Downstream, hop + 1));
    }
    CapIsBelow(web, dependents, cap, w1, w2, Downstream, hop, down0, down);
  }

  lemma HopFrontiers(web: Web, root: Iri, cap: nat, w: Walk, w1: Walk, w2: Walk, hop: nat, up: seq<Iri>, down: seq<Iri>)
    requires Ordered(root, cap, w) && AtMost(w, HopLevel(Downstream, hop))
    requires Grows(w, w1, Place(Upstream, hop + 1)) && AtMost(w1, HopLevel(Upstream, hop + 1))
    requires Ordered(root, cap, w1) && Grows(w1, w2, Place(Downstream, hop + 1))
    requires forall x :: x in up <==> x in w1.placed && x !in w.placed
    requires forall x :: x in down <==> x in w2.placed && x !in w1.placed
    ensures FrontierIs(w2, up, Upstream, hop + 1) && FrontierIs(w2, down, Downstream, hop + 1)
  {
    NextFrontier(w, w1, Upstream, hop + 1, up);
    FrontierGrows(w1, w2, Place(Downstream, hop + 1), up, Upstream, hop + 1);
    NextFrontier(w1, w2, Downstream, hop + 1, down);
  }

  lemma HopSettles(web: Web, root: Iri, cap: nat, w: Walk, w1: Walk, w2: Walk, hop: nat, up: seq<Iri>, down: seq<Iri>, full: nat)
    returns (full': nat)
    requires AtHop(web, root, cap, w, hop, up, down, full)
    requires Sound(web, root, cap, w1) && Grows(w, w1, Place(Upstream, hop + 1)) && AtMost(w1, HopLevel(Upstream, hop + 1))
    requires Sound(web, root, cap, w2) && Grows(w1, w2, Place(Downstream, hop + 1)) && AtMost(w2, HopLevel(Downstream, hop + 1))
    requires Visited(web, w1, Upstream, up, |up|) && Visited(web, w2, Downstream, down, |down|)
    requires FrontierIs(w1, down, Downstream, hop)
    ensures full' <= hop + 1 && (!w2.capped ==> full' == hop + 1) && AtMost(w2, HopLevel(Downstream, full' + 1))
    ensures Settled(web, w2, Upstream, full') && Settled(web, w2, Downstream, full')
  {
    var p, q := Place(Upstream, hop + 1), Place(Downstream, hop + 1);
    SettledGrows(web, w, w1, p, Downstream, full);
    if w2.capped {
      full' := full;
      SettledGrows(web, w, w1, p, Upstream, full);
      SettledGrows(web, w1, w2, q, Upstream, full);
      SettledGrows(web, w1, w2, q, Downstream, full);
      if w.capped {
        CappedStays(web, root, cap, w, w1, p);
        CappedStays(web, root, cap, w1, w2, q);
      }
    } else {
      full' := hop + 1;
      SettleFrontier(web, w, w1, Upstream, hop, up);
      SettledGrows(web, w1, w2, q, Upstream, hop + 1);
      SettleFrontier(web, w1, w2, Downstream, hop, down);
    }
  }

  /** What the finished walk guarantees on every graph; the theorems about it are in `GraphProperties`. */
  ghost predicate Finished(web: Web, root: Iri, depth: nat, cap: nat, w: Walk, full: nat) {
    && Sound(web, root, cap, w)
    && full <= depth && (!w.capped ==> full == depth)
    && AtMost(w, HopLevel(Downstream, depth)) && AtMost(w, HopLevel(Downstream, full + 1))
    && Settled(web, w, Upstream, full) && Settled(web, w, Downstream, full)
    && NoneLate(web, w) && CappedBelow(web, w, depth)
  }

  /** The walk of `build_graph`, with the test for a depth cut on its last frontiers. */
  method RunWalk(web: Web, root: Iri, depth: nat, cap: nat)
    returns (w: Walk, depthCut: bool, ghost full: nat)
    requires DistinctIris(web.shards) && cap >= 1
    ensures Finished(web, root, depth, cap, w, full)
    ensures depthCut <==> OpenAt(web, w, depth)
  {
    var dependents := IndexDependents(web.shards);
    var up, down := [root], [root];
    w, full := Walk([root], map[root := Place(Root, 0)], {}, false), 0;
    for hop := 0 to depth
      invariant AtHop(web, root, cap, w, hop, up, down, full)
    {
      w, up, down, full := TakeHop(web, dependents, root, cap, w, hop, up, down, full);
    }
    var upCut := AnyUnplaced(web, dependents, w, Upstream, up);
    var downCut := AnyUnplaced(web, dependents, w, Downstream, down);
    depthCut := upCut || downCut;
    CutIsOpen(web, w, depth, up, down);
  }

  /** Some node at distance `hop` has an unplaced neighbour in a direction it is walked in. */
  ghost predicate OpenAt(web: Web, w: Walk, hop: nat) {
    exists d, y, x :: Open(web, w, d, y, x) && w.placed[y].distance == hop
  }

  /** Some node of the frontier has an unplaced neighbour. */
  ghost predicate Cut(web: Web, w: Walk, d: Direction, frontier: seq<Iri>) {
    exists y, x :: y in frontier && Step(web, d, y, x) && x !in w.placed
  }

  lemma CutIsOpen(web: Web, w: Walk, hop: nat, up: seq<Iri>, down: seq<Iri>)
    requires FrontierIs(w, up, Upstream, hop) && FrontierIs(w, down, Downstream, hop)
    ensures Cut(web, w, Upstream, up) || Cut(web, w, Downstream, down) <==> OpenAt(web, w, hop)
  {
    if Cut(web, w, Upstream, up) {
      var y, x :| y in up && Step(web, Upstream, y, x) && x !in w.placed;
      assert Open(web, w, Upstream, y, x) && WalkedAt(w, y, Upstream, hop);
    }
    if Cut(web, w, Downstream, down) {
      var y, x :| y in down && Step(web, Downstream, y, x) && x !in w.placed;
      assert Open(web, w, Downstream, y, x) && WalkedAt(w, y, Downstream, hop);
    }
    if OpenAt(web, w, hop) {
      var d, y, x :| Open(web, w, d, y, x) && w.placed[y].distance == hop;
      assert WalkedAt(w, y, d, hop);
      assert y in if d == Upstream then up else down;
    }
  }

  /** Does some frontier node have a neighbour that is not placed? */
  method AnyUnplaced(web: Web, dependents: map<Iri, seq<Iri>>, w: Walk, d: Direction, frontier: seq<Iri>) returns (found: bool)
    requires DistinctIris(web.shards) && IndexExact(web.shards, dependents) && d != Root
    ensures found <==> Cut(web, w, d, frontier)
  {
    for i := 0 to |frontier|
      invariant forall k, x :: 0 <= k < i && Step(web, d, frontier[k], x) ==> x in w.placed
    {
      var neighbours := Neighbours(web, dependents, d, frontier[i]);
      for j := 0 to |neighbours|
        invariant forall k :: 0 <= k < j ==> neighbours[k] in w.placed
      {
        if neighbours[j] !in w.placed {
          NeighboursAreSteps(web, dependents, d, frontier[i], neighbours[j]);
          return true;
        }
      }
      forall x | Step(web, d, frontier[i], x)
        ensures x in w.placed
      {
        NeighboursAreSteps(web, dependents, d, frontier[i], x);
      }
    }
    found := false;
  }
}
