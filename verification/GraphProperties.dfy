/**
 What the walk of `build_graph` has found when it stops, in terms of chains and
 shortest distances, and on which webs: around a root that has, within the hops
 walked, no node on both its sides. A root on no short dependency cycle is one.
 */
module GraphProperties {
  import opened DependencyGraph
  import opened GraphWalk

  /** Within `n` hops of the root in direction `d`. */
  ghost predicate Within(web: Web, d: Direction, root: Iri, x: Iri, n: nat) {
    exists k: nat :: k <= n && ReachedIn(web, d, root, x, k)
  }

  /** No node but the root is within `n` hops both upstream and downstream. */
  ghost predicate OneSided(web: Web, root: Iri, n: nat) {
    forall x :: x != root ==> !(Within(web, Upstream, root, x, n) && Within(web, Downstream, root, x, n))
  }

  lemma OneSidedNearer(web: Web, root: Iri, m: nat, n: nat)
    requires OneSided(web, root, n) && m <= n
    ensures OneSided(web, root, m)
  {
    forall x, d | Within(web, d, root, x, m)
      ensures Within(web, d, root, x, n)
    {
      var k: nat :| k <= m && ReachedIn(web, d, root, x, k);
    }
  }

  /** A root on no dependency cycle of `2 * n` hops or fewer has no node on both sides within `n`. */
  lemma NoShortCycleIsOneSided(web: Web, root: Iri, n: nat)
    requires NoCycleWithin(web.shards, root, 2 * n)
    ensures OneSided(web, root, n)
  {
    forall x | Within(web, Upstream, root, x, n) && Within(web, Downstream, root, x, n)
      ensures x == root
    {
      var up: nat :| up <= n && ReachedIn(web, Upstream, root, x, up);
      var down: nat :| down <= n && ReachedIn(web, Downstream, root, x, down);
      SidesAreDisjoint(web, root, x, up, down);
    }
  }

  /** In particular a root on no dependency cycle, which is every root of an acyclic corpus. */
  lemma OffCycleIsOneSided(web: Web, root: Iri, n: nat)
    requires OffCycle(web.shards, root)
    ensures OneSided(web, root, n)
  {
    NoShortCycleIsOneSided(web, root, n);
  }

  /** Every placed node is reached by a chain of exactly its distance, in its direction (any graph). */
  lemma {:induction false} DistanceIsAChain(web: Web, root: Iri, cap: nat, w: Walk, x: Iri, d: Direction)
    requires Sound(web, root, cap, w) && x in w.placed && d != Root && Walks(w.placed[x], d)
    ensures ReachedIn(web, d, root, x, w.placed[x].distance)
    decreases w.placed[x].distance
  {
    if x == root {
      var here := [root];
      assert Chain(web, d, here);
    } else {
      assert HasParent(web, w, x);
      var y :| Parent(web, w, x, y);
      DistanceIsAChain(web, root, cap, w, y, d);
      ExtendReach(web, d, root, y, x, w.placed[y].distance);
    }
  }

  /** Whatever a chain reaches within the completed hops is placed on that side, no later than the chain says. */
  lemma {:induction false} ChainIsPlaced(web: Web, root: Iri, depth: nat, cap: nat, w: Walk, full: nat, d: Direction, p: seq<Iri>)
    requires Finished(web, root, depth, cap, w, full) && OneSided(web, root, full)
    requires d != Root && Chain(web, d, p) && p[0] == root && |p| - 1 <= full
    ensures var x := p[|p| - 1]; x in w.placed && Walks(w.placed[x], d) && w.placed[x].distance <= |p| - 1
    decreases |p|
  {
    if |p| > 1 {
      var q, x := p[..|p| - 1], p[|p| - 1];
      var y := q[|q| - 1];
      forall i {:trigger q[i + 1]} | 0 <= i < |q| - 1
        ensures Step(web, d, q[i], q[i + 1])
      {
        assert p[i + 1] == q[i + 1];
      }
      ChainIsPlaced(web, root, depth, cap, w, full, d, q);
      var last := |p| - 2;
      assert p[last] == y && p[last + 1] == x;
      OneSideOnly(web, root, cap, w, full, d, p, x);
    }
  }

  lemma OneSideOnly(web: Web, root: Iri, cap: nat, w: Walk, full: nat, d: Direction, p: seq<Iri>, x: Iri)
    requires Sound(web, root, cap, w) && OneSided(web, root, full)
    requires d != Root && Chain(web, d, p) && p[0] == root && p[|p| - 1] == x && |p| - 1 <= full
    ensures x in w.placed && w.placed[x].distance <= full ==> Walks(w.placed[x], d)
  {
    assert ReachedIn(web, d, root, x, |p| - 1);
    assert Within(web, d, root, x, full);
    if x in w.placed && w.placed[x].distance <= full && !Walks(w.placed[x], d) {
      var e := w.placed[x].direction;
      DistanceIsAChain(web, root, cap, w, x, e);
      assert Within(web, e, root, x, full);
    }
  }

  lemma NoShorterChain(web: Web, root: Iri, depth: nat, cap: nat, w: Walk, full: nat, x: Iri, d: Direction, k: nat)
    requires Finished(web, root, depth, cap, w, full) && OneSided(web, root, full)
    requires x in w.placed && d != Root && ReachedIn(web, d, root, x, k)
    ensures w.placed[x].distance <= k
  {
    assert Level(w.placed[x]) <= HopLevel(Downstream, full + 1);
    if k <= full {
      var p :| Chain(web, d, p) && p[0] == root && p[|p| - 1] == x && |p| == k + 1;
      ChainIsPlaced(web, root, depth, cap, w, full, d, p);
    }
  }

  /** Every placed node carries its true shortest distance in its direction, whether or not the cap refused one. */
  lemma DistancesAreShortest(web: Web, root: Iri, depth: nat, cap: nat, w: Walk, full: nat, x: Iri, d: Direction)
    requires Finished(web, root, depth, cap, w, full) && OneSided(web, root, full)
    requires x in w.placed && d != Root && Walks(w.placed[x], d)
    ensures ShortestDistance(web, d, root, x, w.placed[x].distance)
  {
    DistanceIsAChain(web, root, cap, w, x, d);
    forall k: nat | ReachedIn(web, d, root, x, k)
      ensures w.placed[x].distance <= k
    {
      NoShorterChain(web, root, depth, cap, w, full, x, d, k);
    }
  }

  /** `x` is placed and walked in direction `d`, at its shortest distance that way. */
  ghost predicate PlacedRight(web: Web, root: Iri, w: Walk, d: Direction, x: Iri) {
    x in w.placed && Walks(w.placed[x], d) && ShortestDistance(web, d, root, x, w.placed[x].distance)
  }

  /** Every ancestor and every descendant within `n` hops is placed as one, at its shortest distance. */
  ghost predicate Exact(web: Web, root: Iri, n: nat, w: Walk) {
    forall x, d :: d != Root && Within(web, d, root, x, n) ==> PlacedRight(web, root, w, d, x)
  }

  /**
   Without a refusal every ancestor and descendant within `depth` is placed as what it is, at its shortest
   distance, exactly when no node but the root is both (any graph).
   */
  lemma ExactIffOneSided(web: Web, root: Iri, depth: nat, cap: nat, w: Walk, full: nat)
    requires Finished(web, root, depth, cap, w, full) && !w.capped
    ensures Exact(web, root, depth, w) <==> OneSided(web, root, depth)
    ensures (forall x, d :: d != Root && Within(web, d, root, x, depth) ==> x in w.placed && Walks(w.placed[x], d))
      <==> OneSided(web, root, depth)
  {
    if OneSided(web, root, depth) {
      forall x, d | d != Root && Within(web, d, root, x, depth)
        ensures PlacedRight(web, root, w, d, x)
      {
        var k: nat :| k <= depth && ReachedIn(web, d, root, x, k);
        var p :| Chain(web, d, p) && p[0] == root && p[|p| - 1] == x && |p| == k + 1;
        ChainIsPlaced(web, root, depth, cap, w, full, d, p);
        DistancesAreShortest(web, root, depth, cap, w, full, x, d);
      }
    }
    if forall x, d :: d != Root && Within(web, d, root, x, depth) ==> x in w.placed && Walks(w.placed[x], d) {
      forall x | Within(web, Upstream, root, x, depth) && Within(web, Downstream, root, x, depth)
        ensures x == root
      {
        assert Walks(w.placed[x], Upstream) && Walks(w.placed[x], Downstream);
      }
    }
  }

  /** On any graph nothing else is placed. */
  lemma PlacedIsWithin(web: Web, root: Iri, depth: nat, cap: nat, w: Walk, full: nat, x: Iri)
    requires Finished(web, root, depth, cap, w, full) && x in w.placed
    ensures Within(web, Upstream, root, x, depth) || Within(web, Downstream, root, x, depth)
  {
    var d := if w.placed[x].direction == Root then Upstream else w.placed[x].direction;
    DistanceIsAChain(web, root, cap, w, x, d);
    assert Level(w.placed[x]) <= HopLevel(Downstream, depth);
    assert Within(web, d, root, x, depth);
  }

  /** Without a refusal the placed nodes are exactly the root's ancestors and descendants within `depth`. */
  lemma UncappedWalkIsExact(web: Web, root: Iri, depth: nat, cap: nat, w: Walk, full: nat)
    requires Finished(web, root, depth, cap, w, full) && OneSided(web, root, depth) && !w.capped
    ensures forall x :: x in w.placed <==> Within(web, Upstream, root, x, depth) || Within(web, Downstream, root, x, depth)
    ensures Exact(web, root, depth, w)
  {
    ExactIffOneSided(web, root, depth, cap, w, full);
    forall x
      ensures x in w.placed <==> Within(web, Upstream, root, x, depth) || Within(web, Downstream, root, x, depth)
    {
      if x in w.placed {
        PlacedIsWithin(web, root, depth, cap, w, full, x);
      }
      assert forall d :: d != Root && Within(web, d, root, x, depth) ==> PlacedRight(web, root, w, d, x);
    }
  }

  /** Refused or not: nothing left out is nearer to the root than anything placed. */
  lemma NearestFirst(web: Web, root: Iri, depth: nat, cap: nat, w: Walk, full: nat, x: Iri, d: Direction, k: nat, z: Iri)
    requires Finished(web, root, depth, cap, w, full) && OneSided(web, root, full)
    requires d != Root && ReachedIn(web, d, root, x, k) && x !in w.placed && z in w.placed
    ensures w.placed[z].distance <= k
    ensures |w.placed| <= cap
  {
    var p :| Chain(web, d, p) && p[0] == root && p[|p| - 1] == x && |p| == k + 1;
    if k <= full {
      ChainIsPlaced(web, root, depth, cap, w, full, d, p);
    }
    assert Level(w.placed[z]) <= HopLevel(Downstream, full + 1);
    PlacedIsOrder(root, cap, w);
  }

  /** What the walk gets right around a root that is alone on both sides within `depth`, capped or not. */
  ghost predicate Right(web: Web, root: Iri, depth: nat, w: Walk) {
    && (forall x, d :: x in w.placed && d != Root && Walks(w.placed[x], d) ==> PlacedRight(web, root, w, d, x))
    && (!w.capped ==> Exact(web, root, depth, w))
    && (forall x, d, z, k: nat :: d != Root && ReachedIn(web, d, root, x, k) && x !in w.placed && z in w.placed ==>
          w.placed[z].distance <= k)
  }

  lemma OneSidedWalk(web: Web, root: Iri, depth: nat, cap: nat, w: Walk, full: nat)
    requires Finished(web, root, depth, cap, w, full) && OneSided(web, root, depth)
    ensures Right(web, root, depth, w)
  {
    OneSidedNearer(web, root, full, depth);
    forall x, d | x in w.placed && d != Root && Walks(w.placed[x], d)
      ensures PlacedRight(web, root, w, d, x)
    {
      DistancesAreShortest(web, root, depth, cap, w, full, x, d);
    }
    if !w.capped {
      ExactIffOneSided(web, root, depth, cap, w, full);
    }
    forall x, d, z, k: nat | d != Root && ReachedIn(web, d, root, x, k) && x !in w.placed && z in w.placed
      ensures w.placed[z].distance <= k
    {
      NearestFirst(web, root, depth, cap, w, full, x, d, k, z);
    }
  }

  /** All of it around a root on no dependency cycle, at every depth and cap. */
  lemma OffCycleWalk(web: Web, root: Iri, depth: nat, cap: nat, w: Walk, full: nat)
    requires Finished(web, root, depth, cap, w, full) && OffCycle(web.shards, root)
    ensures Right(web, root, depth, w)
    ensures !w.capped ==>
      forall x :: x in w.placed <==> Within(web, Upstream, root, x, depth) || Within(web, Downstream, root, x, depth)
  {
    OffCycleIsOneSided(web, root, depth);
    OneSidedWalk(web, root, depth, cap, w, full);
    if !w.capped {
      UncappedWalkIsExact(web, root, depth, cap, w, full);
    }
  }

  lemma PlacedIsOrder(root: Iri, cap: nat, w: Walk)
    requires Ordered(root, cap, w)
    ensures |w.placed| == |w.order|
  {
    Sequences.SetSizeOfNoDup(w.order);
    assert w.placed.Keys == set x | x in w.order;
    assert |w.placed.Keys| == |w.placed|;
  }

  /** Root and upstream nodes have all their upstream neighbours placed, root and downstream nodes all their dependents. */
  ghost predicate Closed(web: Web, w: Walk) {
    forall d, y, x :: d != Root && y in w.placed && Walks(w.placed[y], d) && Step(web, d, y, x) ==> x in w.placed
  }

  /** Both truncation flags are down exactly when the placed set is closed (any graph, cyclic or not). */
  lemma UntruncatedIffClosed(web: Web, root: Iri, depth: nat, cap: nat, w: Walk, full: nat)
    requires Finished(web, root, depth, cap, w, full)
    ensures !OpenAt(web, w, depth) && !w.capped <==> Closed(web, w)
  {
    if !OpenAt(web, w, depth) && !w.capped {
      forall d, y, x | d != Root && y in w.placed && Walks(w.placed[y], d) && Step(web, d, y, x)
        ensures x in w.placed
      {
        assert Level(w.placed[y]) <= HopLevel(Downstream, depth);
        if w.placed[y].distance == depth {
          assert !Open(web, w, d, y, x);
        }
      }
    }
    if Closed(web, w) {
      assert forall d, y, x :: !Open(web, w, d, y, x);
    }
  }

  /** Walking on from `y` offers `x` the place `p`. */
  ghost predicate OffersPlace(web: Web, w: Walk, p: Place, y: Iri, x: Iri) {
    p.direction != Root && p.distance >= 1 && WalkedAt(w, y, p.direction, p.distance - 1) && Step(web, p.direction, y, x)
  }

  /**
   A node is placed by the first hop that offers it, and upstream goes first at equal hops: some walked
   node offers it the place it has, and none an earlier one (any graph, capped or not).
   */
  lemma FirstOfferWins(web: Web, root: Iri, depth: nat, cap: nat, w: Walk, full: nat, x: Iri)
    requires Finished(web, root, depth, cap, w, full) && x in w.placed && x != root
    ensures exists y :: OffersPlace(web, w, w.placed[x], y, x)
    ensures forall p, y :: OffersPlace(web, w, p, y, x) ==> Level(w.placed[x]) <= Level(p)
  {
    assert HasParent(web, w, x);
    var y :| Parent(web, w, x, y);
    assert OffersPlace(web, w, w.placed[x], y, x);
  }

  // A legacy cycle: `R` and `A` depend on each other, and `C` depends on `A`.

  const LEGACY := Web([Shard("R", [], [], [], ["A"]), Shard("A", [], [], [], ["R"]), Shard("C", [], [], [], ["A"])], {})

  lemma LegacySteps()
    ensures Step(LEGACY, Upstream, "R", "A") && Step(LEGACY, Downstream, "R", "A") && Step(LEGACY, Downstream, "A", "C")
    ensures forall y :: !DependsOn(LEGACY.shards, y, "C")
    ensures forall y :: Step(LEGACY, Downstream, y, "C") ==> y == "A"
  {
    var r, a, c := LEGACY.shards[0], LEGACY.shards[1], LEGACY.shards[2];
    assert r in LEGACY.shards && r.Names("A");
    assert a in LEGACY.shards && a.Names("R");
    assert c in LEGACY.shards && c.Names("A");
    forall y
      ensures !DependsOn(LEGACY.shards, y, "C")
      ensures Step(LEGACY, Downstream, y, "C") ==> y == "A"
    {
      assert forall s :: s in LEGACY.shards ==> s == r || s == a || s == c;
    }
  }

  lemma LegacyIsCyclic()
    ensures !OffCycle(LEGACY.shards, "R")
  {
    LegacySteps();
    var cycle := ["R", "A", "R"];
    assert DependencyPath(LEGACY.shards, cycle) by {
      assert cycle[0 + 1] == "A" && cycle[1 + 1] == "R";
    }
  }

  lemma OneHop(web: Web, d: Direction, x: Iri, y: Iri)
    requires Step(web, d, x, y)
    ensures ReachedIn(web, d, x, y, 1)
  {
    var p := [x];
    assert Chain(web, d, p);
    assert ReachedIn(web, d, x, x, 0);
    ExtendReach(web, d, x, x, y, 0);
  }

  lemma LegacyIsTwoSided(depth: nat)
    requires depth >= 1
    ensures !OneSided(LEGACY, "R", depth)
    ensures depth >= 2 ==> Within(LEGACY, Downstream, "R", "C", depth)
  {
    LegacySteps();
    OneHop(LEGACY, Upstream, "R", "A");
    OneHop(LEGACY, Downstream, "R", "A");
    ExtendReach(LEGACY, Downstream, "R", "A", "C", 1);
    assert Within(LEGACY, Upstream, "R", "A", depth) && Within(LEGACY, Downstream, "R", "A", depth);
  }

  /** On it a descendant two hops away is placed at no depth and no cap, because the first hop upstream takes `A`. */
  lemma CycleHidesADescendant(depth: nat, cap: nat, w: Walk, full: nat)
    requires Finished(LEGACY, "R", depth, cap, w, full)
    ensures "C" !in w.placed
    ensures depth >= 2 ==> Within(LEGACY, Downstream, "R", "C", depth)
  {
    LegacySteps();
    if depth >= 2 {
      LegacyIsTwoSided(depth);
    }
    if "C" in w.placed {
      FirstOfferWins(LEGACY, "R", depth, cap, w, full, "C");
      var y :| OffersPlace(LEGACY, w, w.placed["C"], y, "C");
      FirstOfferWins(LEGACY, "R", depth, cap, w, full, "A");
      EarlyOffer(w);
      assert false;
    }
  }

  lemma EarlyOffer(w: Walk)
    requires "R" in w.placed && w.placed["R"] == Place(Root, 0)
    ensures OffersPlace(LEGACY, w, Place(Upstream, 1), "R", "A")
  {
    LegacySteps();
  }
}
