/** The task forest that is built from stored parent links, which nothing constrains. */
module TaskForest {
  import opened Sequences

  type Id = string

  /** A stored task: its id and its parent field, which may be missing, empty, unknown or cyclic. */
  datatype Task = Task(id: Id, parent: Option<Id>)

  /** The `nodes` dictionary, as far as parents go. */
  type Parents = map<Id, Option<Id>>

  predicate Truthy(field: Option<string>) {
    field.Some? && field.value != ""
  }

  // Parent chains.

  /** The parent a task names; neither a missing nor an empty field names one. */
  ghost function Up(nodes: Parents, id: Id): Option<Id> {
    if id in nodes && nodes[id] != Some("") then nodes[id] else None
  }

  /** The `n`th link up from `id`, if the chain is that long; an unknown parent is on the chain and ends it. */
  ghost function Climb(nodes: Parents, id: Id, n: nat): Option<Id>
    decreases n
  {
    if n == 0 then Some(id)
    else match Up(nodes, id)
      case None => None
      case Some(parent) => Climb(nodes, parent, n - 1)
  }

  ghost predicate Ends(nodes: Parents, id: Id) {
    exists n: nat {:trigger Climb(nodes, id, n)} :: Climb(nodes, id, n).None?
  }

  ghost predicate OnChain(nodes: Parents, id: Id, ancestor: Id) {
    exists n: nat {:trigger Climb(nodes, id, n)} :: Climb(nodes, id, n) == Some(ancestor)
  }

  lemma {:induction false} ClimbFurther(nodes: Parents, id: Id, m: nat, n: nat)
    ensures Climb(nodes, id, m).None? ==> Climb(nodes, id, m + n).None?
    ensures Climb(nodes, id, m).Some? ==> Climb(nodes, id, m + n) == Climb(nodes, Climb(nodes, id, m).value, n)
    decreases m
  {
    if m > 0 && Up(nodes, id).Some? {
      ClimbFurther(nodes, Up(nodes, id).value, m - 1, n);
    }
  }

  lemma EndsAlong(nodes: Parents, id: Id, m: nat)
    requires Climb(nodes, id, m).Some?
    ensures Ends(nodes, id) <==> Ends(nodes, Climb(nodes, id, m).value)
  {
    var above := Climb(nodes, id, m).value;
    if Ends(nodes, id) {
      var n: nat :| Climb(nodes, id, n).None?;
      ClimbFurther(nodes, id, n, m);
      ClimbFurther(nodes, id, m, n);
      assert Climb(nodes, above, n).None?;
    }
    if Ends(nodes, above) {
      var n: nat :| Climb(nodes, above, n).None?;
      ClimbFurther(nodes, id, m, n);
      assert Climb(nodes, id, m + n).None?;
    }
  }

  /** A chain that comes back to where it started never ends. */
  lemma {:induction false} CycleNeverEnds(nodes: Parents, id: Id, period: nat, n: nat)
    requires period > 0 && Climb(nodes, id, period) == Some(id)
    ensures Climb(nodes, id, n).Some?
    decreases n
  {
    if n >= period {
      CycleNeverEnds(nodes, id, period, n - period);
      ClimbFurther(nodes, id, period, n - period);
    } else {
      ClimbFurther(nodes, id, n, period - n);
    }
  }

  lemma CyclesDoNotEnd(nodes: Parents, id: Id, period: nat)
    requires period > 0 && Climb(nodes, id, period) == Some(id)
    ensures !Ends(nodes, id)
  {
    if n: nat :| Climb(nodes, id, n).None? {
      CycleNeverEnds(nodes, id, period, n);
      assert false;
    }
  }

  // `_compute_depth`.

  /** No task comes up twice in the first `n` steps. */
  ghost predicate Fresh(nodes: Parents, id: Id, n: nat) {
    forall i: nat, j: nat {:trigger Climb(nodes, id, i), Climb(nodes, id, j)} ::
      i < j < n ==> Climb(nodes, id, i) != Climb(nodes, id, j)
  }

  /** `d` links lead up from `id` before the chain ends, or before it repeats itself. */
  ghost predicate IsDepth(nodes: Parents, id: Id, d: nat) {
    && Climb(nodes, id, d).Some?
    && Fresh(nodes, id, d)
    && (Climb(nodes, id, d + 1).None? || exists e: nat {:trigger Climb(nodes, id, e)} ::
          e < d && Climb(nodes, id, e) == Climb(nodes, id, d))
  }

  /** The same, when the chain may also stop at a task seen before. */
  ghost predicate StopsAfter(nodes: Parents, id: Id, visited: set<Id>, d: nat) {
    && Climb(nodes, id, d).Some?
    && Fresh(nodes, id, d)
    && (forall i: nat {:trigger Climb(nodes, id, i)} ::
          i < d ==> Climb(nodes, id, i).Some? && Climb(nodes, id, i).value !in visited)
    && (Climb(nodes, id, d + 1).None? || Climb(nodes, id, d).value in visited ||
        exists e: nat {:trigger Climb(nodes, id, e)} :: e < d && Climb(nodes, id, e) == Climb(nodes, id, d))
  }

  lemma StopsOneLower(nodes: Parents, id: Id, parent: Id, visited: set<Id>, d: nat)
    requires id !in visited && Up(nodes, id) == Some(parent)
    requires StopsAfter(nodes, parent, visited + {id}, d)
    ensures StopsAfter(nodes, id, visited, d + 1)
  {
    assert forall i: nat :: i > 0 ==> Climb(nodes, id, i) == Climb(nodes, parent, i - 1);
    forall i: nat, j: nat | i < j < d + 1
      ensures Climb(nodes, id, i) != Climb(nodes, id, j)
    {
      assert Climb(nodes, id, j) == Climb(nodes, parent, j - 1);
      assert i > 0 ==> Climb(nodes, id, i) == Climb(nodes, parent, i - 1);
    }
    assert Climb(nodes, id, d + 1) == Climb(nodes, parent, d);
    assert Climb(nodes, id, d + 2) == Climb(nodes, parent, d + 1);
    if Climb(nodes, parent, d).value == id {
      assert Climb(nodes, id, 0) == Climb(nodes, id, d + 1);
    } else if e: nat :| e < d && Climb(nodes, parent, e) == Climb(nodes, parent, d) {
      assert Climb(nodes, id, e + 1) == Climb(nodes, id, d + 1);
    }
  }

  method ComputeDepth(nodes: Parents, id: Id, visited: set<Id>) returns (depth: nat)
    ensures StopsAfter(nodes, id, visited, depth)
    decreases nodes.Keys - visited
  {
    if id in visited {
      return 0;
    }
    var visited' := visited + {id};
    if id !in nodes || !Truthy(nodes[id]) {
      assert Climb(nodes, id, 1).None?;
      return 0;
    }
    var above := ComputeDepth(nodes, nodes[id].value, visited');
    StopsOneLower(nodes, id, nodes[id].value, visited, above);
    depth := 1 + above;
  }

  /** A chain that ends has as many links as the depth says. */
  lemma DepthCountsLinks(nodes: Parents, id: Id, d: nat)
    requires IsDepth(nodes, id, d)
    ensures Ends(nodes, id) <==> Climb(nodes, id, d + 1).None?
    ensures forall other: nat :: IsDepth(nodes, id, other) ==> other == d
  {
    if e: nat :| e < d && Climb(nodes, id, e) == Climb(nodes, id, d) {
      ClimbFurther(nodes, id, e, d - e);
      CyclesDoNotEnd(nodes, Climb(nodes, id, e).value, d - e);
      EndsAlong(nodes, id, e);
      ClimbFurther(nodes, id, d + 1, 0);
    }
    forall other: nat | IsDepth(nodes, id, other)
      ensures other == d
    {
      ClimbFurther(nodes, id, d + 1, if other > d then other - d - 1 else 0);
      ClimbFurther(nodes, id, other + 1, if d > other then d - other - 1 else 0);
    }
  }

  // Building the forest.

  function NodesOf(tasks: seq<Task>): Parents {
    if tasks == [] then map[]
    else NodesOf(tasks[..|tasks| - 1])[tasks[|tasks| - 1].id := tasks[|tasks| - 1].parent]
  }

  ghost predicate UniqueIds(tasks: seq<Task>) {
    forall i, j :: 0 <= i < j < |tasks| ==> tasks[i].id != tasks[j].id
  }

  lemma {:induction false} NodesOfExact(tasks: seq<Task>)
    requires UniqueIds(tasks)
    ensures forall t :: t in tasks ==> t.id in NodesOf(tasks) && NodesOf(tasks)[t.id] == t.parent
    ensures forall id :: id in NodesOf(tasks) ==> Task(id, NodesOf(tasks)[id]) in tasks
  {
    if tasks != [] {
      var front, last := tasks[..|tasks| - 1], tasks[|tasks| - 1];
      NodesOfExact(front);
      assert tasks == front + [last];
    }
  }

  predicate IsChild(t: Task, parent: Id) {
    Truthy(t.parent) && t.parent.value == parent
  }

  predicate IsRoot(t: Task, nodes: Parents) {
    !Truthy(t.parent) || t.parent.value !in nodes
  }

  function ChildIds(tasks: seq<Task>, parent: Id): seq<Id> {
    if tasks == [] then []
    else
      var front, last := ChildIds(tasks[..|tasks| - 1], parent), tasks[|tasks| - 1];
      if IsChild(last, parent) then front + [last.id] else front
  }

  function RootIds(tasks: seq<Task>, nodes: Parents): seq<Id> {
    if tasks == [] then []
    else
      var front, last := RootIds(tasks[..|tasks| - 1], nodes), tasks[|tasks| - 1];
      if IsRoot(last, nodes) then front + [last.id] else front
  }

  function RowIds(tasks: seq<Task>): (r: seq<Id>)
    ensures |r| == |tasks| && forall i :: 0 <= i < |r| ==> r[i] == tasks[i].id
  {
    seq(|tasks|, i requires 0 <= i < |tasks| => tasks[i].id)
  }

  /** Row `k` names `parent` as its parent. */
  ghost predicate ChildRow(tasks: seq<Task>, parent: Id, k: int) {
    0 <= k < |tasks| && parent != "" && tasks[k].parent == Some(parent)
  }

  /** Row `k` names no parent, or one that is no row's id. */
  ghost predicate RootRow(tasks: seq<Task>, known: set<Id>, k: int) {
    0 <= k < |tasks| && (tasks[k].parent == None || tasks[k].parent == Some("") || tasks[k].parent.value !in known)
  }

  lemma {:induction false} ChildIdsInOrder(tasks: seq<Task>, parent: Id)
    ensures Picks(ChildIds(tasks, parent), RowIds(tasks), set k | 0 <= k < |tasks| && ChildRow(tasks, parent, k))
  {
    var keep := set k | 0 <= k < |tasks| && ChildRow(tasks, parent, k);
    if tasks == [] {
      PicksNone(RowIds(tasks));
      assert keep == {};
    } else {
      var front, last := tasks[..|tasks| - 1], tasks[|tasks| - 1];
      var before := set k | 0 <= k < |front| && ChildRow(front, parent, k);
      ChildIdsInOrder(front, parent);
      PicksMore(ChildIds(front, parent), RowIds(front), before, last.id);
      assert RowIds(tasks) == RowIds(front) + [last.id];
      assert forall k :: 0 <= k < |front| ==> (ChildRow(tasks, parent, k) <==> ChildRow(front, parent, k));
      assert keep == before + if IsChild(last, parent) then {|front|} else {};
    }
  }

  lemma {:induction false} RootIdsInOrder(tasks: seq<Task>, nodes: Parents)
    ensures Picks(RootIds(tasks, nodes), RowIds(tasks), set k | 0 <= k < |tasks| && RootRow(tasks, nodes.Keys, k))
  {
    var keep := set k | 0 <= k < |tasks| && RootRow(tasks, nodes.Keys, k);
    if tasks == [] {
      PicksNone(RowIds(tasks));
      assert keep == {};
    } else {
      var front, last := tasks[..|tasks| - 1], tasks[|tasks| - 1];
      var before := set k | 0 <= k < |front| && RootRow(front, nodes.Keys, k);
      RootIdsInOrder(front, nodes);
      PicksMore(RootIds(front, nodes), RowIds(front), before, last.id);
      assert RowIds(tasks) == RowIds(front) + [last.id];
      assert forall k :: 0 <= k < |front| ==> (RootRow(tasks, nodes.Keys, k) <==> RootRow(front, nodes.Keys, k));
      assert keep == before + if IsRoot(last, nodes) then {|front|} else {};
    }
  }

  datatype Forest = Forest(parent: Parents, depth: map<Id, nat>, children: map<Id, seq<Id>>, roots: seq<Id>)

  /** Every task with its depth; the children of each, and the roots, in row order. */
  ghost predicate IsForest(tasks: seq<Task>, f: Forest) {
    && f.parent == NodesOf(tasks)
    && f.depth.Keys == f.parent.Keys && f.children.Keys == f.parent.Keys
    && (forall id :: id in f.parent ==> IsDepth(f.parent, id, f.depth[id]))
    && (forall id :: id in f.parent ==> f.children[id] == ChildIds(tasks, id))
    && f.roots == RootIds(tasks, f.parent)
  }

  /** What the rows say: every task with its depth, its children and the roots in row order. */
  ghost predicate RowsTell(tasks: seq<Task>, f: Forest) {
    && (forall id :: id in f.parent <==> exists k :: 0 <= k < |tasks| && tasks[k].id == id)
    && (forall k :: 0 <= k < |tasks| ==> tasks[k].id in f.parent && f.parent[tasks[k].id] == tasks[k].parent)
    && f.depth.Keys == f.parent.Keys && f.children.Keys == f.parent.Keys
    && (forall id :: id in f.parent ==> IsDepth(f.parent, id, f.depth[id]))
    && (forall id :: id in f.parent ==> Picks(f.children[id], RowIds(tasks), set k | 0 <= k < |tasks| && ChildRow(tasks, id, k)))
    && Picks(f.roots, RowIds(tasks), set k | 0 <= k < |tasks| && RootRow(tasks, f.parent.Keys, k))
  }

  lemma ForestTells(tasks: seq<Task>, f: Forest)
    requires UniqueIds(tasks) && IsForest(tasks, f)
    ensures RowsTell(tasks, f)
  {
    NodesOfExact(tasks);
    forall id
      ensures id in f.parent <==> exists k :: 0 <= k < |tasks| && tasks[k].id == id
    {
      if id in f.parent {
        var k :| 0 <= k < |tasks| && tasks[k] == Task(id, f.parent[id]);
      }
      if k :| 0 <= k < |tasks| && tasks[k].id == id {
        assert tasks[k] in tasks;
      }
    }
    forall k | 0 <= k < |tasks|
      ensures tasks[k].id in f.parent && f.parent[tasks[k].id] == tasks[k].parent
    {
      assert tasks[k] in tasks;
    }
    forall id | id in f.parent
      ensures Picks(f.children[id], RowIds(tasks), set k | 0 <= k < |tasks| && ChildRow(tasks, id, k))
    {
      ChildIdsInOrder(tasks, id);
    }
    RootIdsInOrder(tasks, f.parent);
  }

  method ReadNodes(tasks: seq<Task>) returns (nodes: Parents, children: map<Id, seq<Id>>)
    ensures nodes == NodesOf(tasks)
    ensures children.Keys == nodes.Keys && forall id :: id in children ==> children[id] == []
  {
    nodes, children := map[], map[];
    for i := 0 to |tasks|
      invariant nodes == NodesOf(tasks[..i])
      invariant children.Keys == nodes.Keys && forall id :: id in children ==> children[id] == []
    {
      assert tasks[..i + 1][..i] == tasks[..i];
      nodes := nodes[tasks[i].id := tasks[i].parent];
      children := children[tasks[i].id := []];
    }
    assert tasks[..|tasks|] == tasks;
  }

  method ComputeDepths(tasks: seq<Task>, nodes: Parents) returns (depth: map<Id, nat>)
    requires UniqueIds(tasks) && nodes == NodesOf(tasks)
    ensures depth.Keys == nodes.Keys && forall id :: id in depth ==> IsDepth(nodes, id, depth[id])
  {
    NodesOfExact(tasks);
    depth := map[];
    for i := 0 to |tasks|
      invariant forall id :: id in depth ==> id in nodes && IsDepth(nodes, id, depth[id])
      invariant forall j :: 0 <= j < i ==> tasks[j].id in depth
    {
      var d := ComputeDepth(nodes, tasks[i].id, {});
      depth := depth[tasks[i].id := d];
    }
    forall id | id in nodes
      ensures id in depth
    {
      var j :| 0 <= j < |tasks| && tasks[j] == Task(id, nodes[id]);
    }
  }

  /** The first `n` rows have been appended to their parent's children or to the roots. */
  ghost predicate Attached(tasks: seq<Task>, nodes: Parents, n: nat, children: map<Id, seq<Id>>, roots: seq<Id>) {
    && n <= |tasks|
    && children.Keys == nodes.Keys
    && (forall id :: id in children ==> children[id] == ChildIds(tasks[..n], id))
    && roots == RootIds(tasks[..n], nodes)
  }

  lemma AttachOne(tasks: seq<Task>, nodes: Parents, n: nat, id: Id)
    requires n < |tasks|
    ensures ChildIds(tasks[..n + 1], id)
      == if IsChild(tasks[n], id) then ChildIds(tasks[..n], id) + [tasks[n].id] else ChildIds(tasks[..n], id)
    ensures RootIds(tasks[..n + 1], nodes)
      == if IsRoot(tasks[n], nodes) then RootIds(tasks[..n], nodes) + [tasks[n].id] else RootIds(tasks[..n], nodes)
  {
    assert tasks[..n + 1][..n] == tasks[..n];
  }

  method Attach(tasks: seq<Task>, nodes: Parents, n: nat, children: map<Id, seq<Id>>, roots: seq<Id>)
    returns (children': map<Id, seq<Id>>, roots': seq<Id>)
    requires n < |tasks| && Attached(tasks, nodes, n, children, roots)
    ensures Attached(tasks, nodes, n + 1, children', roots')
  {
    var t := tasks[n];
    if Truthy(t.parent) && t.parent.value in nodes {
      children' := children[t.parent.value := children[t.parent.value] + [t.id]];
      roots' := roots;
    } else {
      children', roots' := children, roots + [t.id];
    }
    forall id
      ensures id in children' ==> children'[id] == ChildIds(tasks[..n + 1], id)
    {
      AttachOne(tasks, nodes, n, id);
    }
    AttachOne(tasks, nodes, n, t.id);
  }

  /** `get_task_tree`, from the rows in query order. */
  method BuildForest(tasks: seq<Task>) returns (f: Forest)
    requires UniqueIds(tasks)
    ensures IsForest(tasks, f) && RowsTell(tasks, f)
  {
    var nodes, children := ReadNodes(tasks);
    var depth := ComputeDepths(tasks, nodes);
    var roots: seq<Id> := [];
    for i := 0 to |tasks|
      invariant Attached(tasks, nodes, i, children, roots)
    {
      children, roots := Attach(tasks, nodes, i, children, roots);
    }
    assert tasks[..|tasks|] == tasks;
    f := Forest(nodes, depth, children, roots);
    ForestTells(tasks, f);
  }

  // Where a task appears.

  /** A path down from a root. */
  ghost predicate Trail(f: Forest, trail: seq<Id>) {
    && trail != [] && trail[0] in f.roots
    && forall i {:trigger trail[i]} :: 0 <= i < |trail| - 1 ==>
         trail[i] in f.children && trail[i + 1] in f.children[trail[i]]
  }

  /** A place in the forest where the task is shown. */
  ghost predicate ShownAt(f: Forest, id: Id, trail: seq<Id>) {
    Trail(f, trail) && trail[|trail| - 1] == id
  }

  lemma {:induction false} ChildIdsExact(tasks: seq<Task>, parent: Id)
    requires UniqueIds(tasks)
    ensures forall id :: id in ChildIds(tasks, parent) <==>
      exists i {:trigger tasks[i]} :: 0 <= i < |tasks| && tasks[i].id == id && IsChild(tasks[i], parent)
    ensures NoDup(ChildIds(tasks, parent))
  {
    if tasks != [] {
      var front, last := tasks[..|tasks| - 1], tasks[|tasks| - 1];
      ChildIdsExact(front, parent);
      assert forall i :: 0 <= i < |front| ==> front[i] == tasks[i] && tasks[i].id != last.id;
      assert last.id !in ChildIds(front, parent);
    }
  }

  lemma {:induction false} RootIdsExact(tasks: seq<Task>, nodes: Parents)
    requires UniqueIds(tasks)
    ensures forall id :: id in RootIds(tasks, nodes) <==>
      exists i {:trigger tasks[i]} :: 0 <= i < |tasks| && tasks[i].id == id && IsRoot(tasks[i], nodes)
    ensures NoDup(RootIds(tasks, nodes))
  {
    if tasks != [] {
      var front, last := tasks[..|tasks| - 1], tasks[|tasks| - 1];
      RootIdsExact(front, nodes);
      assert forall i :: 0 <= i < |front| ==> front[i] == tasks[i] && tasks[i].id != last.id;
      assert last.id !in RootIds(front, nodes);
    }
  }

  /** Children and roots, told by the links alone; no list names a task twice. */
  ghost predicate Linked(f: Forest) {
    && NoDup(f.roots)
    && f.children.Keys == f.parent.Keys
    && (forall p :: p in f.children ==> NoDup(f.children[p]))
    && (forall id :: id in f.roots <==>
          id in f.parent && (Up(f.parent, id).None? || Up(f.parent, id).value !in f.parent))
    && (forall p, id {:trigger id in f.children[p]} :: p in f.children ==>
          (id in f.children[p] <==> id in f.parent && Up(f.parent, id) == Some(p)))
  }

  lemma RootsAreLinked(tasks: seq<Task>, nodes: Parents, id: Id)
    requires UniqueIds(tasks) && nodes == NodesOf(tasks)
    ensures id in RootIds(tasks, nodes) <==> id in nodes && (Up(nodes, id).None? || Up(nodes, id).value !in nodes)
  {
    RootIdsExact(tasks, nodes);
    RowOf(tasks, id);
  }

  lemma ChildrenAreLinked(tasks: seq<Task>, nodes: Parents, p: Id, id: Id)
    requires UniqueIds(tasks) && nodes == NodesOf(tasks)
    ensures id in ChildIds(tasks, p) <==> id in nodes && Up(nodes, id) == Some(p)
  {
    ChildIdsExact(tasks, p);
    RowOf(tasks, id);
  }

  lemma ForestIsLinked(tasks: seq<Task>, f: Forest)
    requires UniqueIds(tasks) && IsForest(tasks, f)
    ensures Linked(f)
  {
    RootIdsExact(tasks, f.parent);
    forall id
      ensures id in f.roots <==> id in f.parent && (Up(f.parent, id).None? || Up(f.parent, id).value !in f.parent)
    {
      RootsAreLinked(tasks, f.parent, id);
    }
    forall p | p in f.children
      ensures NoDup(f.children[p])
    {
      ChildIdsExact(tasks, p);
    }
    forall p, id | p in f.children
      ensures id in f.children[p] <==> id in f.parent && Up(f.parent, id) == Some(p)
    {
      ChildrenAreLinked(tasks, f.parent, p, id);
    }
  }

  lemma RowOf(tasks: seq<Task>, id: Id)
    requires UniqueIds(tasks)
    ensures id in NodesOf(tasks) <==> exists i {:trigger tasks[i]} :: 0 <= i < |tasks| && tasks[i].id == id
    ensures forall i :: 0 <= i < |tasks| && tasks[i].id == id ==>
      id in NodesOf(tasks) && tasks[i].parent == NodesOf(tasks)[id]
  {
    NodesOfExact(tasks);
    if id in NodesOf(tasks) {
      var i :| 0 <= i < |tasks| && tasks[i] == Task(id, NodesOf(tasks)[id]);
    }
  }

  /** The last step of a trail is a parent link; a trail of one step is at a root. */
  lemma TrailStep(f: Forest, id: Id, trail: seq<Id>)
    requires Linked(f) && ShownAt(f, id, trail)
    ensures id in f.parent
    ensures |trail| == 1 ==> Up(f.parent, id).None? || Up(f.parent, id).value !in f.parent
    ensures |trail| > 1 ==>
      Up(f.parent, id) == Some(trail[|trail| - 2]) && trail[|trail| - 2] in f.parent &&
      ShownAt(f, trail[|trail| - 2], trail[..|trail| - 1])
  {
    assert |trail| > 1 ==> trail[|trail| - 2 + 1] in f.children[trail[|trail| - 2]];
  }

  /** A trail follows parent links, so its task's chain ends. */
  lemma {:induction false} TrailEnds(f: Forest, id: Id, trail: seq<Id>)
    requires Linked(f) && ShownAt(f, id, trail)
    ensures id in f.parent && Ends(f.parent, id)
    ensures Climb(f.parent, id, |trail| - 1) == Some(trail[0])
    decreases |trail|
  {
    TrailStep(f, id, trail);
    if |trail| == 1 {
      var up := Up(f.parent, id);
      if up.None? {
        assert Climb(f.parent, id, 1).None?;
      } else {
        assert Climb(f.parent, id, 2) == Climb(f.parent, up.value, 1) == None;
      }
    } else {
      TrailEnds(f, trail[|trail| - 2], trail[..|trail| - 1]);
      assert Climb(f.parent, id, 1) == Some(trail[|trail| - 2]);
      EndsAlong(f.parent, id, 1);
    }
  }

  lemma {:induction false} OneTrail(f: Forest, id: Id, a: seq<Id>, b: seq<Id>)
    requires Linked(f) && ShownAt(f, id, a) && ShownAt(f, id, b)
    ensures a == b
    decreases |a|
  {
    TrailStep(f, id, a);
    TrailStep(f, id, b);
    if |a| > 1 && |b| > 1 {
      var a', b' := a[..|a| - 1], b[..|b| - 1];
      OneTrail(f, a[|a| - 2], a', b');
      assert a == a' + [id] && b == b' + [id];
    }
  }

  lemma {:induction false} TrailOf(f: Forest, id: Id, n: nat) returns (trail: seq<Id>)
    requires Linked(f) && id in f.parent && Climb(f.parent, id, n).None?
    ensures ShownAt(f, id, trail)
    decreases n
  {
    var up := Up(f.parent, id);
    if up.None? || up.value !in f.parent {
      trail := [id];
    } else {
      var above := TrailOf(f, up.value, n - 1);
      trail := above + [id];
      assert forall i :: 0 <= i < |above| ==> trail[i] == above[i];
    }
  }

  ghost predicate Shown(f: Forest, id: Id) {
    exists trail {:trigger ShownAt(f, id, trail)} :: ShownAt(f, id, trail)
  }

  /** A task is in the forest exactly once if its parent chain ends, and not at all if it does not. */
  lemma ShownOnceIffChainEnds(tasks: seq<Task>, f: Forest, id: Id)
    requires UniqueIds(tasks) && IsForest(tasks, f) && id in f.parent
    ensures Shown(f, id) <==> Ends(f.parent, id)
    ensures forall a, b :: ShownAt(f, id, a) && ShownAt(f, id, b) ==> a == b
  {
    ForestIsLinked(tasks, f);
    if Ends(f.parent, id) {
      var n: nat :| Climb(f.parent, id, n).None?;
      var trail := TrailOf(f, id, n);
      assert ShownAt(f, id, trail);
    }
    if trail :| ShownAt(f, id, trail) {
      TrailEnds(f, id, trail);
    }
    forall a, b | ShownAt(f, id, a) && ShownAt(f, id, b)
      ensures a == b
    {
      OneTrail(f, id, a, b);
    }
  }

  /** The depth of a shown task is how deep it is shown, and one more if its root's parent is unknown. */
  lemma DepthIsNesting(tasks: seq<Task>, f: Forest, id: Id, trail: seq<Id>)
    requires UniqueIds(tasks) && IsForest(tasks, f) && ShownAt(f, id, trail)
    ensures id in f.depth
    ensures f.depth[id] == |trail| - 1 + if Up(f.parent, trail[0]).None? then 0 else 1
  {
    ForestIsLinked(tasks, f);
    TrailEnds(f, id, trail);
    var nodes, top := f.parent, |trail| - 1;
    DepthCountsLinks(nodes, id, f.depth[id]);
    var root := trail[0];
    assert ShownAt(f, root, [root]);
    TrailStep(f, root, [root]);
    var links := if Up(nodes, root).None? then 0 else 1;
    LinksAboveRoot(nodes, root);
    ClimbFurther(nodes, id, top, links);
    ClimbFurther(nodes, id, top, links + 1);
    OneLength(nodes, id, f.depth[id], top + links);
  }

  lemma LinksAboveRoot(nodes: Parents, root: Id)
    requires Up(nodes, root).None? || Up(nodes, root).value !in nodes
    ensures Up(nodes, root).None? ==> Climb(nodes, root, 1).None?
    ensures Up(nodes, root).Some? ==> Climb(nodes, root, 1).Some? && Climb(nodes, root, 2).None?
  {
    if Up(nodes, root).Some? {
      assert Climb(nodes, Up(nodes, root).value, 1).None?;
    }
  }

  lemma OneLength(nodes: Parents, id: Id, m: nat, n: nat)
    requires Climb(nodes, id, m).Some? && Climb(nodes, id, m + 1).None?
    requires Climb(nodes, id, n).Some? && Climb(nodes, id, n + 1).None?
    ensures m == n
  {
    ClimbFurther(nodes, id, m + 1, if n > m then n - m - 1 else 0);
    ClimbFurther(nodes, id, n + 1, if m > n then m - n - 1 else 0);
  }
}
