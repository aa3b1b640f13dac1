/** Deleting, moving and merging stored tasks, and what that does to the forest. */
module TaskEdits {
  import opened Sequences
  import opened TaskForest

  /** A unit linked to a task; `details` stands for the row's other columns. */
  datatype Link = Link(task: Id, unit: string, details: string)

  datatype Edit = Edit(kind: string, source: Option<Id>, target: Option<Id>)

  function DropTask(tasks: seq<Task>, id: Id): seq<Task> {
    if tasks == [] then []
    else
      var front, last := DropTask(tasks[..|tasks| - 1], id), tasks[|tasks| - 1];
      if last.id == id then front else front + [last]
  }

  function Reparent(tasks: seq<Task>, id: Id, parent: Id): seq<Task> {
    if tasks == [] then []
    else
      var front, last := Reparent(tasks[..|tasks| - 1], id, parent), tasks[|tasks| - 1];
      front + [if last.id == id then Task(id, Some(parent)) else last]
  }

  function DropLinks(links: seq<Link>, task: Id): seq<Link> {
    if links == [] then []
    else
      var front, last := DropLinks(links[..|links| - 1], task), links[|links| - 1];
      if last.task == task then front else front + [last]
  }

  lemma {:induction false} DropLinksExact(links: seq<Link>, task: Id)
    ensures forall l :: l in DropLinks(links, task) <==> l in links && l.task != task
    ensures UniqueLinks(links) ==> UniqueLinks(DropLinks(links, task))
  {
    if links != [] {
      var front, last := links[..|links| - 1], links[|links| - 1];
      DropLinksExact(front, task);
      assert links == front + [last];
      if UniqueLinks(links) {
        assert NoDup(front) && last !in front;
      }
    }
  }

  /** All rows but that of `id`, in their order. */
  ghost predicate RowGone(before: seq<Task>, after: seq<Task>, id: Id) {
    Picks(after, before, set k | 0 <= k < |before| && before[k].id != id)
  }

  /** All links but the task's, in their order. */
  ghost predicate LinksGone(before: seq<Link>, after: seq<Link>, task: Id) {
    Picks(after, before, set k | 0 <= k < |before| && before[k].task != task)
  }

  /** Only the row of `id` changes, and only in its parent. */
  ghost predicate RowMoved(before: seq<Task>, after: seq<Task>, id: Id, parent: Id) {
    && |after| == |before|
    && forall i :: 0 <= i < |after| ==>
         && after[i].id == before[i].id
         && after[i].parent == if before[i].id == id then Some(parent) else before[i].parent
  }

  lemma {:induction false} DropTaskIs(tasks: seq<Task>, id: Id)
    ensures RowGone(tasks, DropTask(tasks, id), id)
  {
    var keep := set k | 0 <= k < |tasks| && tasks[k].id != id;
    if tasks == [] {
      PicksNone(tasks);
      assert keep == {};
    } else {
      var front, last := tasks[..|tasks| - 1], tasks[|tasks| - 1];
      var before := set k | 0 <= k < |front| && front[k].id != id;
      DropTaskIs(front, id);
      PicksMore(DropTask(front, id), front, before, last);
      assert tasks == front + [last];
      assert keep == before + if last.id == id then {} else {|front|};
    }
  }

  lemma OneMoreLink(links: seq<Link>, rest: seq<Link>, task: Id, last: Link)
    requires LinksGone(links, rest, task)
    ensures LinksGone(links + [last], if last.task == task then rest else rest + [last], task)
  {
    var keep, more := (set k | 0 <= k < |links| && links[k].task != task), links + [last];
    PicksMore(rest, links, keep, last);
    assert forall k :: 0 <= k < |links| ==> more[k] == links[k];
    assert (set k | 0 <= k < |more| && more[k].task != task) == keep + if last.task == task then {} else {|links|};
  }

  lemma DropLinksStep(links: seq<Link>, task: Id, last: Link, whole: seq<Link>)
    requires LinksGone(links, DropLinks(links, task), task) && whole == links + [last]
    ensures LinksGone(whole, DropLinks(whole, task), task)
  {
    OneMoreLink(links, DropLinks(links, task), task, last);
    assert whole[..|links|] == links;
  }

  lemma {:induction false} DropLinksIs(links: seq<Link>, task: Id)
    ensures LinksGone(links, DropLinks(links, task), task)
  {
    var keep := set k | 0 <= k < |links| && links[k].task != task;
    if links == [] {
      PicksNone(links);
      assert keep == {};
    } else {
      DropLinksIs(links[..|links| - 1], task);
      DropLinksStep(links[..|links| - 1], task, links[|links| - 1], links);
    }
  }

  lemma {:induction false} ReparentIs(tasks: seq<Task>, id: Id, parent: Id)
    ensures RowMoved(tasks, Reparent(tasks, id, parent), id, parent)
  {
    if tasks != [] {
      ReparentIs(tasks[..|tasks| - 1], id, parent);
    }
  }

  /** The field names something. */
  ghost predicate Given(field: Option<string>) {
    field != None && field != Some("")
  }

  /** `UNIQUE(task_id, unit_id)`. */
  ghost predicate UniqueLinks(links: seq<Link>) {
    && NoDup(links)
    && forall a, b :: a in links && b in links && a.task == b.task && a.unit == b.unit ==> a == b
  }

  predicate HasLink(links: seq<Link>, task: Id, unit: string) {
    exists l :: l in links && l.task == task && l.unit == unit
  }

  /** A link the merge carries over: the source's, for a unit the target has no link to. */
  ghost predicate CarriedOver(before: seq<Link>, source: Id, target: Id, l: Link) {
    source != target && l.task == target && Link(source, l.unit, l.details) in before && !HasLink(before, target, l.unit)
  }

  /** All a merge does to the links. */
  ghost predicate Merged(before: seq<Link>, source: Id, target: Id, after: seq<Link>) {
    && UniqueLinks(after)
    && forall l :: l in after <==> (l in before && l.task != source) || CarriedOver(before, source, target, l)
  }

  // `UPDATE OR IGNORE`, row by row.

  /** Row `i` as the update leaves it: it keeps its task when the target already has the unit. */
  ghost function Relinked(links: seq<Link>, i: nat, source: Id, target: Id): Link
    requires i < |links|
  {
    if links[i].task == source && (source == target || !HasLink(links, target, links[i].unit))
    then links[i].(task := target)
    else links[i]
  }

  ghost predicate RelinkedUpTo(before: seq<Link>, source: Id, target: Id, n: nat, now: seq<Link>) {
    && n <= |before| == |now|
    && (forall i {:trigger now[i]} :: 0 <= i < n ==> now[i] == Relinked(before, i, source, target))
    && (forall i {:trigger now[i]} :: n <= i < |before| ==> now[i] == before[i])
  }

  /** Rows already updated raise no new conflict, since no two of the source's links name one unit. */
  lemma ConflictsStay(before: seq<Link>, source: Id, target: Id, n: nat, now: seq<Link>)
    requires UniqueLinks(before) && source != target && RelinkedUpTo(before, source, target, n, now)
    requires n < |before| && before[n].task == source
    ensures HasLink(now, target, before[n].unit) <==> HasLink(before, target, before[n].unit)
  {
    var unit := before[n].unit;
    if HasLink(now, target, unit) {
      var l :| l in now && l.task == target && l.unit == unit;
      var j :| 0 <= j < |now| && now[j] == l;
      assert before[j] in before && before[n] in before;
    }
    if HasLink(before, target, unit) {
      var l :| l in before && l.task == target && l.unit == unit;
      var j :| 0 <= j < |before| && before[j] == l;
      assert now[j] == l;
    }
  }

  lemma RelinkedIsUnique(before: seq<Link>, source: Id, target: Id, now: seq<Link>)
    requires UniqueLinks(before) && source != target && RelinkedUpTo(before, source, target, |before|, now)
    ensures UniqueLinks(now)
  {
    forall i, j | 0 <= i < j < |now|
      ensures now[i].task != now[j].task || now[i].unit != now[j].unit
    {
      assert now[i] == Relinked(before, i, source, target) && now[j] == Relinked(before, j, source, target);
      assert before[i] in before && before[j] in before && before[i] != before[j];
    }
    forall a, b | a in now && b in now && a.task == b.task && a.unit == b.unit
      ensures a == b
    {
      var i :| 0 <= i < |now| && now[i] == a;
      var j :| 0 <= j < |now| && now[j] == b;
      assert i == j;
    }
  }

  lemma RelinkedThenDropped(before: seq<Link>, source: Id, target: Id, now: seq<Link>)
    requires UniqueLinks(before) && source != target && RelinkedUpTo(before, source, target, |before|, now)
    ensures Merged(before, source, target, DropLinks(now, source))
  {
    RelinkedIsUnique(before, source, target, now);
    DropLinksExact(now, source);
    var after := DropLinks(now, source);
    forall l
      ensures l in after <==> (l in before && l.task != source) || CarriedOver(before, source, target, l)
    {
      if l in after {
        var i :| 0 <= i < |now| && now[i] == l;
        assert l == Relinked(before, i, source, target);
        assert before[i] in before;
      }
      if l in before && l.task != source {
        var i :| 0 <= i < |before| && before[i] == l;
        assert now[i] == l;
      }
      if CarriedOver(before, source, target, l) {
        var i :| 0 <= i < |before| && before[i] == Link(source, l.unit, l.details);
        assert now[i] == l;
      }
    }
  }

  method RelinkUnits(links: seq<Link>, source: Id, target: Id) returns (now: seq<Link>)
    requires UniqueLinks(links)
    ensures source != target ==> RelinkedUpTo(links, source, target, |links|, now)
    ensures source == target ==> now == links
  {
    now := links;
    for i := 0 to |links|
      invariant source != target ==> RelinkedUpTo(links, source, target, i, now)
      invariant source == target ==> now == links
    {
      var row := now[i];
      if row.task == source {
        if source != target {
          ConflictsStay(links, source, target, i, now);
        }
        if source == target || !HasLink(now, target, row.unit) {
          now := now[i := row.(task := target)];
        }
      }
    }
  }

  /** The rows of one corpus: its tasks in query order, their unit links, and the record of edits. */
  class Board {
    var tasks: seq<Task>
    var links: seq<Link>
    var edits: seq<Edit>

    ghost predicate Valid()
      reads this
    {
      UniqueIds(tasks) && UniqueLinks(links)
    }

    constructor (tasks: seq<Task>, links: seq<Link>)
      requires UniqueIds(tasks) && UniqueLinks(links)
      ensures Valid() && this.tasks == tasks && this.links == links && edits == []
    {
      this.tasks, this.links, edits := tasks, links, [];
    }

    /** `delete_task`; an unknown task is refused and nothing is recorded. */
    method Delete(id: Id) returns (found: bool)
      requires Valid()
      modifies this
      ensures Valid()
      ensures found <==> exists t :: t in old(tasks) && t.id == id
      ensures tasks == DropTask(old(tasks), id) && RowGone(old(tasks), tasks, id)
      ensures if found then LinksGone(old(links), links, id) else tasks == old(tasks) && links == old(links)
      ensures edits == if found then old(edits) + [Edit("delete", Some(id), None)] else old(edits)
    {
      found := exists t :: t in tasks && t.id == id;
      DropTaskMembers(tasks, id);
      DropTaskUnique(tasks, id);
      DropTaskIs(tasks, id);
      DropLinksIs(links, id);
      DropLinksExact(links, id);
      if !found {
        return;
      }
      links := DropLinks(links, id);
      edits := edits + [Edit("delete", Some(id), None)];
      tasks := DropTask(tasks, id);
    }

    /** `hierarchy_edit`; a kind other than move and merge is only recorded, and so is one with a blank side. */
    method HierarchyEdit(kind: string, source: Option<Id>, target: Option<Id>)
      requires Valid()
      modifies this
      ensures Valid()
      ensures edits == old(edits) + [Edit(kind, source, target)]
      ensures kind == "move" && Given(source) && Given(target) ==>
        tasks == Reparent(old(tasks), source.value, target.value) && links == old(links) &&
        RowMoved(old(tasks), tasks, source.value, target.value)
      ensures kind == "merge" && Given(source) && Given(target) ==>
        tasks == DropTask(old(tasks), source.value) && Merged(old(links), source.value, target.value, links) &&
        RowGone(old(tasks), tasks, source.value)
      ensures (kind != "move" && kind != "merge") || !Given(source) || !Given(target) ==>
        tasks == old(tasks) && links == old(links)
    {
      edits := edits + [Edit(kind, source, target)];
      if kind == "move" && Truthy(source) && Truthy(target) {
        ReparentUnique(tasks, source.value, target.value);
        ReparentIs(tasks, source.value, target.value);
        tasks := Reparent(tasks, source.value, target.value);
      } else if kind == "merge" && Truthy(source) && Truthy(target) {
        ghost var before := links;
        var now := RelinkUnits(links, source.value, target.value);
        if source.value != target.value {
          RelinkedThenDropped(before, source.value, target.value, now);
        }
        DropLinksExact(now, source.value);
        links := DropLinks(now, source.value);
        DropTaskUnique(tasks, source.value);
        DropTaskIs(tasks, source.value);
        tasks := DropTask(tasks, source.value);
      }
    }
  }

  /** After a merge into another task, the target has every unit that either had, and none is lost. */
  lemma MergeMovesUnits(before: seq<Link>, source: Id, target: Id, after: seq<Link>, unit: string)
    requires UniqueLinks(before) && Merged(before, source, target, after) && source != target
    ensures HasLink(after, target, unit) <==> HasLink(before, target, unit) || HasLink(before, source, unit)
    ensures !HasLink(after, source, unit)
  {
    if HasLink(before, target, unit) {
      var l :| l in before && l.task == target && l.unit == unit;
      assert l in after;
    } else if HasLink(before, source, unit) {
      var l :| l in before && l.task == source && l.unit == unit;
      assert Link(source, unit, l.details) == l;
      assert CarriedOver(before, source, target, Link(target, unit, l.details));
    }
  }

  ghost predicate IsStored(tasks: seq<Task>, id: Id) {
    exists t :: t in tasks && t.id == id
  }

  /** The unit is linked to a stored task. */
  ghost predicate Held(tasks: seq<Task>, links: seq<Link>, unit: string) {
    exists t :: t in tasks && HasLink(links, t.id, unit)
  }

  ghost predicate HeldElsewhere(tasks: seq<Task>, links: seq<Link>, source: Id, unit: string) {
    exists t :: t in tasks && t.id != source && HasLink(links, t.id, unit)
  }

  /**
   `hierarchy_edit` does not look for the merge target. Every unit of a stored task stays with a stored task if
   and only if the source is not stored, or the target is another stored task, or every unit of the source is
   linked to another stored task already.
   */
  lemma MergeKeepsUnitsHeldIff(tasks: seq<Task>, before: seq<Link>, source: Id, target: Id, after: seq<Link>)
    requires UniqueLinks(before) && Merged(before, source, target, after)
    ensures (forall unit :: Held(tasks, before, unit) ==> Held(DropTask(tasks, source), after, unit)) <==>
      || !IsStored(tasks, source)
      || (source != target && IsStored(tasks, target))
      || (forall unit :: HasLink(before, source, unit) ==> HeldElsewhere(tasks, before, source, unit))
  {
    DropTaskMembers(tasks, source);
    forall unit
      ensures Held(tasks, before, unit) <==>
        HeldElsewhere(tasks, before, source, unit) || (IsStored(tasks, source) && HasLink(before, source, unit))
      ensures Held(DropTask(tasks, source), after, unit) <==>
        HeldElsewhere(tasks, before, source, unit) ||
        (source != target && IsStored(tasks, target) && HasLink(before, source, unit))
    {
      HeldBefore(tasks, before, source, unit);
      HeldAfter(tasks, before, source, target, after, unit);
    }
  }

  lemma HeldBefore(tasks: seq<Task>, links: seq<Link>, source: Id, unit: string)
    ensures Held(tasks, links, unit) <==>
      HeldElsewhere(tasks, links, source, unit) || (IsStored(tasks, source) && HasLink(links, source, unit))
  {
    if Held(tasks, links, unit) {
      var t :| t in tasks && HasLink(links, t.id, unit);
    }
  }

  lemma HeldAfter(tasks: seq<Task>, before: seq<Link>, source: Id, target: Id, after: seq<Link>, unit: string)
    requires UniqueLinks(before) && Merged(before, source, target, after)
    ensures Held(DropTask(tasks, source), after, unit) <==>
      HeldElsewhere(tasks, before, source, unit) ||
      (source != target && IsStored(tasks, target) && HasLink(before, source, unit))
  {
    DropTaskMembers(tasks, source);
    forall id | id != source
      ensures HasLink(after, id, unit) <==>
        HasLink(before, id, unit) || (id == target && source != target && HasLink(before, source, unit))
    {
      LinksAfter(before, source, target, after, id, unit);
    }
    if source != target && IsStored(tasks, target) && HasLink(before, source, unit) {
      var t :| t in tasks && t.id == target;
      assert t in DropTask(tasks, source) && HasLink(after, t.id, unit);
    }
    if HeldElsewhere(tasks, before, source, unit) {
      var t :| t in tasks && t.id != source && HasLink(before, t.id, unit);
      assert t in DropTask(tasks, source) && HasLink(after, t.id, unit);
    }
  }

  lemma LinksAfter(before: seq<Link>, source: Id, target: Id, after: seq<Link>, id: Id, unit: string)
    requires UniqueLinks(before) && Merged(before, source, target, after) && id != source
    ensures HasLink(after, id, unit) <==>
      HasLink(before, id, unit) || (id == target && source != target && HasLink(before, source, unit))
  {
    if id == target {
      MergeMovesUnits(before, source, target, after, unit);
    } else {
      if HasLink(before, id, unit) {
        var l :| l in before && l.task == id && l.unit == unit;
        assert l in after;
      }
      if HasLink(after, id, unit) {
        var l :| l in after && l.task == id && l.unit == unit;
        assert l in before;
      }
    }
  }

  /** A merge of a task into itself is not refused: it drops the task's links along with the task. */
  lemma MergeIntoItselfLosesUnits(before: seq<Link>, task: Id, after: seq<Link>, unit: string)
    requires Merged(before, task, task, after)
    ensures !HasLink(after, task, unit)
  {
  }

  // The edits, seen on parent links.

  lemma {:induction false} DropTaskMembers(tasks: seq<Task>, id: Id)
    ensures forall t :: t in DropTask(tasks, id) <==> t in tasks && t.id != id
    ensures (forall t :: t in tasks ==> t.id != id) ==> DropTask(tasks, id) == tasks
  {
    if tasks != [] {
      var front, last := tasks[..|tasks| - 1], tasks[|tasks| - 1];
      DropTaskMembers(front, id);
      assert tasks == front + [last];
    }
  }

  lemma {:induction false} DropTaskUnique(tasks: seq<Task>, id: Id)
    requires UniqueIds(tasks)
    ensures UniqueIds(DropTask(tasks, id))
  {
    if tasks != [] {
      var front, last := tasks[..|tasks| - 1], tasks[|tasks| - 1];
      DropTaskUnique(front, id);
      DropTaskMembers(front, id);
      var dropped := DropTask(front, id);
      forall i | 0 <= i < |dropped|
        ensures dropped[i].id != last.id
      {
        assert dropped[i] in front;
      }
    }
  }

  lemma {:induction false} DropTaskNodes(tasks: seq<Task>, id: Id)
    ensures NodesOf(DropTask(tasks, id)) == NodesOf(tasks) - {id}
  {
    if tasks != [] {
      var front, last := tasks[..|tasks| - 1], tasks[|tasks| - 1];
      DropTaskNodes(front, id);
      NodesOfAppend(DropTask(front, id), last);
      RemoveAfterUpdate(NodesOf(front), id, last);
    }
  }

  lemma RemoveAfterUpdate(nodes: Parents, id: Id, t: Task)
    ensures nodes[t.id := t.parent] - {id} == if t.id == id then nodes - {id} else (nodes - {id})[t.id := t.parent]
  {
  }

  lemma NodesOfAppend(tasks: seq<Task>, t: Task)
    ensures NodesOf(tasks + [t]) == NodesOf(tasks)[t.id := t.parent]
  {
    assert (tasks + [t])[..|tasks|] == tasks;
  }

  lemma {:induction false} ReparentUnique(tasks: seq<Task>, id: Id, parent: Id)
    requires UniqueIds(tasks)
    ensures |Reparent(tasks, id, parent)| == |tasks|
    ensures forall i :: 0 <= i < |tasks| ==> Reparent(tasks, id, parent)[i].id == tasks[i].id
    ensures UniqueIds(Reparent(tasks, id, parent))
  {
    if tasks != [] {
      ReparentUnique(tasks[..|tasks| - 1], id, parent);
    }
  }

  lemma {:induction false} ReparentNodes(tasks: seq<Task>, id: Id, parent: Id)
    requires UniqueIds(tasks)
    ensures NodesOf(Reparent(tasks, id, parent))
      == if id in NodesOf(tasks) then NodesOf(tasks)[id := Some(parent)] else NodesOf(tasks)
  {
    if tasks != [] {
      var front, last := tasks[..|tasks| - 1], tasks[|tasks| - 1];
      ReparentNodes(front, id, parent);
      RowOf(front, last.id);
      NodesOfAppend(Reparent(front, id, parent), if last.id == id then Task(id, Some(parent)) else last);
    }
  }

  /** Apart from `at`, every task has the same parent. */
  ghost predicate SameElsewhere(nodes: Parents, nodes': Parents, at: Id) {
    forall id :: id != at ==> Up(nodes, id) == Up(nodes', id)
  }

  lemma {:induction false} SameUntil(nodes: Parents, nodes': Parents, at: Id, id: Id, n: nat)
    requires SameElsewhere(nodes, nodes', at)
    requires forall k: nat {:trigger Climb(nodes, id, k)} :: k < n ==> Climb(nodes, id, k) != Some(at)
    ensures Climb(nodes', id, n) == Climb(nodes, id, n)
    decreases n
  {
    if n > 0 {
      assert Climb(nodes, id, 0) != Some(at);
      var up := Up(nodes, id);
      if up.Some? {
        forall k: nat | k < n - 1
          ensures Climb(nodes, up.value, k) != Some(at)
        {
          assert Climb(nodes, id, k + 1) == Climb(nodes, up.value, k);
        }
        SameUntil(nodes, nodes', at, up.value, n - 1);
      }
    }
  }

  lemma FirstMeeting(nodes: Parents, id: Id, at: Id) returns (n: nat)
    requires OnChain(nodes, id, at)
    ensures Climb(nodes, id, n) == Some(at)
    ensures forall k: nat {:trigger Climb(nodes, id, k)} :: k < n ==> Climb(nodes, id, k) != Some(at)
  {
    ghost var m: nat :| Climb(nodes, id, m) == Some(at);
    n := 0;
    while Climb(nodes, id, n) != Some(at)
      invariant n <= m
      invariant forall k: nat {:trigger Climb(nodes, id, k)} :: k < n ==> Climb(nodes, id, k) != Some(at)
      decreases m - n
    {
      n := n + 1;
    }
  }

  /** When one task's parent changes, a chain through it ends if the new chain from there does; others are as before. */
  lemma EndsAfterChange(nodes: Parents, nodes': Parents, at: Id, id: Id)
    requires SameElsewhere(nodes, nodes', at)
    ensures OnChain(nodes, id, at) ==> (Ends(nodes', id) <==> Ends(nodes', at))
    ensures !OnChain(nodes, id, at) ==> (Ends(nodes', id) <==> Ends(nodes, id))
  {
    if OnChain(nodes, id, at) {
      var n := FirstMeeting(nodes, id, at);
      SameUntil(nodes, nodes', at, id, n);
      EndsAlong(nodes', id, n);
    } else {
      forall n: nat
        ensures Climb(nodes', id, n) == Climb(nodes, id, n)
      {
        SameUntil(nodes, nodes', at, id, n);
      }
    }
  }

  lemma EndsAfterDrop(nodes: Parents, at: Id, id: Id)
    ensures Ends(nodes - {at}, id) <==> Ends(nodes, id) || OnChain(nodes, id, at)
  {
    EndsAfterChange(nodes, nodes - {at}, at, id);
    assert Climb(nodes - {at}, at, 1).None?;
  }

  lemma EndsAfterMove(nodes: Parents, at: Id, target: Id, id: Id)
    requires at in nodes && target != ""
    ensures Ends(nodes[at := Some(target)], id) <==>
      if OnChain(nodes, id, at) then Ends(nodes, target) && !OnChain(nodes, target, at) else Ends(nodes, id)
  {
    var nodes' := nodes[at := Some(target)];
    EndsAfterChange(nodes, nodes', at, id);
    EndsAfterChange(nodes, nodes', at, target);
    assert Climb(nodes', at, 1) == Some(target);
    EndsAlong(nodes', at, 1);
    if OnChain(nodes, target, at) {
      var n := FirstMeeting(nodes, target, at);
      SameUntil(nodes, nodes', at, target, n);
      ClimbFurther(nodes', at, 1, n);
      CyclesDoNotEnd(nodes', at, n + 1);
    }
  }

  // The edits, seen on the forest.

  /** A delete, or a merge into another task, hides no other task; it may bring some back out of a cycle. */
  lemma RemovalHidesNothing(tasks: seq<Task>, f: Forest, id: Id, f': Forest, t: Id)
    requires UniqueIds(tasks) && IsForest(tasks, f) && IsForest(DropTask(tasks, id), f')
    requires t in f.parent && t != id
    ensures t in f'.parent
    ensures Shown(f', t) <==> Shown(f, t) || OnChain(f.parent, t, id)
  {
    DropTaskUnique(tasks, id);
    DropTaskNodes(tasks, id);
    ShownOnceIffChainEnds(tasks, f, t);
    ShownOnceIffChainEnds(DropTask(tasks, id), f', t);
    EndsAfterDrop(f.parent, id, t);
  }

  /** The forest does not lose the target, and the target is not the moved task or below it. */
  ghost predicate SafeTarget(f: Forest, source: Id, target: Id) {
    (target !in f.parent || Shown(f, target)) && !OnChain(f.parent, target, source)
  }

  /** What a move does to each task. */
  lemma ShownAfterMove(tasks: seq<Task>, f: Forest, source: Id, target: Id, f': Forest, t: Id)
    requires UniqueIds(tasks) && target != "" && IsForest(tasks, f) && IsForest(Reparent(tasks, source, target), f')
    requires t in f.parent
    ensures t in f'.parent
    ensures Shown(f', t) <==>
      if source in f.parent && OnChain(f.parent, t, source) then SafeTarget(f, source, target) else Shown(f, t)
  {
    ReparentUnique(tasks, source, target);
    ReparentNodes(tasks, source, target);
    ShownOnceIffChainEnds(tasks, f, t);
    ShownOnceIffChainEnds(Reparent(tasks, source, target), f', t);
    if source in f.parent {
      EndsAfterMove(f.parent, source, target, t);
      if target in f.parent {
        ShownOnceIffChainEnds(tasks, f, target);
      } else {
        assert Climb(f.parent, target, 1).None?;
      }
    }
  }

  /** A move keeps every shown task shown exactly when it moves nothing that is shown, or moves it to a safe target. */
  lemma MoveHidesNothingIffSafe(tasks: seq<Task>, f: Forest, source: Id, target: Id, f': Forest)
    requires UniqueIds(tasks) && target != "" && IsForest(tasks, f) && IsForest(Reparent(tasks, source, target), f')
    ensures (forall t :: t in f.parent && Shown(f, t) ==> Shown(f', t)) <==>
      source !in f.parent || !Shown(f, source) || SafeTarget(f, source, target)
  {
    forall t | t in f.parent
      ensures Shown(f', t) <==>
        if source in f.parent && OnChain(f.parent, t, source) then SafeTarget(f, source, target) else Shown(f, t)
    {
      ShownAfterMove(tasks, f, source, target, f', t);
    }
    assert Climb(f.parent, source, 0) == Some(source);
    if source in f.parent && !Shown(f, source) {
      forall t | t in f.parent && OnChain(f.parent, t, source)
        ensures !Shown(f, t)
      {
        var n: nat :| Climb(f.parent, t, n) == Some(source);
        EndsAlong(f.parent, t, n);
        ShownOnceIffChainEnds(tasks, f, t);
        ShownOnceIffChainEnds(tasks, f, source);
      }
    }
  }

  function ACycleBesideA(): (tasks: seq<Task>)
    ensures UniqueIds(tasks)
    ensures NodesOf(tasks) == map["a" := None, "b" := Some("c"), "c" := Some("b")]
  {
    var a, b, c := Task("a", None), Task("b", Some("c")), Task("c", Some("b"));
    NodesOfAppend([], a);
    NodesOfAppend([a], b);
    NodesOfAppend([a, b], c);
    assert [] + [a] == [a] && [a] + [b] == [a, b] && [a, b] + [c] == [a, b, c];
    [a, b, c]
  }

  lemma BAndCGoRound(nodes: Parents)
    requires nodes == map["a" := None, "b" := Some("c"), "c" := Some("b")]
    ensures Ends(nodes, "a") && !Ends(nodes, "b") && !OnChain(nodes, "b", "a")
  {
    assert Climb(nodes, "a", 1).None?;
    assert Climb(nodes, "c", 1) == Climb(nodes, "b", 0) == Some("b");
    CyclesDoNotEnd(nodes, "b", 2);
    forall n: nat
      ensures Climb(nodes, "b", n) != Some("a")
    {
      if Climb(nodes, "b", n) == Some("a") {
        EndsAlong(nodes, "b", n);
        assert false;
      }
    }
  }

  /**
   A target outside the moved task's subtree is not enough: "a" is shown, "b" is not below it, and
   moving "a" under "b", which sits on a cycle with "c", hides "a".
   */
  lemma MoveUnderACycleHides(f: Forest, f': Forest)
    requires IsForest(ACycleBesideA(), f) && IsForest(Reparent(ACycleBesideA(), "a", "b"), f')
    ensures "a" in f.parent && Shown(f, "a") && !OnChain(f.parent, "b", "a") && !Shown(f', "a")
  {
    BAndCGoRound(f.parent);
    ShownOnceIffChainEnds(ACycleBesideA(), f, "a");
    ShownOnceIffChainEnds(ACycleBesideA(), f, "b");
    ShownAfterMove(ACycleBesideA(), f, "a", "b", f', "a");
    assert Climb(f.parent, "a", 0) == Some("a");
  }
}
