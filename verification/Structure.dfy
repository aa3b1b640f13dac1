/** `_check_structure`: the bounds walk over a candidate's JSON, with an explicit stack. */
module Structure {
  import opened Sequences

  datatype Json = Scalar | Dict(values: seq<Json>) | List(items: seq<Json>)

  datatype Refusal = TooManyValues | TooDeep | ListTooLong

  const MAX_JSON_VALUES: nat := 20000
  const MAX_DEPTH: nat := 32
  const MAX_LIST_ITEMS: nat := 128

  function Children(v: Json): (cs: seq<Json>)
    ensures forall c :: c in cs ==> c < v
  {
    match v
    case Scalar => []
    case Dict(values) => values
    case List(items) => items
  }

  // The specification, by recursion on the value.

  /** How many JSON values, nested ones included. */
  function Count(v: Json): (n: nat)
    ensures n >= 1
    decreases v
  {
    match v
    case Scalar => 1
    case Dict(values) => 1 + CountAll(values)
    case List(items) => 1 + CountAll(items)
  }

  function CountAll(vs: seq<Json>): nat
    decreases vs
  {
    if vs == [] then 0 else CountAll(vs[..|vs| - 1]) + Count(vs[|vs| - 1])
  }

  /** Sitting at level `depth`, it nests no deeper than the limit. */
  predicate Shallow(v: Json, depth: nat) {
    depth <= MAX_DEPTH && forall c :: c in Children(v) ==> Shallow(c, depth + 1)
  }

  predicate ShortLists(v: Json) {
    (v.List? ==> |v.items| <= MAX_LIST_ITEMS) && forall c :: c in Children(v) ==> ShortLists(c)
  }

  predicate Acceptable(v: Json) {
    Count(v) <= MAX_JSON_VALUES && Shallow(v, 1) && ShortLists(v)
  }

  // The stack.

  datatype Item = Item(value: Json, depth: nat)

  function Push(vs: seq<Json>, depth: nat): (items: seq<Item>)
    ensures |items| == |vs|
    ensures forall i :: 0 <= i < |vs| ==> items[i] == Item(vs[i], depth)
  {
    seq(|vs|, i requires 0 <= i < |vs| => Item(vs[i], depth))
  }

  function CountStack(stack: seq<Item>): nat {
    if stack == [] then 0 else CountStack(stack[..|stack| - 1]) + Count(stack[|stack| - 1].value)
  }

  ghost predicate AllShallow(stack: seq<Item>) {
    forall i :: 0 <= i < |stack| ==> Shallow(stack[i].value, stack[i].depth)
  }

  ghost predicate AllShort(stack: seq<Item>) {
    forall i :: 0 <= i < |stack| ==> ShortLists(stack[i].value)
  }

  lemma {:induction false} CountStackAppend(a: seq<Item>, b: seq<Item>)
    ensures CountStack(a + b) == CountStack(a) + CountStack(b)
  {
    if b == [] {
      assert a + b == a;
    } else {
      CountStackAppend(a, b[..|b| - 1]);
      assert (a + b)[..|a + b| - 1] == a + b[..|b| - 1];
    }
  }

  lemma {:induction false} CountPushed(vs: seq<Json>, depth: nat)
    ensures CountStack(Push(vs, depth)) == CountAll(vs)
  {
    if vs != [] {
      CountPushed(vs[..|vs| - 1], depth);
      assert Push(vs, depth)[..|vs| - 1] == Push(vs[..|vs| - 1], depth);
    }
  }

  function Without(stack: seq<Item>, k: nat): seq<Item>
    requires k < |stack|
  {
    stack[..k] + stack[k + 1..]
  }

  lemma CountOne(item: Item)
    ensures CountStack([item]) == Count(item.value)
  {
    var s: seq<Item> := [item];
    assert s[..0] == [];
  }

  lemma CountThree(before: seq<Item>, x: Item, after: seq<Item>)
    ensures CountStack(before + ([x] + after)) == Count(x.value) + CountStack(before + after)
  {
    CountStackAppend(before, [x] + after);
    CountStackAppend([x], after);
    CountStackAppend(before, after);
    CountOne(x);
  }

  lemma CountChildren(v: Json)
    ensures Count(v) == 1 + CountAll(Children(v))
  {
  }

  lemma CountNext(rest: seq<Item>, v: Json, depth: nat)
    ensures CountStack(rest + Push(Children(v), depth)) == CountStack(rest) + Count(v) - 1
  {
    CountStackAppend(rest, Push(Children(v), depth));
    CountPushed(Children(v), depth);
    CountChildren(v);
  }

  /** Taking `x` out and pushing its children takes exactly one value off the count. */
  lemma TakeOutCounts(before: seq<Item>, x: Item, after: seq<Item>)
    ensures CountStack(before + ([x] + after))
      == 1 + CountStack((before + after) + Push(Children(x.value), x.depth + 1))
  {
    CountThree(before, x, after);
    CountNext(before + after, x.value, x.depth + 1);
  }

  /** One pop, cut into the items before, the item taken, the items after, and the stack that follows. */
  ghost predicate Cut(stack: seq<Item>, before: seq<Item>, x: Item, after: seq<Item>, next: seq<Item>) {
    stack == before + ([x] + after) && next == (before + after) + Push(Children(x.value), x.depth + 1)
  }

  lemma CutCounts(stack: seq<Item>, before: seq<Item>, x: Item, after: seq<Item>, next: seq<Item>)
    requires Cut(stack, before, x, after, next)
    ensures CountStack(stack) == 1 + CountStack(next)
  {
    TakeOutCounts(before, x, after);
  }

  lemma PopIsACut(stack: seq<Item>, k: nat) returns (before: seq<Item>, after: seq<Item>)
    requires k < |stack|
    ensures Cut(stack, before, stack[k], after, Next(stack, k))
  {
    before, after := stack[..k], stack[k + 1..];
    assert stack == before + ([stack[k]] + after);
  }

  lemma PopCounts(stack: seq<Item>, k: nat)
    requires k < |stack|
    ensures CountStack(stack) == 1 + CountStack(Next(stack, k))
  {
    var before, after := PopIsACut(stack, k);
    CutCounts(stack, before, stack[k], after, Next(stack, k));
  }

  /** The stack after taking item `k` and pushing its children. */
  function Next(stack: seq<Item>, k: nat): seq<Item>
    requires k < |stack|
  {
    Without(stack, k) + Push(Children(stack[k].value), stack[k].depth + 1)
  }

  /** What the next stack holds: the other items, and the children one level down. */
  lemma NextMembers(stack: seq<Item>, k: nat, item: Item)
    requires k < |stack|
    ensures item in Next(stack, k) <==>
      (exists i :: 0 <= i < |stack| && i != k && stack[i] == item) || (item.depth == stack[k].depth + 1 && item.value in Children(stack[k].value))
  {
    var rest, pushed := Without(stack, k), Push(Children(stack[k].value), stack[k].depth + 1);
    if i :| 0 <= i < |stack| && i != k && stack[i] == item {
      assert rest[if i < k then i else i - 1] == item;
      assert item in rest;
    }
    if item.depth == stack[k].depth + 1 && item.value in Children(stack[k].value) {
      var i :| 0 <= i < |Children(stack[k].value)| && Children(stack[k].value)[i] == item.value;
      assert pushed[i] == item;
      assert item in pushed;
    }
    if item in rest {
      var j :| 0 <= j < |rest| && rest[j] == item;
      assert stack[if j < k then j else j + 1] == item;
    }
  }

  /** The whole stack is shallow exactly when the popped item's level is and the next stack is. */
  lemma PopShallow(stack: seq<Item>, k: nat)
    requires k < |stack|
    ensures AllShallow(stack) <==> stack[k].depth <= MAX_DEPTH && AllShallow(Next(stack, k))
  {
    var Item(v, depth) := stack[k];
    if AllShallow(stack) {
      assert Shallow(v, depth);
      forall i | 0 <= i < |Next(stack, k)|
        ensures Shallow(Next(stack, k)[i].value, Next(stack, k)[i].depth)
      {
        NextMembers(stack, k, Next(stack, k)[i]);
      }
    }
    if depth <= MAX_DEPTH && AllShallow(Next(stack, k)) {
      forall c | c in Children(v)
        ensures Shallow(c, depth + 1)
      {
        NextMembers(stack, k, Item(c, depth + 1));
      }
      forall i | 0 <= i < |stack|
        ensures Shallow(stack[i].value, stack[i].depth)
      {
        NextMembers(stack, k, stack[i]);
      }
    }
  }

  lemma PopShort(stack: seq<Item>, k: nat)
    requires k < |stack|
    ensures AllShort(stack) <==>
      (stack[k].value.List? ==> |stack[k].value.items| <= MAX_LIST_ITEMS) && AllShort(Next(stack, k))
  {
    var Item(v, depth) := stack[k];
    if AllShort(stack) {
      assert ShortLists(v);
      forall i | 0 <= i < |Next(stack, k)|
        ensures ShortLists(Next(stack, k)[i].value)
      {
        NextMembers(stack, k, Next(stack, k)[i]);
      }
    }
    if (v.List? ==> |v.items| <= MAX_LIST_ITEMS) && AllShort(Next(stack, k)) {
      forall c | c in Children(v)
        ensures ShortLists(c)
      {
        NextMembers(stack, k, Item(c, depth + 1));
      }
      forall i | 0 <= i < |stack|
        ensures ShortLists(stack[i].value)
      {
        NextMembers(stack, k, stack[i]);
      }
    }
  }

  /**
   The walk, taking items off the stack in whatever order `pick` says (an index past the end means
   the last item). It accepts exactly the acceptable candidates, and a refusal names a bound that is
   really exceeded; it pops at most one item more than the limit on any input.
   */
  method Walk(candidate: Json, pick: seq<Item> -> nat) returns (refusal: Option<Refusal>, pops: nat)
    ensures refusal.None? <==> Acceptable(candidate)
    ensures refusal == Some(TooManyValues) ==> Count(candidate) > MAX_JSON_VALUES
    ensures refusal == Some(TooDeep) ==> !Shallow(candidate, 1)
    ensures refusal == Some(ListTooLong) ==> !ShortLists(candidate)
    ensures pops <= MAX_JSON_VALUES + 1
    ensures refusal.None? ==> pops == Count(candidate)
  {
    var stack: seq<Item> := [Item(candidate, 1)];
    pops := 0;
    CountOne(Item(candidate, 1));
    while stack != []
      invariant pops + CountStack(stack) == Count(candidate) && pops <= MAX_JSON_VALUES
      invariant AllShallow(stack) <==> Shallow(candidate, 1)
      invariant AllShort(stack) <==> ShortLists(candidate)
      decreases CountStack(stack)
    {
      var k := if pick(stack) < |stack| then pick(stack) else |stack| - 1;
      PopCounts(stack, k);
      PopShallow(stack, k);
      PopShort(stack, k);
      var Item(value, depth) := stack[k];
      pops := pops + 1;
      if pops > MAX_JSON_VALUES {
        return Some(TooManyValues), pops;
      }
      if depth > MAX_DEPTH {
        return Some(TooDeep), pops;
      }
      if value.List? && |value.items| > MAX_LIST_ITEMS {
        return Some(ListTooLong), pops;
      }
      stack := Next(stack, k);
    }
    refusal := None;
  }

  /** `_check_structure`: `stack.pop()` takes the last item. */
  method CheckStructure(candidate: Json) returns (refusal: Option<Refusal>)
    ensures refusal.None? <==> Acceptable(candidate)
    ensures refusal == Some(TooManyValues) ==> Count(candidate) > MAX_JSON_VALUES
    ensures refusal == Some(TooDeep) ==> !Shallow(candidate, 1)
    ensures refusal == Some(ListTooLong) ==> !ShortLists(candidate)
  {
    var pops;
    refusal, pops := Walk(candidate, (stack: seq<Item>) => |stack|);
  }
}
