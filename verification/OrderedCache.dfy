/** The bounded ordered dictionaries behind the caches: insertion order, refresh on put, eviction of the oldest. */
module OrderedCache {
  import opened Sequences

  datatype Cache<!K, V> = Cache(order: seq<K>, entries: map<K, V>)

  ghost predicate Valid<K(!new), V>(c: Cache<K, V>) {
    NoDup(c.order) && forall k :: k in c.order <==> k in c.entries
  }

  function Without<T(==)>(s: seq<T>, x: T): (r: seq<T>)
    ensures forall i :: 0 <= i < |r| ==> r[i] in s && r[i] != x
    ensures NoDup(s) ==> NoDup(r)
    ensures |r| <= |s|
  {
    if s == [] then []
    else
      var front, last := s[..|s| - 1], s[|s| - 1];
      assert s == front + [last];
      if last == x then Without(front, x) else Without(front, x) + [last]
  }

  lemma {:induction false} WithoutMembers<T(!new)>(s: seq<T>, x: T, y: T)
    ensures y in Without(s, x) <==> y in s && y != x
  {
    if s != [] {
      WithoutMembers(s[..|s| - 1], x, y);
      assert s == s[..|s| - 1] + [s[|s| - 1]];
    }
  }

  /** Dropping a value leaves the others in their order. */
  lemma {:induction false} WithoutInOrder<T(!new)>(s: seq<T>, x: T)
    requires NoDup(s)
    ensures InOrder(Without(s, x), s)
  {
    if s == [] {
      InOrderNone(s);
    } else {
      var front, last := s[..|s| - 1], s[|s| - 1];
      WithoutInOrder(front, x);
      assert s == front + [last];
      InOrderMore(Without(front, x), front, last);
    }
  }

  /** `del cache[key]`. */
  function Remove<K, V>(c: Cache<K, V>, k: K): Cache<K, V> {
    Cache(Without(c.order, k), c.entries - {k})
  }

  /** `cache[key] = value; cache.move_to_end(key)`. */
  function Touch<K, V>(c: Cache<K, V>, k: K, v: V): Cache<K, V> {
    Cache(Without(c.order, k) + [k], c.entries[k := v])
  }

  /** `while len(cache) > max: cache.popitem(last=False)`. */
  function Trim<K, V>(c: Cache<K, V>, max: nat): Cache<K, V>
    decreases |c.order|
  {
    if |c.order| <= max then c else Trim(Cache(c.order[1..], c.entries - {c.order[0]}), max)
  }

  function Put<K, V>(c: Cache<K, V>, k: K, v: V, max: nat): Cache<K, V> {
    Trim(Touch(c, k, v), max)
  }

  lemma RemoveValid<K(!new), V>(c: Cache<K, V>, k: K)
    requires Valid(c)
    ensures Valid(Remove(c, k))
  {
    forall x
      ensures x in Without(c.order, k) <==> x in c.order && x != k
    {
      WithoutMembers(c.order, k, x);
    }
  }

  lemma TouchValid<K(!new), V>(c: Cache<K, V>, k: K, v: V)
    requires Valid(c)
    ensures Valid(Touch(c, k, v))
  {
    forall x
      ensures x in Without(c.order, k) <==> x in c.order && x != k
    {
      WithoutMembers(c.order, k, x);
    }
  }

  /** `kept` is the end of `order`: all of it, or its last `max` elements. */
  ghost predicate Newest<T>(kept: seq<T>, order: seq<T>, max: nat) {
    exists n :: 0 <= n <= |order| && kept == order[n..] && |kept| <= max && (n > 0 ==> |kept| == max)
  }

  lemma PopValid<K(!new), V>(c: Cache<K, V>)
    requires Valid(c) && c.order != []
    ensures Valid(Cache(c.order[1..], c.entries - {c.order[0]}))
  {
    var d := Cache(c.order[1..], c.entries - {c.order[0]});
    forall k
      ensures k in d.order <==> k in d.entries
    {
      assert c.order == [c.order[0]] + d.order;
    }
  }

  /** Eviction keeps the newest keys and their values. */
  lemma {:induction false} TrimKeepsNewest<K(!new), V>(c: Cache<K, V>, max: nat)
    requires Valid(c)
    ensures var t := Trim(c, max);
      && Valid(t)
      && Newest(t.order, c.order, max)
      && (forall k :: k in t.entries ==> k in c.entries && t.entries[k] == c.entries[k])
    decreases |c.order|
  {
    if |c.order| > max {
      PopValid(c);
      var d := Cache(c.order[1..], c.entries - {c.order[0]});
      TrimKeepsNewest(d, max);
      var n :| 0 <= n <= |d.order| && Trim(d, max).order == d.order[n..] && (n > 0 ==> |d.order[n..]| == max);
      assert d.order[n..] == c.order[n + 1..];
    } else {
      assert c.order == c.order[0..];
    }
  }

  /** A put stores its pair as the newest, bounds the size, and leaves every other surviving entry as it was. */
  lemma PutStores<K(!new), V>(c: Cache<K, V>, k: K, v: V, max: nat)
    requires Valid(c) && max >= 1
    ensures var p := Put(c, k, v, max);
      && Valid(p) && |p.order| <= max
      && k in p.entries && p.entries[k] == v && p.order[|p.order| - 1] == k
      && (forall x :: x in p.entries && x != k ==> x in c.entries && p.entries[x] == c.entries[x])
  {
    TouchValid(c, k, v);
    TrimKeepsNewest(Touch(c, k, v), max);
    var p := Put(c, k, v, max);
    assert p.order[|p.order| - 1] == k;
    assert k in p.order;
  }

  /** A put drops only the oldest: what is left is the end of the other keys, in their order, and the key put. */
  lemma PutEffect<K(!new), V>(c: Cache<K, V>, k: K, v: V, max: nat) returns (others: seq<K>)
    requires Valid(c) && max >= 1
    ensures InOrder(others, c.order) && forall x :: x in others <==> x in c.order && x != k
    ensures Newest(Put(c, k, v, max).order, others + [k], max)
  {
    TouchValid(c, k, v);
    TrimKeepsNewest(Touch(c, k, v), max);
    WithoutInOrder(c.order, k);
    others := Without(c.order, k);
    forall x
      ensures x in others <==> x in c.order && x != k
    {
      WithoutMembers(c.order, k, x);
    }
  }

  /** An `OrderedDict` shared by the threads of one process; every method is one section under its lock. */
  class Dict<K(==,!new), V> {
    var order: seq<K>
    var entries: map<K, V>

    ghost function Contents(): Cache<K, V>
      reads this
    {
      Cache(order, entries)
    }

    constructor ()
      ensures Contents() == Cache([], map[])
    {
      order, entries := [], map[];
    }

    method Get(k: K) returns (v: Option<V>)
      ensures v == if k in Contents().entries then Some(Contents().entries[k]) else None
    {
      v := if k in entries then Some(entries[k]) else None;
    }

    method Discard(k: K)
      modifies this
      ensures Contents() == Remove(old(Contents()), k)
    {
      order, entries := Without(order, k), entries - {k};
    }

    /** Store and refresh `k`, then evict the oldest keys while there are more than `max`. */
    method PutNewest(k: K, v: V, max: nat)
      modifies this
      ensures Contents() == Put(old(Contents()), k, v, max)
    {
      order, entries := Without(order, k) + [k], entries[k := v];
      ghost var touched := Contents();
      while |order| > max
        invariant Trim(Contents(), max) == Trim(touched, max)
        decreases |order|
      {
        order, entries := order[1..], entries - {order[0]};
      }
    }
  }
}
