/** Python's `sorted`: a stable insertion sort, and why its result depends only on what is sorted. */
module Sorting {
  import opened Sequences

  /** `le` compares any two values, and transitively. */
  ghost predicate TotalPreorder<T(!new)>(le: (T, T) -> bool) {
    && (forall a, b :: le(a, b) || le(b, a))
    && (forall a, b, c :: le(a, b) && le(b, c) ==> le(a, c))
  }

  ghost predicate Sorted<T>(s: seq<T>, le: (T, T) -> bool) {
    forall i, j :: 0 <= i < j < |s| ==> le(s[i], s[j])
  }

  /** Equal keys keep their order: `x` goes in front of the first element it does not exceed. */
  function Insert<T>(x: T, s: seq<T>, le: (T, T) -> bool): seq<T> {
    if s == [] || le(x, s[0]) then [x] + s else [s[0]] + Insert(x, s[1..], le)
  }

  function Sort<T>(s: seq<T>, le: (T, T) -> bool): seq<T> {
    if s == [] then [] else Insert(s[0], Sort(s[1..], le), le)
  }

  lemma {:induction false} InsertKeeps<T>(x: T, s: seq<T>, le: (T, T) -> bool)
    ensures multiset(Insert(x, s, le)) == multiset{x} + multiset(s)
  {
    if s != [] && !le(x, s[0]) {
      InsertKeeps(x, s[1..], le);
      assert s == [s[0]] + s[1..];
    }
  }

  lemma {:induction false} SortKeeps<T>(s: seq<T>, le: (T, T) -> bool)
    ensures multiset(Sort(s, le)) == multiset(s)
    ensures |Sort(s, le)| == |s|
    ensures forall x :: x in Sort(s, le) <==> x in s
  {
    if s != [] {
      SortKeeps(s[1..], le);
      InsertKeeps(s[0], Sort(s[1..], le), le);
      assert s == [s[0]] + s[1..];
    }
    SameMembers(Sort(s, le), s);
  }

  lemma SameMembers<T>(a: seq<T>, b: seq<T>)
    requires multiset(a) == multiset(b)
    ensures |a| == |b|
    ensures forall x :: x in a <==> x in b
  {
    assert |multiset(a)| == |a| && |multiset(b)| == |b|;
    forall x
      ensures x in a <==> x in b
    {
      assert x in a <==> x in multiset(a);
      assert x in b <==> x in multiset(b);
    }
  }

  lemma {:induction false} InsertSorted<T(!new)>(x: T, s: seq<T>, le: (T, T) -> bool)
    requires TotalPreorder(le) && Sorted(s, le)
    ensures Sorted(Insert(x, s, le), le)
  {
    if s != [] && !le(x, s[0]) {
      InsertSorted(x, s[1..], le);
      InsertKeeps(x, s[1..], le);
      var rest := Insert(x, s[1..], le);
      forall j | 0 <= j < |rest|
        ensures le(s[0], rest[j])
      {
        assert rest[j] in multiset(rest);
        assert rest[j] == x || rest[j] in s[1..];
      }
    }
  }

  lemma {:induction false} SortSorted<T(!new)>(s: seq<T>, le: (T, T) -> bool)
    requires TotalPreorder(le)
    ensures Sorted(Sort(s, le), le)
  {
    if s != [] {
      SortSorted(s[1..], le);
      InsertSorted(s[0], Sort(s[1..], le), le);
    }
  }

  /**
   `perm` lists every position of `s` once, and `r` holds what stands there: in order, and what ties in the
   order of `s`.
   */
  ghost predicate StableOrder<T>(r: seq<T>, s: seq<T>, le: (T, T) -> bool, perm: seq<int>) {
    && |r| == |s| == |perm| && NoDup(perm)
    && (forall k :: 0 <= k < |s| ==> k in perm)
    && (forall m :: 0 <= m < |r| ==> 0 <= perm[m] < |s| && r[m] == s[perm[m]])
    && (forall l, m :: 0 <= l < m < |r| ==> le(r[l], r[m]) && (le(r[m], r[l]) ==> perm[l] < perm[m]))
  }

  lemma {:induction false} InsertPlace<T(!new)>(x: T, s: seq<T>, le: (T, T) -> bool) returns (p: nat)
    ensures p <= |s| && Insert(x, s, le) == s[..p] + [x] + s[p..]
    ensures forall i :: 0 <= i < p ==> !le(x, s[i])
    ensures p < |s| ==> le(x, s[p])
  {
    if s == [] || le(x, s[0]) {
      p := 0;
    } else {
      var q := InsertPlace(x, s[1..], le);
      p := q + 1;
      assert s[..p] == [s[0]] + s[1..][..q] && s[p..] == s[1..][q..];
    }
  }

  function Shifted(perm: seq<int>): (r: seq<int>)
    ensures |r| == |perm| && forall i :: 0 <= i < |r| ==> r[i] == perm[i] + 1
  {
    seq(|perm|, i requires 0 <= i < |perm| => perm[i] + 1)
  }

  lemma ShiftedAt(perm: seq<int>, p: nat, m: nat)
    requires p <= |perm| && m <= |perm|
    ensures var more := Shifted(perm[..p]) + [0] + Shifted(perm[p..]);
      |more| == |perm| + 1 && more[m] == if m < p then perm[m] + 1 else if m == p then 0 else perm[m - 1] + 1
  {
  }

  ghost predicate ShiftedBy(perm: seq<int>, p: nat, more: seq<int>) {
    p <= |perm| && |more| == |perm| + 1
    && forall m {:trigger more[m]} :: 0 <= m < |more| ==> more[m] == if m < p then perm[m] + 1 else if m == p then 0 else perm[m - 1] + 1
  }

  lemma ShiftedIs(perm: seq<int>, p: nat)
    requires p <= |perm|
    ensures ShiftedBy(perm, p, Shifted(perm[..p]) + [0] + Shifted(perm[p..]))
  {
    forall m | 0 <= m <= |perm|
      ensures var more := Shifted(perm[..p]) + [0] + Shifted(perm[p..]);
        more[m] == if m < p then perm[m] + 1 else if m == p then 0 else perm[m - 1] + 1
    {
      ShiftedAt(perm, p, m);
    }
  }

  lemma PlacesDiffer(perm: seq<int>, p: nat, more: seq<int>)
    requires ShiftedBy(perm, p, more) && NoDup(perm) && forall m :: 0 <= m < |perm| ==> 0 <= perm[m]
    ensures NoDup(more) && 0 in more && forall k :: k in perm ==> k + 1 in more
  {
    assert more[p] == 0;
    forall a, b | 0 <= a < b < |more|
      ensures more[a] != more[b]
    {
      if a != p && b != p {
        var i, j := if a < p then a else a - 1, if b < p then b else b - 1;
        assert 0 <= i < j < |perm|;
      }
    }
    forall k | k in perm
      ensures k + 1 in more
    {
      var m :| 0 <= m < |perm| && perm[m] == k;
      assert more[if m < p then m else m + 1] == k + 1;
    }
  }

  lemma RankOne<T(!new)>(x: T, r: seq<T>, rest: seq<T>, le: (T, T) -> bool, perm: seq<int>, p: nat)
    requires TotalPreorder(le) && StableOrder(r, rest, le, perm) && p <= |r|
    requires forall i :: 0 <= i < p ==> !le(x, r[i])
    requires p < |r| ==> le(x, r[p])
    ensures StableOrder(r[..p] + [x] + r[p..], [x] + rest, le, Shifted(perm[..p]) + [0] + Shifted(perm[p..]))
  {
    var more, s, t := Shifted(perm[..p]) + [0] + Shifted(perm[p..]), [x] + rest, r[..p] + [x] + r[p..];
    ShiftedIs(perm, p);
    PlacesDiffer(perm, p, more);
    RankPlaces(x, r, rest, perm, p);
    forall k | 0 <= k < |s|
      ensures k in more
    {
      if k > 0 {
        assert k - 1 in perm;
        assert (k - 1) + 1 in more;
      }
    }
    forall l, m | 0 <= l < m < |t|
      ensures le(t[l], t[m]) && (le(t[m], t[l]) ==> more[l] < more[m])
    {
      RankPair(x, r, le, perm, p, l, m);
    }
  }

  lemma RankPlaces<T(!new)>(x: T, r: seq<T>, rest: seq<T>, perm: seq<int>, p: nat)
    requires |r| == |rest| == |perm| && p <= |r|
    requires forall m :: 0 <= m < |r| ==> 0 <= perm[m] < |rest| && r[m] == rest[perm[m]]
    ensures var more, s, t := Shifted(perm[..p]) + [0] + Shifted(perm[p..]), [x] + rest, r[..p] + [x] + r[p..];
      |more| == |t| == |s| && forall m :: 0 <= m < |t| ==> 0 <= more[m] < |s| && t[m] == s[more[m]]
  {
    forall m | 0 <= m <= |r|
      ensures var more, s, t := Shifted(perm[..p]) + [0] + Shifted(perm[p..]), [x] + rest, r[..p] + [x] + r[p..];
        0 <= more[m] < |s| && t[m] == s[more[m]]
    {
      PlaceOf(x, r, perm, p, m);
    }
  }

  /** Two of the elements that were there: one, both or none of them one place further. */
  lemma RankPair<T(!new)>(x: T, r: seq<T>, le: (T, T) -> bool, perm: seq<int>, p: nat, l: nat, m: nat)
    requires TotalPreorder(le) && |perm| == |r| && p <= |r|
    requires forall i, j :: 0 <= i < j < |r| ==> le(r[i], r[j]) && (le(r[j], r[i]) ==> perm[i] < perm[j])
    requires forall i :: 0 <= i < |r| ==> 0 <= perm[i]
    requires forall i :: 0 <= i < p ==> !le(x, r[i])
    requires p < |r| ==> le(x, r[p])
    requires l < m <= |r|
    ensures var t, more := r[..p] + [x] + r[p..], Shifted(perm[..p]) + [0] + Shifted(perm[p..]);
      le(t[l], t[m]) && (le(t[m], t[l]) ==> more[l] < more[m])
  {
    PlaceOf(x, r, perm, p, l);
    PlaceOf(x, r, perm, p, m);
    if l == p {
      LeFromFirst(x, r, le, p, m - 1);
    } else if m == p {
      assert le(x, r[l]) || le(r[l], x);
    }
  }

  /** What stands where once `x` is put in place `p`. */
  lemma PlaceOf<T(!new)>(x: T, r: seq<T>, perm: seq<int>, p: nat, l: nat)
    requires |perm| == |r| && p <= |r| && l <= |r|
    ensures var t, more := r[..p] + [x] + r[p..], Shifted(perm[..p]) + [0] + Shifted(perm[p..]);
      && (l == p ==> t[l] == x && more[l] == 0)
      && (l < p ==> t[l] == r[l] && more[l] == perm[l] + 1)
      && (l > p ==> t[l] == r[l - 1] && more[l] == perm[l - 1] + 1)
  {
  }

  lemma LeFromFirst<T(!new)>(x: T, r: seq<T>, le: (T, T) -> bool, p: nat, j: nat)
    requires TotalPreorder(le) && p <= j < |r| && le(x, r[p])
    requires forall i, k :: 0 <= i < k < |r| ==> le(r[i], r[k])
    ensures le(x, r[j])
  {
    assert p < j ==> le(r[p], r[j]);
  }

  /** `Sort` is stable. */
  lemma {:induction false} SortRanks<T(!new)>(s: seq<T>, le: (T, T) -> bool) returns (perm: seq<int>)
    requires TotalPreorder(le)
    ensures StableOrder(Sort(s, le), s, le, perm)
  {
    if s == [] {
      perm := [];
    } else {
      var rest := SortRanks(s[1..], le);
      var p := InsertPlace(s[0], Sort(s[1..], le), le);
      RankOne(s[0], Sort(s[1..], le), s[1..], le, rest, p);
      assert s == [s[0]] + s[1..];
      perm := Shifted(rest[..p]) + [0] + Shifted(rest[p..]);
    }
  }

  ghost predicate NoTies<T>(s: seq<T>, le: (T, T) -> bool) {
    forall x, y :: x in s && y in s && le(x, y) && le(y, x) ==> x == y
  }

  lemma HeadsAgree<T(!new)>(a: seq<T>, b: seq<T>, le: (T, T) -> bool)
    requires Sorted(a, le) && Sorted(b, le) && NoTies(a, le) && a != [] && b != []
    requires a[0] in b && b[0] in a
    ensures a[0] == b[0]
  {
    var i :| 0 <= i < |b| && b[i] == a[0];
    var j :| 0 <= j < |a| && a[j] == b[0];
    assert i == 0 || le(b[0], b[i]);
    assert j == 0 || le(a[0], a[j]);
  }

  lemma TailMultiset<T>(a: seq<T>)
    requires a != []
    ensures multiset(a[1..]) == multiset(a) - multiset{a[0]}
  {
    assert a == [a[0]] + a[1..];
  }

  /** Under an order without ties there is one sorted arrangement of a multiset. */
  lemma {:induction false} SortedIsUnique<T(!new)>(a: seq<T>, b: seq<T>, le: (T, T) -> bool)
    requires Sorted(a, le) && Sorted(b, le) && multiset(a) == multiset(b) && NoTies(a, le)
    ensures a == b
    decreases |a|
  {
    SameMembers(a, b);
    if a != [] {
      HeadsAgree(a, b, le);
      TailMultiset(a);
      TailMultiset(b);
      assert NoTies(a[1..], le);
      SortedIsUnique(a[1..], b[1..], le);
      assert a == [a[0]] + a[1..] && b == [b[0]] + b[1..];
    }
  }

  lemma NoDupMultiset<T>(a: seq<T>, b: seq<T>)
    requires NoDup(a) && NoDup(b) && forall x :: x in a <==> x in b
    ensures multiset(a) == multiset(b)
  {
    forall x
      ensures multiset(a)[x] == multiset(b)[x]
    {
      CountOfNoDup(a, x);
      CountOfNoDup(b, x);
    }
  }

  lemma {:induction false} CountOfNoDup<T>(s: seq<T>, x: T)
    requires NoDup(s)
    ensures multiset(s)[x] == if x in s then 1 else 0
  {
    if s != [] {
      CountOfNoDup(s[1..], x);
      assert s == [s[0]] + s[1..];
      assert s[0] !in s[1..];
    }
  }

  lemma {:induction false} NoDupByCount<T>(s: seq<T>)
    requires forall x :: multiset(s)[x] <= 1
    ensures NoDup(s)
  {
    forall i, j | 0 <= i < j < |s|
      ensures s[i] != s[j]
    {
      assert s == s[..j] + [s[j]] + s[j + 1..];
      assert s[i] in s[..j];
      assert multiset(s[..j])[s[i]] >= 1;
      assert multiset(s)[s[i]] >= 1 + multiset([s[j]])[s[i]];
    }
  }

  lemma SortNoDup<T(!new)>(s: seq<T>, le: (T, T) -> bool)
    requires NoDup(s)
    ensures NoDup(Sort(s, le))
  {
    SortKeeps(s, le);
    forall x
      ensures multiset(Sort(s, le))[x] <= 1
    {
      CountOfNoDup(s, x);
    }
    NoDupByCount(Sort(s, le));
  }
}
