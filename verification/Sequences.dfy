/** Facts about sequences that several components need. */
module Sequences {

  datatype Option<+T> = None | Some(value: T)

  datatype Result<+T, +E> = Ok(value: T) | Err(error: E)

  /** No two positions hold the same value. */
  ghost predicate NoDup<T>(s: seq<T>) {
    forall i, j :: 0 <= i < j < |s| ==> s[i] != s[j]
  }

  /** Keeps the first occurrence of every value, in order (Python's `dict.fromkeys`). */
  function Dedup<T(==,!new)>(s: seq<T>): (r: seq<T>)
    ensures forall x :: x in r <==> x in s
    ensures NoDup(r)
  {
    if s == [] then []
    else
      var front := Dedup(s[..|s| - 1]);
      assert s == s[..|s| - 1] + [s[|s| - 1]];
      if s[|s| - 1] in front then front else front + [s[|s| - 1]]
  }

  /** `x` appears in `s`, and before any `y` does. */
  ghost predicate AppearsBefore<T>(s: seq<T>, x: T, y: T) {
    exists p :: 0 <= p < |s| && s[p] == x && y !in s[..p + 1]
  }

  /** What is kept is in the order of first appearance. */
  lemma {:induction false} DedupKeepsOrder<T(!new)>(s: seq<T>, i: nat, j: nat)
    requires i < j < |Dedup(s)|
    ensures AppearsBefore(s, Dedup(s)[i], Dedup(s)[j])
  {
    var front := s[..|s| - 1];
    var x, y := Dedup(s)[i], Dedup(s)[j];
    if j < |Dedup(front)| {
      DedupKeepsOrder(front, i, j);
      var p :| 0 <= p < |front| && front[p] == x && y !in front[..p + 1];
      assert s[..p + 1] == front[..p + 1];
    } else {
      assert x in Dedup(front) && y !in Dedup(front);
      var p :| 0 <= p < |front| && front[p] == x;
      assert forall q :: 0 <= q <= p ==> s[q] in front;
    }
  }

  /** Strictly ascending positions in a sequence of length `n`. */
  ghost predicate AscendingIn(idx: seq<int>, n: nat) {
    && (forall m :: 0 <= m < |idx| ==> 0 <= idx[m] < n)
    && (forall l, m :: 0 <= l < m < |idx| ==> idx[l] < idx[m])
  }

  /** `r` holds what stands in `s` at the positions `idx`. */
  ghost predicate StandsAt<T>(r: seq<T>, s: seq<T>, idx: seq<int>) {
    AscendingIn(idx, |s|) && |r| == |idx| && forall m :: 0 <= m < |r| ==> r[m] == s[idx[m]]
  }

  /** `r` holds what stands in `s` at the positions `keep`, each position once and in the order of `s`. */
  ghost predicate Picks<T>(r: seq<T>, s: seq<T>, keep: set<int>) {
    exists idx {:trigger StandsAt(r, s, idx)} :: StandsAt(r, s, idx) && forall k :: k in idx <==> k in keep
  }

  lemma PicksNone<T>(s: seq<T>)
    ensures Picks([], s, {})
  {
    assert StandsAt<T>([], s, []);
  }

  /** One more element, kept or left out. */
  lemma PicksMore<T>(r: seq<T>, s: seq<T>, keep: set<int>, x: T)
    requires Picks(r, s, keep)
    ensures Picks(r, s + [x], keep)
    ensures Picks(r + [x], s + [x], keep + {|s|})
  {
    var idx :| StandsAt(r, s, idx) && forall k :: k in idx <==> k in keep;
    assert StandsAt(r, s + [x], idx);
    assert StandsAt(r + [x], s + [x], idx + [|s|]);
  }

  /** The picked elements are those at the kept positions. */
  lemma PicksMembers<T>(r: seq<T>, s: seq<T>, keep: set<int>)
    requires Picks(r, s, keep)
    ensures forall k :: k in keep ==> 0 <= k < |s| && s[k] in r
    ensures forall x :: x in r ==> exists k :: k in keep && 0 <= k < |s| && s[k] == x
  {
    var idx :| StandsAt(r, s, idx) && forall k :: k in idx <==> k in keep;
    forall k | k in keep
      ensures 0 <= k < |s| && s[k] in r
    {
      var m :| 0 <= m < |idx| && idx[m] == k;
      assert r[m] == s[k];
    }
    forall x | x in r
      ensures exists k :: k in keep && 0 <= k < |s| && s[k] == x
    {
      var m :| 0 <= m < |r| && r[m] == x;
      assert idx[m] in keep;
    }
  }

  lemma LastIsGreatest(a: seq<int>, n: nat, k: int)
    requires AscendingIn(a, n) && a != []
    ensures k in a ==> k <= a[|a| - 1]
    ensures k in a[..|a| - 1] <==> k in a && k != a[|a| - 1]
  {
    var last := a[|a| - 1];
    assert a == a[..|a| - 1] + [last];
  }

  lemma SetSizeOfNoDup<T>(s: seq<T>)
    requires NoDup(s)
    ensures |set x | x in s| == |s|
  {
    if s != [] {
      var front := s[..|s| - 1];
      SetSizeOfNoDup(front);
      assert s == front + [s[|s| - 1]];
      assert (set x | x in s) == (set x | x in front) + {s[|s| - 1]};
    }
  }

  lemma PositionsCount(a: seq<int>, b: seq<int>, n: nat)
    requires AscendingIn(a, n) && AscendingIn(b, n) && forall k :: k in a <==> k in b
    ensures |a| == |b|
  {
    SetSizeOfNoDup(a);
    SetSizeOfNoDup(b);
    assert (set k | k in a) == (set k | k in b);
  }

  lemma {:induction false} PositionsAreUnique(a: seq<int>, b: seq<int>, n: nat)
    requires AscendingIn(a, n) && AscendingIn(b, n) && forall k :: k in a <==> k in b
    ensures a == b
    decreases |a|
  {
    PositionsCount(a, b, n);
    if a != [] {
      var fa, fb := a[..|a| - 1], b[..|b| - 1];
      var x, y := a[|a| - 1], b[|b| - 1];
      assert a == fa + [x] && b == fb + [y];
      assert x in a && y in b;
      LastIsGreatest(a, n, y);
      LastIsGreatest(b, n, x);
      forall k
        ensures k in fa <==> k in fb
      {
        LastIsGreatest(a, n, k);
        LastIsGreatest(b, n, k);
      }
      PositionsAreUnique(fa, fb, n);
    }
  }

  /** There is one way to pick. */
  lemma PicksOnce<T>(a: seq<T>, b: seq<T>, s: seq<T>, keep: set<int>)
    requires Picks(a, s, keep) && Picks(b, s, keep)
    ensures a == b
  {
    var ia :| StandsAt(a, s, ia) && forall k :: k in ia <==> k in keep;
    var ib :| StandsAt(b, s, ib) && forall k :: k in ib <==> k in keep;
    PositionsAreUnique(ia, ib, |s|);
  }

  /** What is picked from what was picked. */
  lemma PicksThrough<T>(a: seq<T>, b: seq<T>, c: seq<T>, inner: set<int>, outer: set<int>) returns (idx: seq<int>)
    requires Picks(a, b, inner) && Picks(b, c, outer)
    ensures StandsAt(a, c, idx)
  {
    var ia :| StandsAt(a, b, ia) && forall k :: k in ia <==> k in inner;
    var ib :| StandsAt(b, c, ib) && forall k :: k in ib <==> k in outer;
    idx := seq(|ia|, m requires 0 <= m < |ia| => ib[ia[m]]);
  }

  /** The elements of `s` that are in `r`, in the order of `s`. */
  ghost predicate InOrder<T>(r: seq<T>, s: seq<T>) {
    Picks(r, s, set k | 0 <= k < |s| && s[k] in r)
  }

  lemma InOrderNone<T>(s: seq<T>)
    ensures InOrder([], s)
  {
    PicksNone(s);
    assert (set k | 0 <= k < |s| && s[k] in []) == {};
  }

  /** One more element, that is nowhere yet. */
  lemma InOrderMore<T>(r: seq<T>, s: seq<T>, x: T)
    requires InOrder(r, s) && x !in s
    ensures InOrder(r, s + [x]) && InOrder(r + [x], s + [x])
  {
    var more, keep := s + [x], set k | 0 <= k < |s| && s[k] in r;
    PicksMembers(r, s, keep);
    PicksMore(r, s, keep, x);
    assert x !in r;
    assert (set k | 0 <= k < |more| && more[k] in r) == keep;
    assert (set k | 0 <= k < |more| && more[k] in r + [x]) == keep + {|s|};
  }

  lemma InOrderAll<T>(s: seq<T>)
    ensures InOrder(s, s)
  {
    var idx := seq(|s|, k => k);
    assert StandsAt(s, s, idx);
    forall k | 0 <= k < |s|
      ensures k in idx
    {
      assert idx[k] == k;
    }
  }

  lemma InOrderThrough<T>(a: seq<T>, b: seq<T>, c: seq<T>)
    requires InOrder(a, b) && InOrder(b, c) && NoDup(c)
    ensures InOrder(a, c)
  {
    var idx := PicksThrough(a, b, c, set k | 0 <= k < |b| && b[k] in a, set k | 0 <= k < |c| && c[k] in b);
    var keep := set k | 0 <= k < |c| && c[k] in a;
    forall k
      ensures k in idx <==> k in keep
    {
      if k in keep {
        var m :| 0 <= m < |a| && a[m] == c[k];
        assert c[idx[m]] == c[k];
      }
      if k in idx {
        var m :| 0 <= m < |idx| && idx[m] == k;
        assert a[m] == c[k];
      }
    }
  }

  lemma SetSizeAtMost<T>(s: seq<T>)
    ensures |set x | x in s| <= |s|
  {
    if s != [] {
      var front := s[..|s| - 1];
      SetSizeAtMost(front);
      assert s == front + [s[|s| - 1]];
      assert (set x | x in s) == (set x | x in front) + {s[|s| - 1]};
    }
  }

  lemma SubsetSize<T>(a: set<T>, b: set<T>)
    requires a <= b
    ensures |a| <= |b|
    ensures |a| == |b| ==> a == b
  {
    assert b == a + (b - a);
    assert |b| == |a| + |b - a|;
    if |a| == |b| {
      assert b - a == {};
    }
  }

  lemma SubsetLength<T>(a: seq<T>, b: seq<T>)
    requires NoDup(a) && forall x :: x in a ==> x in b
    ensures |a| <= |b|
  {
    SetSizeOfNoDup(a);
    SetSizeAtMost(b);
    SubsetSize((set x | x in a), (set x | x in b));
  }

  lemma Regroup<T>(h: seq<T>, a: seq<T>, b: seq<T>, c: seq<T>)
    ensures h + (a + b + c) == h + a + b + c
  {
  }
}
