/** `_CappedShards`: the view that lends a derivation walk at most `cap` distinct shards. */
module CappedShards {
  import opened Sequences
  import opened DependencyGraph

  /** Who has been lent and who has been refused so far. */
  datatype Ledger = Ledger(lent: set<Iri>, refused: set<Iri>)

  function Ask(shards: map<Iri, Shard>, cap: nat, l: Ledger, iri: Iri): (Ledger, Option<Shard>) {
    if iri !in shards then (l, None)
    else if iri in l.lent then (l, Some(shards[iri]))
    else if |l.lent| >= cap then (l.(refused := l.refused + {iri}), None)
    else (l.(lent := l.lent + {iri}), Some(shards[iri]))
  }

  class View {
    const shards: map<Iri, Shard>
    const cap: nat
    var lent: set<Iri>
    var refused: set<Iri>

    constructor (shards: map<Iri, Shard>, cap: nat)
      ensures this.shards == shards && this.cap == cap && lent == {} && refused == {}
    {
      this.shards, this.cap := shards, cap;
      lent, refused := {}, {};
    }

    method Get(iri: Iri) returns (shard: Option<Shard>)
      modifies this
      ensures (Ledger(lent, refused), shard) == Ask(shards, cap, Ledger(old(lent), old(refused)), iri)
    {
      if iri !in shards {
        return None;
      }
      if iri in lent {
        return Some(shards[iri]);
      }
      if |lent| >= cap {
        refused := refused + {iri};
        return None;
      }
      lent := lent + {iri};
      return Some(shards[iri]);
    }
  }

  /** The ledger after a sequence of requests. */
  function After(shards: map<Iri, Shard>, cap: nat, requests: seq<Iri>): Ledger {
    if requests == [] then Ledger({}, {})
    else Ask(shards, cap, After(shards, cap, requests[..|requests| - 1]), requests[|requests| - 1]).0
  }

  /** What request number `k` is answered. */
  function Answer(shards: map<Iri, Shard>, cap: nat, requests: seq<Iri>, k: nat): Option<Shard>
    requires k < |requests|
  {
    Ask(shards, cap, After(shards, cap, requests[..k]), requests[k]).1
  }

  /** The distinct stored IRIs asked for, in order of first request. */
  function Wanted(shards: map<Iri, Shard>, requests: seq<Iri>): (w: seq<Iri>)
    ensures NoDup(w)
    ensures forall x :: x in w <==> x in requests && x in shards
  {
    if requests == [] then []
    else
      var before, last := Wanted(shards, requests[..|requests| - 1]), requests[|requests| - 1];
      assert requests == requests[..|requests| - 1] + [last];
      if last in shards && last !in before then before + [last] else before
  }

  /** Request `k` is the first for a stored IRI. */
  ghost predicate FirstRequest(shards: map<Iri, Shard>, requests: seq<Iri>, k: int) {
    0 <= k < |requests| && requests[k] in shards && forall j :: 0 <= j < k ==> requests[j] != requests[k]
  }

  lemma {:induction false} WantedIsFirst(shards: map<Iri, Shard>, requests: seq<Iri>)
    ensures Picks(Wanted(shards, requests), requests, set k | 0 <= k < |requests| && FirstRequest(shards, requests, k))
  {
    var keep := set k | 0 <= k < |requests| && FirstRequest(shards, requests, k);
    if requests == [] {
      PicksNone(requests);
      assert keep == {};
    } else {
      var front, last := requests[..|requests| - 1], requests[|requests| - 1];
      var before := set k | 0 <= k < |front| && FirstRequest(shards, front, k);
      WantedIsFirst(shards, front);
      PicksMore(Wanted(shards, front), front, before, last);
      assert requests == front + [last];
      assert forall k :: 0 <= k < |front| ==> (FirstRequest(shards, requests, k) <==> FirstRequest(shards, front, k));
      assert FirstRequest(shards, requests, |front|) <==> last in shards && last !in front;
      assert keep == before + if last in shards && last !in Wanted(shards, front) then {|front|} else {};
    }
  }

  function Cut(s: seq<Iri>, cap: nat): nat {
    if cap < |s| then cap else |s|
  }

  /** The first `cap` members. */
  ghost function Head(s: seq<Iri>, cap: nat): set<Iri> {
    set x | x in s[..Cut(s, cap)]
  }

  /** The members after the first `cap`. */
  ghost function Tail(s: seq<Iri>, cap: nat): set<Iri> {
    set x | x in s[Cut(s, cap)..]
  }

  lemma HeadAndTail(s: seq<Iri>, cap: nat)
    requires NoDup(s)
    ensures Head(s, cap) !! Tail(s, cap) && |Head(s, cap)| == Cut(s, cap)
    ensures Head(s, cap) + Tail(s, cap) == set x | x in s
  {
    var n := Cut(s, cap);
    SetSizeOfNoDup(s[..n]);
    assert s == s[..n] + s[n..];
  }

  lemma AppendToTail(s: seq<Iri>, x: Iri, cap: nat)
    ensures |s| >= cap ==> Head(s + [x], cap) == Head(s, cap) && Tail(s + [x], cap) == Tail(s, cap) + {x}
    ensures |s| < cap ==> Head(s + [x], cap) == Head(s, cap) + {x} && Tail(s + [x], cap) == Tail(s, cap)
  {
    if |s| >= cap {
      assert (s + [x])[..cap] == s[..cap];
      assert (s + [x])[cap..] == s[cap..] + [x];
    } else {
      assert s[..|s|] == s && s[|s|..] == [];
      assert (s + [x])[..|s| + 1] == s + [x] && (s + [x])[|s| + 1..] == [];
    }
  }

  /** A new stored IRI is lent while there is room and refused after that. */
  lemma AskNew(shards: map<Iri, Shard>, cap: nat, before: seq<Iri>, x: Iri)
    requires NoDup(before) && x in shards && x !in before
    ensures Ask(shards, cap, Ledger(Head(before, cap), Tail(before, cap)), x).0
      == Ledger(Head(before + [x], cap), Tail(before + [x], cap))
  {
    HeadAndTail(before, cap);
    AppendToTail(before, x, cap);
    assert x !in Head(before, cap);
  }

  /** An IRI asked for before changes nothing. */
  lemma AskAgain(shards: map<Iri, Shard>, cap: nat, before: seq<Iri>, x: Iri)
    requires NoDup(before) && x in shards && x in before
    ensures Ask(shards, cap, Ledger(Head(before, cap), Tail(before, cap)), x).0
      == Ledger(Head(before, cap), Tail(before, cap))
  {
    HeadAndTail(before, cap);
    assert x in Head(before, cap) + Tail(before, cap);
    if x !in Head(before, cap) {
      assert x in before[Cut(before, cap)..];
      assert Tail(before, cap) + {x} == Tail(before, cap);
    }
  }

  /** One request keeps `lent` and `refused` the two halves of what was wanted so far. */
  lemma AskSplits(shards: map<Iri, Shard>, cap: nat, before: seq<Iri>, x: Iri)
    requires NoDup(before)
    ensures
      var after := if x in shards && x !in before then before + [x] else before;
      Ask(shards, cap, Ledger(Head(before, cap), Tail(before, cap)), x).0 == Ledger(Head(after, cap), Tail(after, cap))
  {
    if x in shards {
      if x in before {
        AskAgain(shards, cap, before, x);
      } else {
        AskNew(shards, cap, before, x);
      }
    }
  }

  /** `lent` is the first `cap` distinct stored IRIs asked for, `refused` exactly the other ones. */
  lemma {:induction false} LentIsTheFirstWanted(shards: map<Iri, Shard>, cap: nat, requests: seq<Iri>)
    ensures var l, wanted := After(shards, cap, requests), Wanted(shards, requests);
      && l == Ledger(Head(wanted, cap), Tail(wanted, cap))
      && l.lent !! l.refused && |l.lent| == Cut(wanted, cap)
  {
    if requests != [] {
      var front, last := requests[..|requests| - 1], requests[|requests| - 1];
      LentIsTheFirstWanted(shards, cap, front);
      AskSplits(shards, cap, Wanted(shards, front), last);
    }
    HeadAndTail(Wanted(shards, requests), cap);
  }

  lemma {:induction false} WantedExtends(shards: map<Iri, Shard>, requests: seq<Iri>, k: nat)
    requires k <= |requests|
    ensures Wanted(shards, requests[..k]) <= Wanted(shards, requests)
    decreases |requests|
  {
    if k < |requests| {
      var front := requests[..|requests| - 1];
      WantedExtends(shards, front, k);
      assert front[..k] == requests[..k];
    } else {
      assert requests[..k] == requests;
    }
  }

  /** The first `cap` of a prefix are the prefix's share of the first `cap` of the whole. */
  lemma HeadOfPrefix(s: seq<Iri>, whole: seq<Iri>, cap: nat, x: Iri)
    requires s <= whole && NoDup(whole) && x in s
    ensures x in Head(s, cap) <==> x in Head(whole, cap)
  {
    var i :| 0 <= i < |s| && s[i] == x;
    assert whole[i] == x;
    assert i < cap <==> x in Head(s, cap) by {
      if i < cap {
        assert s[..Cut(s, cap)][i] == x;
      }
    }
    if i < cap {
      assert whole[..Cut(whole, cap)][i] == x;
    }
  }

  /** Every request for an IRI is answered the same: granted exactly when it is among the first `cap` wanted overall. */
  lemma AnswersNeverChange(shards: map<Iri, Shard>, cap: nat, requests: seq<Iri>, k: nat)
    requires k < |requests|
    ensures
      var x := requests[k];
      Answer(shards, cap, requests, k) ==
      if x in shards && x in Head(Wanted(shards, requests), cap) then Some(shards[x]) else None
  {
    var x, now := requests[k], requests[..k + 1];
    assert now[..|now| - 1] == requests[..k] && now[|now| - 1] == x;
    LentIsTheFirstWanted(shards, cap, requests[..k]);
    LentIsTheFirstWanted(shards, cap, now);
    WantedExtends(shards, requests, k + 1);
    if x in shards {
      HeadOfPrefix(Wanted(shards, now), Wanted(shards, requests), cap, x);
    }
  }
}
