/** `propositions_to_shards`: one hypothesis shard per minted IRI, with every proposition accounted for. */
module Mapping {
  import opened Sequences
  import opened Sorting
  import opened PyText

  type Iri = string
  type Hash = string

  datatype Proposition = Proposition(
    id: string,
    kind: string,
    text: Option<string>,
    contentIri: Option<Iri>,
    role: Option<string>,
    individual: string)

  datatype Shard = Shard(
    iri: Iri,
    hash: Hash,
    span: string,
    subject: string,
    relation: string,
    speechAct: string,
    kinds: seq<string>)

  datatype Entry = Entry(iri: Iri, sources: seq<Proposition>)

  datatype Skip = Skip(id: string, reason: string)

  datatype Mapped = Mapped(shards: seq<Shard>, manifest: seq<Entry>, skipped: seq<Skip>)

  datatype MapError =
    | MissingSourceUri
    | InvalidExtractorDid
    | EmptyFramework
    | ContentIriMismatch(id: string, stamped: Iri, minted: Iri)

  /** `mint_shard_iri` with the record's source URI, a fixed function of the text. */
  type Mint = string -> (Iri, Hash)

  predicate Usable(p: Proposition) {
    p.text.Some? && !Blank(p.text.value)
  }

  function IriOf(mint: Mint, p: Proposition): Iri
    requires Usable(p)
  {
    mint(p.text.value).0
  }

  /** The stamped IRI, when there is one, is the minted one. */
  ghost predicate Stamped(mint: Mint, p: Proposition) {
    Usable(p) && p.contentIri.Some? ==> p.contentIri.value == IriOf(mint, p)
  }

  predicate Belongs(mint: Mint, p: Proposition, iri: Iri) {
    Usable(p) && IriOf(mint, p) == iri
  }

  /** The propositions that mint `iri`, in record order. */
  function Members(mint: Mint, props: seq<Proposition>, iri: Iri): seq<Proposition> {
    if props == [] then []
    else
      var last := props[|props| - 1];
      Members(mint, props[..|props| - 1], iri) + if Belongs(mint, last, iri) then [last] else []
  }

  /** The minted IRIs, in order of first appearance. */
  function MintedIris(mint: Mint, props: seq<Proposition>): (r: seq<Iri>)
    ensures NoDup(r)
  {
    if props == [] then []
    else
      var front, last := MintedIris(mint, props[..|props| - 1]), props[|props| - 1];
      if Usable(last) && IriOf(mint, last) !in front then front + [IriOf(mint, last)] else front
  }

  function SkipOf(p: Proposition): Skip {
    Skip(p.id, if p.text.None? then "no text" else "empty text")
  }

  function Unusable(props: seq<Proposition>): seq<Proposition> {
    if props == [] then []
    else
      var last := props[|props| - 1];
      Unusable(props[..|props| - 1]) + if Usable(last) then [] else [last]
  }

  /** `(proposition_type, id)`. */
  predicate PropLe(a: Proposition, b: Proposition) {
    StrLt(a.kind, b.kind) || (a.kind == b.kind && StrLe(a.id, b.id))
  }

  function Kinds(members: seq<Proposition>): seq<string> {
    seq(|members|, i requires 0 <= i < |members| => members[i].kind)
  }

  function Subject(p: Proposition): string {
    if p.role.None? then "unknown" else if p.individual != "" then p.individual else "role:" + p.role.value
  }

  const PARTY_ROLES := ["party", "plaintiff", "defendant", "appellant", "appellee", "petitioner", "respondent", "both_parties"]

  function SpeechAct(p: Proposition): string {
    if p.role == Some("court") then "holding"
    else if p.role == Some("secondary_source") then "treatise_statement"
    else if p.role.Some? && p.role.value in PARTY_ROLES then "pleading_argument"
    else "dictum"
  }

  /** The shard of a group: everything but its IRI and hash comes from the sorted members. */
  function ShardFor(iri: Iri, hash: Hash, members: seq<Proposition>): Shard
    requires members != [] && Usable(members[0])
  {
    var first := members[0];
    Shard(iri, hash, first.text.value, Subject(first), first.kind, SpeechAct(first), Sort(Dedup(Kinds(members)), StrLe))
  }

  lemma {:induction false} MembersExact(mint: Mint, props: seq<Proposition>, iri: Iri)
    ensures forall p :: p in Members(mint, props, iri) <==> p in props && Belongs(mint, p, iri)
    ensures Members(mint, props, iri) != [] <==> iri in MintedIris(mint, props)
  {
    if props != [] {
      var front, last := props[..|props| - 1], props[|props| - 1];
      MembersExact(mint, front, iri);
      assert props == front + [last];
    }
  }

  // Every proposition is accounted for exactly once.

  lemma {:induction false} CountMembers(mint: Mint, props: seq<Proposition>, iri: Iri, p: Proposition)
    ensures multiset(Members(mint, props, iri))[p] == if Belongs(mint, p, iri) then multiset(props)[p] else 0
  {
    if props != [] {
      var front, last := props[..|props| - 1], props[|props| - 1];
      CountMembers(mint, front, iri, p);
      assert props == front + [last];
    }
  }

  lemma {:induction false} CountUnusable(props: seq<Proposition>, p: Proposition)
    ensures multiset(Unusable(props))[p] == if Usable(p) then 0 else multiset(props)[p]
  {
    if props != [] {
      var front, last := props[..|props| - 1], props[|props| - 1];
      CountUnusable(front, p);
      assert props == front + [last];
    }
  }

  // The order of the propositions does not matter.

  lemma PropLeIsOrder()
    ensures TotalPreorder(PropLe)
    ensures forall a, b :: PropLe(a, b) && PropLe(b, a) ==> a.kind == b.kind && a.id == b.id
  {
    StrLeIsOrder();
  }

  /** No two propositions share their type and ID. */
  ghost predicate DistinctKeys(props: seq<Proposition>) {
    forall p, q :: p in props && q in props && p.kind == q.kind && p.id == q.id ==> p == q
  }

  lemma SameMultiset(mint: Mint, a: seq<Proposition>, b: seq<Proposition>, iri: Iri)
    requires multiset(a) == multiset(b)
    ensures multiset(Members(mint, a, iri)) == multiset(Members(mint, b, iri))
  {
    forall p
      ensures multiset(Members(mint, a, iri))[p] == multiset(Members(mint, b, iri))[p]
    {
      CountMembers(mint, a, iri, p);
      CountMembers(mint, b, iri, p);
    }
  }

  /** Permuted records sort each group into the same members. */
  lemma SortedMembersAgree(mint: Mint, a: seq<Proposition>, b: seq<Proposition>, iri: Iri)
    requires multiset(a) == multiset(b) && DistinctKeys(a)
    ensures Sort(Members(mint, a, iri), PropLe) == Sort(Members(mint, b, iri), PropLe)
  {
    var ma, mb := Members(mint, a, iri), Members(mint, b, iri);
    SameMultiset(mint, a, b, iri);
    PropLeIsOrder();
    SortKeeps(ma, PropLe);
    SortKeeps(mb, PropLe);
    SortSorted(ma, PropLe);
    SortSorted(mb, PropLe);
    MembersExact(mint, a, iri);
    SortedIsUnique(Sort(ma, PropLe), Sort(mb, PropLe), PropLe);
  }

  /** Propositions that mint one IRI mint one hash. */
  ghost predicate HashFollowsIri(mint: Mint, props: seq<Proposition>) {
    forall p, q :: p in props && q in props && Usable(p) && Usable(q) && IriOf(mint, p) == IriOf(mint, q)
      ==> mint(p.text.value).1 == mint(q.text.value).1
  }

  /** The group's hash is its first member's. */
  ghost function ShardOf(mint: Mint, props: seq<Proposition>, iri: Iri): Shard
    requires iri in MintedIris(mint, props)
  {
    MembersExact(mint, props, iri);
    var members := Members(mint, props, iri);
    assert members[0] in members;
    SortKeeps(members, PropLe);
    var sorted := Sort(members, PropLe);
    assert sorted[0] in sorted;
    ShardFor(iri, mint(members[0].text.value).1, sorted)
  }

  lemma ShardsAgree(mint: Mint, a: seq<Proposition>, b: seq<Proposition>, iri: Iri)
    requires multiset(a) == multiset(b) && DistinctKeys(a) && HashFollowsIri(mint, a)
    requires iri in MintedIris(mint, a)
    ensures iri in MintedIris(mint, b) && ShardOf(mint, a, iri) == ShardOf(mint, b, iri)
  {
    var ma, mb := Members(mint, a, iri), Members(mint, b, iri);
    MembersExact(mint, a, iri);
    MembersExact(mint, b, iri);
    SameMembers(a, b);
    assert ma[0] in ma && ma[0] in mb;
    assert mb[0] in mb && mb[0] in a;
    SortedMembersAgree(mint, a, b, iri);
  }

  /** What `propositions_to_shards` returns on success. */
  ghost predicate Maps(mint: Mint, props: seq<Proposition>, m: Mapped) {
    var iris := MintedIris(mint, props);
    && |m.shards| == |m.manifest| == |iris|
    && (forall i :: 0 <= i < |iris| ==> m.shards[i] == ShardOf(mint, props, iris[i]))
    && (forall i :: 0 <= i < |iris| ==> m.manifest[i] == Entry(iris[i], Sort(Members(mint, props, iris[i]), PropLe)))
    && SkipsAre(props, m.skipped)
  }

  ghost predicate SkipsAre(props: seq<Proposition>, skipped: seq<Skip>) {
    |skipped| == |Unusable(props)| && forall i :: 0 <= i < |skipped| ==> skipped[i] == SkipOf(Unusable(props)[i])
  }

  /**
   Each proposition is a source as often as the record holds it, under its minted IRI and no
   other, or is skipped as often as the record holds it.
   */
  lemma AccountedOnce(mint: Mint, props: seq<Proposition>, m: Mapped, p: Proposition)
    requires Maps(mint, props, m)
    ensures forall e :: e in m.manifest ==>
      multiset(e.sources)[p] == if Usable(p) && e.iri == IriOf(mint, p) then multiset(props)[p] else 0
    ensures Usable(p) && p in props ==> exists e :: e in m.manifest && e.iri == IriOf(mint, p)
    ensures multiset(Unusable(props))[p] == if Usable(p) then 0 else multiset(props)[p]
  {
    var iris := MintedIris(mint, props);
    CountUnusable(props, p);
    forall e | e in m.manifest
      ensures multiset(e.sources)[p] == if Usable(p) && e.iri == IriOf(mint, p) then multiset(props)[p] else 0
    {
      CountMembers(mint, props, e.iri, p);
      SortKeeps(Members(mint, props, e.iri), PropLe);
    }
    if Usable(p) && p in props {
      MembersExact(mint, props, IriOf(mint, p));
      var i :| 0 <= i < |iris| && iris[i] == IriOf(mint, p);
      assert m.manifest[i] in m.manifest;
    }
  }

  lemma ShardsHaveTheirIris(mint: Mint, props: seq<Proposition>, m: Mapped)
    requires Maps(mint, props, m)
    ensures forall i :: 0 <= i < |m.shards| ==> m.shards[i].iri == m.manifest[i].iri
    ensures forall i, j :: 0 <= i < j < |m.shards| ==> m.shards[i].iri != m.shards[j].iri
  {
  }

  /** Permuting the record permutes the shards and their manifest entries, and changes none. */
  lemma PermutingPropositionsPermutesShards(mint: Mint, a: seq<Proposition>, b: seq<Proposition>, m: Mapped, n: Mapped)
    requires multiset(a) == multiset(b) && DistinctKeys(a) && HashFollowsIri(mint, a)
    requires Maps(mint, a, m) && Maps(mint, b, n)
    ensures multiset(m.shards) == multiset(n.shards)
    ensures multiset(m.manifest) == multiset(n.manifest)
    ensures forall i, j :: 0 <= i < |m.shards| && 0 <= j < |n.shards| && m.shards[i].iri == n.shards[j].iri ==> m.shards[i] == n.shards[j]
  {
    SameMembers(a, b);
    Covers(mint, a, b, m, n);
    Covers(mint, b, a, n, m);
    ShardsHaveTheirIris(mint, a, m);
    ShardsHaveTheirIris(mint, b, n);
    NoDupMultiset(m.shards, n.shards);
    NoDupMultiset(m.manifest, n.manifest);
  }

  lemma Covers(mint: Mint, a: seq<Proposition>, b: seq<Proposition>, m: Mapped, n: Mapped)
    requires multiset(a) == multiset(b) && DistinctKeys(a) && HashFollowsIri(mint, a)
    requires Maps(mint, a, m) && Maps(mint, b, n)
    ensures forall s :: s in m.shards ==> s in n.shards
    ensures forall e :: e in m.manifest ==> e in n.manifest
    ensures forall i, j :: 0 <= i < |m.shards| && 0 <= j < |n.shards| && m.shards[i].iri == n.shards[j].iri ==> m.shards[i] == n.shards[j]
  {
    var ia, ib := MintedIris(mint, a), MintedIris(mint, b);
    forall i | 0 <= i < |ia|
      ensures m.shards[i] in n.shards && m.manifest[i] in n.manifest
      ensures forall j :: 0 <= j < |n.shards| && m.shards[i].iri == n.shards[j].iri ==> m.shards[i] == n.shards[j]
    {
      ShardsAgree(mint, a, b, ia[i]);
      SortedMembersAgree(mint, a, b, ia[i]);
      var j :| 0 <= j < |ib| && ib[j] == ia[i];
      assert n.shards[j] == m.shards[i] && n.manifest[j] == m.manifest[i];
    }
  }

  // What is handed back, field by field.

  /** `p` has a character that is not white space. */
  ghost predicate HasText(p: Proposition) {
    p.text.Some? && exists c :: c in p.text.value && !IsSpace(c)
  }

  ghost predicate Mints(mint: Mint, p: Proposition, iri: Iri) {
    HasText(p) && mint(p.text.value).0 == iri
  }

  /** `p` sorts strictly before `q`: a smaller type, or the same type and a smaller ID. */
  ghost predicate KeyBelow(p: Proposition, q: Proposition) {
    Below(p.kind, q.kind) || (p.kind == q.kind && Below(p.id, q.id))
  }

  /** The positions of the propositions that mint `iri`, each once, by type and ID, ties in record order. */
  ghost predicate InKeyOrder(mint: Mint, props: seq<Proposition>, iri: Iri, order: seq<int>) {
    && NoDup(order)
    && (forall m :: 0 <= m < |order| ==> 0 <= order[m] < |props|)
    && (forall k :: 0 <= k < |props| ==> (k in order <==> Mints(mint, props[k], iri)))
    && (forall l, m :: 0 <= l < m < |order| ==>
          var p, q := props[order[l]], props[order[m]];
          KeyBelow(p, q) || (p.kind == q.kind && p.id == q.id && order[l] < order[m]))
  }

  ghost predicate ListedAt(sources: seq<Proposition>, props: seq<Proposition>, order: seq<int>) {
    |sources| == |order| && forall m :: 0 <= m < |order| ==> 0 <= order[m] < |props| && sources[m] == props[order[m]]
  }

  /** `sources` are the propositions that mint `iri`, by type and ID, ties in record order. */
  ghost predicate SourcesOf(mint: Mint, props: seq<Proposition>, iri: Iri, sources: seq<Proposition>) {
    exists order {:trigger InKeyOrder(mint, props, iri, order)} ::
      InKeyOrder(mint, props, iri, order) && ListedAt(sources, props, order)
  }

  ghost predicate SubjectIs(subject: string, p: Proposition) {
    && (p.role == None ==> subject == "unknown")
    && (p.role != None && p.individual != "" ==> subject == p.individual)
    && (p.role != None && p.individual == "" ==> subject == "role:" + p.role.value)
  }

  ghost predicate IsParty(role: Option<string>) {
    || role == Some("party") || role == Some("plaintiff") || role == Some("defendant") || role == Some("appellant")
    || role == Some("appellee") || role == Some("petitioner") || role == Some("respondent") || role == Some("both_parties")
  }

  ghost predicate ActIs(act: string, role: Option<string>) {
    && (role == Some("court") ==> act == "holding")
    && (role == Some("secondary_source") ==> act == "treatise_statement")
    && (IsParty(role) ==> act == "pleading_argument")
    && (role != Some("court") && role != Some("secondary_source") && !IsParty(role) ==> act == "dictum")
  }

  /** The types of the sources, each once, in ascending order. */
  ghost predicate KindsOf(kinds: seq<string>, sources: seq<Proposition>) {
    && (forall i, j :: 0 <= i < j < |kinds| ==> Below(kinds[i], kinds[j]))
    && (forall kind :: kind in kinds <==> exists p :: p in sources && p.kind == kind)
  }

  /** Every field of the shard comes from the first source, but for the types, and the hash that `founder` minted. */
  ghost predicate ShardTells(mint: Mint, s: Shard, sources: seq<Proposition>, founder: Proposition) {
    && sources != []
    && sources[0].text == Some(s.span) && mint(s.span).0 == s.iri
    && founder.text.Some? && mint(founder.text.value) == (s.iri, s.hash)
    && s.relation == sources[0].kind
    && SubjectIs(s.subject, sources[0]) && ActIs(s.speechAct, sources[0].role)
    && KindsOf(s.kinds, sources)
  }

  /** Proposition `k` mints an IRI, and none before it mints the same. */
  ghost predicate Founds(mint: Mint, props: seq<Proposition>, k: int) {
    && 0 <= k < |props| && HasText(props[k])
    && forall j :: 0 <= j < k ==> !Mints(mint, props[j], mint(props[k].text.value).0)
  }

  /** One shard and one entry for every minted IRI, in the order in which the record first mints them. */
  ghost predicate Tells(mint: Mint, props: seq<Proposition>, shards: seq<Shard>, manifest: seq<Entry>, founders: seq<Proposition>) {
    && Picks(founders, props, set k | 0 <= k < |props| && Founds(mint, props, k))
    && |shards| == |manifest| == |founders|
    && (forall i :: 0 <= i < |shards| ==>
          && manifest[i].iri == shards[i].iri
          && SourcesOf(mint, props, shards[i].iri, manifest[i].sources)
          && ShardTells(mint, shards[i], manifest[i].sources, founders[i]))
  }

  /** Every proposition without text is named with its reason, in record order. */
  ghost predicate SkipsTell(props: seq<Proposition>, skipped: seq<Skip>, textless: seq<Proposition>) {
    && Picks(textless, props, set k | 0 <= k < |props| && !HasText(props[k]))
    && |skipped| == |textless|
    && (forall i :: 0 <= i < |skipped| ==>
          && skipped[i].id == textless[i].id
          && (textless[i].text == None ==> skipped[i].reason == "no text")
          && (textless[i].text != None ==> skipped[i].reason == "empty text"))
  }

  /** The whole answer, told of the record alone. */
  ghost predicate Answers(mint: Mint, props: seq<Proposition>, m: Mapped) {
    && (exists founders {:trigger Tells(mint, props, m.shards, m.manifest, founders)} :: Tells(mint, props, m.shards, m.manifest, founders))
    && (exists textless {:trigger SkipsTell(props, m.skipped, textless)} :: SkipsTell(props, m.skipped, textless))
  }

  lemma UsableHasText(p: Proposition)
    ensures Usable(p) <==> HasText(p)
  {
  }

  lemma PropLeExact(p: Proposition, q: Proposition)
    ensures PropLe(p, q) <==> KeyBelow(p, q) || (p.kind == q.kind && p.id == q.id)
  {
    StrLtExact(p.kind, q.kind);
    StrLtExact(p.id, q.id);
    StrLeIsOrder();
  }

  ghost function MintersOf(mint: Mint, props: seq<Proposition>, iri: Iri): set<int> {
    set k | 0 <= k < |props| && Mints(mint, props[k], iri)
  }

  lemma {:induction false} MembersPicked(mint: Mint, props: seq<Proposition>, iri: Iri)
    ensures Picks(Members(mint, props, iri), props, MintersOf(mint, props, iri))
  {
    if props == [] {
      PicksNone(props);
      assert MintersOf(mint, props, iri) == {};
    } else {
      var front, last := props[..|props| - 1], props[|props| - 1];
      MembersPicked(mint, front, iri);
      PicksMore(Members(mint, front, iri), front, MintersOf(mint, front, iri), last);
      assert props == front + [last];
      UsableHasText(last);
      assert MintersOf(mint, props, iri) == MintersOf(mint, front, iri) + if Belongs(mint, last, iri) then {|front|} else {};
      assert Members(mint, front, iri) + [] == Members(mint, front, iri);
    }
  }

  function Composed(idx: seq<int>, perm: seq<int>): (r: seq<int>)
    requires forall m :: 0 <= m < |perm| ==> 0 <= perm[m] < |idx|
    ensures |r| == |perm| && forall m :: 0 <= m < |r| ==> r[m] == idx[perm[m]]
  {
    seq(|perm|, m requires 0 <= m < |perm| => idx[perm[m]])
  }

  /** Sorting what stands at ascending positions lists those positions by key. */
  lemma SortedPositions(mint: Mint, props: seq<Proposition>, iri: Iri, members: seq<Proposition>, idx: seq<int>, perm: seq<int>)
    requires StandsAt(members, props, idx) && StableOrder(Sort(members, PropLe), members, PropLe, perm)
    requires forall k :: k in idx <==> k in MintersOf(mint, props, iri)
    ensures SourcesOf(mint, props, iri, Sort(members, PropLe))
  {
    var order, sources := Composed(idx, perm), Sort(members, PropLe);
    forall l, m | 0 <= l < m < |order|
      ensures order[l] != order[m]
      ensures var p, q := props[order[l]], props[order[m]];
        KeyBelow(p, q) || (p.kind == q.kind && p.id == q.id && order[l] < order[m])
    {
      var p, q := sources[l], sources[m];
      assert p == props[order[l]] && q == props[order[m]];
      PropLeExact(p, q);
      PropLeExact(q, p);
      assert perm[l] != perm[m];
    }
    forall k | 0 <= k < |props|
      ensures k in order <==> Mints(mint, props[k], iri)
    {
      if Mints(mint, props[k], iri) {
        assert k in idx;
        var n :| 0 <= n < |idx| && idx[n] == k;
        assert n < |members| && n in perm;
        var m :| 0 <= m < |perm| && perm[m] == n;
        assert order[m] == k;
      }
      if k in order {
        var m :| 0 <= m < |order| && order[m] == k;
        assert idx[perm[m]] in idx;
      }
    }
    assert InKeyOrder(mint, props, iri, order);
  }

  lemma MembersSorted(mint: Mint, props: seq<Proposition>, iri: Iri)
    ensures SourcesOf(mint, props, iri, Sort(Members(mint, props, iri), PropLe))
  {
    var members := Members(mint, props, iri);
    MembersPicked(mint, props, iri);
    PropLeIsOrder();
    var perm := SortRanks(members, PropLe);
    var idx :| StandsAt(members, props, idx) && forall k :: k in idx <==> k in MintersOf(mint, props, iri);
    SortedPositions(mint, props, iri, members, idx, perm);
  }

  lemma KindsSorted(sources: seq<Proposition>)
    ensures KindsOf(Sort(Dedup(Kinds(sources)), StrLe), sources)
  {
    var all := Dedup(Kinds(sources));
    var kinds := Sort(all, StrLe);
    StrLeIsOrder();
    SortKeeps(all, StrLe);
    SortSorted(all, StrLe);
    SortNoDup(all, StrLe);
    forall i, j | 0 <= i < j < |kinds|
      ensures Below(kinds[i], kinds[j])
    {
      StrLtExact(kinds[i], kinds[j]);
    }
    forall kind
      ensures kind in kinds <==> exists p :: p in sources && p.kind == kind
    {
      if kind in Kinds(sources) {
        var i :| 0 <= i < |sources| && Kinds(sources)[i] == kind;
        assert sources[i] in sources;
      }
      if p :| p in sources && p.kind == kind {
        var i :| 0 <= i < |sources| && sources[i] == p;
        assert Kinds(sources)[i] == kind;
      }
    }
  }

  ghost function FoundersAt(mint: Mint, props: seq<Proposition>): set<int> {
    set k | 0 <= k < |props| && Founds(mint, props, k)
  }

  lemma FoundsFront(mint: Mint, props: seq<Proposition>, p: Proposition, k: int)
    requires 0 <= k < |props|
    ensures Founds(mint, props + [p], k) <==> Founds(mint, props, k)
  {
    assert forall j :: 0 <= j <= k ==> (props + [p])[j] == props[j];
  }

  /** The last proposition founds a group exactly when its IRI has none. */
  lemma FoundsLast(mint: Mint, props: seq<Proposition>, p: Proposition)
    ensures Founds(mint, props + [p], |props|) <==> Usable(p) && IriOf(mint, p) !in MintedIris(mint, props)
  {
    var more, n := props + [p], |props|;
    UsableHasText(p);
    assert more[n] == p && forall j :: 0 <= j < n ==> more[j] == props[j];
    if Usable(p) {
      MembersExact(mint, props, IriOf(mint, p));
      MembersAreAt(mint, props, IriOf(mint, p));
      forall j | 0 <= j < n
        ensures Mints(mint, props[j], IriOf(mint, p)) <==> props[j] in Members(mint, props, IriOf(mint, p))
      {
        assert props[j] in props;
        UsableHasText(props[j]);
      }
    }
  }

  lemma FoundersMore(mint: Mint, props: seq<Proposition>, p: Proposition)
    ensures FoundersAt(mint, props + [p]) ==
      FoundersAt(mint, props) + if Usable(p) && IriOf(mint, p) !in MintedIris(mint, props) then {|props|} else {}
  {
    FoundsLast(mint, props, p);
    forall k | 0 <= k < |props|
      ensures Founds(mint, props + [p], k) <==> Founds(mint, props, k)
    {
      FoundsFront(mint, props, p, k);
    }
  }

  lemma MembersAreAt(mint: Mint, props: seq<Proposition>, iri: Iri)
    ensures Members(mint, props, iri) != [] <==> exists j :: 0 <= j < |props| && props[j] in Members(mint, props, iri)
  {
    var members := Members(mint, props, iri);
    MembersExact(mint, props, iri);
    if members != [] {
      assert members[0] in members;
      var j :| 0 <= j < |props| && props[j] == members[0];
    }
  }

  /** The founders are the first members of the groups. */
  lemma {:induction false} FoundersOf(mint: Mint, props: seq<Proposition>) returns (founders: seq<Proposition>)
    ensures Picks(founders, props, FoundersAt(mint, props))
    ensures var iris := MintedIris(mint, props);
      |founders| == |iris| && forall i :: 0 <= i < |iris| ==>
        var members := Members(mint, props, iris[i]);
        members != [] && founders[i] == members[0] && Usable(founders[i]) && IriOf(mint, founders[i]) == iris[i]
  {
    if props == [] {
      PicksNone(props);
      founders := [];
      assert FoundersAt(mint, props) == {};
    } else {
      var front, last := props[..|props| - 1], props[|props| - 1];
      assert props == front + [last];
      founders := FoundersOf(mint, front);
      FoundersMore(mint, front, last);
      PicksMore(founders, front, FoundersAt(mint, front), last);
      if Usable(last) && IriOf(mint, last) !in MintedIris(mint, front) {
        MembersExact(mint, front, IriOf(mint, last));
        founders := founders + [last];
      }
    }
  }

  lemma ShardIsTold(mint: Mint, props: seq<Proposition>, iri: Iri, founder: Proposition)
    requires iri in MintedIris(mint, props)
    requires var members := Members(mint, props, iri);
      members != [] && founder == members[0] && Usable(founder) && IriOf(mint, founder) == iri
    ensures ShardTells(mint, ShardOf(mint, props, iri), Sort(Members(mint, props, iri), PropLe), founder)
    ensures ShardOf(mint, props, iri).iri == iri
  {
    var members := Members(mint, props, iri);
    var sources := Sort(members, PropLe);
    MembersExact(mint, props, iri);
    SortKeeps(members, PropLe);
    assert sources[0] in sources;
    KindsSorted(sources);
  }

  lemma {:induction false} UnusablePicked(props: seq<Proposition>)
    ensures Picks(Unusable(props), props, set k | 0 <= k < |props| && !HasText(props[k]))
  {
    var keep := set k | 0 <= k < |props| && !HasText(props[k]);
    if props == [] {
      PicksNone(props);
      assert keep == {};
    } else {
      var front, last := props[..|props| - 1], props[|props| - 1];
      var before := set k | 0 <= k < |front| && !HasText(front[k]);
      UnusablePicked(front);
      PicksMore(Unusable(front), front, before, last);
      assert props == front + [last];
      UsableHasText(last);
      assert keep == before + if Usable(last) then {} else {|front|};
      assert Unusable(front) + [] == Unusable(front);
    }
  }

  lemma BuiltTells(mint: Mint, props: seq<Proposition>, shards: seq<Shard>, manifest: seq<Entry>) returns (founders: seq<Proposition>)
    requires Built(mint, props, MintedIris(mint, props), shards, manifest) && |shards| == |MintedIris(mint, props)|
    ensures Tells(mint, props, shards, manifest, founders)
  {
    var iris := MintedIris(mint, props);
    founders := FoundersOf(mint, props);
    forall i | 0 <= i < |shards|
      ensures manifest[i].iri == shards[i].iri
      ensures SourcesOf(mint, props, shards[i].iri, manifest[i].sources)
      ensures ShardTells(mint, shards[i], manifest[i].sources, founders[i])
    {
      assert ShardIs(mint, props, iris[i], shards[i], manifest[i]);
      ShardIsTold(mint, props, iris[i], founders[i]);
      MembersSorted(mint, props, iris[i]);
    }
    assert FoundersAt(mint, props) == set k | 0 <= k < |props| && Founds(mint, props, k);
  }

  lemma SkipsAreTold(props: seq<Proposition>, skipped: seq<Skip>)
    requires SkipsAre(props, skipped)
    ensures SkipsTell(props, skipped, Unusable(props))
  {
    UnusablePicked(props);
  }

  /** Proposition `k` comes first, by type and ID and then record order, among those that mint `iri`. */
  ghost predicate ComesFirst(mint: Mint, props: seq<Proposition>, iri: Iri, k: int) {
    && 0 <= k < |props| && Mints(mint, props[k], iri)
    && forall j :: 0 <= j < |props| && j != k && Mints(mint, props[j], iri) ==>
         KeyBelow(props[k], props[j]) || (props[k].kind == props[j].kind && props[k].id == props[j].id && k < j)
  }

  lemma FirstSource(mint: Mint, props: seq<Proposition>, iri: Iri, sources: seq<Proposition>) returns (k: int)
    requires SourcesOf(mint, props, iri, sources) && sources != []
    ensures ComesFirst(mint, props, iri, k) && props[k] == sources[0]
  {
    var order :| InKeyOrder(mint, props, iri, order) && ListedAt(sources, props, order);
    k := order[0];
    assert k in order;
    forall j | 0 <= j < |props| && j != k && Mints(mint, props[j], iri)
      ensures KeyBelow(props[k], props[j]) || (props[k].kind == props[j].kind && props[k].id == props[j].id && k < j)
    {
      assert j in order;
      var l :| 0 <= l < |order| && order[l] == j;
      LaterInOrder(mint, props, iri, order, l);
    }
  }

  lemma LaterInOrder(mint: Mint, props: seq<Proposition>, iri: Iri, order: seq<int>, l: nat)
    requires InKeyOrder(mint, props, iri, order) && 0 < l < |order|
    ensures var p, q := props[order[0]], props[order[l]];
      KeyBelow(p, q) || (p.kind == q.kind && p.id == q.id && order[0] < order[l])
  {
  }

  lemma FounderIsThere(mint: Mint, props: seq<Proposition>, founders: seq<Proposition>, i: nat)
    requires Picks(founders, props, FoundersAt(mint, props)) && i < |founders|
    ensures founders[i] in props && HasText(founders[i])
  {
    PicksMembers(founders, props, FoundersAt(mint, props));
    assert founders[i] in founders;
  }

  /** The proposition at `k` gives the shard its span, relation, subject and speech act. */
  ghost predicate Leads(props: seq<Proposition>, s: Shard, k: int) {
    && 0 <= k < |props| && props[k].text == Some(s.span) && s.relation == props[k].kind
    && SubjectIs(s.subject, props[k]) && ActIs(s.speechAct, props[k].role)
  }

  /**
   Every shard is led by the proposition that comes first, by type and ID, among those that mint its IRI; and its
   span mints its IRI, and its hash too when one IRI has one hash.
   */
  lemma ShardIsLed(mint: Mint, props: seq<Proposition>, m: Mapped, i: nat)
    requires Answers(mint, props, m) && i < |m.shards|
    ensures var s := m.shards[i];
      && (exists k {:trigger Leads(props, s, k)} :: ComesFirst(mint, props, s.iri, k) && Leads(props, s, k))
      && mint(s.span).0 == s.iri
      && (HashFollowsIri(mint, props) ==> mint(s.span) == (s.iri, s.hash))
  {
    var founders :| Tells(mint, props, m.shards, m.manifest, founders);
    var s, sources := m.shards[i], m.manifest[i].sources;
    assert ShardTells(mint, s, sources, founders[i]);
    var k := FirstSource(mint, props, s.iri, sources);
    assert Leads(props, s, k);
    FounderIsThere(mint, props, founders, i);
    UsableHasText(founders[i]);
    UsableHasText(props[k]);
    assert props[k] in props;
  }

  // The loops.

  /** `groups` as an ordered dictionary: its keys in order, and the members and first hash of each. */
  ghost predicate GroupsAre(mint: Mint, props: seq<Proposition>, order: seq<Iri>, groups: map<Iri, (Hash, seq<Proposition>)>) {
    && order == MintedIris(mint, props)
    && (forall iri :: iri in groups <==> iri in order)
    && (forall iri :: iri in groups ==> GroupIs(mint, props, iri, groups[iri]))
  }

  ghost predicate GroupIs(mint: Mint, props: seq<Proposition>, iri: Iri, group: (Hash, seq<Proposition>)) {
    group.1 == Members(mint, props, iri) && group.1 != [] && Usable(group.1[0]) && group.0 == mint(group.1[0].text.value).1
  }

  /** A proposition without usable text leaves the groups as they are. */
  lemma GroupNone(mint: Mint, props: seq<Proposition>, p: Proposition, order: seq<Iri>, groups: map<Iri, (Hash, seq<Proposition>)>)
    requires GroupsAre(mint, props, order, groups) && !Usable(p)
    ensures GroupsAre(mint, props + [p], order, groups)
  {
    assert (props + [p])[..|props|] == props;
    forall iri
      ensures Members(mint, props + [p], iri) == Members(mint, props, iri)
    {
      assert Members(mint, props, iri) + [] == Members(mint, props, iri);
    }
  }

  lemma MembersNext(mint: Mint, props: seq<Proposition>, p: Proposition, iri: Iri)
    ensures Members(mint, props + [p], iri) == if Belongs(mint, p, iri) then Members(mint, props, iri) + [p] else Members(mint, props, iri)
  {
    assert (props + [p])[..|props|] == props;
  }

  /** One with text joins the group of its IRI. */
  lemma GroupJoined(mint: Mint, props: seq<Proposition>, p: Proposition, order: seq<Iri>, groups: map<Iri, (Hash, seq<Proposition>)>)
    requires GroupsAre(mint, props, order, groups) && Usable(p) && IriOf(mint, p) in groups
    ensures var iri := IriOf(mint, p);
      GroupsAre(mint, props + [p], order, groups[iri := (groups[iri].0, groups[iri].1 + [p])])
  {
    assert (props + [p])[..|props|] == props;
    var more := groups[IriOf(mint, p) := (groups[IriOf(mint, p)].0, groups[IriOf(mint, p)].1 + [p])];
    forall iri | iri in more
      ensures GroupIs(mint, props + [p], iri, more[iri])
    {
      MembersNext(mint, props, p, iri);
      assert GroupIs(mint, props, iri, groups[iri]);
    }
  }

  /** The first with its IRI founds a group. */
  lemma GroupFounded(mint: Mint, props: seq<Proposition>, p: Proposition, order: seq<Iri>, groups: map<Iri, (Hash, seq<Proposition>)>)
    requires GroupsAre(mint, props, order, groups) && Usable(p) && IriOf(mint, p) !in groups
    ensures var iri := IriOf(mint, p);
      GroupsAre(mint, props + [p], order + [iri], groups[iri := (mint(p.text.value).1, [p])])
  {
    assert (props + [p])[..|props|] == props;
    MembersExact(mint, props, IriOf(mint, p));
    var more := groups[IriOf(mint, p) := (mint(p.text.value).1, [p])];
    forall iri | iri in more
      ensures GroupIs(mint, props + [p], iri, more[iri])
    {
      MembersNext(mint, props, p, iri);
      assert iri in groups ==> GroupIs(mint, props, iri, groups[iri]);
    }
  }

  lemma GroupOne(mint: Mint, props: seq<Proposition>, i: nat, order: seq<Iri>, groups: map<Iri, (Hash, seq<Proposition>)>)
    requires i < |props| && GroupsAre(mint, props[..i], order, groups)
    ensures var p := props[i];
      if !Usable(p) then GroupsAre(mint, props[..i + 1], order, groups)
      else
        var iri := IriOf(mint, p);
        if iri in groups then GroupsAre(mint, props[..i + 1], order, groups[iri := (groups[iri].0, groups[iri].1 + [p])])
        else GroupsAre(mint, props[..i + 1], order + [iri], groups[iri := (mint(p.text.value).1, [p])])
  {
    assert props[..i + 1] == props[..i] + [props[i]];
    if !Usable(props[i]) {
      GroupNone(mint, props[..i], props[i], order, groups);
    } else if IriOf(mint, props[i]) in groups {
      GroupJoined(mint, props[..i], props[i], order, groups);
    } else {
      GroupFounded(mint, props[..i], props[i], order, groups);
    }
  }

  lemma SkipOne(props: seq<Proposition>, i: nat, skipped: seq<Skip>)
    requires i < |props| && SkipsAre(props[..i], skipped)
    ensures SkipsAre(props[..i + 1], if Usable(props[i]) then skipped else skipped + [SkipOf(props[i])])
  {
    assert props[..i + 1][..i] == props[..i];
  }

  ghost predicate AllStamped(mint: Mint, props: seq<Proposition>) {
    forall p :: p in props ==> Stamped(mint, p)
  }

  /** Proposition `k` is the first, in record order, whose stamped IRI differs from the minted one. */
  ghost predicate MismatchAt(mint: Mint, props: seq<Proposition>, k: int, error: MapError) {
    && 0 <= k < |props| && AllStamped(mint, props[..k]) && !Stamped(mint, props[k])
    && error == ContentIriMismatch(props[k].id, props[k].contentIri.value, IriOf(mint, props[k]))
  }

  ghost predicate Mismatch(mint: Mint, props: seq<Proposition>, error: MapError) {
    exists k {:trigger MismatchAt(mint, props, k, error)} :: MismatchAt(mint, props, k, error)
  }

  lemma StampOne(mint: Mint, props: seq<Proposition>, i: nat)
    requires i < |props| && AllStamped(mint, props[..i]) && Stamped(mint, props[i])
    ensures AllStamped(mint, props[..i + 1])
  {
    assert props[..i + 1] == props[..i] + [props[i]];
  }

  /** The first loop: skip, refuse on a mismatch, or file under the minted IRI. */
  method GroupPropositions(mint: Mint, props: seq<Proposition>)
    returns (error: Option<MapError>, order: seq<Iri>, groups: map<Iri, (Hash, seq<Proposition>)>, skipped: seq<Skip>)
    ensures error.None? ==> AllStamped(mint, props) && GroupsAre(mint, props, order, groups) && SkipsAre(props, skipped)
    ensures error.Some? ==> Mismatch(mint, props, error.value)
  {
    error, order, groups, skipped := None, [], map[], [];
    for i := 0 to |props|
      invariant error.None? && AllStamped(mint, props[..i])
      invariant GroupsAre(mint, props[..i], order, groups)
      invariant SkipsAre(props[..i], skipped)
    {
      var p := props[i];
      GroupOne(mint, props, i, order, groups);
      SkipOne(props, i, skipped);
      if !Usable(p) {
        StampOne(mint, props, i);
        skipped := skipped + [SkipOf(p)];
      } else {
        var (iri, hash) := mint(p.text.value);
        if p.contentIri.Some? && p.contentIri.value != iri {
          assert MismatchAt(mint, props, i, ContentIriMismatch(p.id, p.contentIri.value, iri));
          return Some(ContentIriMismatch(p.id, p.contentIri.value, iri)), [], map[], [];
        }
        StampOne(mint, props, i);
        if iri in groups {
          groups := groups[iri := (groups[iri].0, groups[iri].1 + [p])];
        } else {
          order, groups := order + [iri], groups[iri := (hash, [p])];
        }
      }
    }
    assert props[..|props|] == props;
  }

  ghost predicate ShardIs(mint: Mint, props: seq<Proposition>, iri: Iri, shard: Shard, entry: Entry) {
    && iri in MintedIris(mint, props)
    && shard == ShardOf(mint, props, iri)
    && entry == Entry(iri, Sort(Members(mint, props, iri), PropLe))
  }

  /** The shards and entries of the first groups, aligned. */
  ghost predicate Built(mint: Mint, props: seq<Proposition>, order: seq<Iri>, shards: seq<Shard>, manifest: seq<Entry>) {
    && |shards| == |manifest| <= |order|
    && (forall k {:trigger ShardIs(mint, props, order[k], shards[k], manifest[k])} ::
          0 <= k < |shards| ==> ShardIs(mint, props, order[k], shards[k], manifest[k]))
  }

  lemma BuiltOne(mint: Mint, props: seq<Proposition>, order: seq<Iri>, shards: seq<Shard>, manifest: seq<Entry>, shard: Shard, entry: Entry)
    requires Built(mint, props, order, shards, manifest) && |shards| < |order|
    requires ShardIs(mint, props, order[|shards|], shard, entry)
    ensures Built(mint, props, order, shards + [shard], manifest + [entry])
  {
    var s, m := shards + [shard], manifest + [entry];
    forall k | 0 <= k < |s|
      ensures ShardIs(mint, props, order[k], s[k], m[k])
    {
      if k < |shards| {
        assert ShardIs(mint, props, order[k], shards[k], manifest[k]);
      }
    }
  }

  lemma BuiltMaps(mint: Mint, props: seq<Proposition>, shards: seq<Shard>, manifest: seq<Entry>, skipped: seq<Skip>)
    requires Built(mint, props, MintedIris(mint, props), shards, manifest) && |shards| == |MintedIris(mint, props)|
    requires SkipsAre(props, skipped)
    ensures Maps(mint, props, Mapped(shards, manifest, skipped))
  {
    var iris := MintedIris(mint, props);
    forall i | 0 <= i < |iris|
      ensures shards[i] == ShardOf(mint, props, iris[i])
      ensures manifest[i] == Entry(iris[i], Sort(Members(mint, props, iris[i]), PropLe))
    {
      assert ShardIs(mint, props, iris[i], shards[i], manifest[i]);
    }
  }

  /** The second loop: one shard and one manifest entry per group. */
  method BuildShards(mint: Mint, props: seq<Proposition>, order: seq<Iri>, groups: map<Iri, (Hash, seq<Proposition>)>)
    returns (shards: seq<Shard>, manifest: seq<Entry>)
    requires GroupsAre(mint, props, order, groups)
    ensures Built(mint, props, order, shards, manifest) && |shards| == |order|
    ensures exists founders {:trigger Tells(mint, props, shards, manifest, founders)} :: Tells(mint, props, shards, manifest, founders)
  {
    shards, manifest := [], [];
    for i := 0 to |order|
      invariant Built(mint, props, order, shards, manifest) && |shards| == i
    {
      assert order[i] in order;
      var shard, entry := BuildOne(mint, props, order[i], groups[order[i]]);
      BuiltOne(mint, props, order, shards, manifest, shard, entry);
      shards, manifest := shards + [shard], manifest + [entry];
    }
    ghost var founders := BuiltTells(mint, props, shards, manifest);
  }

  method BuildOne(mint: Mint, props: seq<Proposition>, iri: Iri, group: (Hash, seq<Proposition>)) returns (shard: Shard, entry: Entry)
    requires GroupIs(mint, props, iri, group) && iri in MintedIris(mint, props)
    ensures ShardIs(mint, props, iri, shard, entry)
  {
    var sorted := Sort(group.1, PropLe);
    SortedHead(mint, props, iri, group);
    shard, entry := ShardFor(iri, group.0, sorted), Entry(iri, sorted);
  }

  /** The envelope's DID pattern, `^did:(key|web|plc):.+`. */
  predicate DidOk(did: string) {
    |did| > 8 && ("did:key:" <= did || "did:web:" <= did || "did:plc:" <= did) && did[8] != '\n'
  }

  /** A scheme, one of the three methods and at least one character that is no newline, whatever follows. */
  ghost predicate DidShaped(did: string, scheme: string, first: char, rest: string) {
    && (scheme == "did:key:" || scheme == "did:web:" || scheme == "did:plc:")
    && first != '\n' && did == scheme + [first] + rest
  }

  ghost predicate IsDid(did: string) {
    exists scheme, first, rest :: DidShaped(did, scheme, first, rest)
  }

  lemma DidOkExact(did: string)
    ensures DidOk(did) <==> IsDid(did)
  {
    if DidOk(did) {
      assert did == did[..8] + [did[8]] + did[9..];
      assert DidShaped(did, did[..8], did[8], did[9..]);
    }
    if IsDid(did) {
      var scheme, first, rest :| DidShaped(did, scheme, first, rest);
      assert did[..8] == scheme && did[8] == first;
    }
  }

  method PropositionsToShards(mint: Mint, sourceUri: string, did: string, framework: string, props: seq<Proposition>)
    returns (r: Result<Mapped, MapError>)
    ensures sourceUri == "" ==> r == Err(MissingSourceUri)
    ensures sourceUri != "" && !IsDid(did) ==> r == Err(InvalidExtractorDid)
    ensures sourceUri != "" && IsDid(did) && framework == "" ==> r == Err(EmptyFramework)
    ensures sourceUri != "" && IsDid(did) && framework != "" ==>
      if AllStamped(mint, props) then r.Ok? && Maps(mint, props, r.value) && Answers(mint, props, r.value)
      else r.Err? && Mismatch(mint, props, r.error)
  {
    DidOkExact(did);
    if sourceUri == "" {
      return Err(MissingSourceUri);
    }
    if !DidOk(did) {
      return Err(InvalidExtractorDid);
    }
    if framework == "" {
      return Err(EmptyFramework);
    }
    var error, order, groups, skipped := GroupPropositions(mint, props);
    if error.Some? {
      return Err(error.value);
    }
    var shards, manifest := BuildShards(mint, props, order, groups);
    BuiltMaps(mint, props, shards, manifest, skipped);
    SkipsAreTold(props, skipped);
    r := Ok(Mapped(shards, manifest, skipped));
  }

  lemma SortedHead(mint: Mint, props: seq<Proposition>, iri: Iri, group: (Hash, seq<Proposition>))
    requires GroupIs(mint, props, iri, group) && iri in MintedIris(mint, props)
    ensures var sorted := Sort(group.1, PropLe);
      sorted != [] && Usable(sorted[0]) && ShardFor(iri, group.0, sorted) == ShardOf(mint, props, iri)
  {
    MembersExact(mint, props, iri);
    SortKeeps(group.1, PropLe);
    var sorted := Sort(group.1, PropLe);
    assert sorted[0] in sorted;
  }
}
