/** The windows in which a source's content held, from the dates a caller supplies. */
module ValidTime {
  import opened Sequences
  import opened Sorting

  /** Dates are proleptic Gregorian ordinals; instants are microseconds, counted from day zero, UTC. */
  type Date = int
  type Instant = int

  const DAY: int := 86_400_000_000

  function Utc(d: Date): Instant {
    d * DAY
  }

  function UtcOf(d: Option<Date>): Option<Instant> {
    match d
    case None => None
    case Some(day) => Some(Utc(day))
  }

  /** The ordinal of 1 January. */
  function NewYear(year: int): Date {
    var before := year - 1;
    365 * before + before / 4 - before / 100 + before / 400 + 1
  }

  lemma UtcCountsDays(d: Date)
    ensures Utc(0) == 0 && Utc(d + 1) == Utc(d) + 24 * 60 * 60 * 1_000_000
  {
  }

  /** The Gregorian leap years. */
  ghost predicate IsLeap(year: int) {
    year % 4 == 0 && (year % 100 != 0 || year % 400 == 0)
  }

  /** Day 1 is 1 January of year 1, and every year is as long as the calendar says. */
  lemma NewYearExact(year: int)
    ensures NewYear(1) == 1
    ensures NewYear(year + 1) == NewYear(year) + if IsLeap(year) then 366 else 365
  {
    QuotientSteps(year, 4);
    QuotientSteps(year, 100);
    QuotientSteps(year, 400);
    DividesThrough(year, 100, 4);
    DividesThrough(year, 4, 25);
  }

  lemma DividesThrough(n: int, k: int, m: int)
    requires k > 0 && m > 0 && k * m > 0
    ensures n % (k * m) == 0 ==> n % k == 0
  {
    if n % (k * m) == 0 {
      var q := n / (k * m);
      assert n == (k * m) * q == k * (m * q);
      QuotientIs(n, k, m * q, 0);
    }
  }

  lemma QuotientSteps(n: int, k: int)
    requires k > 0
    ensures n / k == (n - 1) / k + if n % k == 0 then 1 else 0
  {
    var q, r := n / k, n % k;
    assert n == q * k + r;
    if r == 0 {
      assert n - 1 == (q - 1) * k + (k - 1);
      QuotientIs(n - 1, k, q - 1, k - 1);
    } else {
      QuotientIs(n - 1, k, q, r - 1);
    }
  }

  lemma QuotientIs(n: int, k: int, q: int, r: int)
    requires k > 0 && n == q * k + r && 0 <= r < k
    ensures n / k == q && n % k == r
  {
    var d := n / k - q;
    assert n == (n / k) * k + n % k;
    assert d * k == r - n % k;
    Between(d, k);
  }

  lemma Between(d: int, k: int)
    requires k > 0 && -k < d * k < k
    ensures d == 0
  {
  }

  datatype Evidence =
    | EffectiveDate(on: Date) | AmendmentDate(on: Date) | NextAmendmentDate(on: Date) | RepealDate(on: Date)
    | VersionDate(on: Date) | NoVersionDate
    | DecisionDate(on: Date) | OverruledDate(on: Date)
    | PublicationYear(year: int) | SupersededDate(on: Date)

  datatype Window = Window(start: Option<Instant>, end: Option<Instant>, evidence: seq<Evidence>) {
    predicate Contains(at: Instant) {
      (start.None? || start.value <= at) && (end.None? || at < end.value)
    }
  }

  datatype Kind = Statute | Regulation | Rules | Case | Restatement | Treatise | Other {
    predicate Enacted() {
      Statute? || Regulation? || Rules?
    }
  }

  datatype Metadata = Metadata(
    kind: Kind,
    effective: Option<Date>,
    amendments: seq<Date>,
    repeal: Option<Date>,
    version: Option<Date>,
    decision: Option<Date>,
    overruled: Option<Date>,
    publicationYear: Option<int>,
    superseded: Option<Date>)

  // What a version of an enacted text is.

  /** A version begins on the effective date and on every later amendment date. */
  ghost predicate Begins(meta: Metadata, d: Date) {
    meta.effective.Some? && (d == meta.effective.value || (d in meta.amendments && d > meta.effective.value))
  }

  ghost predicate Latest(meta: Metadata, d: Date) {
    Begins(meta, d) && forall other :: Begins(meta, other) ==> other <= d
  }

  /** `next` is when the version that begins on `d` gives way to another, if ever. */
  ghost predicate Followed(meta: Metadata, d: Date, next: Option<Date>) {
    Begins(meta, d) &&
    match next
    case None => Latest(meta, d)
    case Some(e) => Begins(meta, e) && d < e && forall other :: Begins(meta, other) && d < other ==> e <= other
  }

  /** The version in force: it begins last among those not after `at`. */
  ghost predicate InForce(meta: Metadata, at: Date, d: Date) {
    Begins(meta, d) && d <= at && forall other :: Begins(meta, other) && other <= at ==> other <= d
  }

  /** From midnight of its date to midnight of the next version's, or of the repeal; the dates are the evidence. */
  ghost predicate IsVersionWindow(meta: Metadata, d: Date, next: Option<Date>, w: Window) {
    && w.start == Some(Utc(d))
    && w.evidence != [] && w.evidence[0] == (if meta.effective == Some(d) then EffectiveDate(d) else AmendmentDate(d))
    && (next.Some? ==> w.end == Some(Utc(next.value)) && w.evidence[1..] == [NextAmendmentDate(next.value)])
    && (next.None? && meta.repeal.Some? ==>
          w.end == Some(Utc(meta.repeal.value)) && w.evidence[1..] == [RepealDate(meta.repeal.value)])
    && (next.None? && meta.repeal.None? ==> w.end == None && w.evidence[1..] == [])
  }

  lemma OneVersionWindow(meta: Metadata, d: Date, next: Option<Date>, v: Window, w: Window)
    requires IsVersionWindow(meta, d, next, v) && IsVersionWindow(meta, d, next, w)
    ensures v == w
  {
    assert v.evidence == [v.evidence[0]] + v.evidence[1..];
    assert w.evidence == [w.evidence[0]] + w.evidence[1..];
  }

  ghost predicate Increasing(dates: seq<Date>) {
    forall i, j :: 0 <= i < j < |dates| ==> dates[i] < dates[j]
  }

  function NextOf(dates: seq<Date>, i: nat): Option<Date> {
    if i + 1 < |dates| then Some(dates[i + 1]) else None
  }

  /** One window for each date a version begins on, oldest first, each up to the next. */
  ghost predicate Dated(meta: Metadata, dates: seq<Date>, windows: seq<Window>) {
    && Increasing(dates)
    && (forall d :: d in dates <==> Begins(meta, d))
    && |windows| == |dates|
    && forall i {:trigger windows[i]} :: 0 <= i < |dates| ==> IsVersionWindow(meta, dates[i], NextOf(dates, i), windows[i])
  }

  ghost predicate IsHistory(meta: Metadata, windows: seq<Window>) {
    exists dates {:trigger Dated(meta, dates, windows)} :: Dated(meta, dates, windows)
  }

  // `statute_windows`.

  function Later(dates: seq<Date>, than: Date): (r: seq<Date>)
    ensures forall d :: d in r <==> d in dates && d > than
  {
    if dates == [] then []
    else
      var front := Later(dates[..|dates| - 1], than);
      var last := dates[|dates| - 1];
      assert dates == dates[..|dates| - 1] + [last];
      if last > than then front + [last] else front
  }

  lemma {:induction false} LaterIncreases(dates: seq<Date>, than: Date)
    requires Increasing(dates)
    ensures Increasing(Later(dates, than))
  {
    if dates != [] {
      var front := dates[..|dates| - 1];
      LaterIncreases(front, than);
      forall i | 0 <= i < |Later(front, than)|
        ensures Later(front, than)[i] < dates[|dates| - 1]
      {
        assert Later(front, than)[i] in front;
      }
    }
  }

  function DateLe(a: Date, b: Date): bool {
    a <= b
  }

  function StartDates(meta: Metadata): seq<Date>
    requires meta.effective.Some?
  {
    [meta.effective.value] + Later(Sort(Dedup(meta.amendments), DateLe), meta.effective.value)
  }

  lemma SortedDistinct(dates: seq<Date>)
    requires NoDup(dates)
    ensures Increasing(Sort(dates, DateLe)) && forall d :: d in Sort(dates, DateLe) <==> d in dates
  {
    SortSorted(dates, DateLe);
    SortNoDup(dates, DateLe);
    SortKeeps(dates, DateLe);
    var sorted := Sort(dates, DateLe);
    forall i, j | 0 <= i < j < |sorted|
      ensures sorted[i] < sorted[j]
    {
      assert DateLe(sorted[i], sorted[j]);
    }
  }

  lemma StartDatesExact(meta: Metadata)
    requires meta.effective.Some?
    ensures Increasing(StartDates(meta))
    ensures forall d :: d in StartDates(meta) <==> Begins(meta, d)
  {
    SortedDistinct(Dedup(meta.amendments));
    LaterIncreases(Sort(Dedup(meta.amendments), DateLe), meta.effective.value);
    var later := Later(Sort(Dedup(meta.amendments), DateLe), meta.effective.value);
    forall i | 0 <= i < |later|
      ensures meta.effective.value < later[i]
    {
      assert later[i] in later;
    }
  }

  method StatuteWindows(meta: Metadata) returns (windows: seq<Window>)
    ensures IsHistory(meta, windows)
  {
    windows := [];
    if meta.effective.None? {
      assert Dated(meta, [], windows);
      return;
    }
    var starts := StartDates(meta);
    StartDatesExact(meta);
    for i := 0 to |starts|
      invariant |windows| == i
      invariant forall j :: 0 <= j < i ==> IsVersionWindow(meta, starts[j], NextOf(starts, j), windows[j])
    {
      var start := starts[i];
      var evidence := [if i == 0 then EffectiveDate(start) else AmendmentDate(start)];
      var end: Option<Date> := None;
      if i + 1 < |starts| {
        var next := starts[i + 1];
        end := Some(next);
        evidence := evidence + [NextAmendmentDate(next)];
      } else if meta.repeal.Some? {
        end := meta.repeal;
        evidence := evidence + [RepealDate(meta.repeal.value)];
      }
      assert i > 0 ==> starts[0] < starts[i];
      windows := windows + [Window(Some(Utc(start)), UtcOf(end), evidence)];
    }
    assert Dated(meta, starts, windows);
  }

  // What the windows of a history cover.

  /** Starts increase strictly, and every window but the last ends where the next one starts. */
  lemma WindowsAreContiguous(meta: Metadata, windows: seq<Window>)
    requires IsHistory(meta, windows)
    ensures forall i :: 0 <= i < |windows| ==> windows[i].start.Some?
    ensures forall i, j :: 0 <= i < j < |windows| ==> windows[i].start.value < windows[j].start.value
    ensures forall i :: 0 <= i < |windows| - 1 ==> windows[i].end == windows[i + 1].start
    ensures windows != [] ==> windows[|windows| - 1].end == UtcOf(meta.repeal)
    ensures windows == [] <==> meta.effective.None?
    ensures windows != [] ==> windows[0].start == UtcOf(meta.effective)
  {
    var dates :| Dated(meta, dates, windows);
    if meta.effective.Some? {
      assert Begins(meta, meta.effective.value);
      assert meta.effective.value in dates;
      assert Begins(meta, dates[0]);
    } else {
      assert dates == [] || Begins(meta, dates[0]);
    }
  }

  lemma GreatestIndex(windows: seq<Window>, t: Instant) returns (k: nat)
    requires windows != [] && forall i :: 0 <= i < |windows| ==> windows[i].start.Some?
    requires windows[0].start.value <= t
    ensures k < |windows| && windows[k].start.value <= t
    ensures k + 1 < |windows| ==> t < windows[k + 1].start.value
  {
    k := 0;
    while k + 1 < |windows| && windows[k + 1].start.value <= t
      invariant k < |windows| && windows[k].start.value <= t
    {
      k := k + 1;
    }
  }

  /**
   An instant lies in a window exactly when it is not before the effective date and, if the last version
   has begun, is before any repeal.
   */
  lemma HistoryCovers(meta: Metadata, windows: seq<Window>, t: Instant)
    requires IsHistory(meta, windows) && meta.effective.Some?
    ensures windows != [] && windows[|windows| - 1].start.Some?
    ensures (exists i :: 0 <= i < |windows| && windows[i].Contains(t)) <==>
      Utc(meta.effective.value) <= t &&
      (t < windows[|windows| - 1].start.value || meta.repeal.None? || t < Utc(meta.repeal.value))
  {
    WindowsAreContiguous(meta, windows);
    if Utc(meta.effective.value) <= t {
      var k := GreatestIndex(windows, t);
      if t < windows[|windows| - 1].start.value || meta.repeal.None? || t < Utc(meta.repeal.value) {
        assert windows[k].Contains(t);
      }
      if i :| 0 <= i < |windows| && windows[i].Contains(t) {
        OnlyTheGreatestStart(meta, windows, t, i);
        assert i == |windows| - 1 || windows[i].start.value < windows[|windows| - 1].start.value;
      }
    }
  }

  /** The window an instant lies in is the one with the greatest start not after it, so there is only one. */
  lemma OnlyTheGreatestStart(meta: Metadata, windows: seq<Window>, t: Instant, i: nat)
    requires IsHistory(meta, windows) && i < |windows| && windows[i].Contains(t)
    ensures windows[i].start.Some? && windows[i].start.value <= t
    ensures forall j :: 0 <= j < |windows| && j != i ==> !windows[j].Contains(t)
    ensures forall j :: 0 <= j < |windows| && windows[j].start.Some? && windows[j].start.value <= t ==> j <= i
  {
    WindowsAreContiguous(meta, windows);
    forall j | i < j < |windows|
      ensures t < windows[j].start.value
    {
      assert windows[i].end == windows[i + 1].start;
      assert i + 1 == j || windows[i + 1].start.value < windows[j].start.value;
    }
    forall j | 0 <= j < i
      ensures !windows[j].Contains(t)
    {
      assert windows[j].end == windows[j + 1].start;
      assert j + 1 == i || windows[j + 1].start.value < windows[i].start.value;
    }
  }

  // `infer_valid_time`.

  ghost predicate Outside(meta: Metadata, at: Date) {
    meta.effective.Some? &&
    (at < meta.effective.value ||
     (meta.repeal.Some? && meta.repeal.value <= at && forall d :: Begins(meta, d) ==> d <= at))
  }

  function Noted(w: Window, note: Evidence): Window {
    w.(evidence := w.evidence + [note])
  }

  /** `w` is the window of the version that begins on `d`, with `note` as its last evidence. */
  ghost predicate IsNoted(meta: Metadata, d: Date, next: Option<Date>, note: Evidence, w: Window) {
    && w.evidence != [] && w.evidence[|w.evidence| - 1] == note
    && IsVersionWindow(meta, d, next, Window(w.start, w.end, w.evidence[..|w.evidence| - 1]))
  }

  lemma NotedIs(meta: Metadata, d: Date, next: Option<Date>, note: Evidence, v: Window)
    requires IsVersionWindow(meta, d, next, v)
    ensures IsNoted(meta, d, next, note, Noted(v, note))
  {
    var w := Noted(v, note);
    assert w.evidence[..|w.evidence| - 1] == v.evidence;
  }

  lemma OneNoted(meta: Metadata, d: Date, next: Option<Date>, note: Evidence, v: Window, w: Window)
    requires IsNoted(meta, d, next, note, v) && IsNoted(meta, d, next, note, w)
    ensures v == w
  {
    var m, n := |v.evidence| - 1, |w.evidence| - 1;
    OneVersionWindow(meta, d, next, Window(v.start, v.end, v.evidence[..m]), Window(w.start, w.end, w.evidence[..n]));
    assert v.evidence == v.evidence[..m] + [note] && w.evidence == w.evidence[..n] + [note];
  }

  ghost predicate IsVersionAt(meta: Metadata, at: Date, d: Date, next: Option<Date>, w: Window) {
    InForce(meta, at, d) && Followed(meta, d, next) && IsNoted(meta, d, next, VersionDate(at), w)
  }

  ghost predicate IsLatestVersion(meta: Metadata, d: Date, w: Window) {
    Latest(meta, d) && IsNoted(meta, d, None, NoVersionDate, w)
  }

  /** For an enacted text: the version in force at the version date, or the latest when none is given. */
  ghost predicate IsEnactedAnswer(meta: Metadata, r: Option<Window>) {
    if meta.effective.None? then r == None
    else match meta.version
      case None =>
        r.Some? && exists d {:trigger IsLatestVersion(meta, d, r.value)} :: IsLatestVersion(meta, d, r.value)
      case Some(at) =>
        && (r == None <==> Outside(meta, at))
        && (r.Some? ==>
              exists d, next {:trigger IsVersionAt(meta, at, d, next, r.value)} ::
                IsVersionAt(meta, at, d, next, r.value))
  }

  /** The window from `start` to `end`, if there is an end, each with its evidence. */
  ghost predicate Spans(r: Option<Window>, start: Date, opening: Evidence, end: Option<Date>, closing: Evidence) {
    && r.Some? && r.value.start == Some(Utc(start))
    && (end.None? ==> r.value.end == None && r.value.evidence == [opening])
    && (end.Some? ==> r.value.end == Some(Utc(end.value)) && r.value.evidence == [opening, closing])
  }

  ghost predicate ByDecision(meta: Metadata) {
    meta.kind == Case && meta.decision.Some?
  }

  ghost predicate ByPublication(meta: Metadata) {
    (meta.kind == Restatement || meta.kind == Treatise) && meta.publicationYear.Some?
  }

  /** For the other kinds: from the decision or the publication, or failing that from any effective date. */
  ghost predicate IsPlainAnswer(meta: Metadata, r: Option<Window>) {
    && (ByDecision(meta) ==>
          var overruled := if meta.overruled.Some? then meta.overruled.value else 0;
          Spans(r, meta.decision.value, DecisionDate(meta.decision.value), meta.overruled, OverruledDate(overruled)))
    && (ByPublication(meta) ==>
          var year := meta.publicationYear.value;
          var superseded := if meta.superseded.Some? then meta.superseded.value else 0;
          Spans(r, NewYear(year), PublicationYear(year), meta.superseded, SupersededDate(superseded)))
    && (!ByDecision(meta) && !ByPublication(meta) ==>
          if meta.effective.Some? then Spans(r, meta.effective.value, EffectiveDate(meta.effective.value), None, NoVersionDate)
          else r == None)
  }

  ghost predicate IsInferred(meta: Metadata, r: Option<Window>) {
    if meta.kind == Statute || meta.kind == Regulation || meta.kind == Rules then IsEnactedAnswer(meta, r)
    else IsPlainAnswer(meta, r)
  }

  lemma DatesFollow(meta: Metadata, dates: seq<Date>, windows: seq<Window>, i: nat)
    requires Dated(meta, dates, windows) && i < |dates|
    ensures Followed(meta, dates[i], NextOf(dates, i))
  {
    assert dates[i] in dates;
    if i + 1 < |dates| {
      assert dates[i + 1] in dates;
    }
    forall other | Begins(meta, other) && dates[i] < other
      ensures i + 1 < |dates| && dates[i + 1] <= other
    {
      assert other in dates;
      var j :| 0 <= j < |dates| && dates[j] == other;
      assert j > i;
    }
  }

  /** The window that holds the version date is the version in force then. */
  lemma FoundIsInForce(meta: Metadata, dates: seq<Date>, windows: seq<Window>, at: Date, i: nat)
    requires Dated(meta, dates, windows) && i < |dates| && windows[i].Contains(Utc(at))
    ensures IsVersionAt(meta, at, dates[i], NextOf(dates, i), Noted(windows[i], VersionDate(at)))
  {
    DatesFollow(meta, dates, windows, i);
    NotedIs(meta, dates[i], NextOf(dates, i), VersionDate(at), windows[i]);
    assert Dated(meta, dates, windows);
    OnlyTheGreatestStart(meta, windows, Utc(at), i);
    forall other | Begins(meta, other) && other <= at
      ensures other <= dates[i]
    {
      assert other in dates;
      var j :| 0 <= j < |dates| && dates[j] == other;
      assert windows[j].start == Some(Utc(other));
      assert j <= i;
      assert j == i || dates[j] < dates[i];
    }
  }

  lemma OutsideIsUncovered(meta: Metadata, dates: seq<Date>, windows: seq<Window>, at: Date)
    requires Dated(meta, dates, windows) && meta.effective.Some?
    ensures Outside(meta, at) <==> forall i :: 0 <= i < |windows| ==> !windows[i].Contains(Utc(at))
  {
    assert Dated(meta, dates, windows);
    WindowsAreContiguous(meta, windows);
    HistoryCovers(meta, windows, Utc(at));
    var last := |dates| - 1;
    DatesFollow(meta, dates, windows, last);
    assert windows[last].start == Some(Utc(dates[last]));
    assert (forall d :: Begins(meta, d) ==> d <= at) <==> dates[last] <= at;
  }

  /** `infer_valid_time`. */
  method InferValidTime(meta: Metadata) returns (r: Option<Window>)
    ensures IsInferred(meta, r)
  {
    if meta.kind.Enacted() {
      var windows := StatuteWindows(meta);
      r := FromVersions(meta, windows);
      return;
    }
    if meta.kind.Case? && meta.decision.Some? {
      var evidence := [DecisionDate(meta.decision.value)];
      var end: Option<Instant> := None;
      if meta.overruled.Some? {
        end := Some(Utc(meta.overruled.value));
        evidence := evidence + [OverruledDate(meta.overruled.value)];
      }
      r := Some(Window(Some(Utc(meta.decision.value)), end, evidence));
      return;
    }
    if (meta.kind.Restatement? || meta.kind.Treatise?) && meta.publicationYear.Some? {
      var evidence := [PublicationYear(meta.publicationYear.value)];
      var end: Option<Instant> := None;
      if meta.superseded.Some? {
        end := Some(Utc(meta.superseded.value));
        evidence := evidence + [SupersededDate(meta.superseded.value)];
      }
      r := Some(Window(Some(Utc(NewYear(meta.publicationYear.value))), end, evidence));
      return;
    }
    if meta.effective.Some? {
      return Some(Window(Some(Utc(meta.effective.value)), None, [EffectiveDate(meta.effective.value)]));
    }
    r := None;
  }

  /** Choosing among the windows: the last one, or the first one that holds the version date. */
  method FromVersions(meta: Metadata, windows: seq<Window>) returns (r: Option<Window>)
    requires IsHistory(meta, windows)
    ensures IsEnactedAnswer(meta, r)
  {
    ghost var dates :| Dated(meta, dates, windows);
    WindowsAreContiguous(meta, windows);
    if windows == [] {
      return None;
    }
    if meta.version.None? {
      ghost var last := |dates| - 1;
      DatesFollow(meta, dates, windows, last);
      r := Some(Noted(windows[|windows| - 1], NoVersionDate));
      NotedIs(meta, dates[last], None, NoVersionDate, windows[last]);
      assert IsLatestVersion(meta, dates[last], r.value);
      return;
    }
    var at := Utc(meta.version.value);
    OutsideIsUncovered(meta, dates, windows, meta.version.value);
    for i := 0 to |windows|
      invariant forall j :: 0 <= j < i ==> !windows[j].Contains(at)
    {
      if windows[i].Contains(at) {
        FoundIsInForce(meta, dates, windows, meta.version.value, i);
        return Some(Noted(windows[i], VersionDate(meta.version.value)));
      }
    }
    r := None;
  }

  // The answer depends on the amendment dates as a set only.

  ghost predicate SameDates(m: Metadata, m': Metadata) {
    m.(amendments := m'.amendments) == m' && forall d :: d in m.amendments <==> d in m'.amendments
  }

  lemma HistoryIgnoresAmendmentOrder(m: Metadata, m': Metadata, a: seq<Window>, b: seq<Window>)
    requires SameDates(m, m') && IsHistory(m, a) && IsHistory(m', b)
    ensures a == b
  {
    var dates :| Dated(m, dates, a);
    var dates' :| Dated(m', dates', b);
    forall d
      ensures d in dates <==> d in dates'
    {
      assert Begins(m, d) <==> Begins(m', d);
    }
    NoDupMultiset(dates, dates');
    SortedIsUnique(dates, dates', DateLe);
    forall i | 0 <= i < |a|
      ensures a[i] == b[i]
    {
      assert IsVersionWindow(m, dates[i], NextOf(dates, i), a[i]);
      assert IsVersionWindow(m', dates[i], NextOf(dates, i), b[i]);
      OneVersionWindow(m, dates[i], NextOf(dates, i), a[i], b[i]);
    }
  }

  lemma InferenceIgnoresAmendmentOrder(m: Metadata, m': Metadata, a: Option<Window>, b: Option<Window>)
    requires SameDates(m, m') && IsInferred(m, a) && IsInferred(m', b)
    ensures a == b
  {
    assert forall d :: Begins(m, d) <==> Begins(m', d);
    if m.kind.Enacted() && m.effective.Some? {
      if m.version.None? {
        var d :| IsLatestVersion(m, d, a.value);
        var d' :| IsLatestVersion(m', d', b.value);
        assert d == d';
        OneNoted(m, d, None, NoVersionDate, a.value, b.value);
      } else if a.Some? && b.Some? {
        var d, next :| IsVersionAt(m, m.version.value, d, next, a.value);
        var d', next' :| IsVersionAt(m', m.version.value, d', next', b.value);
        assert d == d' && next == next';
        OneNoted(m, d, next, VersionDate(m.version.value), a.value, b.value);
      }
    }
  }
}
