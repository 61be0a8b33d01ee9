/** When the answer depends on more than the signals (internal/dora/dora.go): sort.Slice leaves
    signals of one time in any order, which matters exactly when a break and a recovery of one
    lifeline carry the same time. */
module DoraOrder {
  import opened Wrappers
  import opened Sorting
  import opened Ranks
  import opened LedgerEntry
  import opened Dora

  // ---------- Namespaces ----------

  // A drill says nothing about a guard, and no decision says anything about a proof.
  lemma NamespacesAreApart(e: Entry, s: Signal, name: string)
    requires s in EntrySignals(e)
    ensures e.entryType == DrillEntry ==> !Clears(s, "guard:" + name) && s.id != "guard:" + name
    ensures e.entryType == Decision ==> !Clears(s, "proof:" + name) && s.id != "proof:" + name
  {
    var proof, guard := "proof:" + name, "guard:" + name;
    assert proof[0] == 'p' && guard[0] == 'g' && ALL_GUARDS[0] == '\0';
    if e.entryType == DrillEntry {
      assert s.id[0] == 'p';
    } else if e.entryType == Decision {
      DecisionSignalIds(e.createdAt, e.payload.decision.value, s);
    }
  }

  lemma DecisionSignalIds(time: Time, d: DecisionPayload, s: Signal)
    requires s in DecisionSignals(time, d)
    ensures s.id == ALL_GUARDS || (|s.id| > 0 && s.id[0] == 'g')
  {
    if s in FindingSignals(time, d.guardIds, d.verdict == "pass", |d.guardIds|) {
      FindingSignalIds(time, d.guardIds, d.verdict == "pass", |d.guardIds|, s);
    }
  }

  lemma {:induction false} FindingSignalIds(time: Time, guardIds: seq<string>, good: bool, n: nat, s: Signal)
    requires n <= |guardIds| && s in FindingSignals(time, guardIds, good, n)
    ensures |s.id| > 0 && s.id[0] == 'g'
  {
    if s in FindingSignals(time, guardIds, good, n - 1) {
      FindingSignalIds(time, guardIds, good, n - 1, s);
    }
  }

  // ---------- Every break in the window is counted once ----------

  lemma {:induction false} FindRecovery(ss: seq<Signal>, i: nat, n: nat) returns (k: nat)
    requires n <= |ss| && Opens(ss, i) && !Quiet(ss, i, n, ss[i].id)
    ensures Paired(ss, i, k) && k < n
  {
    if Quiet(ss, i, n - 1, ss[i].id) {
      k := n - 1;
    } else {
      k := FindRecovery(ss, i, n - 1);
    }
  }

  lemma RecoveryUnique(ss: seq<Signal>, i: nat, j: nat, k: nat)
    requires Paired(ss, i, j) && Paired(ss, i, k)
    ensures j == k
  {
  }

  ghost function Breaks(ss: seq<Signal>, from: Time, to: Time): set<nat> {
    set i: nat | i < |ss| && Opens(ss, i) && InWindow(ss[i].time, from, to)
  }

  lemma {:induction false} ImageSize<T, U>(s: set<T>, image: set<U>, f: T -> U)
    requires image == set x | x in s :: f(x)
    requires forall x, y :: x in s && y in s && f(x) == f(y) ==> x == y
    ensures |image| == |s|
  {
    if s == {} {
      assert image == {};
    } else {
      var x :| x in s;
      var rest := s - {x};
      var restImage := set y | y in rest :: f(y);
      assert image == restImage + {f(x)};
      ImageSize(rest, restImage, f);
    }
  }

  lemma {:induction false} NoRepeatsSize<T>(s: seq<T>, elements: set<T>)
    requires NoRepeats(s) && elements == set x | x in s
    ensures |elements| == |s|
  {
    if s == [] {
      assert elements == {};
    } else {
      var init, last := s[..|s| - 1], s[|s| - 1];
      assert elements == (set x | x in init) + {last};
      NoRepeatsSize(init, set x | x in init);
    }
  }

  function ClosedBreaks(log: seq<Span>): set<nat> {
    set sp | sp in log :: sp.open
  }

  lemma ClosedCount(ss: seq<Signal>, from: Time, to: Time, log: seq<Span>)
    requires Logged(ss, |ss|, from, to, log)
    ensures |ClosedBreaks(log)| == |log|
  {
    var spans := set sp | sp in log;
    NoRepeatsSize(log, spans);
    var open := (sp: Span) => sp.open;
    forall x, y | x in spans && y in spans && open(x) == open(y) ensures x == y {
      assert Counted(ss, |ss|, from, to, x) && Counted(ss, |ss|, from, to, y);
      RecoveryUnique(ss, x.open, x.close, y.close);
    }
    var image := set sp | sp in spans :: open(sp);
    forall i | i in ClosedBreaks(log) ensures i in image {
      var sp :| sp in log && sp.open == i;
      assert sp in spans && open(sp) == i;
    }
    forall i | i in image ensures i in ClosedBreaks(log) {
    }
    assert image == ClosedBreaks(log);
    ImageSize(spans, image, open);
  }

  ghost function PendingBreaks(ss: seq<Signal>, from: Time, to: Time): set<nat> {
    set i: nat | i < |ss| && Pending(ss, i, |ss|) && InWindow(ss[i].time, from, to)
  }

  lemma PendingCount(ss: seq<Signal>, from: Time, to: Time, unrecovered: set<string>)
    requires forall id :: id in unrecovered <==> Unrecovered(ss, from, to, id)
    ensures |PendingBreaks(ss, from, to)| == |unrecovered|
  {
    var open := PendingBreaks(ss, from, to);
    var name := (i: nat) => if i < |ss| then ss[i].id else "";
    forall i, j | i in open && j in open && name(i) == name(j) ensures i == j {
      PendingUnique(ss, i, j, |ss|);
    }
    assert unrecovered == set i | i in open :: name(i) by {
      forall id | id in unrecovered ensures exists i :: i in open && name(i) == id {
        assert Unrecovered(ss, from, to, id);
        var i :| Pending(ss, i, |ss|) && ss[i].id == id && InWindow(ss[i].time, from, to);
        assert i in open && name(i) == id;
      }
      forall i | i in open ensures name(i) in unrecovered {
        assert Unrecovered(ss, from, to, ss[i].id);
      }
    }
    ImageSize(open, unrecovered, name);
  }

  lemma BreaksSplit(ss: seq<Signal>, from: Time, to: Time, log: seq<Span>)
    requires Logged(ss, |ss|, from, to, log)
    ensures Breaks(ss, from, to) == ClosedBreaks(log) + PendingBreaks(ss, from, to)
    ensures ClosedBreaks(log) !! PendingBreaks(ss, from, to)
  {
    forall i | i in Breaks(ss, from, to) ensures i in ClosedBreaks(log) || i in PendingBreaks(ss, from, to) {
      if !Pending(ss, i, |ss|) {
        var k := FindRecovery(ss, i, |ss|);
        assert Counted(ss, |ss|, from, to, Span(i, k));
        assert Span(i, k) in log;
      }
    }
    forall i | i in ClosedBreaks(log) ensures i in Breaks(ss, from, to) && i !in PendingBreaks(ss, from, to) {
      var sp :| sp in log && sp.open == i;
      assert Counted(ss, |ss|, from, to, sp);
    }
  }

  // Breaks that start in the window: one gap each, or one unrecovered id.
  lemma BreaksAddUp(
    signals: seq<Signal>, from: Time, to: Time, ss: seq<Signal>, log: seq<Span>,
    mttr: Option<int>, unrecovered: set<string>)
    requires Answers(signals, from, to, ss, log, mttr, unrecovered)
    ensures |Breaks(ss, from, to)| == |log| + |unrecovered|
  {
    ClosedCount(ss, from, to, log);
    PendingCount(ss, from, to, unrecovered);
    BreaksSplit(ss, from, to, log);
  }

  // ---------- Episodes by time alone ----------

  ghost predicate PairedAs(ss: seq<Signal>, i: int, k: int, id: string, start: Time, end: Time) {
    Paired(ss, i, k) && ss[i].id == id && ss[i].time == start && ss[k].time == end
  }

  ghost predicate RecoversAt(ss: seq<Signal>, id: string, start: Time, end: Time) {
    exists i, k :: PairedAs(ss, i, k, id, start, end)
  }

  ghost predicate PendingAs(ss: seq<Signal>, i: int, id: string, start: Time) {
    Pending(ss, i, |ss|) && ss[i].id == id && ss[i].time == start
  }

  ghost predicate NeverRecovers(ss: seq<Signal>, id: string, start: Time) {
    exists i :: PendingAs(ss, i, id, start)
  }

  // No break shares its time with a recovery of the same lifeline.
  ghost predicate NoConflict(s: seq<Signal>) {
    forall x, y :: x in s && y in s && !x.good && Clears(y, x.id) ==> x.time != y.time
  }

  ghost predicate ClearedAt(s: seq<Signal>, id: string, t: Time) {
    exists c :: c in s && Clears(c, id) && c.time == t
  }

  ghost predicate ClearedBetween(s: seq<Signal>, id: string, after: Time, before: Time) {
    exists c :: c in s && Clears(c, id) && after < c.time < before
  }

  ghost predicate ClearedAfter(s: seq<Signal>, id: string, after: Time) {
    exists c :: c in s && Clears(c, id) && after < c.time
  }

  ghost predicate FirstBreak(s: seq<Signal>, id: string, start: Time) {
    && Signal(start, id, false) in s
    && forall y :: y in s && y.id == id && !y.good && y.time < start ==> ClearedBetween(s, id, y.time, start)
  }

  ghost predicate Episode(s: seq<Signal>, id: string, start: Time, end: Time) {
    FirstBreak(s, id, start) && start < end && ClearedAt(s, id, end) && !ClearedBetween(s, id, start, end)
  }

  lemma TimesAscend(ss: seq<Signal>, i: nat, j: nat)
    requires SortedBy(Earlier, ss) && i < |ss| && j < |ss|
    ensures i <= j ==> ss[i].time <= ss[j].time
    ensures ss[i].time < ss[j].time ==> i < j
  {
    if i < j { assert !Earlier(ss[j], ss[i]); }
    if j < i { assert !Earlier(ss[i], ss[j]); }
  }

  lemma OpensIsFirstBreak(ss: seq<Signal>, i: nat)
    requires SortedBy(Earlier, ss) && NoConflict(ss) && Opens(ss, i)
    ensures FirstBreak(ss, ss[i].id, ss[i].time)
    ensures forall j :: 0 <= j < i ==> ss[j] != ss[i]
  {
    var id, start := ss[i].id, ss[i].time;
    forall j: nat | j < i && ss[j].id == id && !ss[j].good
      ensures ss[j].time < start && ClearedBetween(ss, id, ss[j].time, start)
    {
      var m :| j < m < i && Clears(ss[m], id);
      TimesAscend(ss, j, m);
      TimesAscend(ss, m, i);
      assert ss[m] in ss && ss[j] in ss && ss[i] in ss;
    }
    forall y | y in ss && y.id == id && !y.good && y.time < start ensures ClearedBetween(ss, id, y.time, start) {
      var j :| 0 <= j < |ss| && ss[j] == y;
      TimesAscend(ss, j, i);
    }
    assert ss[i] == Signal(start, id, false);
  }

  // The first occurrence of a first break opens an episode.
  lemma FirstBreakOpens(ss: seq<Signal>, id: string, start: Time) returns (i: nat)
    requires SortedBy(Earlier, ss) && FirstBreak(ss, id, start)
    ensures Opens(ss, i) && ss[i] == Signal(start, id, false)
  {
    i := FirstOccurrence(ss, Signal(start, id, false));
    forall j: nat | j < i && ss[j].id == id && !ss[j].good ensures !Quiet(ss, j, i, id) {
      TimesAscend(ss, j, i);
      assert ss[j] != Signal(start, id, false);
      assert ss[j] in ss;
      var c :| c in ss && Clears(c, id) && ss[j].time < c.time < start;
      var m :| 0 <= m < |ss| && ss[m] == c;
      TimesAscend(ss, j, m);
      TimesAscend(ss, m, i);
    }
  }

  lemma {:induction false} FirstOccurrence<T>(s: seq<T>, x: T) returns (i: nat)
    requires x in s
    ensures i < |s| && s[i] == x && forall j :: 0 <= j < i ==> s[j] != x
  {
    if s[0] == x {
      i := 0;
    } else {
      assert x in s[1..];
      var rest := FirstOccurrence(s[1..], x);
      i := rest + 1;
    }
  }

  lemma PairedIsEpisode(ss: seq<Signal>, i: nat, k: nat)
    requires SortedBy(Earlier, ss) && NoConflict(ss) && Paired(ss, i, k)
    ensures Episode(ss, ss[i].id, ss[i].time, ss[k].time)
  {
    var id, start, end := ss[i].id, ss[i].time, ss[k].time;
    OpensIsFirstBreak(ss, i);
    TimesAscend(ss, i, k);
    assert ss[i] in ss && ss[k] in ss;
    assert ClearedAt(ss, id, end);
    if ClearedBetween(ss, id, start, end) {
      var c :| c in ss && Clears(c, id) && start < c.time < end;
      var m :| 0 <= m < |ss| && ss[m] == c;
      TimesAscend(ss, i, m);
      TimesAscend(ss, m, k);
    }
  }

  lemma EpisodeIsPaired(ss: seq<Signal>, id: string, start: Time, end: Time)
    requires SortedBy(Earlier, ss) && NoConflict(ss) && Episode(ss, id, start, end)
    ensures RecoversAt(ss, id, start, end)
  {
    var i := FirstBreakOpens(ss, id, start);
    var c :| c in ss && Clears(c, id) && c.time == end;
    var m :| 0 <= m < |ss| && ss[m] == c;
    TimesAscend(ss, i, m);
    assert !Quiet(ss, i, |ss|, id);
    var k := FindRecovery(ss, i, |ss|);
    assert k <= m;
    TimesAscend(ss, k, m);
    TimesAscend(ss, i, k);
    assert ss[k] in ss && ss[i] in ss;
    assert ss[k].time != start;
    assert ss[k].time == end;
    assert PairedAs(ss, i, k, id, start, end);
  }

  lemma PendingIsLast(ss: seq<Signal>, i: nat)
    requires SortedBy(Earlier, ss) && NoConflict(ss) && Pending(ss, i, |ss|)
    ensures FirstBreak(ss, ss[i].id, ss[i].time) && !ClearedAfter(ss, ss[i].id, ss[i].time)
  {
    OpensIsFirstBreak(ss, i);
    if ClearedAfter(ss, ss[i].id, ss[i].time) {
      var c :| c in ss && Clears(c, ss[i].id) && ss[i].time < c.time;
      var m :| 0 <= m < |ss| && ss[m] == c;
      TimesAscend(ss, i, m);
    }
  }

  lemma LastIsPending(ss: seq<Signal>, id: string, start: Time)
    requires SortedBy(Earlier, ss) && NoConflict(ss) && FirstBreak(ss, id, start) && !ClearedAfter(ss, id, start)
    ensures NeverRecovers(ss, id, start)
  {
    var i := FirstBreakOpens(ss, id, start);
    forall m: nat | i < m < |ss| ensures !Clears(ss[m], id) {
      TimesAscend(ss, i, m);
      assert ss[m] in ss && ss[i] in ss;
    }
    assert PendingAs(ss, i, id, start);
  }

  // What the machine pairs is what the times alone say.
  lemma EpisodesByTime(ss: seq<Signal>, id: string, start: Time, end: Time)
    requires SortedBy(Earlier, ss) && NoConflict(ss)
    ensures RecoversAt(ss, id, start, end) <==> Episode(ss, id, start, end)
    ensures NeverRecovers(ss, id, start) <==> FirstBreak(ss, id, start) && !ClearedAfter(ss, id, start)
  {
    if RecoversAt(ss, id, start, end) {
      var i, k :| PairedAs(ss, i, k, id, start, end);
      PairedIsEpisode(ss, i, k);
    }
    if Episode(ss, id, start, end) {
      EpisodeIsPaired(ss, id, start, end);
    }
    if NeverRecovers(ss, id, start) {
      var i :| PendingAs(ss, i, id, start);
      PendingIsLast(ss, i);
    }
    if FirstBreak(ss, id, start) && !ClearedAfter(ss, id, start) {
      LastIsPending(ss, id, start);
    }
  }

  lemma SameMembersSameEpisode(a: seq<Signal>, b: seq<Signal>, id: string, start: Time, end: Time)
    requires multiset(a) == multiset(b)
    ensures Episode(a, id, start, end) <==> Episode(b, id, start, end)
    ensures FirstBreak(a, id, start) <==> FirstBreak(b, id, start)
    ensures ClearedAfter(a, id, start) <==> ClearedAfter(b, id, start)
  {
    SameMembers(a, b);
    assert forall s, e :: ClearedBetween(a, id, s, e) == ClearedBetween(b, id, s, e);
  }

  // Two arrangements pair the same breaks with the same recoveries, by time.
  ghost predicate SameEpisodes(a: seq<Signal>, b: seq<Signal>) {
    && (forall id, start, end :: RecoversAt(a, id, start, end) <==> RecoversAt(b, id, start, end))
    && (forall id, start :: NeverRecovers(a, id, start) <==> NeverRecovers(b, id, start))
  }

  lemma NoConflictMeansSame(signals: seq<Signal>, a: seq<Signal>, b: seq<Signal>)
    requires NoConflict(signals) && SortOf(Earlier, signals, a) && SortOf(Earlier, signals, b)
    ensures NoConflict(a) && NoConflict(b) && SameEpisodes(a, b)
  {
    SameMembers(signals, a);
    SameMembers(signals, b);
    forall id, start, end ensures RecoversAt(a, id, start, end) <==> RecoversAt(b, id, start, end) {
      EpisodesByTime(a, id, start, end);
      EpisodesByTime(b, id, start, end);
      SameMembersSameEpisode(a, b, id, start, end);
    }
    forall id, start ensures NeverRecovers(a, id, start) <==> NeverRecovers(b, id, start) {
      EpisodesByTime(a, id, start, 0);
      EpisodesByTime(b, id, start, 0);
      SameMembersSameEpisode(a, b, id, start, 0);
    }
  }

  // ---------- A conflict makes the order matter ----------

  predicate RecoveryBeforeBreak(id: string, x: Signal, y: Signal) {
    x.time < y.time || (x.time == y.time && Clears(x, id) && !Clears(y, id))
  }

  predicate BreakBeforeRecovery(id: string, x: Signal, y: Signal) {
    x.time < y.time || (x.time == y.time && !Clears(x, id) && Clears(y, id))
  }

  function RecoveryOrder(id: string): (Signal, Signal) -> bool {
    (x, y) => RecoveryBeforeBreak(id, x, y)
  }

  function BreakOrder(id: string): (Signal, Signal) -> bool {
    (x, y) => BreakBeforeRecovery(id, x, y)
  }

  lemma StandsBefore(less: (Signal, Signal) -> bool, s: seq<Signal>, i: nat, j: nat)
    requires SortedBy(less, s) && i < |s| && j < |s| && less(s[i], s[j]) && !less(s[i], s[i])
    ensures i < j
  {
  }

  // Recoveries first: a break at the same time stays open past that time.
  lemma RecoveriesFirst(g: seq<Signal>, id: string, t: Time)
    requires SortedBy(Earlier, g) && SortedBy(RecoveryOrder(id), g)
    requires Signal(t, id, false) in g && ClearedAt(g, id, t)
    ensures NeverRecovers(g, id, t) || RecoversAfter(g, id, t)
  {
    var less := RecoveryOrder(id);
    var i := FirstOccurrence(g, Signal(t, id, false));
    var c :| c in g && Clears(c, id) && c.time == t;
    var m := FirstOccurrence(g, c);
    StandsBefore(less, g, m, i);
    forall j: nat | j < i && g[j].id == id && !g[j].good ensures !Quiet(g, j, i, id) {
      TimesAscend(g, j, i);
      assert g[j] != Signal(t, id, false);
      TimesAscend(g, j, m);
      assert j < m < i && Clears(g[m], id);
    }
    if Quiet(g, i, |g|, id) {
      assert PendingAs(g, i, id, t);
    } else {
      var k := FindRecovery(g, i, |g|);
      TimesAscend(g, i, k);
      assert g[k].time > t by {
        if g[k].time == t { StandsBefore(less, g, k, i); }
      }
      assert PairedAs(g, i, k, id, t, g[k].time);
      assert RecoversAt(g, id, t, g[k].time);
    }
  }

  ghost predicate RecoversAfter(s: seq<Signal>, id: string, t: Time) {
    exists end :: end > t && RecoversAt(s, id, t, end)
  }

  // Breaks first: a break at that time recovers at that time, if it opens an episode at all.
  lemma BreaksFirst(b: seq<Signal>, id: string, t: Time)
    requires SortedBy(Earlier, b) && SortedBy(BreakOrder(id), b)
    requires ClearedAt(b, id, t)
    ensures !NeverRecovers(b, id, t) && !RecoversAfter(b, id, t)
  {
    var less := BreakOrder(id);
    var c :| c in b && Clears(c, id) && c.time == t;
    var m := FirstOccurrence(b, c);
    forall i: nat | i < |b| && b[i] == Signal(t, id, false) ensures i < m {
      StandsBefore(less, b, i, m);
    }
    forall i ensures !PendingAs(b, i, id, t) {
      if 0 <= i < |b| && b[i] == Signal(t, id, false) {
        assert i < m && Clears(b[m], id);
      }
    }
    forall i, k, end | PairedAs(b, i, k, id, t, end) ensures end <= t {
      assert b[i] == Signal(t, id, false);
      assert k <= m;
      TimesAscend(b, k, m);
    }
  }

  lemma FinerSort(less: (Signal, Signal) -> bool, signals: seq<Signal>, sorted: seq<Signal>)
    requires SortOf(less, signals, sorted) && forall x, y :: Earlier(x, y) ==> less(x, y)
    ensures SortOf(Earlier, signals, sorted)
  {
  }

  lemma ConflictMeansDifferent(signals: seq<Signal>, x: Signal, y: Signal) returns (a: seq<Signal>, b: seq<Signal>)
    requires x in signals && y in signals && !x.good && Clears(y, x.id) && x.time == y.time
    ensures SortOf(Earlier, signals, a) && SortOf(Earlier, signals, b) && !SameEpisodes(a, b)
  {
    var id, t := x.id, x.time;
    var recoveries, breaks := RecoveryOrder(id), BreakOrder(id);
    a := SortExists(recoveries, signals);
    b := SortExists(breaks, signals);
    FinerSort(recoveries, signals, a);
    FinerSort(breaks, signals, b);
    SameMembers(signals, a);
    SameMembers(signals, b);
    assert x == Signal(t, id, false);
    assert ClearedAt(a, id, t) && ClearedAt(b, id, t);
    RecoveriesFirst(a, id, t);
    BreaksFirst(b, id, t);
  }

  // The pairing is the same for every order the sort may leave if and only if no break shares its
  // time with a recovery of the same lifeline.
  lemma OrderIrrelevantExactly(signals: seq<Signal>)
    ensures NoConflict(signals) <==>
      forall a, b :: SortOf(Earlier, signals, a) && SortOf(Earlier, signals, b) ==> SameEpisodes(a, b)
  {
    if NoConflict(signals) {
      forall a, b | SortOf(Earlier, signals, a) && SortOf(Earlier, signals, b) ensures SameEpisodes(a, b) {
        NoConflictMeansSame(signals, a, b);
      }
    } else {
      var x, y :| x in signals && y in signals && !x.good && Clears(y, x.id) && x.time == y.time;
      var a, b := ConflictMeansDifferent(signals, x, y);
    }
  }

  // ---------- One answer ----------

  datatype Outage = Outage(id: string, start: Time, end: Time)

  function OutageOf(ss: seq<Signal>): Span -> Outage {
    (sp: Span) =>
      if sp.open < |ss| && sp.close < |ss| then Outage(ss[sp.open].id, ss[sp.open].time, ss[sp.close].time)
      else Outage("", 0, 0)
  }

  function Outages(ss: seq<Signal>, log: seq<Span>): seq<Outage> {
    Map(OutageOf(ss), log)
  }

  function OutageLength(): Outage -> int {
    (o: Outage) => o.end - o.start
  }

  lemma LengthsOfOutages(ss: seq<Signal>, log: seq<Span>)
    ensures Lengths(ss, log) == Map(OutageLength(), Outages(ss, log))
  {
  }

  lemma OutagesAreEpisodes(ss: seq<Signal>, from: Time, to: Time, log: seq<Span>, o: Outage)
    requires Logged(ss, |ss|, from, to, log)
    ensures o in Outages(ss, log) <==> RecoversAt(ss, o.id, o.start, o.end) && InWindow(o.start, from, to)
  {
    if o in Outages(ss, log) {
      var k :| 0 <= k < |log| && OutageOf(ss)(log[k]) == o;
      assert log[k] in log;
      assert Counted(ss, |ss|, from, to, log[k]);
      assert PairedAs(ss, log[k].open, log[k].close, o.id, o.start, o.end);
    }
    if RecoversAt(ss, o.id, o.start, o.end) && InWindow(o.start, from, to) {
      var i, k :| PairedAs(ss, i, k, o.id, o.start, o.end);
      assert Counted(ss, |ss|, from, to, Span(i, k));
      assert Span(i, k) in log;
      var at :| 0 <= at < |log| && log[at] == Span(i, k);
      assert Outages(ss, log)[at] == o;
    }
  }

  lemma OutagesNoRepeats(ss: seq<Signal>, from: Time, to: Time, log: seq<Span>)
    requires SortedBy(Earlier, ss) && NoConflict(ss) && Logged(ss, |ss|, from, to, log)
    ensures NoRepeats(Outages(ss, log))
  {
    var os := Outages(ss, log);
    forall i, j | 0 <= i < j < |os| ensures os[i] != os[j] {
      var x, y := log[i], log[j];
      assert x in log && y in log && x != y;
      assert Counted(ss, |ss|, from, to, x) && Counted(ss, |ss|, from, to, y);
      OpensIsFirstBreak(ss, x.open);
      OpensIsFirstBreak(ss, y.open);
      if x.open == y.open {
        RecoveryUnique(ss, x.open, x.close, y.close);
      }
    }
  }

  lemma {:induction false} NoRepeatsCount<T>(s: seq<T>, x: T)
    requires NoRepeats(s)
    ensures multiset(s)[x] == if x in s then 1 else 0
  {
    if s != [] {
      var init, last := s[..|s| - 1], s[|s| - 1];
      assert s == init + [last];
      NoRepeatsCount(init, x);
    }
  }

  lemma SameSetSameMultiset<T>(a: seq<T>, b: seq<T>)
    requires NoRepeats(a) && NoRepeats(b) && forall x :: x in a <==> x in b
    ensures multiset(a) == multiset(b)
  {
    forall x ensures multiset(a)[x] == multiset(b)[x] {
      NoRepeatsCount(a, x);
      NoRepeatsCount(b, x);
    }
  }

  lemma SameGaps(
    signals: seq<Signal>, from: Time, to: Time, a: seq<Signal>, b: seq<Signal>, logA: seq<Span>, logB: seq<Span>)
    requires NoConflict(signals) && SortOf(Earlier, signals, a) && SortOf(Earlier, signals, b)
    requires Logged(a, |a|, from, to, logA) && Logged(b, |b|, from, to, logB)
    ensures multiset(Lengths(a, logA)) == multiset(Lengths(b, logB))
  {
    NoConflictMeansSame(signals, a, b);
    OutagesNoRepeats(a, from, to, logA);
    OutagesNoRepeats(b, from, to, logB);
    forall o ensures o in Outages(a, logA) <==> o in Outages(b, logB) {
      OutagesAreEpisodes(a, from, to, logA, o);
      OutagesAreEpisodes(b, from, to, logB, o);
    }
    SameSetSameMultiset(Outages(a, logA), Outages(b, logB));
    MapKeepsMultiset(OutageLength(), Outages(a, logA), Outages(b, logB));
    LengthsOfOutages(a, logA);
    LengthsOfOutages(b, logB);
  }

  lemma MiddleOfSame(u: seq<int>, v: seq<int>, m: int, n: int)
    requires u != [] && multiset(u) == multiset(v) && IsMiddle(u, m) && IsMiddle(v, n)
    ensures m == n
  {
    var sorted := SortExists(IntLess, u);
    SameLength(sorted, u);
    assert SortOf(IntLess, u, sorted) && SortOf(IntLess, v, sorted);
  }

  lemma SameUnrecovered(a: seq<Signal>, b: seq<Signal>, from: Time, to: Time, id: string)
    requires SameEpisodes(a, b)
    ensures Unrecovered(a, from, to, id) ==> Unrecovered(b, from, to, id)
  {
    if Unrecovered(a, from, to, id) {
      var i :| Pending(a, i, |a|) && a[i].id == id && InWindow(a[i].time, from, to);
      assert PendingAs(a, i, id, a[i].time);
      assert NeverRecovers(b, id, a[i].time);
      var j :| PendingAs(b, j, id, a[i].time);
    }
  }

  lemma AnswersAgree(
    signals: seq<Signal>, from: Time, to: Time,
    a: seq<Signal>, logA: seq<Span>, mttrA: Option<int>, unrecoveredA: set<string>,
    b: seq<Signal>, logB: seq<Span>, mttrB: Option<int>, unrecoveredB: set<string>)
    requires NoConflict(signals)
    requires Answers(signals, from, to, a, logA, mttrA, unrecoveredA)
    requires Answers(signals, from, to, b, logB, mttrB, unrecoveredB)
    ensures mttrA == mttrB && unrecoveredA == unrecoveredB
  {
    NoConflictMeansSame(signals, a, b);
    SameGaps(signals, from, to, a, b, logA, logB);
    SameLength(Lengths(a, logA), Lengths(b, logB));
    if logA != [] {
      MiddleOfSame(Lengths(a, logA), Lengths(b, logB), mttrA.value, mttrB.value);
    }
    forall id ensures id in unrecoveredA <==> id in unrecoveredB {
      SameUnrecovered(a, b, from, to, id);
      SameUnrecovered(b, a, from, to, id);
    }
  }

  // Without a conflict the answer is one: the same median and the same unrecovered lifelines,
  // whatever order the sort and the map iteration take.
  lemma OneAnswer(
    signals: seq<Signal>, from: Time, to: Time,
    mttrA: Option<int>, unrecoveredA: set<string>, mttrB: Option<int>, unrecoveredB: set<string>)
    requires NoConflict(signals)
    requires IsMTTR(signals, from, to, mttrA, unrecoveredA) && IsMTTR(signals, from, to, mttrB, unrecoveredB)
    ensures mttrA == mttrB && unrecoveredA == unrecoveredB
  {
    var a, logA :| Answers(signals, from, to, a, logA, mttrA, unrecoveredA);
    var b, logB :| Answers(signals, from, to, b, logB, mttrB, unrecoveredB);
    AnswersAgree(signals, from, to, a, logA, mttrA, unrecoveredA, b, logB, mttrB, unrecoveredB);
  }
}
