/** How long a broken lifeline stays broken (internal/dora/dora.go): the one-pass machine over
    time-ordered signals, proved against a declarative pairing of breaks with recoveries. */
module Dora {
  import opened Wrappers
  import opened Sorting
  import opened Ranks
  import opened LedgerEntry

  const ALL_GUARDS := "\0all-guards"

  datatype Signal = Signal(time: Time, id: string, good: bool)

  // ---------- Signals of a ledger ----------

  function FindingSignals(time: Time, guardIds: seq<string>, good: bool, n: nat): seq<Signal>
    requires n <= |guardIds|
  {
    if n == 0 then []
    else
      FindingSignals(time, guardIds, good, n - 1)
      + (if guardIds[n - 1] == "" then [] else [Signal(time, "guard:" + guardIds[n - 1], good)])
  }

  function DecisionSignals(time: Time, d: DecisionPayload): seq<Signal> {
    if d.gateState == "broken" then []
    else
      FindingSignals(time, d.guardIds, d.verdict == "pass", |d.guardIds|)
      + (if d.verdict == "pass" then [Signal(time, ALL_GUARDS, true)] else [])
  }

  function EntrySignals(e: Entry): seq<Signal> {
    if e.entryType == DrillEntry && e.payload.drill.Some? then
      [Signal(e.createdAt, "proof:" + e.payload.drill.value.proofId, e.payload.drill.value.verified)]
    else if e.entryType == Decision && e.payload.decision.Some? then
      DecisionSignals(e.createdAt, e.payload.decision.value)
    else []
  }

  function SignalsOf(es: seq<Entry>, n: nat): seq<Signal>
    requires n <= |es|
  {
    if n == 0 then [] else SignalsOf(es, n - 1) + EntrySignals(es[n - 1])
  }

  // ---------- What each signal says of its entry ----------

  predicate IsDrill(e: Entry) {
    e.entryType == DrillEntry && e.payload.drill.Some?
  }

  // A decision whose gate could look.
  predicate IsVerdict(e: Entry) {
    e.entryType == Decision && e.payload.decision.Some? && e.payload.decision.value.gateState != "broken"
  }

  // A drill gives one signal, of its proof, good if it verified.
  predicate DrillSays(e: Entry, k: int, s: Signal) {
    && IsDrill(e) && k == 0 && s.time == e.createdAt
    && s.id == "proof:" + e.payload.drill.value.proofId && (s.good <==> e.payload.drill.value.verified)
  }

  // A decision gives one signal for each finding that names a guard, good if it passed.
  predicate FindingSays(e: Entry, k: int, s: Signal) {
    && IsVerdict(e) && 0 <= k < |e.payload.decision.value.guardIds| && s.time == e.createdAt
    && e.payload.decision.value.guardIds[k] != "" && s.id == "guard:" + e.payload.decision.value.guardIds[k]
    && (s.good <==> e.payload.decision.value.verdict == "pass")
  }

  // And one more, for all guards, if it passed.
  predicate PassSays(e: Entry, k: int, s: Signal) {
    && IsVerdict(e) && k == |e.payload.decision.value.guardIds| && e.payload.decision.value.verdict == "pass"
    && s == Signal(e.createdAt, "\0all-guards", true)
  }

  predicate Gives(e: Entry, k: int, s: Signal) {
    DrillSays(e, k, s) || FindingSays(e, k, s) || PassSays(e, k, s)
  }

  // The signals of one entry, each from its own slot, in order, and none left out.
  ghost predicate GivesAll(e: Entry, slots: seq<int>, out: seq<Signal>) {
    && |slots| == |out|
    && (forall m, n :: 0 <= m < n < |slots| ==> slots[m] < slots[n])
    && (forall m :: 0 <= m < |out| ==> Gives(e, slots[m], out[m]))
    && (forall k, s :: Gives(e, k, s) ==> k in slots)
  }

  predicate InOrder(a: (int, int), b: (int, int)) {
    a.0 < b.0 || (a.0 == b.0 && a.1 < b.1)
  }

  // The signals of a ledger, each from its own entry and slot, in order, and none left out.
  ghost predicate Collects(es: seq<Entry>, from: seq<(int, int)>, out: seq<Signal>) {
    && |from| == |out|
    && InOrderAll(from)
    && (forall m :: 0 <= m < |out| ==> 0 <= from[m].0 < |es| && Gives(es[from[m].0], from[m].1, out[m]))
    && (forall i, k, s :: 0 <= i < |es| && Gives(es[i], k, s) ==> (i, k) in from)
  }

  lemma {:induction false} FindingsGiven(e: Entry, n: nat) returns (slots: seq<int>)
    requires IsVerdict(e) && n <= |e.payload.decision.value.guardIds|
    ensures
      var d := e.payload.decision.value;
      var out := FindingSignals(e.createdAt, d.guardIds, d.verdict == "pass", n);
      && |slots| == |out|
      && (forall m, o :: 0 <= m < o < |slots| ==> slots[m] < slots[o])
      && (forall m :: 0 <= m < |out| ==> 0 <= slots[m] < n && FindingSays(e, slots[m], out[m]))
      && (forall k :: 0 <= k < n && d.guardIds[k] != "" ==> k in slots)
  {
    if n == 0 {
      slots := [];
    } else {
      slots := FindingsGiven(e, n - 1);
      if e.payload.decision.value.guardIds[n - 1] != "" {
        slots := slots + [n - 1];
      }
    }
  }

  lemma EntryGives(e: Entry) returns (slots: seq<int>)
    ensures GivesAll(e, slots, EntrySignals(e))
  {
    if IsDrill(e) {
      slots := [0];
    } else if IsVerdict(e) {
      var d := e.payload.decision.value;
      slots := FindingsGiven(e, |d.guardIds|);
      if d.verdict == "pass" {
        slots := slots + [|d.guardIds|];
      }
    } else {
      slots := [];
    }
  }

  function Tagged(i: int, slots: seq<int>): (r: seq<(int, int)>)
    ensures |r| == |slots| && forall m :: 0 <= m < |slots| ==> r[m] == (i, slots[m])
  {
    seq(|slots|, m requires 0 <= m < |slots| => (i, slots[m]))
  }

  predicate InOrderAll(from: seq<(int, int)>) {
    forall m, n :: 0 <= m < n < |from| ==> InOrder(from[m], from[n])
  }

  lemma TagsInOrder(from: seq<(int, int)>, i: int, slots: seq<int>)
    requires InOrderAll(from) && forall m :: 0 <= m < |from| ==> from[m].0 < i
    requires forall m, n :: 0 <= m < n < |slots| ==> slots[m] < slots[n]
    ensures InOrderAll(from + Tagged(i, slots))
  {
  }

  lemma NoneLeftOut(
    es: seq<Entry>, from: seq<(int, int)>, out: seq<Signal>, e: Entry, slots: seq<int>, more: seq<Signal>,
    i: int, k: int, s: Signal)
    requires Collects(es, from, out) && GivesAll(e, slots, more)
    requires 0 <= i <= |es| && Gives(if i < |es| then es[i] else e, k, s)
    ensures (i, k) in from + Tagged(|es|, slots)
  {
    if i == |es| {
      var m :| 0 <= m < |slots| && slots[m] == k;
      assert Tagged(|es|, slots)[m] == (i, k);
    }
  }

  lemma EachGiven(
    es: seq<Entry>, from: seq<(int, int)>, out: seq<Signal>, e: Entry, slots: seq<int>, more: seq<Signal>, m: int)
    requires Collects(es, from, out) && GivesAll(e, slots, more)
    requires 0 <= m < |out + more|
    ensures
      var at := (from + Tagged(|es|, slots))[m];
      0 <= at.0 <= |es| && Gives((es + [e])[at.0], at.1, (out + more)[m])
  {
  }

  lemma {:induction false} CollectOneMore(
    es: seq<Entry>, from: seq<(int, int)>, out: seq<Signal>, e: Entry, slots: seq<int>, more: seq<Signal>)
    requires Collects(es, from, out) && GivesAll(e, slots, more)
    ensures Collects(es + [e], from + Tagged(|es|, slots), out + more)
  {
    var all, at := es + [e], from + Tagged(|es|, slots);
    TagsInOrder(from, |es|, slots);
    forall m | 0 <= m < |out + more| ensures 0 <= at[m].0 < |all| && Gives(all[at[m].0], at[m].1, (out + more)[m]) {
      EachGiven(es, from, out, e, slots, more, m);
    }
    forall i, k, s | 0 <= i < |all| && Gives(all[i], k, s) ensures (i, k) in at {
      NoneLeftOut(es, from, out, e, slots, more, i, k, s);
    }
  }

  lemma {:induction false} EntryCollected(es: seq<Entry>, out: seq<Signal>, e: Entry, from: seq<(int, int)>)
    returns (r: seq<(int, int)>)
    requires Collects(es, from, out)
    ensures Collects(es + [e], r, out + EntrySignals(e))
  {
    var slots := EntryGives(e);
    CollectOneMore(es, from, out, e, slots, EntrySignals(e));
    r := from + Tagged(|es|, slots);
  }

  lemma {:induction false} SignalsCollected(es: seq<Entry>, n: nat) returns (from: seq<(int, int)>)
    requires n <= |es|
    ensures Collects(es[..n], from, SignalsOf(es, n))
  {
    if n == 0 {
      from := [];
    } else {
      from := SignalsCollected(es, n - 1);
      from := EntryCollected(es[..n - 1], SignalsOf(es, n - 1), es[n - 1], from);
      assert es[..n] == es[..n - 1] + [es[n - 1]];
    }
  }

  // A signal is collected if and only if some entry gives it.
  lemma SignalExactly(es: seq<Entry>, s: Signal)
    ensures s in SignalsOf(es, |es|) <==> exists i, k :: 0 <= i < |es| && Gives(es[i], k, s)
  {
    var from := SignalsCollected(es, |es|);
    var out := SignalsOf(es, |es|);
    assert es[..|es|] == es;
    if s in out {
      var m :| 0 <= m < |out| && out[m] == s;
      assert Gives(es[from[m].0], from[m].1, s);
    }
    if i, k :| 0 <= i < |es| && Gives(es[i], k, s) {
      var m :| 0 <= m < |from| && from[m] == (i, k);
      OneSignalASlot(es[i], k, s, out[m]);
    }
  }

  lemma OneSignalASlot(e: Entry, k: int, s: Signal, t: Signal)
    requires Gives(e, k, s) && Gives(e, k, t)
    ensures s == t
  {
  }

  method CollectSignals(es: seq<Entry>) returns (out: seq<Signal>)
    ensures out == SignalsOf(es, |es|)
    ensures exists from :: Collects(es, from, out)
  {
    ghost var from := SignalsCollected(es, |es|);
    assert es[..|es|] == es;
    out := [];
    var i := 0;
    while i < |es|
      invariant 0 <= i <= |es| && out == SignalsOf(es, i)
    {
      var more := CollectEntry(es[i]);
      out := out + more;
      i := i + 1;
    }
  }

  method CollectEntry(e: Entry) returns (out: seq<Signal>)
    ensures out == EntrySignals(e)
  {
    out := [];
    if e.entryType == DrillEntry && e.payload.drill.Some? {
      var p := e.payload.drill.value;
      out := [Signal(e.createdAt, "proof:" + p.proofId, p.verified)];
    } else if e.entryType == Decision && e.payload.decision.Some? {
      var d := e.payload.decision.value;
      if d.gateState == "broken" {
        return [];
      }
      out := CollectFindings(e.createdAt, d);
      if d.verdict == "pass" {
        out := out + [Signal(e.createdAt, ALL_GUARDS, true)];
      }
    }
  }

  method CollectFindings(time: Time, d: DecisionPayload) returns (out: seq<Signal>)
    ensures out == FindingSignals(time, d.guardIds, d.verdict == "pass", |d.guardIds|)
  {
    out := [];
    var k := 0;
    while k < |d.guardIds|
      invariant 0 <= k <= |d.guardIds|
      invariant out == FindingSignals(time, d.guardIds, d.verdict == "pass", k)
    {
      if d.guardIds[k] != "" {
        out := out + [Signal(time, "guard:" + d.guardIds[k], d.verdict == "pass")];
      }
      k := k + 1;
    }
  }

  // ---------- Breaks and recoveries ----------

  predicate IsGuard(id: string) {
    "guard:" <= id
  }

  // A good signal for the id itself or, for guards, a pass of all guards.
  predicate Clears(s: Signal, id: string) {
    s.good && (if s.id == ALL_GUARDS then IsGuard(id) else s.id == id)
  }

  predicate Earlier(a: Signal, b: Signal) {
    a.time < b.time
  }

  predicate InWindow(t: Time, from: Time, to: Time) {
    from <= t <= to
  }

  // Nothing strictly between positions i and k recovers the id.
  ghost predicate Quiet(ss: seq<Signal>, i: int, k: int, id: string)
    requires k <= |ss|
  {
    forall m :: 0 <= i < m < k ==> !Clears(ss[m], id)
  }

  // The first bad signal since the last good one.
  ghost predicate Opens(ss: seq<Signal>, i: int) {
    && 0 <= i < |ss| && !ss[i].good
    && forall j :: 0 <= j < i && ss[j].id == ss[i].id && !ss[j].good ==> !Quiet(ss, j, i, ss[i].id)
  }

  // The break at i recovers at k, and not before.
  ghost predicate Paired(ss: seq<Signal>, i: int, k: int) {
    Opens(ss, i) && i < k < |ss| && Clears(ss[k], ss[i].id) && Quiet(ss, i, k, ss[i].id)
  }

  // The break at i has not recovered before n.
  ghost predicate Pending(ss: seq<Signal>, i: int, n: int) {
    n <= |ss| && i < n && Opens(ss, i) && Quiet(ss, i, n, ss[i].id)
  }

  // ---------- What the machine remembers ----------

  // For each broken id, where it broke.
  function Opened(ss: seq<Signal>, n: nat): map<string, nat>
    requires n <= |ss|
  {
    if n == 0 then map[]
    else
      var b := Opened(ss, n - 1);
      var s := ss[n - 1];
      if s.good then map id | id in b && !Clears(s, id) :: b[id]
      else if s.id in b then b
      else b[s.id := n - 1]
  }

  lemma {:induction false} OpenedIsPending(ss: seq<Signal>, n: nat, id: string)
    requires n <= |ss| && id in Opened(ss, n)
    ensures var i := Opened(ss, n)[id]; i < n && ss[i].id == id && Pending(ss, i, n)
  {
    var s := ss[n - 1];
    var b := Opened(ss, n - 1);
    if id in b {
      OpenedIsPending(ss, n - 1, id);
      var i := b[id];
      assert Opened(ss, n)[id] == i;
      assert Quiet(ss, i, n - 1, id) && !Clears(s, id);
    } else {
      assert Opened(ss, n)[id] == n - 1 && !s.good && s.id == id;
      forall j | 0 <= j < n - 1 && ss[j].id == id && !ss[j].good ensures !Quiet(ss, j, n - 1, id) {
        if Quiet(ss, j, n - 1, id) {
          BrokenIsOpened(ss, n - 1, j);
        }
      }
    }
  }

  // A break with no recovery since: its id is remembered as broken.
  lemma {:induction false} BrokenIsOpened(ss: seq<Signal>, n: nat, j: nat)
    requires j < n <= |ss| && !ss[j].good && Quiet(ss, j, n, ss[j].id)
    ensures ss[j].id in Opened(ss, n)
  {
    if j < n - 1 {
      assert !Clears(ss[n - 1], ss[j].id);
      assert Quiet(ss, j, n - 1, ss[j].id);
      BrokenIsOpened(ss, n - 1, j);
    }
  }

  // Two pending breaks of one id are one break.
  lemma PendingUnique(ss: seq<Signal>, i: nat, j: nat, n: nat)
    requires Pending(ss, i, n) && Pending(ss, j, n) && ss[i].id == ss[j].id
    ensures i == j
  {
    if i < j { assert Quiet(ss, i, j, ss[j].id); }
    if j < i { assert Quiet(ss, j, i, ss[i].id); }
  }

  // The remembered breaks are exactly the pending ones.
  lemma OpenedExactly(ss: seq<Signal>, n: nat, i: nat)
    requires n <= |ss| && i < n
    ensures Pending(ss, i, n) <==> ss[i].id in Opened(ss, n) && Opened(ss, n)[ss[i].id] == i
  {
    var id := ss[i].id;
    if Pending(ss, i, n) {
      BrokenIsOpened(ss, n, i);
      OpenedIsPending(ss, n, id);
      PendingUnique(ss, i, Opened(ss, n)[id], n);
    } else if id in Opened(ss, n) {
      OpenedIsPending(ss, n, id);
    }
  }

  // ---------- Gaps ----------

  datatype Span = Span(open: nat, close: nat)

  predicate NoRepeats<T(==)>(s: seq<T>) {
    forall i, j :: 0 <= i < j < |s| ==> s[i] != s[j]
  }

  lemma NoRepeatsAppend<T>(a: seq<T>, b: seq<T>)
    requires NoRepeats(a) && NoRepeats(b) && forall x :: x in a ==> x !in b
    ensures NoRepeats(a + b)
  {
    var s := a + b;
    forall i, j | 0 <= i < j < |s| ensures s[i] != s[j] {
      if i < |a| <= j {
        assert s[i] in a && s[j] == b[j - |a|];
      }
    }
  }

  // A break inside the window that recovers before position n.
  ghost predicate Counted(ss: seq<Signal>, n: int, from: Time, to: Time, sp: Span) {
    sp.close < n && Paired(ss, sp.open, sp.close) && InWindow(ss[sp.open].time, from, to)
  }

  // The log holds each of them once.
  ghost predicate Logged(ss: seq<Signal>, n: int, from: Time, to: Time, log: seq<Span>) {
    NoRepeats(log) && forall sp :: sp in log <==> Counted(ss, n, from, to, sp)
  }

  // The log holds each one that recovers at position n, once.
  ghost predicate LoggedAt(ss: seq<Signal>, n: int, from: Time, to: Time, log: seq<Span>) {
    NoRepeats(log) && forall sp :: sp in log <==> sp.close == n && Counted(ss, n + 1, from, to, sp)
  }

  lemma LogGrows(ss: seq<Signal>, n: nat, from: Time, to: Time, log: seq<Span>, more: seq<Span>)
    requires Logged(ss, n, from, to, log) && LoggedAt(ss, n, from, to, more)
    ensures Logged(ss, n + 1, from, to, log + more)
  {
    forall sp | sp in log ensures sp !in more {
      assert Counted(ss, n, from, to, sp);
    }
    NoRepeatsAppend(log, more);
    forall sp ensures sp in log + more <==> Counted(ss, n + 1, from, to, sp) {
    }
  }

  function Length(ss: seq<Signal>): Span -> int {
    (sp: Span) => if sp.open < |ss| && sp.close < |ss| then ss[sp.close].time - ss[sp.open].time else 0
  }

  function Lengths(ss: seq<Signal>, log: seq<Span>): seq<int> {
    Map(Length(ss), log)
  }

  lemma LengthsAppend(ss: seq<Signal>, a: seq<Span>, b: seq<Span>)
    ensures Lengths(ss, a + b) == Lengths(ss, a) + Lengths(ss, b)
  {
  }

  // No recovery comes before its break.
  lemma GapsAreNonNegative(ss: seq<Signal>, n: int, from: Time, to: Time, log: seq<Span>)
    requires SortedBy(Earlier, ss) && Logged(ss, n, from, to, log)
    ensures forall k :: 0 <= k < |log| ==> Lengths(ss, log)[k] >= 0
  {
    forall k | 0 <= k < |log| ensures Lengths(ss, log)[k] >= 0 {
      var sp := log[k];
      assert sp in log;
      assert !Earlier(ss[sp.close], ss[sp.open]);
    }
  }

  // ---------- The machine ----------

  // The table of broken ids, as the source keeps it: each with its time.
  ghost predicate Tracks(ss: seq<Signal>, n: nat, broken: map<string, Time>)
    requires n <= |ss|
  {
    && broken.Keys == Opened(ss, n).Keys
    && forall id :: id in broken ==> Opened(ss, n)[id] < n && broken[id] == ss[Opened(ss, n)[id]].time
  }

  lemma BadTracks(ss: seq<Signal>, n: nat, broken: map<string, Time>)
    requires n < |ss| && Tracks(ss, n, broken) && !ss[n].good
    ensures var s := ss[n]; Tracks(ss, n + 1, if s.id in broken then broken else broken[s.id := s.time])
  {
    var s := ss[n];
    var after := if s.id in broken then broken else broken[s.id := s.time];
    assert after.Keys == Opened(ss, n + 1).Keys;
  }

  lemma GoodTracks(ss: seq<Signal>, n: nat, broken: map<string, Time>, after: map<string, Time>)
    requires n < |ss| && Tracks(ss, n, broken) && ss[n].good
    requires after == map id | id in broken && !Clears(ss[n], id) :: broken[id]
    ensures Tracks(ss, n + 1, after)
  {
    assert after.Keys == Opened(ss, n + 1).Keys;
  }

  lemma BadLogsNothing(ss: seq<Signal>, n: nat, from: Time, to: Time)
    requires n < |ss| && !ss[n].good
    ensures LoggedAt(ss, n, from, to, [])
  {
  }

  // What recovers at n is what is broken before n and cleared by signal n.
  lemma CountedAt(ss: seq<Signal>, n: nat, from: Time, to: Time, sp: Span)
    requires n < |ss|
    ensures sp.close == n && Counted(ss, n + 1, from, to, sp) <==>
      && sp.close == n && sp.open < n && ss[sp.open].id in Opened(ss, n) && Opened(ss, n)[ss[sp.open].id] == sp.open
      && Clears(ss[n], ss[sp.open].id) && InWindow(ss[sp.open].time, from, to)
  {
    if sp.open < n {
      OpenedExactly(ss, n, sp.open);
    }
  }

  // Recoveries among the ids handled so far.
  ghost predicate Recovered(ss: seq<Signal>, n: nat, from: Time, to: Time, ids: set<string>, log: seq<Span>)
    requires n < |ss|
  {
    NoRepeats(log) && forall sp :: sp in log <==> RecoveredSpan(ss, n, from, to, ids, sp)
  }

  ghost predicate RecoveredSpan(ss: seq<Signal>, n: nat, from: Time, to: Time, ids: set<string>, sp: Span)
    requires n < |ss|
  {
    && sp.close == n && sp.open < n && ss[sp.open].id in ids
    && ss[sp.open].id in Opened(ss, n) && Opened(ss, n)[ss[sp.open].id] == sp.open
    && Clears(ss[n], ss[sp.open].id) && InWindow(ss[sp.open].time, from, to)
  }

  lemma AllRecovered(ss: seq<Signal>, n: nat, from: Time, to: Time, ids: set<string>, log: seq<Span>)
    requires n < |ss| && Recovered(ss, n, from, to, ids, log)
    requires forall id :: id in Opened(ss, n) && Clears(ss[n], id) ==> id in ids
    ensures LoggedAt(ss, n, from, to, log)
  {
    forall sp ensures sp in log <==> sp.close == n && Counted(ss, n + 1, from, to, sp) {
      CountedAt(ss, n, from, to, sp);
    }
  }

  // One more id handled: a span if it is cleared and its break is in the window.
  ghost function NextLog(ss: seq<Signal>, n: nat, from: Time, to: Time, log: seq<Span>, id: string): seq<Span>
    requires n < |ss|
  {
    if id in Opened(ss, n) && Opened(ss, n)[id] < n && Clears(ss[n], id)
      && InWindow(ss[Opened(ss, n)[id]].time, from, to)
    then log + [Span(Opened(ss, n)[id], n)]
    else log
  }

  lemma RecoverOne(ss: seq<Signal>, n: nat, from: Time, to: Time, ids: set<string>, log: seq<Span>, id: string)
    requires n < |ss| && Recovered(ss, n, from, to, ids, log) && id !in ids && id in Opened(ss, n)
    ensures Recovered(ss, n, from, to, ids + {id}, NextLog(ss, n, from, to, log, id))
  {
    OpenedIsPending(ss, n, id);
    var i := Opened(ss, n)[id];
    assert !RecoveredSpan(ss, n, from, to, ids, Span(i, n));
    var more := NextLog(ss, n, from, to, log, id);
    forall sp ensures sp in more <==> RecoveredSpan(ss, n, from, to, ids + {id}, sp) {
      assert sp in log <==> RecoveredSpan(ss, n, from, to, ids, sp);
    }
  }

  lemma {:induction false} NextGap(ss: seq<Signal>, n: nat, from: Time, to: Time, broken: map<string, Time>,
    log: seq<Span>, id: string)
    requires n < |ss| && Tracks(ss, n, broken) && id in broken
    ensures Lengths(ss, NextLog(ss, n, from, to, log, id)) ==
      Lengths(ss, log) + (if Clears(ss[n], id) && InWindow(broken[id], from, to) then [ss[n].time - broken[id]] else [])
  {
  }

  // The table once every guard outside ids has been cleared.
  function Left(broken: map<string, Time>, ids: set<string>): map<string, Time> {
    map id | id in broken && (id in ids || !IsGuard(id)) :: broken[id]
  }

  lemma LeftStep(broken: map<string, Time>, ids: set<string>, id: string)
    requires id in ids && ids <= broken.Keys
    ensures Left(broken, ids - {id}) == if IsGuard(id) then Left(broken, ids) - {id} else Left(broken, ids)
  {
  }

  lemma LeftEnds(broken: map<string, Time>)
    ensures Left(broken, broken.Keys) == broken
    ensures Left(broken, {}) == map id | id in broken && !IsGuard(id) :: broken[id]
  {
  }

  // Gaps in the order the broken ids are visited.
  function GapsAlong(broken: map<string, Time>, order: seq<string>, time: Time, from: Time, to: Time): seq<int> {
    if order == [] then []
    else
      var before := GapsAlong(broken, order[..|order| - 1], time, from, to);
      var id := order[|order| - 1];
      if id in broken && IsGuard(id) && InWindow(broken[id], from, to) then before + [time - broken[id]] else before
  }

  // Every broken guard is cleared, in whatever order the map yields the ids.
  method VisitGuards(broken: map<string, Time>, time: Time, from: Time, to: Time)
    returns (after: map<string, Time>, gaps: seq<int>, ghost order: seq<string>)
    ensures NoRepeats(order) && (forall id :: id in order <==> id in broken)
    ensures after == Left(broken, {})
    ensures gaps == GapsAlong(broken, order, time, from, to)
  {
    after, gaps, order := broken, [], [];
    var ids := broken.Keys;
    LeftEnds(broken);
    while ids != {}
      invariant ids <= broken.Keys && after == Left(broken, ids)
      invariant NoRepeats(order) && forall id :: id in order <==> id in broken.Keys && id !in ids
      invariant gaps == GapsAlong(broken, order, time, from, to)
      decreases ids
    {
      var id :| id in ids;
      LeftStep(broken, ids, id);
      ids := ids - {id};
      assert (order + [id])[..|order|] == order;
      order := order + [id];
      if !IsGuard(id) {
        continue;
      }
      var start := broken[id];
      after := after - {id};
      if InWindow(start, from, to) {
        gaps := gaps + [time - start];
      }
    }
  }

  // The visits log every recovery at n once.
  lemma {:induction false} LogAlong(
    ss: seq<Signal>, n: nat, from: Time, to: Time, broken: map<string, Time>, order: seq<string>)
    returns (log: seq<Span>)
    requires n < |ss| && Tracks(ss, n, broken) && ss[n].id == ALL_GUARDS && ss[n].good
    requires NoRepeats(order) && forall id :: id in order ==> id in broken
    ensures Recovered(ss, n, from, to, (set id | id in order), log)
    ensures Lengths(ss, log) == GapsAlong(broken, order, ss[n].time, from, to)
  {
    if order == [] {
      log := [];
    } else {
      var init, id := order[..|order| - 1], order[|order| - 1];
      var before := LogAlong(ss, n, from, to, broken, init);
      var visited := set x | x in init;
      assert (set x | x in order) == visited + {id};
      RecoverOne(ss, n, from, to, visited, before, id);
      NextGap(ss, n, from, to, broken, before, id);
      log := NextLog(ss, n, from, to, before, id);
    }
  }

  // A pass of all guards.
  method ClearGuards(ghost ss: seq<Signal>, ghost n: nat, broken: map<string, Time>, time: Time, from: Time, to: Time)
    returns (after: map<string, Time>, gaps: seq<int>, ghost log: seq<Span>)
    requires n < |ss| && Tracks(ss, n, broken) && ss[n] == Signal(time, ALL_GUARDS, true)
    ensures after == Left(broken, {})
    ensures gaps == Lengths(ss, log) && LoggedAt(ss, n, from, to, log)
  {
    ghost var order;
    after, gaps, order := VisitGuards(broken, time, from, to);
    log := LogAlong(ss, n, from, to, broken, order);
    AllRecovered(ss, n, from, to, (set id | id in order), log);
  }

  method ClearOne(ghost ss: seq<Signal>, ghost n: nat, broken: map<string, Time>, s: Signal, from: Time, to: Time)
    returns (after: map<string, Time>, gaps: seq<int>, ghost log: seq<Span>)
    requires n < |ss| && Tracks(ss, n, broken) && ss[n] == s && s.good && s.id != ALL_GUARDS
    ensures after == broken - {s.id}
    ensures gaps == Lengths(ss, log) && LoggedAt(ss, n, from, to, log)
  {
    after, gaps, log := broken, [], [];
    if s.id in broken {
      RecoverOne(ss, n, from, to, {}, [], s.id);
      NextGap(ss, n, from, to, broken, [], s.id);
      assert {} + {s.id} == {s.id};
      log := NextLog(ss, n, from, to, [], s.id);
      var start := broken[s.id];
      after := broken - {s.id};
      if InWindow(start, from, to) {
        gaps := [s.time - start];
      }
      AllRecovered(ss, n, from, to, {s.id}, log);
    } else {
      AllRecovered(ss, n, from, to, {}, log);
    }
  }

  // Ids whose break is in the window and never recovers.
  ghost predicate Unrecovered(ss: seq<Signal>, from: Time, to: Time, id: string) {
    exists i :: Pending(ss, i, |ss|) && ss[i].id == id && InWindow(ss[i].time, from, to)
  }

  method RunSignals(ss: seq<Signal>, from: Time, to: Time)
    returns (gaps: seq<int>, broken: map<string, Time>, ghost log: seq<Span>)
    ensures Logged(ss, |ss|, from, to, log) && gaps == Lengths(ss, log)
    ensures Tracks(ss, |ss|, broken)
  {
    gaps, broken, log := [], map[], [];
    var n := 0;
    while n < |ss|
      invariant 0 <= n <= |ss|
      invariant Tracks(ss, n, broken)
      invariant Logged(ss, n, from, to, log) && gaps == Lengths(ss, log)
    {
      var s := ss[n];
      if !s.good {
        BadTracks(ss, n, broken);
        BadLogsNothing(ss, n, from, to);
        LogGrows(ss, n, from, to, log, []);
        assert log + [] == log;
        if s.id !in broken {
          broken := broken[s.id := s.time];
        }
      } else {
        var after, newGaps;
        ghost var more;
        if s.id == ALL_GUARDS {
          LeftEnds(broken);
          after, newGaps, more := ClearGuards(ss, n, broken, s.time, from, to);
        } else {
          after, newGaps, more := ClearOne(ss, n, broken, s, from, to);
        }
        GoodTracks(ss, n, broken, after);
        LogGrows(ss, n, from, to, log, more);
        LengthsAppend(ss, log, more);
        broken, gaps, log := after, gaps + newGaps, log + more;
      }
      n := n + 1;
    }
  }

  lemma UnrecoveredIsBroken(ss: seq<Signal>, broken: map<string, Time>, from: Time, to: Time, id: string)
    requires Tracks(ss, |ss|, broken)
    ensures Unrecovered(ss, from, to, id) <==> id in broken && InWindow(broken[id], from, to)
  {
    if id in broken {
      OpenedIsPending(ss, |ss|, id);
    }
    if Unrecovered(ss, from, to, id) {
      var i :| Pending(ss, i, |ss|) && ss[i].id == id && InWindow(ss[i].time, from, to);
      OpenedExactly(ss, |ss|, i);
    }
  }

  // What the source promises of one time-ordered arrangement of the signals: the gaps are those of
  // the breaks in the window, each counted once, and the rest are unrecovered.
  ghost predicate Answers(
    signals: seq<Signal>, from: Time, to: Time, ss: seq<Signal>, log: seq<Span>,
    mttr: Option<int>, unrecovered: set<string>)
  {
    && SortOf(Earlier, signals, ss) && Logged(ss, |ss|, from, to, log)
    && (forall id :: id in unrecovered <==> Unrecovered(ss, from, to, id))
    && (mttr.None? <==> log == [])
    && (mttr.Some? ==> IsMedian(Lengths(ss, log), mttr.value) && IsMiddle(Lengths(ss, log), mttr.value)
                       && WithinValues(Lengths(ss, log), mttr.value) && mttr.value >= 0)
  }

  ghost predicate IsMTTR(
    signals: seq<Signal>, from: Time, to: Time, mttr: Option<int>, unrecovered: set<string>)
  {
    exists ss, log :: Answers(signals, from, to, ss, log, mttr, unrecovered)
  }

  method LifelineMTTR(es: seq<Entry>, from: Time, to: Time) returns (mttr: Option<int>, unrecovered: set<string>)
    ensures IsMTTR(SignalsOf(es, |es|), from, to, mttr, unrecovered)
  {
    var signals := CollectSignals(es);
    var sorted := SortSlice(Earlier, signals);
    var gaps, broken;
    ghost var log;
    gaps, broken, log := RunSignals(sorted, from, to);
    GapsAreNonNegative(sorted, |sorted|, from, to, log);
    unrecovered := set id | id in broken && InWindow(broken[id], from, to);
    forall id ensures id in unrecovered <==> Unrecovered(sorted, from, to, id) {
      UnrecoveredIsBroken(sorted, broken, from, to, id);
    }
    mttr := MedianOfGaps(gaps);
    assert Answers(signals, from, to, sorted, log, mttr, unrecovered);
  }

  method MedianOfGaps(gaps: seq<int>) returns (mttr: Option<int>)
    requires forall k :: 0 <= k < |gaps| ==> gaps[k] >= 0
    ensures mttr.None? <==> gaps == []
    ensures mttr.Some? ==>
      IsMedian(gaps, mttr.value) && IsMiddle(gaps, mttr.value) && WithinValues(gaps, mttr.value) && mttr.value >= 0
  {
    if |gaps| == 0 {
      return None;
    }
    var m := MedianDuration(gaps);
    mttr := Some(m);
  }
}
