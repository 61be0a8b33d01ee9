/** What the MTTR says of the ledger itself: which proofs and guards count as unrecovered, and from
    when to when one was broken (internal/dora/dora.go). */
module DoraLedger {
  import opened Wrappers
  import opened Sorting
  import opened LedgerEntry
  import opened Dora
  import opened DoraOrder

  // ---------- Drills ----------

  predicate DrillAt(es: seq<Entry>, i: int, proof: string, verified: bool, t: Time) {
    && 0 <= i < |es| && es[i].entryType == DrillEntry && es[i].payload.drill.Some? && es[i].createdAt == t
    && es[i].payload.drill.value.proofId == proof && es[i].payload.drill.value.verified == verified
  }

  ghost predicate Drilled(es: seq<Entry>, proof: string, verified: bool, t: Time) {
    exists i :: DrillAt(es, i, proof, verified, t)
  }

  ghost predicate VerifiedAfter(es: seq<Entry>, proof: string, t: Time) {
    exists u :: t < u && Drilled(es, proof, true, u)
  }

  ghost predicate VerifiedBetween(es: seq<Entry>, proof: string, t: Time, u: Time) {
    exists v :: t < v < u && Drilled(es, proof, true, v)
  }

  // A drill of the proof failed at t, and every failure before it was followed by a verified drill
  // before t.
  ghost predicate BreaksAt(es: seq<Entry>, proof: string, t: Time) {
    && Drilled(es, proof, false, t)
    && forall u :: u < t && Drilled(es, proof, false, u) ==> VerifiedBetween(es, proof, u, t)
  }

  // A signal of a proof is a drill of it.
  lemma {:induction false} ProofSignals(es: seq<Entry>, proof: string, t: Time, good: bool)
    ensures Signal(t, "proof:" + proof, good) in SignalsOf(es, |es|) <==> Drilled(es, proof, good, t)
  {
    var s := Signal(t, "proof:" + proof, good);
    SignalExactly(es, s);
    if i, k :| 0 <= i < |es| && Gives(es[i], k, s) {
      GivenByDrill(es[i], k, s, proof);
      assert DrillAt(es, i, proof, good, t);
    }
    if i :| DrillAt(es, i, proof, good, t) {
      assert DrillSays(es[i], 0, s);
      assert Gives(es[i], 0, s);
    }
  }

  lemma GivenByDrill(e: Entry, k: int, s: Signal, proof: string)
    requires Gives(e, k, s) && s.id == "proof:" + proof
    ensures DrillSays(e, k, s) && e.payload.drill.value.proofId == proof
  {
    var p := "proof:";
    assert p[0] == 'p' && s.id[0] == 'p' && s.id[6..] == proof;
    NoFindingOfProof(e, k, s);
    assert DrillSays(e, k, s) ==> (p + e.payload.drill.value.proofId)[6..] == e.payload.drill.value.proofId;
  }

  lemma NoFindingOfProof(e: Entry, k: int, s: Signal)
    requires s.id != "" && s.id[0] == 'p'
    ensures !FindingSays(e, k, s) && !PassSays(e, k, s)
  {
    var g := "guard:";
    assert g[0] == 'g';
  }

  // Only a verified drill clears a proof.
  lemma {:induction false} ClearsProof(es: seq<Entry>, s: Signal, proof: string)
    requires s in SignalsOf(es, |es|)
    ensures Clears(s, "proof:" + proof) <==> s.good && s.id == "proof:" + proof
  {
    var id := "proof:" + proof;
    assert id[0] == 'p' && "guard:"[0] == 'g';
    assert ALL_GUARDS[0] != 'p';
  }

  lemma {:induction false} ProofCleared(es: seq<Entry>, proof: string, t: Time, u: Time)
    ensures ClearedBetween(SignalsOf(es, |es|), "proof:" + proof, t, u) <==> VerifiedBetween(es, proof, t, u)
    ensures ClearedAfter(SignalsOf(es, |es|), "proof:" + proof, t) <==> VerifiedAfter(es, proof, t)
    ensures ClearedAt(SignalsOf(es, |es|), "proof:" + proof, t) <==> Drilled(es, proof, true, t)
  {
    var ss, id := SignalsOf(es, |es|), "proof:" + proof;
    forall c | c in ss ensures Clears(c, id) <==> c == Signal(c.time, id, true) {
      ClearsProof(es, c, proof);
    }
    forall v ensures Signal(v, id, true) in ss <==> Drilled(es, proof, true, v) {
      ProofSignals(es, proof, v, true);
    }
    forall v | Drilled(es, proof, true, v) ensures Signal(v, id, true) in ss && Clears(Signal(v, id, true), id) {
      ClearsProof(es, Signal(v, id, true), proof);
    }
  }

  lemma {:induction false} ProofBreaks(es: seq<Entry>, proof: string, t: Time)
    ensures FirstBreak(SignalsOf(es, |es|), "proof:" + proof, t) <==> BreaksAt(es, proof, t)
  {
    var ss, id := SignalsOf(es, |es|), "proof:" + proof;
    ProofSignals(es, proof, t, false);
    forall u ensures Signal(u, id, false) in ss <==> Drilled(es, proof, false, u) {
      ProofSignals(es, proof, u, false);
    }
    forall u ensures ClearedBetween(ss, id, u, t) <==> VerifiedBetween(es, proof, u, t) {
      ProofCleared(es, proof, u, t);
    }
    assert forall y :: y in ss && y.id == id && !y.good ==> y == Signal(y.time, id, false);
  }

  // A break of the proof in the window, with no verified drill after it.
  ghost predicate ProofLeft(es: seq<Entry>, from: Time, to: Time, proof: string, t: Time) {
    from <= t <= to && BreaksAt(es, proof, t) && !VerifiedAfter(es, proof, t)
  }

  ghost predicate LeftBroken(signals: seq<Signal>, from: Time, to: Time, id: string, t: Time) {
    from <= t <= to && FirstBreak(signals, id, t) && !ClearedAfter(signals, id, t)
  }

  lemma {:induction false} ProofLeftBroken(es: seq<Entry>, from: Time, to: Time, proof: string, t: Time)
    ensures LeftBroken(SignalsOf(es, |es|), from, to, "proof:" + proof, t) <==> ProofLeft(es, from, to, proof, t)
  {
    ProofBreaks(es, proof, t);
    ProofCleared(es, proof, t, t);
  }

  // Without a tie, a proof is unrecovered if and only if a drill of it that broke it in the window was
  // followed by no verified one.
  lemma {:induction false} UnrecoveredProofExactly(
    es: seq<Entry>, from: Time, to: Time, mttr: Option<int>, unrecovered: set<string>, proof: string)
    requires NoConflict(SignalsOf(es, |es|)) && IsMTTR(SignalsOf(es, |es|), from, to, mttr, unrecovered)
    ensures "proof:" + proof in unrecovered <==> exists t :: ProofLeft(es, from, to, proof, t)
  {
    var signals, id := SignalsOf(es, |es|), "proof:" + proof;
    UnrecoveredByTime(signals, from, to, mttr, unrecovered, id);
    forall t ensures LeftBroken(signals, from, to, id, t) <==> ProofLeft(es, from, to, proof, t) {
      ProofLeftBroken(es, from, to, proof, t);
    }
  }

  // Ties or not, an unrecovered proof failed a drill in the window and passed none later than that.
  lemma {:induction false} UnrecoveredProofFailed(
    es: seq<Entry>, from: Time, to: Time, mttr: Option<int>, unrecovered: set<string>, proof: string)
    requires IsMTTR(SignalsOf(es, |es|), from, to, mttr, unrecovered) && "proof:" + proof in unrecovered
    ensures exists t :: from <= t <= to && Drilled(es, proof, false, t) && !VerifiedAfter(es, proof, t)
  {
    var signals, id := SignalsOf(es, |es|), "proof:" + proof;
    var ss: seq<Signal>, log: seq<Span> :| Answers(signals, from, to, ss, log, mttr, unrecovered);
    assert Unrecovered(ss, from, to, id);
    SameMembers(signals, ss);
    var i :| Pending(ss, i, |ss|) && ss[i].id == id && InWindow(ss[i].time, from, to);
    var t := ss[i].time;
    NothingLaterClears(ss, i);
    assert ss[i] in signals && ss[i] == Signal(t, id, false);
    ProofSignals(es, proof, t, false);
    ProofCleared(es, proof, t, t);
  }

  lemma NothingLaterClears(ss: seq<Signal>, i: int)
    requires SortedBy(Earlier, ss) && Pending(ss, i, |ss|)
    ensures !ClearedAfter(ss, ss[i].id, ss[i].time)
  {
    if c :| c in ss && Clears(c, ss[i].id) && ss[i].time < c.time {
      var m :| 0 <= m < |ss| && ss[m] == c;
      TimesAscend(ss, i, m);
    }
  }

  // Of any lifeline: unrecovered is a first break in the window with no recovery after it.
  lemma UnrecoveredByTime(
    signals: seq<Signal>, from: Time, to: Time, mttr: Option<int>, unrecovered: set<string>, id: string)
    requires NoConflict(signals) && IsMTTR(signals, from, to, mttr, unrecovered)
    ensures id in unrecovered <==> exists t :: LeftBroken(signals, from, to, id, t)
  {
    var ss: seq<Signal>, log: seq<Span> :| Answers(signals, from, to, ss, log, mttr, unrecovered);
    assert id in unrecovered <==> Unrecovered(ss, from, to, id);
    SameMembers(signals, ss);
    forall t ensures NeverRecovers(ss, id, t) <==> FirstBreak(signals, id, t) && !ClearedAfter(signals, id, t) {
      EpisodesByTime(ss, id, t, t);
      SameMembersSameEpisode(signals, ss, id, t, t);
    }
    if i :| Pending(ss, i, |ss|) && ss[i].id == id && InWindow(ss[i].time, from, to) {
      assert PendingAs(ss, i, id, ss[i].time);
      assert NeverRecovers(ss, id, ss[i].time);
      assert LeftBroken(signals, from, to, id, ss[i].time);
    }
    if t :| LeftBroken(signals, from, to, id, t) {
      assert NeverRecovers(ss, id, t);
      var i :| PendingAs(ss, i, id, t);
    }
  }

  // And the gaps of a proof run from a break to the first verified drill after it.
  lemma {:induction false} ProofGapsExactly(es: seq<Entry>, ss: seq<Signal>, proof: string, start: Time, end: Time)
    requires NoConflict(SignalsOf(es, |es|)) && SortOf(Earlier, SignalsOf(es, |es|), ss)
    ensures RecoversAt(ss, "proof:" + proof, start, end) <==>
      && BreaksAt(es, proof, start) && start < end && Drilled(es, proof, true, end)
      && !VerifiedBetween(es, proof, start, end)
  {
    var signals, id := SignalsOf(es, |es|), "proof:" + proof;
    SameMembers(signals, ss);
    EpisodesByTime(ss, id, start, end);
    SameMembersSameEpisode(signals, ss, id, start, end);
    ProofBreaks(es, proof, start);
    ProofCleared(es, proof, start, end);
    ProofCleared(es, proof, end, end);
  }

  // ---------- Guards ----------

  // A decision whose gate could look passed, or named the guard and did not.
  predicate PassAt(es: seq<Entry>, i: int, t: Time) {
    && 0 <= i < |es| && es[i].entryType == Decision && es[i].payload.decision.Some? && es[i].createdAt == t
    && es[i].payload.decision.value.gateState != "broken" && es[i].payload.decision.value.verdict == "pass"
  }

  predicate RefusalAt(es: seq<Entry>, i: int, guard: string, t: Time) {
    && 0 <= i < |es| && es[i].entryType == Decision && es[i].payload.decision.Some? && es[i].createdAt == t
    && es[i].payload.decision.value.gateState != "broken" && es[i].payload.decision.value.verdict != "pass"
    && guard in es[i].payload.decision.value.guardIds
  }

  ghost predicate PassedAt(es: seq<Entry>, t: Time) {
    exists i :: PassAt(es, i, t)
  }

  ghost predicate RefusedAt(es: seq<Entry>, guard: string, t: Time) {
    exists i :: RefusalAt(es, i, guard, t)
  }

  // A decision refused the guard at t, and every refusal before it was followed by a pass before t.
  ghost predicate GuardBreaksAt(es: seq<Entry>, guard: string, t: Time) {
    && RefusedAt(es, guard, t)
    && forall u :: u < t && RefusedAt(es, guard, u) ==> PassedBetween(es, u, t)
  }

  ghost predicate PassedBetween(es: seq<Entry>, t: Time, u: Time) {
    exists v :: t < v < u && PassedAt(es, v)
  }

  ghost predicate PassedAfter(es: seq<Entry>, t: Time) {
    exists v :: t < v && PassedAt(es, v)
  }

  // A break of the guard in the window, with no passing decision after it.
  ghost predicate GuardLeft(es: seq<Entry>, from: Time, to: Time, guard: string, t: Time) {
    from <= t <= to && GuardBreaksAt(es, guard, t) && !PassedAfter(es, t)
  }

  lemma GivenByFinding(e: Entry, k: int, s: Signal, guard: string)
    requires Gives(e, k, s) && s.id == "guard:" + guard
    ensures FindingSays(e, k, s) && e.payload.decision.value.guardIds[k] == guard
  {
    var g := "guard:";
    assert g[0] == 'g' && s.id[0] == 'g' && s.id[6..] == guard;
    NoDrillOfGuard(e, k, s);
    assert (g + e.payload.decision.value.guardIds[k])[6..] == e.payload.decision.value.guardIds[k];
  }

  lemma GivenByPass(e: Entry, k: int, s: Signal)
    requires Gives(e, k, s) && s.id == ALL_GUARDS
    ensures PassSays(e, k, s)
  {
    var g := "guard:";
    assert g[0] == 'g';
    NoDrillOfGuard(e, k, s);
  }

  lemma NoDrillOfGuard(e: Entry, k: int, s: Signal)
    requires s.id != "" && s.id[0] != 'p'
    ensures !DrillSays(e, k, s)
  {
    var p := "proof:";
    assert p[0] == 'p';
  }

  // A bad signal of a guard is a refusal that names it.
  lemma {:induction false} GuardBreaks(es: seq<Entry>, guard: string, t: Time)
    requires guard != ""
    ensures Signal(t, "guard:" + guard, false) in SignalsOf(es, |es|) <==> RefusedAt(es, guard, t)
  {
    var s := Signal(t, "guard:" + guard, false);
    SignalExactly(es, s);
    if i, k :| 0 <= i < |es| && Gives(es[i], k, s) {
      GivenByFinding(es[i], k, s, guard);
      assert RefusalAt(es, i, guard, t);
    }
    if i :| RefusalAt(es, i, guard, t) {
      RefusalGives(es[i], guard, s);
    }
  }

  lemma RefusalGives(e: Entry, guard: string, s: Signal)
    requires guard != "" && RefusalAt([e], 0, guard, s.time) && s == Signal(s.time, "guard:" + guard, false)
    ensures exists k :: Gives(e, k, s)
  {
    var ids := e.payload.decision.value.guardIds;
    var k :| 0 <= k < |ids| && ids[k] == guard;
    assert FindingSays(e, k, s);
    assert Gives(e, k, s);
  }

  // A guard is cleared by a passing decision, whether or not that names it.
  lemma {:induction false} GuardCleared(es: seq<Entry>, guard: string, t: Time)
    ensures ClearedAt(SignalsOf(es, |es|), "guard:" + guard, t) <==> PassedAt(es, t)
  {
    var ss := SignalsOf(es, |es|);
    if c :| c in ss && Clears(c, "guard:" + guard) && c.time == t {
      ClearIsPass(es, c, guard);
    }
    if i :| PassAt(es, i, t) {
      PassClears(es, i, t, guard);
    }
  }

  lemma {:induction false} ClearIsPass(es: seq<Entry>, c: Signal, guard: string)
    requires c in SignalsOf(es, |es|) && Clears(c, "guard:" + guard)
    ensures PassedAt(es, c.time)
  {
    SignalExactly(es, c);
    var i, k :| 0 <= i < |es| && Gives(es[i], k, c);
    if c.id == ALL_GUARDS {
      GivenByPass(es[i], k, c);
    } else {
      GivenByFinding(es[i], k, c, guard);
    }
    assert PassAt(es, i, c.time);
  }

  lemma {:induction false} PassClears(es: seq<Entry>, i: int, t: Time, guard: string)
    requires PassAt(es, i, t)
    ensures ClearedAt(SignalsOf(es, |es|), "guard:" + guard, t)
  {
    var s := Signal(t, ALL_GUARDS, true);
    var k := |es[i].payload.decision.value.guardIds|;
    assert PassSays(es[i], k, s);
    assert Gives(es[i], k, s);
    SignalExactly(es, s);
    assert Clears(s, "guard:" + guard);
  }

  lemma {:induction false} GuardClearedTimes(es: seq<Entry>, guard: string, t: Time, u: Time)
    ensures ClearedBetween(SignalsOf(es, |es|), "guard:" + guard, t, u) <==> PassedBetween(es, t, u)
    ensures ClearedAfter(SignalsOf(es, |es|), "guard:" + guard, t) <==> PassedAfter(es, t)
  {
    ClearedByTime(SignalsOf(es, |es|), "guard:" + guard, t, u);
    forall v ensures ClearedAt(SignalsOf(es, |es|), "guard:" + guard, v) <==> PassedAt(es, v) {
      GuardCleared(es, guard, v);
    }
  }

  lemma ClearedByTime(ss: seq<Signal>, id: string, t: Time, u: Time)
    ensures ClearedBetween(ss, id, t, u) <==> exists v :: t < v < u && ClearedAt(ss, id, v)
    ensures ClearedAfter(ss, id, t) <==> exists v :: t < v && ClearedAt(ss, id, v)
  {
    assert forall c :: c in ss && Clears(c, id) ==> ClearedAt(ss, id, c.time);
  }

  lemma {:induction false} GuardFirstBreak(es: seq<Entry>, guard: string, t: Time)
    requires guard != ""
    ensures FirstBreak(SignalsOf(es, |es|), "guard:" + guard, t) <==> GuardBreaksAt(es, guard, t)
  {
    var signals, id := SignalsOf(es, |es|), "guard:" + guard;
    FirstBreakByTime(signals, id, t);
    forall u ensures Signal(u, id, false) in signals <==> RefusedAt(es, guard, u) {
      GuardBreaks(es, guard, u);
    }
    forall u ensures ClearedBetween(signals, id, u, t) <==> PassedBetween(es, u, t) {
      GuardClearedTimes(es, guard, u, t);
    }
  }

  lemma FirstBreakByTime(ss: seq<Signal>, id: string, t: Time)
    ensures FirstBreak(ss, id, t) <==>
      && Signal(t, id, false) in ss
      && forall u :: u < t && Signal(u, id, false) in ss ==> ClearedBetween(ss, id, u, t)
  {
    assert forall y :: y in ss && y.id == id && !y.good ==> y == Signal(y.time, id, false);
  }

  // Without a tie, a guard is unrecovered if and only if a decision that broke it in the window was
  // followed by no passing one.
  lemma {:induction false} UnrecoveredGuardExactly(
    es: seq<Entry>, from: Time, to: Time, mttr: Option<int>, unrecovered: set<string>, guard: string)
    requires guard != ""
    requires NoConflict(SignalsOf(es, |es|)) && IsMTTR(SignalsOf(es, |es|), from, to, mttr, unrecovered)
    ensures "guard:" + guard in unrecovered <==> exists t :: GuardLeft(es, from, to, guard, t)
  {
    var signals, id := SignalsOf(es, |es|), "guard:" + guard;
    UnrecoveredByTime(signals, from, to, mttr, unrecovered, id);
    forall t ensures LeftBroken(signals, from, to, id, t) <==> GuardLeft(es, from, to, guard, t) {
      GuardFirstBreak(es, guard, t);
      GuardClearedTimes(es, guard, t, t);
    }
  }
}
