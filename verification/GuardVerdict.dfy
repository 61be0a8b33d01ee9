/** The verdict of a matched guard, and when a tightening guard never loosens it
    (internal/rules/decide.go, internal/engine/verdict.go). */
module GuardVerdict {
  import opened Wrappers
  import opened PolicyLayers
  import opened ProofCheck
  import opened GuardMatch
  import opened Engine

  datatype Risk = DataLoss | ProofGap | CannotProveSafe | NoRisk

  datatype ProofStatus = Proven(state: ProofState) | NotRequired

  // ---------- Engine.Decide ----------

  // What an unproven guard gets: enforcement other than warn blocks.
  function Strict(e: Enforcement): Verdict {
    if e == Warns then Warn else Block
  }

  function Decide(risk: Risk, status: ProofStatus, e: Enforcement): Verdict {
    if risk == NoRisk || status == NotRequired then Pass
    else if status == Proven(Present) then Pass
    else Strict(e)
  }

  // ---------- The worst state ----------

  function Severity(s: ProofState): nat {
    match s
    case Present => 0
    case Stale => 1
    case Missing => 2
    case _ => 3
  }

  function WorstState(a: ProofState, b: ProofState): ProofState {
    if Severity(b) > Severity(a) then b else a
  }

  predicate FirstOfItsRank(states: seq<ProofState>, i: int)
    requires 0 <= i < |states|
  {
    forall j :: 0 <= j < i ==> Severity(states[j]) < Severity(states[i])
  }

  // The first of the most severe among the first n states, present when none is worse.
  ghost predicate WorstAmong(states: seq<ProofState>, n: nat, w: ProofState)
    requires n <= |states|
  {
    && (forall i :: 0 <= i < n ==> Severity(states[i]) <= Severity(w))
    && (w != Present ==> exists i :: 0 <= i < n && states[i] == w && FirstOfItsRank(states, i))
  }

  ghost predicate IsWorstState(states: seq<ProofState>, w: ProofState) {
    WorstAmong(states, |states|, w)
  }

  lemma WorstStateUnique(states: seq<ProofState>, v: ProofState, w: ProofState)
    requires IsWorstState(states, v) && IsWorstState(states, w)
    ensures v == w
  {
  }

  predicate AtFault(s: ProofState) {
    s == Contradicted || s == Unreachable
  }

  // Contradicted and unreachable come before missing, missing before stale, and stale before present.
  lemma WorstStateMeans(states: seq<ProofState>, w: ProofState)
    requires IsWorstState(states, w)
    ensures AtFault(w) <==> exists i :: 0 <= i < |states| && AtFault(states[i])
    ensures AtFault(w) ==>
      exists i :: 0 <= i < |states| && states[i] == w && forall j :: 0 <= j < i ==> !AtFault(states[j])
    ensures w == Missing <==> Missing in states && forall i :: 0 <= i < |states| ==> !AtFault(states[i])
    ensures w == Stale <==>
      Stale in states && forall i :: 0 <= i < |states| ==> states[i] == Stale || states[i] == Present
    ensures w == Present <==> forall i :: 0 <= i < |states| ==> states[i] == Present
  {
    assert forall s :: AtFault(s) <==> Severity(s) == 3;
    if w != Present {
      var i :| 0 <= i < |states| && states[i] == w && FirstOfItsRank(states, i);
      assert AtFault(w) ==> forall j :: 0 <= j < i ==> !AtFault(states[j]);
    }
    assert forall i :: 0 <= i < |states| ==> Severity(states[i]) <= Severity(w);
  }

  // ---------- Requirements ----------

  // A proof whose recovery dependency the change touches counts as contradicted.
  function ProofStateOf(C: Crypto, ctx: Context, g: Guard, conflicts: set<string>, id: string, now: Time): ProofState {
    if id in conflicts then Contradicted else StateUnder(C, ctx, g, id, now)
  }

  function StatesOf(C: Crypto, ctx: Context, g: Guard, conflicts: set<string>, now: Time): seq<ProofState> {
    seq(|g.proofs|, i requires 0 <= i < |g.proofs| => ProofStateOf(C, ctx, g, conflicts, g.proofs[i], now))
    + seq(|g.facts|, i requires 0 <= i < |g.facts| => CheckFact(ctx, g.facts[i], now))
  }

  predicate NoRequirements(g: Guard) {
    g.proofs == [] && g.facts == []
  }

  // No required proof's dependencies are being changed.
  predicate Untouched(g: Guard, conflicts: set<string>) {
    forall id :: id in g.proofs ==> id !in conflicts
  }

  // A guard without requirements stops a change exactly when it is a lifeline; one with
  // requirements, exactly when they are not met.
  ghost predicate Stops(C: Crypto, ctx: Context, g: Guard, conflicts: set<string>, now: Time) {
    if NoRequirements(g) then g.kind.Lifeline?
    else !(Untouched(g, conflicts) && Satisfied(C, ctx, g, now))
  }

  ghost function VerdictOf(C: Crypto, ctx: Context, g: Guard, conflicts: set<string>, now: Time): Verdict {
    if Stops(C, ctx, g, conflicts, now) then Strict(g.enforcement) else Pass
  }

  lemma StatesMetExactly(C: Crypto, ctx: Context, g: Guard, conflicts: set<string>, now: Time, w: ProofState)
    requires IsWorstState(StatesOf(C, ctx, g, conflicts, now), w)
    ensures w == Present <==> Untouched(g, conflicts) && Satisfied(C, ctx, g, now)
  {
    var states := StatesOf(C, ctx, g, conflicts, now);
    if w == Present {
      forall id | id in g.proofs ensures id !in conflicts && ProofPresent(C, ctx, g, id, now) {
        var i :| 0 <= i < |g.proofs| && g.proofs[i] == id;
        assert Severity(states[i]) == 0;
      }
      forall id | id in g.facts ensures FactPresent(ctx, id, now) {
        var i :| 0 <= i < |g.facts| && g.facts[i] == id;
        assert Severity(states[|g.proofs| + i]) == 0;
      }
    } else {
      var i :| 0 <= i < |states| && states[i] == w;
      if i < |g.proofs| {
        assert g.proofs[i] in g.proofs;
      } else {
        assert g.facts[i - |g.proofs|] in g.facts;
      }
    }
  }

  lemma WorstOfOneMore(states: seq<ProofState>, i: nat, w: ProofState)
    requires i < |states| && WorstAmong(states, i, w)
    ensures WorstAmong(states, i + 1, WorstState(w, states[i]))
  {
    if Severity(states[i]) > Severity(w) {
      assert FirstOfItsRank(states, i);
    }
  }

  // The two loops of checkRequirements, over required proofs and then over required facts.
  method WorstRequirement(C: Crypto, ctx: Context, g: Guard, conflicts: set<string>, now: Time)
    returns (worst: ProofState)
    ensures IsWorstState(StatesOf(C, ctx, g, conflicts, now), worst)
  {
    ghost var states := StatesOf(C, ctx, g, conflicts, now);
    worst := Present;
    for i := 0 to |g.proofs|
      invariant WorstAmong(states, i, worst)
    {
      var state := StateUnder(C, ctx, g, g.proofs[i], now);
      if g.proofs[i] in conflicts {
        state := Contradicted;
      }
      assert state == states[i];
      WorstOfOneMore(states, i, worst);
      worst := WorstState(worst, state);
    }
    for i := 0 to |g.facts|
      invariant WorstAmong(states, |g.proofs| + i, worst)
    {
      var state := CheckFact(ctx, g.facts[i], now);
      assert state == states[|g.proofs| + i];
      WorstOfOneMore(states, |g.proofs| + i, worst);
      worst := WorstState(worst, state);
    }
  }

  method CheckRequirements(C: Crypto, ctx: Context, g: Guard, conflicts: set<string>, now: Time)
    returns (status: ProofStatus, risk: Risk)
    ensures NoRequirements(g) ==>
      if g.kind.Lifeline? then status == Proven(Missing) && risk == CannotProveSafe
      else status == NotRequired && risk == NoRisk
    ensures !NoRequirements(g) ==>
      status.Proven? && IsWorstState(StatesOf(C, ctx, g, conflicts, now), status.state)
    ensures !NoRequirements(g) ==>
      risk == if status.state == Present then NoRisk else if g.kind.Lifeline? then DataLoss else ProofGap
  {
    if |g.proofs| == 0 && |g.facts| == 0 {
      if g.kind.Lifeline? {
        return Proven(Missing), CannotProveSafe;
      }
      return NotRequired, NoRisk;
    }
    var worst := WorstRequirement(C, ctx, g, conflicts, now);
    if worst == Present {
      return Proven(worst), NoRisk;
    }
    return Proven(worst), if g.kind.Lifeline? then DataLoss else ProofGap;
  }

  method DecideGuard(C: Crypto, ctx: Context, g: Guard, conflicts: set<string>, now: Time) returns (v: Verdict)
    ensures v == VerdictOf(C, ctx, g, conflicts, now)
  {
    var status, risk := CheckRequirements(C, ctx, g, conflicts, now);
    if !NoRequirements(g) {
      StatesMetExactly(C, ctx, g, conflicts, now, status.state);
    }
    v := Decide(risk, status, g.enforcement);
  }

  // A record of the proof's that counts, and no change to what its recovery depends on.
  ghost predicate ProofMet(C: Crypto, ctx: Context, g: Guard, conflicts: set<string>, id: string, now: Time) {
    id !in conflicts && exists k :: ProofAt(ctx.proofs, id, k) && Counts(C, ctx, g, ctx.proofs[k], id, now)
  }

  ghost predicate FactMet(ctx: Context, id: string, now: Time) {
    exists k :: FactAt(ctx.facts, id, k) && FactHolds(ctx.facts[k], now)
  }

  predicate FactHolds(f: Fact, now: Time) {
    f.expiresAt.Some? ==> now <= f.expiresAt.value
  }

  // A guard lets the change pass exactly when every proof and fact it requires is met or, if it requires
  // none, when it is no lifeline. Otherwise it warns if it is to warn, and blocks if not.
  lemma VerdictExactly(C: Crypto, ctx: Context, g: Guard, conflicts: set<string>, now: Time)
    ensures VerdictOf(C, ctx, g, conflicts, now) == Pass <==>
      if g.proofs == [] && g.facts == [] then !g.kind.Lifeline?
      else
        && (forall id :: id in g.proofs ==> ProofMet(C, ctx, g, conflicts, id, now))
        && (forall id :: id in g.facts ==> FactMet(ctx, id, now))
    ensures VerdictOf(C, ctx, g, conflicts, now) != Pass ==>
      VerdictOf(C, ctx, g, conflicts, now) == if g.enforcement == Warns then Warn else Block
  {
    forall id
      ensures ProofMet(C, ctx, g, conflicts, id, now) <==> id !in conflicts && ProofPresent(C, ctx, g, id, now)
    {
      ProofMetExactly(C, ctx, g, id, now);
    }
    forall id ensures FactMet(ctx, id, now) <==> FactPresent(ctx, id, now) {
      FactMetExactly(ctx, id, now);
    }
  }

  lemma ProofMetExactly(C: Crypto, ctx: Context, g: Guard, id: string, now: Time)
    ensures ProofMet(C, ctx, g, {}, id, now) <==> ProofPresent(C, ctx, g, id, now)
  {
    if j :| 0 <= j < |ctx.proofs| && ctx.proofs[j].id == id {
      var k := FirstProof(ctx.proofs, id, j);
      ProofExactly(C, ctx, g, id, now, k);
      assert forall i :: ProofAt(ctx.proofs, id, i) ==> i == k;
    } else {
      ProofMissingExactly(C, ctx, g, id, now);
    }
  }

  lemma FactMetExactly(ctx: Context, id: string, now: Time)
    ensures FactMet(ctx, id, now) <==> FactPresent(ctx, id, now)
  {
    if j :| 0 <= j < |ctx.facts| && ctx.facts[j].id == id {
      var k := FirstFact(ctx.facts, id, j);
      FactExactly(ctx, id, now, k);
      assert forall i :: FactAt(ctx.facts, id, i) ==> i == k;
    } else {
      FactMissingExactly(ctx, id, now);
    }
  }

  // Over one context, neither time nor further dependency conflicts ever soften a guard's verdict.
  lemma VerdictOnlyTightens(
    C: Crypto, ctx: Context, g: Guard, few: set<string>, many: set<string>, earlier: Time, later: Time)
    requires few <= many && earlier <= later
    ensures Rank(VerdictOf(C, ctx, g, few, earlier)) <= Rank(VerdictOf(C, ctx, g, many, later))
  {
    if Satisfied(C, ctx, g, later) {
      SatisfiedIsMonotoneInTime(C, ctx, g, earlier, later);
    }
  }

  // ---------- Never loosens ----------

  // A change and all that is known when it is judged.
  datatype Case = Case(intent: Intent, ctx: Context, conflicts: set<string>, now: Time)

  // What a guard does to a change: nothing unless it applies.
  ghost function Gate(M: Matching, C: Crypto, g: Guard, k: Case): Verdict {
    if Applies(M, g, k.intent) then VerdictOf(C, k.ctx, g, k.conflicts, k.now) else Pass
  }

  ghost predicate NeverLoosens(M: Matching, C: Crypto, e: Guard, c: Guard) {
    forall k :: Rank(Gate(M, C, e, k)) <= Rank(Gate(M, C, c, k))
  }

  // A guard without requirements is informational unless it is a lifeline.
  predicate Informational(g: Guard) {
    NoRequirements(g) && !g.kind.Lifeline?
  }

  // Only an undeclared enforcement can become a warning by tightening.
  predicate EnforcementKept(e: Guard, c: Guard) {
    c.enforcement == Warns ==> e.enforcement == Warns
  }

  // A lifeline without requirements always stops, and adding a proof is a way past it.
  predicate RequirementsKept(e: Guard, c: Guard) {
    if NoRequirements(e) then NoRequirements(c) && c.kind.Lifeline? else ProofBoundsKept(e, c)
  }

  lemma DeclaredEnforcementIsKept(e: Guard, c: Guard)
    requires Tightens(e, c) && !e.enforcement.OtherEnforcement?
    ensures EnforcementKept(e, c)
  {
  }

  lemma KeepsStopping(C: Crypto, e: Guard, c: Guard, ctx: Context, conflicts: set<string>, now: Time)
    requires Tightens(e, c) && RequirementsKept(e, c) && EnforcementKept(e, c)
    requires Stops(C, ctx, e, conflicts, now)
    ensures Rank(VerdictOf(C, ctx, e, conflicts, now)) <= Rank(VerdictOf(C, ctx, c, conflicts, now))
  {
    if !NoRequirements(e) {
      if e.proofs != [] { assert e.proofs[0] in c.proofs; }
      if e.facts != [] { assert e.facts[0] in c.facts; }
      if Satisfied(C, ctx, c, now) {
        StricterIsHarderToSatisfy(C, ctx, e, c, now);
      }
    }
  }

  const NOTHING := Context([], [], [])

  // With nothing on record a guard stops whatever it applies to, unless it is informational.
  lemma NothingOnRecordStops(C: Crypto, g: Guard)
    ensures Stops(C, NOTHING, g, {}, 0) <==> !Informational(g)
  {
    if g.proofs != [] { assert !ProofPresent(C, NOTHING, g, g.proofs[0], 0) && g.proofs[0] in g.proofs; }
    if g.facts != [] { assert !FactPresent(NOTHING, g.facts[0], 0) && g.facts[0] in g.facts; }
  }

  // A record under which the candidate lets through what the existing guard stops.
  lemma WayPast(C: Crypto, e: Guard, c: Guard) returns (ctx: Context)
    requires DigestsNonempty(C) && Tightens(e, c) && !Informational(e) && !RequirementsKept(e, c)
    ensures Stops(C, ctx, e, {}, 0) && !Stops(C, ctx, c, {}, 0)
  {
    if NoRequirements(e) {
      var r := Record(None, true);
      ctx := Attested(C, r, c);
      AttestedIsSatisfied(C, r, c, 0);
    } else {
      ctx := BoundsCanBeLoosened(C, e, c);
      assert e.proofs[0] in c.proofs;
    }
  }

  // For a guard that applies to something and is not informational, a tightening guard never lets
  // through or softens what the old one stopped if and only if it still applies wherever the old
  // one did, keeps the enforcement, and keeps the requirements. The merge checks parts of each.
  lemma NeverLoosensExactly(M: Matching, C: Crypto, e: Guard, c: Guard, ci: Intent)
    requires DigestsNonempty(C) && Tightens(e, c) && Applies(M, e, ci) && !Informational(e)
    ensures NeverLoosens(M, C, e, c) <==> Covers(M, e, c) && EnforcementKept(e, c) && RequirementsKept(e, c)
  {
    if Covers(M, e, c) && EnforcementKept(e, c) && RequirementsKept(e, c) {
      forall k: Case ensures Rank(Gate(M, C, e, k)) <= Rank(Gate(M, C, c, k)) {
        if Applies(M, e, k.intent) && Stops(C, k.ctx, e, k.conflicts, k.now) {
          KeepsStopping(C, e, c, k.ctx, k.conflicts, k.now);
        }
      }
    }
    if NeverLoosens(M, C, e, c) {
      NothingOnRecordStops(C, e);
      forall i | Applies(M, e, i) ensures Applies(M, c, i) {
        var k := Case(i, NOTHING, {}, 0);
        assert Rank(Gate(M, C, e, k)) <= Rank(Gate(M, C, c, k));
      }
      var k := Case(ci, NOTHING, {}, 0);
      assert Rank(Gate(M, C, e, k)) <= Rank(Gate(M, C, c, k));
    }
    if !RequirementsKept(e, c) {
      var ctx := WayPast(C, e, c);
      var k := Case(ci, ctx, {}, 0);
      assert !(Rank(Gate(M, C, e, k)) <= Rank(Gate(M, C, c, k)));
    }
  }

  // An informational guard, or one that applies to nothing, stops nothing to begin with.
  lemma InformationalNeverLoosens(M: Matching, C: Crypto, e: Guard, c: Guard)
    requires Informational(e) || forall ci :: !Applies(M, e, ci)
    ensures NeverLoosens(M, C, e, c)
  {
  }

  // Nothing but proofs, facts, paths, enforcement and bounds was changed, the enforcement being a
  // declared one.
  predicate SameScope(e: Guard, c: Guard) {
    e.matchers == c.matchers && e.kind == c.kind && !e.enforcement.OtherEnforcement?
  }

  // A check on the two guards alone: no patterns for a guard that had none, no requirement for one
  // that had none, and require_verified and the age bound kept.
  predicate SafelyTightened(e: Guard, c: Guard) {
    && (e.paths != [] || c.paths == [])
    && (if NoRequirements(e) then NoRequirements(c) else ProofBoundsKept(e, c))
  }

  // With kind and matchers left alone, that is the condition.
  lemma NeverLoosensSameMatchers(M: Matching, C: Crypto, e: Guard, c: Guard, ci: Intent)
    requires DigestsNonempty(C) && Tightens(e, c) && Applies(M, e, ci) && !Informational(e) && SameScope(e, c)
    ensures NeverLoosens(M, C, e, c) <==> SafelyTightened(e, c)
  {
    NeverLoosensExactly(M, C, e, c, ci);
    SameMatchersCoverExactly(M, e, c, ci);
    DeclaredEnforcementIsKept(e, c);
  }

  // The whole merge, against every declaration it accepted: the guard that results never loosens
  // that declaration if and only if the same three things were kept.
  lemma MergeNeverLoosensExactly(M: Matching, C: Crypto, decls: seq<Decl>, k: nat, ci: Intent)
    requires DigestsNonempty(C) && Accepted(decls, k)
    requires Applies(M, decls[k].guard, ci) && !Informational(decls[k].guard)
    ensures
      var final := MergeAll(EMPTY, decls);
      && decls[k].guard.id in final.idx && final.idx[decls[k].guard.id] < |final.guards|
      && var e, c := decls[k].guard, final.guards[final.idx[decls[k].guard.id]];
         (NeverLoosens(M, C, e, c) <==> Covers(M, e, c) && EnforcementKept(e, c) && RequirementsKept(e, c))
  {
    var final := MergeAll(EMPTY, decls);
    FinalTightensAccepted(decls, k);
    NeverLoosensExactly(M, C, decls[k].guard, final.guards[final.idx[decls[k].guard.id]], ci);
  }

  // So with kind and matchers left alone, the whole merge never loosens an accepted declaration if
  // and only if the last accepted one of its id passes the check against it: nothing but the two
  // declarations decides.
  lemma MergeNeverLoosensSameMatchers(M: Matching, C: Crypto, decls: seq<Decl>, k: nat, m: nat, ci: Intent)
    requires DigestsNonempty(C) && Accepted(decls, k) && LastAccepted(decls, m)
    requires decls[k].guard.id == decls[m].guard.id && SameScope(decls[k].guard, decls[m].guard)
    requires Applies(M, decls[k].guard, ci) && !Informational(decls[k].guard)
    ensures
      var final := MergeAll(EMPTY, decls);
      var id := decls[k].guard.id;
      && id in final.idx && final.idx[id] < |final.guards|
      && (NeverLoosens(M, C, decls[k].guard, final.guards[final.idx[id]]) <==>
            SafelyTightened(decls[k].guard, decls[m].guard))
  {
    FinalTightensAccepted(decls, k);
    LastAcceptedStands(decls, m, |decls|);
    NeverLoosensSameMatchers(M, C, decls[k].guard, decls[m].guard, ci);
  }

  // A lifeline guard that nothing could pass tightens, by one recorded proof, into one that passes.
  lemma AddedProofOpensLifeline(M: Matching, C: Crypto, e: Guard, c: Guard, ci: Intent)
    requires DigestsNonempty(C) && Applies(M, e, ci) && e.kind.Lifeline? && NoRequirements(e)
    requires c == e.(proofs := ["copy"])
    ensures Tightens(e, c) && !NeverLoosens(M, C, e, c)
  {
    NeverLoosensExactly(M, C, e, c, ci);
  }

  // ---------- The verdict over all guards ----------

  // What each guard says of a change: nothing unless it applies.
  ghost function SaysOf(M: Matching, C: Crypto, guards: seq<Guard>, k: Case): (r: seq<Option<Verdict>>)
    ensures |r| == |guards|
    ensures forall i :: 0 <= i < |guards| ==> OrPass(r[i]) == Gate(M, C, guards[i], k)
  {
    seq(|guards|, i requires 0 <= i < |guards| =>
      if Applies(M, guards[i], k.intent) then Some(VerdictOf(C, k.ctx, guards[i], k.conflicts, k.now)) else None)
  }

  function OrPass(v: Option<Verdict>): Verdict {
    match v
    case Some(w) => w
    case None => Pass
  }

  // One finding for each of the first n guards that says something; ids and texts are left out.
  function FindingsOf(says: seq<Option<Verdict>>, n: nat): seq<Engine.Finding>
    requires n <= |says|
  {
    if n == 0 then []
    else
      FindingsOf(says, n - 1)
      + (if says[n - 1].Some? then [Engine.Finding("", says[n - 1].value, None, "", "")] else [])
  }

  lemma {:induction false} WorstOfFindings(says: seq<Option<Verdict>>, n: nat, r: nat)
    requires n <= |says|
    ensures (forall f :: f in FindingsOf(says, n) ==> Rank(f.verdict) <= r) <==>
      forall i :: 0 <= i < n ==> Rank(OrPass(says[i])) <= r
  {
    if n > 0 {
      WorstOfFindings(says, n - 1, r);
      var before, all := FindingsOf(says, n - 1), FindingsOf(says, n);
      if says[n - 1].Some? {
        assert all == before + [Engine.Finding("", says[n - 1].value, None, "", "")];
        assert all[|before|] in all;
        assert forall f :: f in before ==> f in all;
      }
    }
  }

  // v is the overall verdict on what the guards say.
  ghost predicate OverallIs(says: seq<Option<Verdict>>, v: Verdict) {
    IsWorst(FindingsOf(says, |says|), v)
  }

  lemma RankBoundedBy(findings: seq<Engine.Finding>, v: Verdict, r: nat)
    requires IsWorst(findings, v) && forall f :: f in findings ==> Rank(f.verdict) <= r
    ensures Rank(v) <= r
  {
    if v != Pass {
      var i :| 0 <= i < |findings| && findings[i].verdict == v;
      assert findings[i] in findings;
    }
  }

  // What is at most as strict one by one, with more said beside it, is at most as strict overall.
  lemma SaysLessIsWeaker(olds: seq<Option<Verdict>>, news: seq<Option<Verdict>>, v: Verdict, w: Verdict)
    requires |olds| <= |news| && forall i :: 0 <= i < |olds| ==> Rank(OrPass(olds[i])) <= Rank(OrPass(news[i]))
    requires OverallIs(olds, v) && OverallIs(news, w)
    ensures Rank(v) <= Rank(w)
  {
    WorstOfFindings(news, |news|, Rank(w));
    WorstOfFindings(olds, |olds|, Rank(w));
    RankBoundedBy(FindingsOf(olds, |olds|), v, Rank(w));
  }

  // Guards that never loosen one by one never soften the verdict or the exit.
  lemma OverallNeverSoftens(
    M: Matching, C: Crypto, before: seq<Guard>, after: seq<Guard>, k: Case, v: Verdict, w: Verdict, failOnWarn: bool)
    requires |before| <= |after| && forall i :: 0 <= i < |before| ==> NeverLoosens(M, C, before[i], after[i])
    requires OverallIs(SaysOf(M, C, before, k), v) && OverallIs(SaysOf(M, C, after, k), w)
    ensures Rank(v) <= Rank(w) && ExitCode(v, failOnWarn) <= ExitCode(w, failOnWarn)
  {
    var olds, news := SaysOf(M, C, before, k), SaysOf(M, C, after, k);
    forall i | 0 <= i < |before| ensures Rank(OrPass(olds[i])) <= Rank(OrPass(news[i])) {
      assert NeverLoosens(M, C, before[i], after[i]);
    }
    SaysLessIsWeaker(olds, news, v, w);
    ExitCodeMonotone(v, w, failOnWarn);
  }

  // The check on one slot before and after a file is added.
  predicate SlotSafe(e: Guard, c: Guard) {
    Informational(e) || (SameScope(e, c) && SafelyTightened(e, c))
  }

  lemma SafeSlotNeverLoosens(M: Matching, C: Crypto, e: Guard, c: Guard)
    requires DigestsNonempty(C) && Tightens(e, c) && SlotSafe(e, c)
    ensures NeverLoosens(M, C, e, c)
  {
    if ci :| Applies(M, e, ci) && !Informational(e) {
      NeverLoosensSameMatchers(M, C, e, c, ci);
    } else {
      InformationalNeverLoosens(M, C, e, c);
    }
  }

  // A policy file added at the end never softens the verdict on any change, if the check holds of
  // every guard there was before and the guard that stands in its place.
  lemma AddedFileNeverSoftens(
    M: Matching, C: Crypto, decls: seq<Decl>, file: seq<Decl>, k: Case, v: Verdict, w: Verdict, failOnWarn: bool)
    requires DigestsNonempty(C)
    requires
      var before, after := MergeAll(EMPTY, decls).guards, MergeAll(EMPTY, decls + file).guards;
      && (forall i :: 0 <= i < |before| && i < |after| ==> SlotSafe(before[i], after[i]))
      && OverallIs(SaysOf(M, C, before, k), v) && OverallIs(SaysOf(M, C, after, k), w)
    ensures Rank(v) <= Rank(w) && ExitCode(v, failOnWarn) <= ExitCode(w, failOnWarn)
  {
    var m, r := MergeAll(EMPTY, decls), MergeAll(EMPTY, decls + file);
    AddingAFileTightens(decls, file);
    forall i | 0 <= i < |m.guards| ensures NeverLoosens(M, C, m.guards[i], r.guards[i]) {
      assert SlotStricter(m, r, i);
      SafeSlotNeverLoosens(M, C, m.guards[i], r.guards[i]);
    }
    OverallNeverSoftens(M, C, m.guards, r.guards, k, v, w, failOnWarn);
  }
}
