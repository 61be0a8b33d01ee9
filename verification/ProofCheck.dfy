/** Proof evaluation and what a guard's requirements make of it
    (internal/contextspec/proofcheck.go, binding.go). Only the states are modelled, not the
    explanatory texts. */
module ProofCheck {
  import opened Wrappers
  import opened PolicyLayers

  type Time = int // nanoseconds

  const HOUR := 3600000000000
  const INT64_LIMIT := 9223372036854775808 // 2^63
  // The largest number of hours a time.Duration can hold.
  const MAX_HOURS := 2562047

  datatype RecordStatus = Observed | Validated | MarkedStale | Disputed | SourceUnreachable | OtherStatus(name: string)

  datatype ProofState = Present | Missing | Stale | Contradicted | Unreachable

  datatype Dependencies = Dependencies(paths: seq<string>, commands: seq<string>, packages: seq<string>)

  datatype Proof = Proof(
    id: string, status: RecordStatus, observedAt: Option<Time>, expiresAt: Option<Time>, signed: bool,
    verified: bool, recipeDigest: string, dependencies: Option<Dependencies>, rest: string)

  datatype Drill = Drill(proof: string, dependencies: Dependencies, rest: string)

  datatype Fact = Fact(id: string, expiresAt: Option<Time>)

  datatype Context = Context(proofs: seq<Proof>, drills: seq<Drill>, facts: seq<Fact>)

  // Ed25519 verification of a signed proof, and the digest of a drill's recipe.
  datatype Crypto = Crypto(signatureOk: Proof -> bool, recipeDigest: Drill -> string)

  // ---------- The record on its own ----------

  function EvaluateProof(C: Crypto, p: Proof, now: Time): ProofState {
    if p.status == SourceUnreachable then Unreachable
    else if p.status == Disputed then Contradicted
    else if p.signed && !C.signatureOk(p) then Contradicted
    else if p.expiresAt.Some? && now > p.expiresAt.value then Stale
    else if p.status == MarkedStale then Stale
    else Present
  }

  // ---------- The record against a guard ----------

  // Normalized lists are sorted and free of duplicates, so they are equal when the sets are.
  predicate SameSet(a: seq<string>, b: seq<string>) {
    Superset(a, b) && Superset(b, a)
  }

  predicate DependenciesEqual(a: Dependencies, b: Dependencies) {
    SameSet(a.paths, b.paths) && SameSet(a.commands, b.commands) && SameSet(a.packages, b.packages)
  }

  function FindProof(proofs: seq<Proof>, id: string): Option<Proof> {
    if proofs == [] then None
    else if proofs[0].id == id then Some(proofs[0])
    else FindProof(proofs[1..], id)
  }

  function FindDrill(drills: seq<Drill>, id: string): Option<Drill> {
    if drills == [] then None
    else if drills[0].proof == id then Some(drills[0])
    else FindDrill(drills[1..], id)
  }

  function FindFact(facts: seq<Fact>, id: string): Option<Fact> {
    if facts == [] then None
    else if facts[0].id == id then Some(facts[0])
    else FindFact(facts[1..], id)
  }

  predicate IsBound(p: Proof) {
    p.recipeDigest != "" || p.dependencies.Some?
  }

  // None when the binding gives no reason to refuse.
  function BindingFailure(C: Crypto, ctx: Context, p: Proof, id: string, requireBound: bool): Option<ProofState> {
    if !IsBound(p) then (if requireBound then Some(Missing) else None)
    else if p.recipeDigest == "" || p.dependencies.None? then Some(Contradicted)
    else
      var drill := FindDrill(ctx.drills, id);
      if drill.None? then Some(Contradicted)
      else if p.recipeDigest != C.recipeDigest(drill.value) then Some(Contradicted)
      else if !DependenciesEqual(p.dependencies.value, drill.value.dependencies) then Some(Contradicted)
      else None
  }

  // int64 wrap-around.
  function Wrap64(n: int): int {
    (n + INT64_LIMIT) % (2 * INT64_LIMIT) - INT64_LIMIT
  }

  predicate TooOld(p: Proof, maxProofAgeHours: int, now: Time) {
    maxProofAgeHours > 0 && p.observedAt.Some? && now - p.observedAt.value > Wrap64(maxProofAgeHours * HOUR)
  }

  function ApplyRequirements(p: Proof, requireVerified: bool, maxProofAgeHours: int, now: Time): ProofState {
    if requireVerified && !p.verified then Missing
    else if TooOld(p, maxProofAgeHours, now) then Stale
    else Present
  }

  function CheckProofWithBinding(C: Crypto, ctx: Context, id: string, maxProofAgeHours: int, requireVerified: bool,
                                 requireBound: bool, now: Time): ProofState
  {
    match FindProof(ctx.proofs, id)
    case None => Missing
    case Some(p) =>
      var intrinsic := EvaluateProof(C, p, now);
      if intrinsic != Present then intrinsic
      else
        match BindingFailure(C, ctx, p, id, requireBound)
        case Some(failure) => failure
        case None => ApplyRequirements(p, requireVerified, maxProofAgeHours, now)
  }

  function CheckFact(ctx: Context, id: string, now: Time): ProofState {
    match FindFact(ctx.facts, id)
    case None => Missing
    case Some(f) => if f.expiresAt.Some? && now > f.expiresAt.value then Stale else Present
  }

  predicate ProofPresent(C: Crypto, ctx: Context, g: Guard, id: string, now: Time) {
    CheckProofWithBinding(C, ctx, id, g.maxProofAgeHours, g.requireVerified, g.requireBound, now) == Present
  }

  predicate FactPresent(ctx: Context, id: string, now: Time) {
    CheckFact(ctx, id, now) == Present
  }

  // Everything the guard requires is present under the guard's own bounds.
  ghost predicate Satisfied(C: Crypto, ctx: Context, g: Guard, now: Time) {
    && (forall id :: id in g.proofs ==> ProofPresent(C, ctx, g, id, now))
    && (forall id :: id in g.facts ==> FactPresent(ctx, id, now))
  }

  // ---------- When a proof counts ----------

  // Present, spelled out: no check in the chain has a reason to refuse.
  lemma PresentExactly(C: Crypto, ctx: Context, g: Guard, id: string, now: Time)
    ensures ProofPresent(C, ctx, g, id, now) <==>
      FindProof(ctx.proofs, id).Some? &&
      var p := FindProof(ctx.proofs, id).value;
      && !p.status.SourceUnreachable? && !p.status.Disputed? && !p.status.MarkedStale?
      && (p.signed ==> C.signatureOk(p))
      && (p.expiresAt.Some? ==> now <= p.expiresAt.value)
      && BindingFailure(C, ctx, p, id, g.requireBound).None?
      && (g.requireVerified ==> p.verified)
      && !TooOld(p, g.maxProofAgeHours, now)
  {
  }

  // The first of the id.
  predicate FactAt(facts: seq<Fact>, id: string, k: int) {
    0 <= k < |facts| && facts[k].id == id && forall j :: 0 <= j < k ==> facts[j].id != id
  }

  predicate ProofAt(proofs: seq<Proof>, id: string, k: int) {
    0 <= k < |proofs| && proofs[k].id == id && forall j :: 0 <= j < k ==> proofs[j].id != id
  }

  predicate DrillAt(drills: seq<Drill>, id: string, k: int) {
    0 <= k < |drills| && drills[k].proof == id && forall j :: 0 <= j < k ==> drills[j].proof != id
  }

  lemma {:induction false} FactFound(facts: seq<Fact>, id: string, k: int)
    ensures FactAt(facts, id, k) ==> FindFact(facts, id) == Some(facts[k])
    ensures FindFact(facts, id).None? ==> !FactAt(facts, id, k)
    ensures FindFact(facts, id).None? <==> forall j :: 0 <= j < |facts| ==> facts[j].id != id
  {
    if facts != [] {
      assert forall j :: 0 < j < |facts| ==> facts[j] == facts[1..][j - 1];
      FactFound(facts[1..], id, k - 1);
      assert FactAt(facts, id, k) && k > 0 ==> FactAt(facts[1..], id, k - 1);
    }
  }

  lemma {:induction false} ProofFound(proofs: seq<Proof>, id: string, k: int)
    ensures ProofAt(proofs, id, k) ==> FindProof(proofs, id) == Some(proofs[k])
    ensures FindProof(proofs, id).None? <==> forall j :: 0 <= j < |proofs| ==> proofs[j].id != id
  {
    if proofs != [] {
      assert forall j :: 0 < j < |proofs| ==> proofs[j] == proofs[1..][j - 1];
      ProofFound(proofs[1..], id, k - 1);
      assert ProofAt(proofs, id, k) && k > 0 ==> ProofAt(proofs[1..], id, k - 1);
    }
  }

  lemma {:induction false} DrillFound(drills: seq<Drill>, id: string, k: int)
    ensures DrillAt(drills, id, k) ==> FindDrill(drills, id) == Some(drills[k])
    ensures FindDrill(drills, id).None? <==> forall j :: 0 <= j < |drills| ==> drills[j].proof != id
  {
    if drills != [] {
      assert forall j :: 0 < j < |drills| ==> drills[j] == drills[1..][j - 1];
      DrillFound(drills[1..], id, k - 1);
      assert DrillAt(drills, id, k) && k > 0 ==> DrillAt(drills[1..], id, k - 1);
    }
  }

  lemma {:induction false} FirstProof(proofs: seq<Proof>, id: string, j: nat) returns (k: nat)
    requires j < |proofs| && proofs[j].id == id
    ensures ProofAt(proofs, id, k)
  {
    if i :| 0 <= i < j && proofs[i].id == id {
      k := FirstProof(proofs, id, i);
    } else {
      k := j;
    }
  }

  lemma {:induction false} FirstFact(facts: seq<Fact>, id: string, j: nat) returns (k: nat)
    requires j < |facts| && facts[j].id == id
    ensures FactAt(facts, id, k)
  {
    if i :| 0 <= i < j && facts[i].id == id {
      k := FirstFact(facts, id, i);
    } else {
      k := j;
    }
  }

  // A fact is present exactly when it is on record and not past its expiry, stale when it is past it,
  // and missing when it is not on record.
  lemma FactExactly(ctx: Context, id: string, now: Time, k: int)
    requires FactAt(ctx.facts, id, k)
    ensures FactPresent(ctx, id, now) <==> ctx.facts[k].expiresAt.None? || now <= ctx.facts[k].expiresAt.value
    ensures !FactPresent(ctx, id, now) <==> CheckFact(ctx, id, now) == Stale
  {
    FactFound(ctx.facts, id, k);
  }

  lemma FactMissingExactly(ctx: Context, id: string, now: Time)
    ensures CheckFact(ctx, id, now) == Missing <==> forall j :: 0 <= j < |ctx.facts| ==> ctx.facts[j].id != id
  {
    FactFound(ctx.facts, id, 0);
  }

  predicate SameElements(a: seq<string>, b: seq<string>) {
    (forall x :: x in a ==> x in b) && (forall x :: x in b ==> x in a)
  }

  // The recipe and the dependencies the record names are those of the first declared drill of the proof.
  predicate FitsDrill(C: Crypto, p: Proof, d: Drill) {
    && p.recipeDigest != "" && p.dependencies.Some? && p.recipeDigest == C.recipeDigest(d)
    && SameElements(p.dependencies.value.paths, d.dependencies.paths)
    && SameElements(p.dependencies.value.commands, d.dependencies.commands)
    && SameElements(p.dependencies.value.packages, d.dependencies.packages)
  }

  ghost predicate BoundWell(C: Crypto, ctx: Context, p: Proof, id: string) {
    exists k :: DrillAt(ctx.drills, id, k) && FitsDrill(C, p, ctx.drills[k])
  }

  // The bound in nanoseconds, as int64 arithmetic has it.
  predicate WrapsTo(n: int, w: int) {
    -9223372036854775808 <= w < 9223372036854775808 && (w - n) % 18446744073709551616 == 0
  }

  ghost predicate Recent(p: Proof, hours: int, now: Time) {
    hours > 0 && p.observedAt.Some? ==>
      exists bound :: WrapsTo(hours * 3600000000000, bound) && now - p.observedAt.value <= bound
  }

  // The record counts: not denied by its status, its signature, its expiry, the guard's demands or its age.
  ghost predicate Counts(C: Crypto, ctx: Context, g: Guard, p: Proof, id: string, now: Time) {
    && p.status != SourceUnreachable && p.status != Disputed && p.status != MarkedStale
    && (p.signed ==> C.signatureOk(p))
    && (p.expiresAt.Some? ==> now <= p.expiresAt.value)
    && (if p.recipeDigest == "" && p.dependencies.None? then !g.requireBound else BoundWell(C, ctx, p, id))
    && (g.requireVerified ==> p.verified)
    && Recent(p, g.maxProofAgeHours, now)
  }

  lemma RecentExactly(p: Proof, hours: int, now: Time)
    ensures Recent(p, hours, now) <==> !TooOld(p, hours, now)
  {
    var n := hours * HOUR;
    forall w ensures WrapsTo(n, w) <==> w == Wrap64(n) {
      WrapsExactly(n, w);
    }
    assert WrapsTo(n, Wrap64(n));
  }

  lemma WrapsExactly(n: int, w: int)
    ensures WrapsTo(n, w) <==> w == Wrap64(n)
  {
    var q := (n + INT64_LIMIT) / (2 * INT64_LIMIT);
    assert Wrap64(n) - n == -q * (2 * INT64_LIMIT);
    SpanTimes(-q);
    if WrapsTo(n, w) {
      var k := (w - n) / (2 * INT64_LIMIT);
      assert w - Wrap64(n) == (k + q) * (2 * INT64_LIMIT);
    }
  }

  lemma SpanTimes(q: int)
    ensures (q * 18446744073709551616) % 18446744073709551616 == 0
  {
    var k := (q * 18446744073709551616) / 18446744073709551616;
    assert 0 <= (q - k) * 18446744073709551616 < 18446744073709551616;
  }

  lemma BoundExactly(C: Crypto, ctx: Context, p: Proof, id: string, requireBound: bool)
    ensures BindingFailure(C, ctx, p, id, requireBound).None? <==>
      if p.recipeDigest == "" && p.dependencies.None? then !requireBound else BoundWell(C, ctx, p, id)
  {
    FirstDrill(ctx.drills, id);
    forall k ensures DrillAt(ctx.drills, id, k) ==> FindDrill(ctx.drills, id) == Some(ctx.drills[k]) {
      DrillFound(ctx.drills, id, k);
    }
  }

  lemma {:induction false} FirstDrill(drills: seq<Drill>, id: string)
    ensures FindDrill(drills, id).Some? ==> exists k :: DrillAt(drills, id, k)
  {
    if drills != [] && drills[0].proof == id {
      assert DrillAt(drills, id, 0);
    } else if drills != [] {
      FirstDrill(drills[1..], id);
      if k :| DrillAt(drills[1..], id, k) {
        assert forall j :: 0 < j < |drills| ==> drills[j] == drills[1..][j - 1];
        assert DrillAt(drills, id, k + 1);
      }
    }
  }

  // A proof is present exactly when the first record of its id counts.
  lemma ProofExactly(C: Crypto, ctx: Context, g: Guard, id: string, now: Time, k: int)
    requires ProofAt(ctx.proofs, id, k)
    ensures ProofPresent(C, ctx, g, id, now) <==> Counts(C, ctx, g, ctx.proofs[k], id, now)
  {
    var p := ctx.proofs[k];
    ProofFound(ctx.proofs, id, k);
    PresentExactly(C, ctx, g, id, now);
    BoundExactly(C, ctx, p, id, g.requireBound);
    RecentExactly(p, g.maxProofAgeHours, now);
  }

  lemma ProofMissingExactly(C: Crypto, ctx: Context, g: Guard, id: string, now: Time)
    requires forall j :: 0 <= j < |ctx.proofs| ==> ctx.proofs[j].id != id
    ensures StateUnder(C, ctx, g, id, now) == Missing
  {
    ProofFound(ctx.proofs, id, 0);
  }

  // The other outcomes, which tell the owner what to do about the proof.
  lemma OutcomesExactly(C: Crypto, ctx: Context, g: Guard, id: string, now: Time)
    ensures
      var state := StateUnder(C, ctx, g, id, now);
      var found := FindProof(ctx.proofs, id);
      && (state == Unreachable <==> found.Some? && found.value.status.SourceUnreachable?)
      && (state == Missing <==> found.None? || Insufficient(C, ctx, g, found.value, id, now))
      && (state == Contradicted <==> found.Some? && Refuted(C, ctx, found.value, id, now))
  {
  }

  function StateUnder(C: Crypto, ctx: Context, g: Guard, id: string, now: Time): ProofState {
    CheckProofWithBinding(C, ctx, id, g.maxProofAgeHours, g.requireVerified, g.requireBound, now)
  }

  predicate Expired(p: Proof, now: Time) {
    p.status.MarkedStale? || (p.expiresAt.Some? && now > p.expiresAt.value)
  }

  // The record itself says the recovery failed, or its signature does.
  predicate SelfRefuted(C: Crypto, p: Proof) {
    p.status.Disputed? || (p.signed && !C.signatureOk(p))
  }

  // A binding is declared and does not fit the declared drill.
  predicate Misbound(C: Crypto, ctx: Context, p: Proof, id: string) {
    IsBound(p) && !(
      && p.recipeDigest != "" && p.dependencies.Some?
      && FindDrill(ctx.drills, id).Some?
      && p.recipeDigest == C.recipeDigest(FindDrill(ctx.drills, id).value)
      && DependenciesEqual(p.dependencies.value, FindDrill(ctx.drills, id).value.dependencies))
  }

  predicate Refuted(C: Crypto, ctx: Context, p: Proof, id: string, now: Time) {
    !p.status.SourceUnreachable? && (SelfRefuted(C, p) || (!Expired(p, now) && Misbound(C, ctx, p, id)))
  }

  // A sound record that is less than the guard asks for.
  predicate Insufficient(C: Crypto, ctx: Context, g: Guard, p: Proof, id: string, now: Time) {
    && !p.status.SourceUnreachable? && !SelfRefuted(C, p) && !Expired(p, now) && !Misbound(C, ctx, p, id)
    && ((g.requireBound && !IsBound(p)) || (g.requireVerified && !p.verified))
  }

  // ---------- Time ----------

  // Time alone changes a proof's state in one way: it becomes stale, and stays so.
  lemma TimeOnlyMakesStale(C: Crypto, ctx: Context, g: Guard, id: string, earlier: Time, later: Time)
    requires earlier <= later
    ensures StateUnder(C, ctx, g, id, later) == StateUnder(C, ctx, g, id, earlier)
      || StateUnder(C, ctx, g, id, later) == Stale
    ensures StateUnder(C, ctx, g, id, earlier) == Stale ==> StateUnder(C, ctx, g, id, later) == Stale
  {
  }

  // What is present later was present at every earlier time: over one context, a lapse is final.
  lemma PresentIsMonotoneInTime(C: Crypto, ctx: Context, g: Guard, id: string, earlier: Time, later: Time)
    requires earlier <= later && ProofPresent(C, ctx, g, id, later)
    ensures ProofPresent(C, ctx, g, id, earlier)
  {
  }

  lemma SatisfiedIsMonotoneInTime(C: Crypto, ctx: Context, g: Guard, earlier: Time, later: Time)
    requires earlier <= later && Satisfied(C, ctx, g, later)
    ensures Satisfied(C, ctx, g, earlier)
  {
    forall id | id in g.proofs ensures ProofPresent(C, ctx, g, id, earlier) {
      PresentIsMonotoneInTime(C, ctx, g, id, earlier, later);
    }
    forall id | id in g.facts ensures FactPresent(ctx, id, earlier) {
      assert FactPresent(ctx, id, later);
    }
  }

  // ---------- Ages ----------

  // The later bound is at least as strict, in the wrapped nanoseconds the code compares.
  predicate AgeKept(existing: int, candidate: int) {
    existing <= 0 || (candidate > 0 && Wrap64(candidate * HOUR) <= Wrap64(existing * HOUR))
  }

  function AgedProof(observedAt: Time): Proof {
    Proof("", Validated, Some(observedAt), None, false, true, "", None, "")
  }

  // One age bound refuses everything another refuses if and only if it is at most the other after
  // wrapping.
  lemma AgeKeptExactly(existing: int, candidate: int)
    ensures AgeKept(existing, candidate) <==>
      forall p: Proof, now :: TooOld(p, existing, now) ==> TooOld(p, candidate, now)
  {
    if !AgeKept(existing, candidate) {
      var p := AgedProof(-Wrap64(existing * HOUR) - 1);
      assert TooOld(p, existing, 0) && !TooOld(p, candidate, 0);
    }
  }

  // Within the range of a duration, the order of hours is the order of ages.
  lemma AgesInRangeKept(existing: int, candidate: int)
    requires 0 <= existing <= MAX_HOURS && 0 <= candidate <= MAX_HOURS
    ensures AgeKept(existing, candidate) <==> AgeTightensOrEqual(existing, candidate)
  {
    NoWrap(existing);
    NoWrap(candidate);
  }

  lemma NoWrap(hours: int)
    requires 0 <= hours <= MAX_HOURS
    ensures Wrap64(hours * HOUR) == hours * HOUR
  {
  }

  // Past it a longer bound need not be a looser one: the next hour wraps, and lowering it to five
  // hours lets a minute-old proof through that it called stale.
  lemma HugeBoundWraps(p: Proof, now: Time)
    requires p.observedAt == Some(now - 60000000000)
    ensures AgeTightensOrEqual(MAX_HOURS + 1, 5) && !AgeKept(MAX_HOURS + 1, 5)
    ensures !TooOld(p, 5, now) && TooOld(p, MAX_HOURS + 1, now)
  {
  }

  // ---------- Strictness ----------

  predicate VerifiedKept(existing: Guard, candidate: Guard) {
    existing.requireVerified ==> candidate.requireVerified
  }

  // The two requirements on proofs that the merge compares wrongly or not at all.
  predicate ProofBoundsKept(existing: Guard, candidate: Guard) {
    existing.proofs == []
    || (VerifiedKept(existing, candidate) && AgeKept(existing.maxProofAgeHours, candidate.maxProofAgeHours))
  }

  // What satisfies the stricter guard satisfies the one it replaced.
  lemma StricterIsHarderToSatisfy(C: Crypto, ctx: Context, existing: Guard, candidate: Guard, now: Time)
    requires Tightens(existing, candidate) && ProofBoundsKept(existing, candidate)
    requires Satisfied(C, ctx, candidate, now)
    ensures Satisfied(C, ctx, existing, now)
  {
    forall id | id in existing.proofs ensures ProofPresent(C, ctx, existing, id, now) {
      assert ProofPresent(C, ctx, candidate, id, now);
      ProofKept(C, ctx, existing, candidate, id, now);
    }
    forall id | id in existing.facts ensures FactPresent(ctx, id, now) {
      assert id in candidate.facts;
    }
  }

  lemma ProofKept(C: Crypto, ctx: Context, existing: Guard, candidate: Guard, id: string, now: Time)
    requires existing.requireBound ==> candidate.requireBound
    requires VerifiedKept(existing, candidate) && AgeKept(existing.maxProofAgeHours, candidate.maxProofAgeHours)
    requires ProofPresent(C, ctx, candidate, id, now)
    ensures ProofPresent(C, ctx, existing, id, now)
  {
    PresentExactly(C, ctx, candidate, id, now);
    PresentExactly(C, ctx, existing, id, now);
    AgeKeptExactly(existing.maxProofAgeHours, candidate.maxProofAgeHours);
  }

  // ---------- Nothing less will do ----------

  // What is on record about a proof beside its binding, which fits.
  datatype Record = Record(observedAt: Option<Time>, verified: bool)

  function Recorded(C: Crypto, r: Record, id: string): Proof {
    var none := Dependencies([], [], []);
    Proof(id, Validated, r.observedAt, None, false, r.verified, C.recipeDigest(Drill(id, none, "")), Some(none), "")
  }

  // Every required proof and fact of a guard, on one such record.
  function Attested(C: Crypto, r: Record, g: Guard): Context {
    Context(
      seq(|g.proofs|, i requires 0 <= i < |g.proofs| => Recorded(C, r, g.proofs[i])),
      seq(|g.proofs|, i requires 0 <= i < |g.proofs| => Drill(g.proofs[i], Dependencies([], [], []), "")),
      seq(|g.facts|, i requires 0 <= i < |g.facts| => Fact(g.facts[i], None)))
  }

  lemma {:induction false} FindsRecorded(C: Crypto, r: Record, proofs: seq<Proof>, id: string)
    requires forall i :: 0 <= i < |proofs| ==> proofs[i] == Recorded(C, r, proofs[i].id)
    requires exists i :: 0 <= i < |proofs| && proofs[i].id == id
    ensures FindProof(proofs, id) == Some(Recorded(C, r, id))
  {
    if proofs[0].id != id {
      FindsRecorded(C, r, proofs[1..], id);
    }
  }

  lemma {:induction false} FindsDrill(drills: seq<Drill>, id: string)
    requires forall i :: 0 <= i < |drills| ==> drills[i] == Drill(drills[i].proof, Dependencies([], [], []), "")
    requires exists i :: 0 <= i < |drills| && drills[i].proof == id
    ensures FindDrill(drills, id) == Some(Drill(id, Dependencies([], [], []), ""))
  {
    if drills[0].proof != id {
      FindsDrill(drills[1..], id);
    }
  }

  lemma {:induction false} FindsFact(facts: seq<Fact>, id: string)
    requires forall i :: 0 <= i < |facts| ==> facts[i].expiresAt.None?
    requires exists i :: 0 <= i < |facts| && facts[i].id == id
    ensures FindFact(facts, id).Some? && FindFact(facts, id).value.expiresAt.None?
  {
    if facts[0].id != id {
      FindsFact(facts[1..], id);
    }
  }

  // A guard's bounds on proofs, met by a record at a time.
  predicate RecordMeets(r: Record, g: Guard, now: Time) {
    (g.requireVerified ==> r.verified)
    && !(g.maxProofAgeHours > 0 && r.observedAt.Some? && now - r.observedAt.value > Wrap64(g.maxProofAgeHours * HOUR))
  }

  ghost predicate DigestsNonempty(C: Crypto) {
    forall d :: C.recipeDigest(d) != ""
  }

  lemma AttestedProof(C: Crypto, r: Record, g: Guard, h: Guard, id: string, now: Time)
    requires DigestsNonempty(C) && id in g.proofs
    ensures ProofPresent(C, Attested(C, r, g), h, id, now) <==> RecordMeets(r, h, now)
  {
    var ctx := Attested(C, r, g);
    var i :| 0 <= i < |g.proofs| && g.proofs[i] == id;
    assert ctx.proofs[i].id == id && ctx.drills[i].proof == id;
    FindsRecorded(C, r, ctx.proofs, id);
    FindsDrill(ctx.drills, id);
    PresentExactly(C, ctx, h, id, now);
  }

  lemma AttestedIsSatisfied(C: Crypto, r: Record, g: Guard, now: Time)
    requires DigestsNonempty(C) && (g.proofs == [] || RecordMeets(r, g, now))
    ensures Satisfied(C, Attested(C, r, g), g, now)
  {
    var ctx := Attested(C, r, g);
    forall id | id in g.proofs ensures ProofPresent(C, ctx, g, id, now) {
      AttestedProof(C, r, g, g, id, now);
    }
    forall id | id in g.facts ensures FactPresent(ctx, id, now) {
      var i :| 0 <= i < |g.facts| && g.facts[i] == id;
      assert ctx.facts[i].id == id;
      FindsFact(ctx.facts, id);
    }
  }

  // A record that meets the candidate's bounds and not the existing guard's.
  function Between(existing: Guard, candidate: Guard): Record {
    if !VerifiedKept(existing, candidate) then Record(None, false)
    else Record(Some(-Wrap64(existing.maxProofAgeHours * HOUR) - 1), true)
  }

  lemma BoundsCanBeLoosened(C: Crypto, existing: Guard, candidate: Guard) returns (ctx: Context)
    requires DigestsNonempty(C) && Tightens(existing, candidate) && !ProofBoundsKept(existing, candidate)
    ensures Satisfied(C, ctx, candidate, 0) && !Satisfied(C, ctx, existing, 0)
  {
    var r := Between(existing, candidate);
    ctx := Attested(C, r, candidate);
    AttestedIsSatisfied(C, r, candidate, 0);
    var id := existing.proofs[0];
    assert id in existing.proofs && id in candidate.proofs;
    AttestedProof(C, r, candidate, existing, id, 0);
  }

  // Whatever has the candidate's required proofs and facts has the existing guard's, if and only if
  // the candidate keeps require_verified and the age bound, or no proof is required. The merge
  // checks neither of the two as this does.
  lemma RequirementsKeptExactly(C: Crypto, existing: Guard, candidate: Guard)
    requires DigestsNonempty(C) && Tightens(existing, candidate)
    ensures (forall ctx, now :: Satisfied(C, ctx, candidate, now) ==> Satisfied(C, ctx, existing, now))
        <==> ProofBoundsKept(existing, candidate)
  {
    if ProofBoundsKept(existing, candidate) {
      forall ctx, now | Satisfied(C, ctx, candidate, now) ensures Satisfied(C, ctx, existing, now) {
        StricterIsHarderToSatisfy(C, ctx, existing, candidate, now);
      }
    } else {
      var ctx := BoundsCanBeLoosened(C, existing, candidate);
    }
  }
}
