/** Findings, overrides and the overall verdict (internal/engine/finding.go, overall.go). */
module Engine {
  import opened Wrappers

  // Any other string is a verdict Overall does not react to.
  datatype Verdict = Pass | Warn | Block | OtherVerdict(name: string)

  datatype Override = Override(findingId: string, approvedBy: string, reason: string)

  // `rest` stands for the descriptive fields.
  datatype Finding = Finding(id: string, verdict: Verdict, override: Option<Override>, nextStep: string, rest: string)

  // How strict a verdict is. An unknown one weighs as much as a pass.
  function Rank(v: Verdict): nat {
    match v
    case Block => 2
    case Warn => 1
    case _ => 0
  }

  // ---------- Overall ----------

  ghost predicate IsWorst(findings: seq<Finding>, v: Verdict) {
    && !v.OtherVerdict?
    && (forall i :: 0 <= i < |findings| ==> Rank(findings[i].verdict) <= Rank(v))
    && (v != Pass ==> exists i :: 0 <= i < |findings| && findings[i].verdict == v)
  }

  method Overall(findings: seq<Finding>) returns (v: Verdict)
    ensures IsWorst(findings, v)
  {
    var sawWarn := false;
    var i := 0;
    while i < |findings|
      invariant 0 <= i <= |findings|
      invariant forall j :: 0 <= j < i ==> findings[j].verdict != Block
      invariant sawWarn <==> exists j :: 0 <= j < i && findings[j].verdict == Warn
    {
      match findings[i].verdict {
        case Block => return Block;
        case Warn => sawWarn := true;
        case _ =>
      }
      i := i + 1;
    }
    if sawWarn {
      return Warn;
    }
    return Pass;
  }

  lemma WorstUnique(findings: seq<Finding>, v: Verdict, w: Verdict)
    requires IsWorst(findings, v) && IsWorst(findings, w)
    ensures v == w
  {
  }

  // Weaker findings, weaker verdict.
  lemma WorstIsMonotone(a: seq<Finding>, b: seq<Finding>, v: Verdict, w: Verdict)
    requires |a| == |b| && forall i :: 0 <= i < |a| ==> Rank(a[i].verdict) <= Rank(b[i].verdict)
    requires IsWorst(a, v) && IsWorst(b, w)
    ensures Rank(v) <= Rank(w)
  {
    if v != Pass {
      var i :| 0 <= i < |a| && a[i].verdict == v;
      assert Rank(a[i].verdict) <= Rank(b[i].verdict);
    }
  }

  function ExitCode(v: Verdict, failOnWarn: bool): nat {
    match v
    case Block => 1
    case Warn => if failOnWarn then 1 else 0
    case _ => 0
  }

  // A stricter verdict never exits more gently, and --fail-on-warn never softens an exit.
  lemma ExitCodeMonotone(v: Verdict, w: Verdict, failOnWarn: bool)
    requires Rank(v) <= Rank(w)
    ensures ExitCode(v, failOnWarn) <= ExitCode(w, failOnWarn)
    ensures ExitCode(v, false) <= ExitCode(v, true) <= 1
  {
  }

  // A finding that stops the run.
  predicate Stops(f: Finding, failOnWarn: bool) {
    f.verdict == Block || (failOnWarn && f.verdict == Warn)
  }

  // The process fails, with 1, exactly when a finding stops it.
  lemma ExitExactly(findings: seq<Finding>, v: Verdict, failOnWarn: bool)
    requires IsWorst(findings, v)
    ensures ExitCode(v, failOnWarn) ==
      if exists i :: 0 <= i < |findings| && Stops(findings[i], failOnWarn) then 1 else 0
  {
    if i :| 0 <= i < |findings| && Stops(findings[i], failOnWarn) {
      assert Rank(findings[i].verdict) <= Rank(v);
    }
    assert v == Block || v == Warn ==> exists i :: 0 <= i < |findings| && findings[i].verdict == v;
  }

  // And with 1 for a block, or for a warning when warnings fail, whatever the findings.
  lemma ExitCodeExactly(v: Verdict, failOnWarn: bool)
    ensures ExitCode(v, failOnWarn) == 1 <==> v == Block || (v == Warn && failOnWarn)
    ensures ExitCode(v, failOnWarn) == 0 <==> v != Block && (v == Warn ==> !failOnWarn)
  {
  }

  // ---------- ApplyOverrides ----------

  // The override that governs a finding: the last one naming it.
  ghost predicate Governs(overrides: seq<Override>, id: string, k: int) {
    0 <= k < |overrides| && overrides[k].findingId == id
    && forall j :: k < j < |overrides| ==> overrides[j].findingId != id
  }

  predicate Covered(overrides: seq<Override>, id: string) {
    exists k :: 0 <= k < |overrides| && overrides[k].findingId == id
  }

  function Downgraded(f: Finding, o: Override): Finding {
    f.(verdict := Pass, override := Some(o),
       nextStep := "Owner override recorded (" + o.approvedBy + "): " + o.reason)
  }

  // A finding that does not pass is downgraded by the override that governs it; every other
  // finding is left as it was.
  ghost predicate Applied(findings: seq<Finding>, overrides: seq<Override>, out: seq<Finding>) {
    |out| == |findings| &&
    forall i :: 0 <= i < |findings| ==>
      if findings[i].verdict != Pass && Covered(overrides, findings[i].id)
      then exists k :: Governs(overrides, findings[i].id, k) && out[i] == Downgraded(findings[i], overrides[k])
      else out[i] == findings[i]
  }

  method ApplyOverrides(findings: seq<Finding>, overrides: seq<Override>) returns (out: seq<Finding>)
    ensures Applied(findings, overrides, out)
  {
    if |overrides| == 0 {
      return findings;
    }
    var byFinding: map<string, nat> := map[];
    var k := 0;
    while k < |overrides|
      invariant 0 <= k <= |overrides|
      invariant forall id :: id in byFinding ==> Governs(overrides[..k], id, byFinding[id])
      invariant forall j :: 0 <= j < k ==> overrides[j].findingId in byFinding
    {
      assert overrides[..k + 1] == overrides[..k] + [overrides[k]];
      byFinding := byFinding[overrides[k].findingId := k];
      k := k + 1;
    }
    assert overrides[..|overrides|] == overrides;
    out := findings;
    var i := 0;
    while i < |findings|
      invariant 0 <= i <= |findings| == |out|
      invariant Applied(findings[..i], overrides, out[..i])
      invariant out[i..] == findings[i..]
    {
      var f := findings[i];
      assert out[i] == out[i..][0] == f;
      assert Covered(overrides, f.id) <==> f.id in byFinding;
      ghost var before := out;
      if f.verdict != Pass && f.id in byFinding {
        assert Governs(overrides, f.id, byFinding[f.id]);
        out := out[i := Downgraded(f, overrides[byFinding[f.id]])];
      }
      assert out[..i + 1] == before[..i] + [out[i]] && findings[..i + 1] == findings[..i] + [f];
      assert out[i + 1..] == before[i..][1..];
      i := i + 1;
    }
    assert findings[..|findings|] == findings && out[..|findings|] == out;
  }

  // Overriding never makes anything stricter.
  lemma AppliedIsWeaker(findings: seq<Finding>, overrides: seq<Override>, out: seq<Finding>, v: Verdict, w: Verdict)
    requires Applied(findings, overrides, out) && IsWorst(out, v) && IsWorst(findings, w)
    ensures Rank(v) <= Rank(w)
  {
    WorstIsMonotone(out, findings, v, w);
  }
}
