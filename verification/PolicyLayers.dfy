/** The tighten-only merge of layered policy files (internal/policy/layers.go). */
module PolicyLayers {
  import opened Wrappers

  datatype Enforcement = Blocks | Warns | OtherEnforcement(name: string)

  datatype GuardKind = Lifeline | OtherKind(name: string)

  // The match categories beside paths.
  datatype Matchers = Matchers(
    commands: seq<string>, packages: seq<string>, actions: seq<string>, actors: seq<string>, windows: seq<string>)

  // Everything after the paths is carried along and never compared.
  datatype Guard = Guard(
    id: string, requireBound: bool, enforcement: Enforcement, proofs: seq<string>, facts: seq<string>,
    maxProofAgeHours: int, paths: seq<string>, requireVerified: bool, kind: GuardKind, matchers: Matchers,
    scope: string, rest: string)

  // ---------- The order on guards ----------

  function EnforcementRank(e: Enforcement): nat {
    if e == Blocks then 1 else 0
  }

  predicate AgeTightensOrEqual(existing: int, candidate: int) {
    existing == 0 || (candidate != 0 && candidate <= existing)
  }

  predicate Superset(candidate: seq<string>, existing: seq<string>) {
    forall s :: s in existing ==> s in candidate
  }

  predicate Tightens(existing: Guard, candidate: Guard) {
    && (existing.requireBound ==> candidate.requireBound)
    && EnforcementRank(existing.enforcement) <= EnforcementRank(candidate.enforcement)
    && Superset(candidate.proofs, existing.proofs)
    && Superset(candidate.facts, existing.facts)
    && AgeTightensOrEqual(existing.maxProofAgeHours, candidate.maxProofAgeHours)
    && Superset(candidate.paths, existing.paths)
  }

  method SupersetStrings(candidate: seq<string>, existing: seq<string>) returns (ok: bool)
    ensures ok <==> Superset(candidate, existing)
  {
    var have: set<string> := {};
    var i := 0;
    while i < |candidate|
      invariant 0 <= i <= |candidate|
      invariant have == set j | 0 <= j < i :: candidate[j]
    {
      have := have + {candidate[i]};
      i := i + 1;
    }
    i := 0;
    while i < |existing|
      invariant 0 <= i <= |existing|
      invariant forall j :: 0 <= j < i ==> existing[j] in candidate
    {
      if existing[i] !in have {
        assert existing[i] in existing;
        return false;
      }
      i := i + 1;
    }
    return true;
  }

  lemma TightensReflexive(g: Guard)
    ensures Tightens(g, g)
  {
  }

  lemma TightensTransitive(a: Guard, b: Guard, c: Guard)
    requires Tightens(a, b) && Tightens(b, c)
    ensures Tightens(a, c)
  {
    assert forall s :: s in a.proofs ==> s in b.proofs && s in c.proofs;
  }

  // Tightening both ways is agreeing on every compared dimension, up to order and repetition.
  lemma TightensBothWays(a: Guard, b: Guard)
    ensures Tightens(a, b) && Tightens(b, a) <==>
      && a.requireBound == b.requireBound
      && EnforcementRank(a.enforcement) == EnforcementRank(b.enforcement)
      && (forall s :: s in a.proofs <==> s in b.proofs)
      && (forall s :: s in a.facts <==> s in b.facts)
      && a.maxProofAgeHours == b.maxProofAgeHours
      && (forall s :: s in a.paths <==> s in b.paths)
  {
  }

  // A later declaration is refused exactly when it gives up something the earlier one has: the binding,
  // blocking, a proof, a fact, a path, or freshness.
  lemma LoosensExactly(e: Guard, c: Guard)
    ensures !Tightens(e, c) <==>
      || (e.requireBound && !c.requireBound) || (e.enforcement == Blocks && c.enforcement != Blocks)
      || (exists s :: s in e.proofs && s !in c.proofs) || (exists s :: s in e.facts && s !in c.facts)
      || (exists s :: s in e.paths && s !in c.paths)
      || (e.maxProofAgeHours != 0 && (c.maxProofAgeHours == 0 || e.maxProofAgeHours < c.maxProofAgeHours))
  {
  }

  // ---------- The merge, one declaration at a time ----------

  datatype Decl = Decl(file: string, guard: Guard)

  // "policy/loosened <id> in <file>"; the verdict is always warn.
  datatype Finding = Finding(guardId: string, file: string)

  datatype Merged = Merged(
    guards: seq<Guard>, idx: map<string, nat>, files: map<string, string>, findings: seq<Finding>)

  const EMPTY := Merged([], map[], map[], [])

  // The index sends an id to the slot of a guard of that id, and every guard is indexed.
  predicate IdOk(m: Merged, id: string)
    requires id in m.idx
  {
    m.idx[id] < |m.guards| && m.guards[m.idx[id]].id == id
  }

  predicate SlotOk(m: Merged, i: int)
    requires 0 <= i < |m.guards|
  {
    m.guards[i].id in m.idx && m.idx[m.guards[i].id] == i
  }

  predicate Consistent(m: Merged) {
    && (forall id :: id in m.idx ==> IdOk(m, id))
    && (forall i :: 0 <= i < |m.guards| ==> SlotOk(m, i))
    && m.files.Keys == m.idx.Keys
  }

  datatype Event = Added | Replaced | Refused

  // The bound on the index always holds in a consistent state.
  function EventOf(m: Merged, d: Decl): Event {
    if d.guard.id !in m.idx then Added
    else if m.idx[d.guard.id] < |m.guards| && Tightens(m.guards[m.idx[d.guard.id]], d.guard) then Replaced
    else Refused
  }

  function MergeOne(m: Merged, d: Decl): Merged {
    var id := d.guard.id;
    match EventOf(m, d)
    case Added => Merged(m.guards + [d.guard], m.idx[id := |m.guards|], m.files[id := d.file], m.findings)
    case Replaced => m.(guards := m.guards[m.idx[id] := d.guard], files := m.files[id := d.file])
    case Refused => m.(findings := m.findings + [Finding(id, d.file)])
  }

  // The state after the first k declarations.
  function After(m: Merged, decls: seq<Decl>, k: nat): Merged
    requires k <= |decls|
  {
    if k == 0 then m else MergeOne(After(m, decls, k - 1), decls[k - 1])
  }

  function MergeAll(m: Merged, decls: seq<Decl>): Merged {
    After(m, decls, |decls|)
  }

  lemma MergeOneConsistent(m: Merged, d: Decl)
    requires Consistent(m)
    ensures Consistent(MergeOne(m, d))
  {
    var r := MergeOne(m, d);
    var id := d.guard.id;
    if id in m.idx { assert IdOk(m, id); }
    forall x | x in r.idx ensures IdOk(r, x) {
      if x in m.idx { assert IdOk(m, x); }
    }
    forall i | 0 <= i < |r.guards| ensures SlotOk(r, i) {
      if i < |m.guards| { assert SlotOk(m, i); }
    }
  }

  // Ids stay distinct and indexed through any merge.
  lemma {:induction false} AfterConsistent(m: Merged, decls: seq<Decl>, k: nat)
    requires Consistent(m) && k <= |decls|
    ensures Consistent(After(m, decls, k))
  {
    if k > 0 {
      AfterConsistent(m, decls, k - 1);
      MergeOneConsistent(After(m, decls, k - 1), decls[k - 1]);
    }
  }

  lemma AfterStep(m: Merged, decls: seq<Decl>, k: nat, before: Merged, d: Decl)
    requires k < |decls| && d == decls[k] && before == After(m, decls, k)
    ensures After(m, decls, k + 1) == MergeOne(before, d)
  {
  }

  lemma {:induction false} AfterPrefix(m: Merged, a: seq<Decl>, b: seq<Decl>, k: nat)
    requires k <= |a| && a <= b
    ensures After(m, a, k) == After(m, b, k)
  {
    if k > 0 {
      AfterPrefix(m, a, b, k - 1);
    }
  }

  lemma {:induction false} AfterAppend(m: Merged, a: seq<Decl>, b: seq<Decl>, k: nat)
    requires k <= |b|
    ensures After(m, a + b, |a| + k) == After(MergeAll(m, a), b, k)
  {
    if k == 0 {
      AfterPrefix(m, a, a + b, |a|);
    } else {
      AfterAppend(m, a, b, k - 1);
      var x, d := After(MergeAll(m, a), b, k - 1), b[k - 1];
      AfterStep(m, a + b, |a| + k - 1, x, d);
      AfterStep(MergeAll(m, a), b, k - 1, x, d);
    }
  }

  lemma MergeAllAppend(a: seq<Decl>, b: seq<Decl>)
    ensures MergeAll(EMPTY, a + b) == MergeAll(MergeAll(EMPTY, a), b)
  {
    AfterAppend(EMPTY, a, b, |b|);
  }

  // ---------- Never loosens ----------

  // The guard in slot i has kept its id and can only have become stricter.
  predicate SlotStricter(m: Merged, r: Merged, i: int)
    requires 0 <= i < |m.guards|
  {
    i < |r.guards| && r.guards[i].id == m.guards[i].id && Tightens(m.guards[i], r.guards[i])
  }

  ghost predicate Stricter(m: Merged, r: Merged) {
    |m.guards| <= |r.guards| && forall i :: 0 <= i < |m.guards| ==> SlotStricter(m, r, i)
  }

  lemma MergeOneStricter(m: Merged, d: Decl)
    requires Consistent(m)
    ensures Stricter(m, MergeOne(m, d))
  {
    if d.guard.id in m.idx { assert IdOk(m, d.guard.id); }
    forall i | 0 <= i < |m.guards| ensures SlotStricter(m, MergeOne(m, d), i) {
      TightensReflexive(m.guards[i]);
    }
  }

  lemma {:induction false} LaterIsStricter(m: Merged, decls: seq<Decl>, j: nat, k: nat)
    requires Consistent(m) && j <= k <= |decls|
    ensures Stricter(After(m, decls, j), After(m, decls, k))
  {
    var a := After(m, decls, j);
    if j == k {
      forall i | 0 <= i < |a.guards| ensures SlotStricter(a, a, i) { TightensReflexive(a.guards[i]); }
    } else {
      var b := After(m, decls, k - 1);
      LaterIsStricter(m, decls, j, k - 1);
      AfterConsistent(m, decls, k - 1);
      MergeOneStricter(b, decls[k - 1]);
      StricterTransitive(a, b, After(m, decls, k));
    }
  }

  lemma StricterTransitive(a: Merged, b: Merged, c: Merged)
    requires Stricter(a, b) && Stricter(b, c)
    ensures Stricter(a, c)
  {
    forall i | 0 <= i < |a.guards| ensures SlotStricter(a, c, i) {
      assert SlotStricter(a, b, i) && SlotStricter(b, c, i);
      TightensTransitive(a.guards[i], b.guards[i], c.guards[i]);
    }
  }

  // A file added at the end only tightens what the files before it produced, slot by slot and
  // so id by id.
  lemma AddingAFileTightens(before: seq<Decl>, file: seq<Decl>)
    ensures Stricter(MergeAll(EMPTY, before), MergeAll(EMPTY, before + file))
  {
    AfterPrefix(EMPTY, before, before + file, |before|);
    LaterIsStricter(EMPTY, before + file, |before|, |before + file|);
  }

  // Declaration k was taken, as a new guard or as a replacement.
  predicate Accepted(decls: seq<Decl>, k: nat) {
    k < |decls| && EventOf(After(EMPTY, decls, k), decls[k]) != Refused
  }

  // The slot of a guard id, once it has one, holds that id.
  lemma AcceptedSitsInItsSlot(m: Merged, d: Decl)
    requires Consistent(m) && EventOf(m, d) != Refused
    ensures d.guard.id in MergeOne(m, d).idx
    ensures MergeOne(m, d).idx[d.guard.id] < |MergeOne(m, d).guards|
    ensures MergeOne(m, d).guards[MergeOne(m, d).idx[d.guard.id]] == d.guard
  {
  }

  lemma SlotsStay(m: Merged, r: Merged, id: string)
    requires Consistent(m) && Consistent(r) && Stricter(m, r) && id in m.idx
    ensures id in r.idx && r.idx[id] == m.idx[id]
  {
    assert IdOk(m, id);
    assert SlotStricter(m, r, m.idx[id]);
    assert SlotOk(r, m.idx[id]);
  }

  lemma GuardComesFrom(m: Merged, d: Decl, i: nat)
    requires i < |MergeOne(m, d).guards|
    ensures (EventOf(m, d) != Refused && MergeOne(m, d).guards[i] == d.guard)
      || (i < |m.guards| && MergeOne(m, d).guards[i] == m.guards[i])
  {
  }

  // It is itself one of the accepted declarations: the merge invents nothing.
  lemma {:induction false} FinalIsDeclared(decls: seq<Decl>, n: nat, i: nat) returns (k: nat)
    requires n <= |decls| && i < |After(EMPTY, decls, n).guards|
    ensures k < n && Accepted(decls, k) && After(EMPTY, decls, n).guards[i] == decls[k].guard
  {
    var m := After(EMPTY, decls, n - 1);
    GuardComesFrom(m, decls[n - 1], i);
    if Accepted(decls, n - 1) && After(EMPTY, decls, n).guards[i] == decls[n - 1].guard {
      k := n - 1;
    } else {
      k := FinalIsDeclared(decls, n - 1, i);
    }
  }

  // ---------- Bookkeeping ----------

  function Count(decls: seq<Decl>, n: nat, e: Event): nat
    requires n <= |decls|
  {
    if n == 0 then 0
    else Count(decls, n - 1, e) + (if EventOf(After(EMPTY, decls, n - 1), decls[n - 1]) == e then 1 else 0)
  }

  lemma EventCounts(m: Merged, d: Decl)
    ensures |MergeOne(m, d).guards| == |m.guards| + (if EventOf(m, d) == Added then 1 else 0)
    ensures |MergeOne(m, d).findings| == |m.findings| + (if EventOf(m, d) == Refused then 1 else 0)
    ensures MergeOne(m, d).idx.Keys == m.idx.Keys + {d.guard.id}
  {
  }

  // Every declaration is a new id, a replacement, or a finding, and none is two of these.
  lemma {:induction false} DeclarationsAddUp(decls: seq<Decl>, n: nat)
    requires n <= |decls|
    ensures |After(EMPTY, decls, n).guards| == Count(decls, n, Added)
    ensures |After(EMPTY, decls, n).findings| == Count(decls, n, Refused)
    ensures n == |After(EMPTY, decls, n).guards| + Count(decls, n, Replaced) + |After(EMPTY, decls, n).findings|
  {
    if n > 0 {
      EventCounts(After(EMPTY, decls, n - 1), decls[n - 1]);
      DeclarationsAddUp(decls, n - 1);
    }
  }

  // The merged ids are exactly the declared ones, each in one slot.
  lemma {:induction false} IdsAreTheDeclaredOnes(decls: seq<Decl>, n: nat)
    requires n <= |decls|
    ensures After(EMPTY, decls, n).idx.Keys == set k | 0 <= k < n :: decls[k].guard.id
  {
    if n > 0 {
      EventCounts(After(EMPTY, decls, n - 1), decls[n - 1]);
      IdsAreTheDeclaredOnes(decls, n - 1);
    }
  }

  lemma ConsistentIsDistinct(m: Merged, i: nat, j: nat)
    requires Consistent(m) && i < |m.guards| && j < |m.guards| && m.guards[i].id == m.guards[j].id
    ensures i == j && m.guards[i].id in m.idx && m.idx[m.guards[i].id] == i
  {
    assert SlotOk(m, i) && SlotOk(m, j);
  }

  // A refused declaration is one that would loosen, and it changes no guard.
  lemma RefusedExactly(m: Merged, d: Decl)
    requires Consistent(m)
    ensures d.guard.id in m.idx ==> m.idx[d.guard.id] < |m.guards|
    ensures EventOf(m, d) == Refused <==> d.guard.id in m.idx && !Tightens(m.guards[m.idx[d.guard.id]], d.guard)
    ensures EventOf(m, d) == Refused <==> |MergeOne(m, d).findings| == |m.findings| + 1
    ensures EventOf(m, d) == Refused ==> MergeOne(m, d).guards == m.guards && MergeOne(m, d).files == m.files
  {
    if d.guard.id in m.idx { assert IdOk(m, d.guard.id); }
  }

  // An accepted earlier declaration of the same guard that this one does not tighten.
  predicate Loosens(decls: seq<Decl>, j: nat, k: nat)
    requires j < |decls| && k < |decls|
  {
    decls[j].guard.id == decls[k].guard.id && Accepted(decls, j) && !Tightens(decls[j].guard, decls[k].guard)
  }

  // A declaration is refused if and only if it fails to tighten some accepted one before it:
  // comparing with the current guard alone is comparing with the whole history.
  lemma RefusedByHistory(decls: seq<Decl>, k: nat)
    requires k < |decls|
    ensures !Accepted(decls, k) <==> exists j: nat :: j < k && Loosens(decls, j, k)
  {
    var m := After(EMPTY, decls, k);
    var d := decls[k];
    AfterConsistent(EMPTY, decls, k);
    if !Accepted(decls, k) {
      RefusedExactly(m, d);
      var j := FinalIsDeclared(decls, k, m.idx[d.guard.id]);
      assert IdOk(m, d.guard.id);
      assert Loosens(decls, j, k);
    }
    if j: nat :| j < k && Loosens(decls, j, k) {
      CurrentTightensAccepted(decls, j, k);
      if Tightens(m.guards[m.idx[d.guard.id]], d.guard) {
        TightensTransitive(decls[j].guard, m.guards[m.idx[d.guard.id]], d.guard);
      }
    }
  }

  // After any number of declarations, the guard of an id tightens every accepted one.
  lemma CurrentTightensAccepted(decls: seq<Decl>, j: nat, k: nat)
    requires j < k <= |decls| && Accepted(decls, j)
    ensures
      var m := After(EMPTY, decls, k);
      && decls[j].guard.id in m.idx && m.idx[decls[j].guard.id] < |m.guards|
      && Tightens(decls[j].guard, m.guards[m.idx[decls[j].guard.id]])
  {
    var id := decls[j].guard.id;
    var first, m := After(EMPTY, decls, j + 1), After(EMPTY, decls, k);
    AfterConsistent(EMPTY, decls, j);
    AfterConsistent(EMPTY, decls, j + 1);
    AfterConsistent(EMPTY, decls, k);
    AcceptedSitsInItsSlot(After(EMPTY, decls, j), decls[j]);
    LaterIsStricter(EMPTY, decls, j + 1, k);
    SlotsStay(first, m, id);
    assert SlotStricter(first, m, first.idx[id]);
  }

  // The final guard of an id tightens its first declaration and every later one that was
  // accepted.
  lemma FinalTightensAccepted(decls: seq<Decl>, k: nat)
    requires Accepted(decls, k)
    ensures
      var final := MergeAll(EMPTY, decls);
      && decls[k].guard.id in final.idx && final.idx[decls[k].guard.id] < |final.guards|
      && final.guards[final.idx[decls[k].guard.id]].id == decls[k].guard.id
      && Tightens(decls[k].guard, final.guards[final.idx[decls[k].guard.id]])
  {
    AfterConsistent(EMPTY, decls, |decls|);
    CurrentTightensAccepted(decls, k, |decls|);
    assert IdOk(MergeAll(EMPTY, decls), decls[k].guard.id);
  }

  // The last accepted declaration of its id.
  predicate LastAccepted(decls: seq<Decl>, m: nat) {
    Accepted(decls, m) && forall j :: m < j < |decls| && decls[j].guard.id == decls[m].guard.id ==> !Accepted(decls, j)
  }

  lemma {:induction false} LastAcceptedStands(decls: seq<Decl>, m: nat, n: nat)
    requires LastAccepted(decls, m) && m < n <= |decls|
    ensures
      var s := After(EMPTY, decls, n);
      var id := decls[m].guard.id;
      id in s.idx && s.idx[id] < |s.guards| && s.guards[s.idx[id]] == decls[m].guard
  {
    var before := After(EMPTY, decls, n - 1);
    AfterConsistent(EMPTY, decls, n - 1);
    AfterStep(EMPTY, decls, n - 1, before, decls[n - 1]);
    if n == m + 1 {
      AcceptedSitsInItsSlot(before, decls[m]);
    } else {
      LastAcceptedStands(decls, m, n - 1);
      OthersLeaveTheSlot(before, decls[n - 1], decls[m].guard.id);
    }
  }

  lemma OthersLeaveTheSlot(s: Merged, d: Decl, id: string)
    requires Consistent(s) && id in s.idx && s.idx[id] < |s.guards|
    requires d.guard.id == id ==> EventOf(s, d) == Refused
    ensures var t := MergeOne(s, d);
      id in t.idx && t.idx[id] == s.idx[id] && t.idx[id] < |t.guards| && t.guards[t.idx[id]] == s.guards[s.idx[id]]
  {
    assert IdOk(s, id);
    if d.guard.id in s.idx { assert IdOk(s, d.guard.id); }
  }

  lemma {:induction false} LastAcceptedExists(decls: seq<Decl>, j: nat) returns (m: nat)
    requires Accepted(decls, j)
    ensures LastAccepted(decls, m) && decls[m].guard.id == decls[j].guard.id
    decreases |decls| - j
  {
    if k :| j < k < |decls| && decls[k].guard.id == decls[j].guard.id && Accepted(decls, k) {
      m := LastAcceptedExists(decls, k);
    } else {
      m := j;
    }
  }

  // ---------- mergeState ----------

  datatype Layer = Layer(path: string, scope: string, guards: seq<Guard>, commands: seq<string>)

  // Guards as declared, with the file's default scope folded into each.
  function DeclsOf(effective: (string, string) -> string, layer: Layer): seq<Decl> {
    seq(|layer.guards|, i requires 0 <= i < |layer.guards| =>
      Decl(layer.path, layer.guards[i].(scope := effective(layer.scope, layer.guards[i].scope))))
  }

  function AllDecls(effective: (string, string) -> string, layers: seq<Layer>): seq<Decl> {
    if layers == [] then []
    else AllDecls(effective, layers[..|layers| - 1]) + DeclsOf(effective, layers[|layers| - 1])
  }

  predicate NoRepeats(s: seq<string>) {
    forall i, j :: 0 <= i < j < |s| ==> s[i] != s[j]
  }

  // First occurrences, in order.
  ghost predicate IsUnion(existing: seq<string>, incoming: seq<string>, out: seq<string>) {
    && NoRepeats(out)
    && (forall s :: s in out <==> s in existing || s in incoming)
    && (NoRepeats(existing) ==> existing <= out)
  }

  // A list with every repetition dropped.
  function Distinct(s: seq<string>): seq<string> {
    if s == [] then []
    else
      var before := Distinct(s[..|s| - 1]);
      if s[|s| - 1] in before then before else before + [s[|s| - 1]]
  }

  lemma DistinctStep(s: seq<string>, x: string)
    ensures Distinct(s + [x]) == if x in Distinct(s) then Distinct(s) else Distinct(s) + [x]
  {
    assert (s + [x])[..|s|] == s;
  }

  lemma {:induction false} DistinctIsPlain(s: seq<string>)
    ensures NoRepeats(Distinct(s)) && forall x :: x in Distinct(s) <==> x in s
    ensures NoRepeats(s) ==> Distinct(s) == s
  {
    if s != [] {
      DistinctIsPlain(s[..|s| - 1]);
      assert s == s[..|s| - 1] + [s[|s| - 1]];
    }
  }

  lemma DistinctSteps(s: seq<string>, t: seq<string>, x: string)
    requires Distinct(s) == Distinct(t)
    ensures Distinct(s + [x]) == Distinct(t + [x])
  {
    DistinctStep(s, x);
    DistinctStep(t, x);
  }

  lemma DistinctTwice(a: seq<string>)
    ensures Distinct(Distinct(a)) == Distinct(a)
  {
    DistinctIsPlain(a);
    DistinctIsPlain(Distinct(a));
  }

  // Dropping repetitions early changes nothing.
  lemma {:induction false} DistinctAppend(a: seq<string>, b: seq<string>)
    ensures Distinct(Distinct(a) + b) == Distinct(a + b)
    decreases |b|
  {
    if b == [] {
      DistinctTwice(a);
      assert Distinct(a) + b == Distinct(a) && a + b == a;
    } else {
      var init, last, d := b[..|b| - 1], b[|b| - 1], Distinct(a);
      DistinctAppend(a, init);
      DistinctSteps(d + init, a + init, last);
      assert d + b == (d + init) + [last];
      assert a + b == (a + init) + [last];
    }
  }

  lemma {:induction false} DistinctGrows(a: seq<string>, b: seq<string>)
    ensures Distinct(a) <= Distinct(a + b)
    decreases |b|
  {
    if b == [] {
      assert a + b == a;
    } else {
      var init, last := b[..|b| - 1], b[|b| - 1];
      DistinctGrows(a, init);
      DistinctStep(a + init, last);
      assert a + b == (a + init) + [last];
    }
  }

  lemma DistinctIsUnion(existing: seq<string>, incoming: seq<string>)
    ensures IsUnion(existing, incoming, Distinct(existing + incoming))
  {
    DistinctIsPlain(existing + incoming);
    DistinctIsPlain(existing);
    DistinctGrows(existing, incoming);
  }

  method AddDistinct(ghost done: seq<string>, values: seq<string>, have0: set<string>, out0: seq<string>)
    returns (have: set<string>, out: seq<string>)
    requires out0 == Distinct(done) && forall s :: s in have0 <==> s in out0
    ensures out == Distinct(done + values) && forall s :: s in have <==> s in out
  {
    have, out := have0, out0;
    assert done + values[..0] == done;
    for i := 0 to |values|
      invariant out == Distinct(done + values[..i])
      invariant forall s :: s in have <==> s in out
    {
      DistinctStep(done + values[..i], values[i]);
      assert done + values[..i + 1] == done + values[..i] + [values[i]];
      if values[i] !in have {
        have := have + {values[i]};
        out := out + [values[i]];
      }
    }
    assert values[..|values|] == values;
  }

  // Both lists through one inner loop.
  method UnionStrings(existing: seq<string>, incoming: seq<string>) returns (out: seq<string>)
    ensures IsUnion(existing, incoming, out) && out == Distinct(existing + incoming)
  {
    var have: set<string> := {};
    out := [];
    have, out := AddDistinct([], existing, have, out);
    assert [] + existing == existing;
    have, out := AddDistinct(existing, incoming, have, out);
    DistinctIsUnion(existing, incoming);
  }

  class MergeState {
    const effective: (string, string) -> string
    var guards: seq<Guard>
    var guardIdx: map<string, nat>
    var guardFile: map<string, string>
    var findings: seq<Finding>
    var coverageCommands: seq<string>

    function Contents(): Merged
      reads this
    {
      Merged(guards, guardIdx, guardFile, findings)
    }

    ghost predicate Valid()
      reads this
    {
      Consistent(Contents())
    }

    constructor (effective: (string, string) -> string)
      ensures Valid() && Contents() == EMPTY && coverageCommands == [] && this.effective == effective
    {
      this.effective := effective;
      guards, guardIdx, guardFile, findings, coverageCommands := [], map[], map[], [], [];
    }

    method MergeGuard(path: string, g: Guard)
      requires Valid()
      modifies this`guards, this`guardIdx, this`guardFile, this`findings
      ensures Valid() && Contents() == MergeOne(old(Contents()), Decl(path, g))
    {
      MergeOneConsistent(Contents(), Decl(path, g));
      if g.id !in guardIdx {
        guardIdx := guardIdx[g.id := |guards|];
        guardFile := guardFile[g.id := path];
        guards := guards + [g];
        return;
      }
      assert IdOk(Contents(), g.id);
      var slot := guardIdx[g.id];
      if Tightens(guards[slot], g) {
        guards := guards[slot := g];
        guardFile := guardFile[g.id := path];
        return;
      }
      findings := findings + [Finding(g.id, path)];
    }

    method FoldGuards(layer: Layer)
      requires Valid()
      modifies this`guards, this`guardIdx, this`guardFile, this`findings
      ensures Valid() && Contents() == MergeAll(old(Contents()), DeclsOf(effective, layer))
    {
      ghost var start := Contents();
      ghost var decls := DeclsOf(effective, layer);
      var i := 0;
      while i < |layer.guards|
        invariant 0 <= i <= |layer.guards| == |decls| && Valid()
        invariant Contents() == After(start, decls, i)
      {
        var g := layer.guards[i];
        g := g.(scope := effective(layer.scope, g.scope));
        ghost var before := Contents();
        MergeGuard(layer.path, g);
        AfterStep(start, decls, i, before, Decl(layer.path, g));
        i := i + 1;
      }
    }

    // One file, folded into the accumulator.
    method MergeGuards(layer: Layer)
      requires Valid()
      modifies this
      ensures Valid()
      ensures Contents() == MergeAll(old(Contents()), DeclsOf(effective, layer))
      ensures IsUnion(old(coverageCommands), layer.commands, coverageCommands)
      ensures coverageCommands == Distinct(old(coverageCommands) + layer.commands)
    {
      coverageCommands := UnionStrings(coverageCommands, layer.commands);
      FoldGuards(layer);
    }
  }

  // ---------- The paths a guard matches ----------

  // A guard's path category on one path: no patterns constrains nothing, otherwise any will do.
  predicate MatchesPath(match1: (string, string) -> bool, g: Guard, name: string) {
    g.paths == [] || AnyMatches(match1, g.paths, name)
  }

  predicate AnyMatches(match1: (string, string) -> bool, patterns: seq<string>, name: string) {
    exists i :: 0 <= i < |patterns| && match1(patterns[i], name)
  }

  // For any one matcher: a tightening guard still matches every path the old one matched if and
  // only if it does not give patterns to a guard that had none, or those patterns match every path.
  lemma PathsKeptExactly(match1: (string, string) -> bool, existing: Guard, candidate: Guard)
    requires Tightens(existing, candidate)
    ensures (forall name :: MatchesPath(match1, existing, name) ==> MatchesPath(match1, candidate, name))
        <==> existing.paths != [] || candidate.paths == [] || forall name :: AnyMatches(match1, candidate.paths, name)
  {
    forall name | existing.paths != [] && MatchesPath(match1, existing, name)
      ensures MatchesPath(match1, candidate, name)
    {
      var i :| 0 <= i < |existing.paths| && match1(existing.paths[i], name);
      assert existing.paths[i] in candidate.paths;
      var j :| 0 <= j < |candidate.paths| && candidate.paths[j] == existing.paths[i];
    }
    if forall name :: MatchesPath(match1, existing, name) ==> MatchesPath(match1, candidate, name) {
      forall name | existing.paths == [] && candidate.paths != [] ensures AnyMatches(match1, candidate.paths, name) {
        assert MatchesPath(match1, existing, name);
      }
    }
  }
}
