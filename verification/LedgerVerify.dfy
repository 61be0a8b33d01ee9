/** The chain walk (internal/ledger/verify.go). */
module LedgerVerify {
  import opened Wrappers
  import opened LedgerEntry

  datatype Reason =
    | Fine
    | PrevMismatch(id: string, prev: string, expected: string)
    | CannotHash(id: string)
    | HashMismatch(id: string, claimed: string, recomputed: string)

  datatype VerifyResult = VerifyResult(
    ok: bool, entryCount: nat, lastHash: string, failedAt: nat, reason: Reason,
    anchoredAnomalies: seq<string>)

  datatype Vouch = Vouch(payload: AnchorPayload, atIndex: nat)

  // ---------- The declarative chain predicate ----------

  predicate IsAnchorFor(e: Entry, id: string) {
    e.entryType == ChainAnchor && e.payload.chainAnchor.Some? && e.payload.chainAnchor.value.entryId == id
  }

  // Position k holds the anchor that governs id: no later entry names id again.
  predicate GoverningAnchor(es: seq<Entry>, id: string, k: int) {
    0 <= k < |es| && IsAnchorFor(es[k], id) && forall j :: k < j < |es| ==> !IsAnchorFor(es[j], id)
  }

  // An entry is vouched for by the governing anchor of its id, if that anchor is later in the
  // file and records the hash found on disk.
  ghost predicate Vouched(es: seq<Entry>, i: int)
    requires 0 <= i < |es|
  {
    exists k :: i < k && GoverningAnchor(es, es[i].id, k)
      && es[k].payload.chainAnchor.value.storedHash == es[i].hash
  }

  function PrevOf(es: seq<Entry>, genesis: string, i: nat): string
    requires i <= |es|
  {
    if i == 0 then genesis else es[i - 1].hash
  }

  predicate LinkedAt(es: seq<Entry>, genesis: string, i: int)
    requires 0 <= i < |es|
  {
    es[i].prev == PrevOf(es, genesis, i)
  }

  ghost predicate Linked(es: seq<Entry>, genesis: string) {
    forall i :: 0 <= i < |es| ==> LinkedAt(es, genesis, i)
  }

  ghost predicate EntryOk(H: HashFn, es: seq<Entry>, genesis: string, i: int)
    requires 0 <= i < |es|
  {
    && LinkedAt(es, genesis, i)
    && HashEntry(H, es[i]).Some?
    && (Intact(H, es[i]) || Vouched(es, i))
  }

  ghost predicate Accepted(H: HashFn, es: seq<Entry>, genesis: string) {
    forall i :: 0 <= i < |es| ==> EntryOk(H, es, genesis, i)
  }

  // The anchor at k names entry i's id, records the hash stored there, comes after it and is the
  // last one that names the id.
  predicate VouchesAt(es: seq<Entry>, i: int, k: int)
    requires 0 <= i < |es|
  {
    && i < k < |es| && es[k].entryType == ChainAnchor && es[k].payload.chainAnchor.Some?
    && es[k].payload.chainAnchor.value.entryId == es[i].id
    && es[k].payload.chainAnchor.value.storedHash == es[i].hash
    && forall j :: k < j < |es| && es[j].entryType == ChainAnchor && es[j].payload.chainAnchor.Some? ==>
         es[j].payload.chainAnchor.value.entryId != es[i].id
  }

  // Acceptance, entry by entry: the previous hash is repeated, the entry without its own hash can be
  // hashed, and the result is the stored hash or a later anchor vouches for that.
  ghost predicate AcceptedAt(H: HashFn, es: seq<Entry>, genesis: string, i: int)
    requires 0 <= i < |es|
  {
    && es[i].prev == (if i == 0 then genesis else es[i - 1].hash)
    && H(es[i].(hash := "")).Some?
    && (H(es[i].(hash := "")) == Some(es[i].hash) || exists k :: VouchesAt(es, i, k))
  }

  lemma AcceptedExactly(H: HashFn, es: seq<Entry>, genesis: string)
    ensures Accepted(H, es, genesis) <==> forall i :: 0 <= i < |es| ==> AcceptedAt(H, es, genesis, i)
  {
    forall i | 0 <= i < |es| ensures EntryOk(H, es, genesis, i) <==> AcceptedAt(H, es, genesis, i) {
      VouchedExactly(es, i);
    }
  }

  lemma VouchedExactly(es: seq<Entry>, i: int)
    requires 0 <= i < |es|
    ensures Vouched(es, i) <==> exists k :: VouchesAt(es, i, k)
  {
    if k :| i < k && GoverningAnchor(es, es[i].id, k) && es[k].payload.chainAnchor.value.storedHash == es[i].hash {
      assert VouchesAt(es, i, k);
    }
    if k :| VouchesAt(es, i, k) {
      assert GoverningAnchor(es, es[i].id, k);
    }
  }

  // Every entry is intact, not merely vouched for.
  ghost predicate Pristine(H: HashFn, es: seq<Entry>, genesis: string) {
    Linked(es, genesis) && forall i :: 0 <= i < |es| ==> Intact(H, es[i])
  }

  // Ids of the entries whose stored hash is not the recomputed one, in file order.
  function MismatchedIds(H: HashFn, es: seq<Entry>): seq<string> {
    if es == [] then []
    else (if Intact(H, es[0]) then [] else [es[0].id]) + MismatchedIds(H, es[1..])
  }

  ghost predicate FailsFirstAt(H: HashFn, es: seq<Entry>, genesis: string, i: int) {
    0 <= i < |es| && !EntryOk(H, es, genesis, i) && forall j :: 0 <= j < i ==> EntryOk(H, es, genesis, j)
  }

  ghost predicate ReasonAt(H: HashFn, es: seq<Entry>, genesis: string, i: int, reason: Reason)
    requires 0 <= i < |es|
  {
    if es[i].prev != PrevOf(es, genesis, i) then reason == PrevMismatch(es[i].id, es[i].prev, PrevOf(es, genesis, i))
    else if HashEntry(H, es[i]).None? then reason == CannotHash(es[i].id)
    else reason == HashMismatch(es[i].id, es[i].hash, HashEntry(H, es[i]).value)
  }

  // What VerifyEntriesFrom is to answer: the walk must agree with Accepted, and name the first
  // entry that fails it.
  ghost predicate Verdict(H: HashFn, es: seq<Entry>, genesis: string, r: VerifyResult) {
    && r.entryCount == |es|
    && (r.ok <==> Accepted(H, es, genesis))
    && (r.ok ==>
          && r.lastHash == PrevOf(es, genesis, |es|)
          && r.anchoredAnomalies == MismatchedIds(H, es)
          && r.failedAt == 0 && r.reason == Fine)
    && (!r.ok ==>
          && r.lastHash == "" && r.anchoredAnomalies == []
          && FailsFirstAt(H, es, genesis, r.failedAt - 1)
          && ReasonAt(H, es, genesis, r.failedAt - 1, r.reason))
  }

  // ---------- The walk itself ----------

  // Position k holds the last anchor of id among the first n entries.
  predicate LastAmong(es: seq<Entry>, n: nat, id: string, k: int)
    requires n <= |es|
  {
    0 <= k < n && IsAnchorFor(es[k], id) && forall j :: k < j < n ==> !IsAnchorFor(es[j], id)
  }

  // What the table says of one id: its last anchor and the 1-based position of that.
  predicate TableSays(es: seq<Entry>, n: nat, v: Vouch, id: string)
    requires n <= |es|
  {
    LastAmong(es, n, id, v.atIndex - 1) && v.payload == es[v.atIndex - 1].payload.chainAnchor.value
  }

  // Last anchor in file order wins; positions are 1-based.
  method ScanChainAnchors(es: seq<Entry>) returns (anchors: map<string, Vouch>)
    ensures forall id :: id in anchors <==> exists k :: GoverningAnchor(es, id, k)
    ensures forall id :: id in anchors ==>
      && GoverningAnchor(es, id, anchors[id].atIndex - 1)
      && anchors[id].payload == es[anchors[id].atIndex - 1].payload.chainAnchor.value
  {
    anchors := map[];
    var i := 0;
    while i < |es|
      invariant 0 <= i <= |es|
      invariant forall id :: id in anchors ==> TableSays(es, i, anchors[id], id)
      invariant forall id, k :: 0 <= k < i && IsAnchorFor(es[k], id) ==> id in anchors
    {
      var e := es[i];
      if e.entryType == ChainAnchor && e.payload.chainAnchor.Some? {
        anchors := anchors[e.payload.chainAnchor.value.entryId := Vouch(e.payload.chainAnchor.value, i + 1)];
      }
      i := i + 1;
    }
    forall id | id in anchors ensures GoverningAnchor(es, id, anchors[id].atIndex - 1) {
      assert TableSays(es, |es|, anchors[id], id);
    }
  }

  lemma {:induction false} MismatchedIdsAppend(H: HashFn, a: seq<Entry>, b: seq<Entry>)
    ensures MismatchedIds(H, a + b) == MismatchedIds(H, a) + MismatchedIds(H, b)
  {
    if a == [] {
      assert a + b == b;
    } else {
      MismatchedIdsAppend(H, a[1..], b);
      assert (a + b)[1..] == a[1..] + b && (a + b)[0] == a[0];
    }
  }

  lemma {:induction false} MismatchedIdsStep(H: HashFn, es: seq<Entry>, i: nat)
    requires i < |es|
    ensures MismatchedIds(H, es[..i + 1]) == MismatchedIds(H, es[..i]) + (if Intact(H, es[i]) then [] else [es[i].id])
  {
    assert es[..i + 1] == es[..i] + [es[i]];
    MismatchedIdsAppend(H, es[..i], [es[i]]);
    assert MismatchedIds(H, [es[i]][1..]) == [];
  }

  // Governing anchors are unique, so reading the map is deciding Vouched.
  lemma VouchedIsLookup(es: seq<Entry>, i: nat, k: int)
    requires i < |es| && GoverningAnchor(es, es[i].id, k)
    ensures Vouched(es, i) <==> i < k && es[k].payload.chainAnchor.value.storedHash == es[i].hash
  {
    if Vouched(es, i) {
      var m :| i < m && GoverningAnchor(es, es[i].id, m) && es[m].payload.chainAnchor.value.storedHash == es[i].hash;
      assert m == k;
    }
  }

  // The first i entries pass, with the hash and the anomalies the walk carries along.
  ghost predicate Walked(H: HashFn, es: seq<Entry>, genesis: string, i: nat, prev: string, anomalies: seq<string>) {
    && i <= |es| && prev == PrevOf(es, genesis, i)
    && (forall j :: 0 <= j < i ==> EntryOk(H, es, genesis, j))
    && anomalies == MismatchedIds(H, es[..i])
  }

  lemma WalkStep(H: HashFn, es: seq<Entry>, genesis: string, i: nat, prev: string, anomalies: seq<string>)
    requires i < |es| && Walked(H, es, genesis, i, prev, anomalies) && EntryOk(H, es, genesis, i)
    ensures Walked(H, es, genesis, i + 1, es[i].hash, anomalies + (if Intact(H, es[i]) then [] else [es[i].id]))
  {
    MismatchedIdsStep(H, es, i);
  }

  lemma WalkFails(
    H: HashFn, es: seq<Entry>, genesis: string, i: nat, prev: string, anomalies: seq<string>, r: VerifyResult)
    requires i < |es| && Walked(H, es, genesis, i, prev, anomalies) && !EntryOk(H, es, genesis, i)
    requires ReasonAt(H, es, genesis, i, r.reason)
    requires r == VerifyResult(false, |es|, "", i + 1, r.reason, [])
    ensures Verdict(H, es, genesis, r)
  {
  }

  lemma WalkEnds(H: HashFn, es: seq<Entry>, genesis: string, prev: string, anomalies: seq<string>)
    requires Walked(H, es, genesis, |es|, prev, anomalies)
    ensures Verdict(H, es, genesis, VerifyResult(true, |es|, prev, 0, Fine, anomalies))
  {
    assert es[..|es|] == es;
  }

  method VerifyEntriesFrom(H: HashFn, es: seq<Entry>, genesis: string) returns (r: VerifyResult)
    ensures Verdict(H, es, genesis, r)
    ensures r.ok <==> forall i :: 0 <= i < |es| ==> AcceptedAt(H, es, genesis, i)
  {
    AcceptedExactly(H, es, genesis);
    r := Walk(H, es, genesis);
  }

  method Walk(H: HashFn, es: seq<Entry>, genesis: string) returns (r: VerifyResult)
    ensures Verdict(H, es, genesis, r)
  {
    var anchors := ScanChainAnchors(es);
    var anomalies: seq<string> := [];
    var prev := genesis;
    var i := 0;
    while i < |es|
      invariant 0 <= i <= |es| && Walked(H, es, genesis, i, prev, anomalies)
    {
      var e := es[i];
      var n := i + 1;
      if e.prev != prev {
        r := VerifyResult(false, |es|, "", n, PrevMismatch(e.id, e.prev, prev), []);
        WalkFails(H, es, genesis, i, prev, anomalies, r);
        return;
      }
      var recomputed := HashEntry(H, e);
      if recomputed.None? {
        r := VerifyResult(false, |es|, "", n, CannotHash(e.id), []);
        WalkFails(H, es, genesis, i, prev, anomalies, r);
        return;
      }
      ghost var known := anomalies;
      if e.hash != recomputed.value {
        if e.id in anchors {
          VouchedIsLookup(es, i, anchors[e.id].atIndex - 1);
        }
        if e.id !in anchors || anchors[e.id].payload.storedHash != e.hash || anchors[e.id].atIndex <= n {
          r := VerifyResult(false, |es|, "", n, HashMismatch(e.id, e.hash, recomputed.value), []);
          WalkFails(H, es, genesis, i, prev, anomalies, r);
          return;
        }
        anomalies := anomalies + [e.id];
      }
      WalkStep(H, es, genesis, i, prev, known);
      prev := e.hash;
      i := i + 1;
    }
    WalkEnds(H, es, genesis, prev, anomalies);
    return VerifyResult(true, |es|, prev, 0, Fine, anomalies);
  }

  method VerifyEntries(H: HashFn, es: seq<Entry>) returns (r: VerifyResult)
    ensures Verdict(H, es, GENESIS_HASH, r)
    ensures r.ok <==> forall i :: 0 <= i < |es| ==> AcceptedAt(H, es, GENESIS_HASH, i)
  {
    r := VerifyEntriesFrom(H, es, GENESIS_HASH);
  }

  // The verdict leaves the walk no freedom.
  lemma VerdictUnique(H: HashFn, es: seq<Entry>, genesis: string, r: VerifyResult, s: VerifyResult)
    requires Verdict(H, es, genesis, r) && Verdict(H, es, genesis, s)
    ensures r == s
  {
    if !r.ok {
      var i, j := r.failedAt - 1, s.failedAt - 1;
      assert FailsFirstAt(H, es, genesis, i) && FailsFirstAt(H, es, genesis, j);
      assert !(i < j) && !(j < i);
    }
  }

  lemma {:induction false} MismatchedIdsEmpty(H: HashFn, es: seq<Entry>)
    ensures MismatchedIds(H, es) == [] <==> forall i :: 0 <= i < |es| ==> Intact(H, es[i])
  {
    if es != [] {
      MismatchedIdsEmpty(H, es[1..]);
      assert forall i :: 0 < i < |es| ==> es[i] == es[1..][i - 1];
      assert forall i :: 0 <= i < |es| - 1 ==> es[1..][i] == es[i + 1];
      assert Intact(H, es[0]) && MismatchedIds(H, es[1..]) == [] ==> forall i :: 0 <= i < |es| ==> Intact(H, es[i]);
    }
  }

  // Accepted with no anomalies is exactly: linked, and every stored hash recomputes.
  lemma PristineIsAcceptedWithoutAnomalies(H: HashFn, es: seq<Entry>, genesis: string)
    ensures Pristine(H, es, genesis) <==> Accepted(H, es, genesis) && MismatchedIds(H, es) == []
  {
    MismatchedIdsEmpty(H, es);
    if Accepted(H, es, genesis) {
      forall i | 0 <= i < |es| ensures LinkedAt(es, genesis, i) {
        assert EntryOk(H, es, genesis, i);
      }
    }
  }

  // ---------- LastHash pins the whole history ----------

  lemma PristineDropLast(H: HashFn, es: seq<Entry>, genesis: string)
    requires Pristine(H, es, genesis) && es != []
    ensures Pristine(H, es[..|es| - 1], genesis)
    ensures es[|es| - 1].prev == PrevOf(es[..|es| - 1], genesis, |es| - 1)
  {
    var init := es[..|es| - 1];
    assert LinkedAt(es, genesis, |es| - 1);
    forall i | 0 <= i < |init| ensures LinkedAt(init, genesis, i) && Intact(H, init[i]) {
      assert init[i] == es[i];
      assert LinkedAt(es, genesis, i);
    }
  }

  // Two ledgers that verify without anomalies and report one LastHash are one ledger.
  lemma {:induction false} LastHashPinsHistory(H: HashFn, a: seq<Entry>, b: seq<Entry>)
    requires CollisionFree(H) && GenesisFresh(H)
    requires Pristine(H, a, GENESIS_HASH) && Pristine(H, b, GENESIS_HASH)
    requires PrevOf(a, GENESIS_HASH, |a|) == PrevOf(b, GENESIS_HASH, |b|)
    ensures a == b
    decreases |a|
  {
    if a != [] && b != [] {
      var x, y := a[|a| - 1], b[|b| - 1];
      IntactPinned(H, x, y);
      PristineDropLast(H, a, GENESIS_HASH);
      PristineDropLast(H, b, GENESIS_HASH);
      LastHashPinsHistory(H, a[..|a| - 1], b[..|b| - 1]);
      assert a == a[..|a| - 1] + [x] && b == b[..|b| - 1] + [y];
    }
  }

  // Hence no entry occurs twice in a ledger without anomalies.
  lemma PristineNoRepeats(H: HashFn, es: seq<Entry>, i: nat, j: nat)
    requires CollisionFree(H) && GenesisFresh(H) && Pristine(H, es, GENESIS_HASH)
    requires i < |es| && j < |es| && es[i] == es[j]
    ensures i == j
  {
    var a, b := es[..i + 1], es[..j + 1];
    PristinePrefix(H, es, GENESIS_HASH, i + 1);
    PristinePrefix(H, es, GENESIS_HASH, j + 1);
    assert a[i] == es[i] && b[j] == es[j];
    assert PrevOf(a, GENESIS_HASH, |a|) == PrevOf(b, GENESIS_HASH, |b|);
    LastHashPinsHistory(H, a, b);
    assert |a| == i + 1 && |b| == j + 1;
  }

  lemma PristinePrefix(H: HashFn, es: seq<Entry>, genesis: string, k: nat)
    requires Pristine(H, es, genesis) && k <= |es|
    ensures Pristine(H, es[..k], genesis)
  {
    var p := es[..k];
    forall i | 0 <= i < k ensures LinkedAt(p, genesis, i) && Intact(H, p[i]) {
      assert p[i] == es[i];
      assert LinkedAt(es, genesis, i);
    }
  }

  // ---------- Suffixes ----------

  lemma GoverningInSuffix(es: seq<Entry>, k: nat, id: string, m: int)
    requires k <= m && k <= |es|
    ensures GoverningAnchor(es, id, m) <==> GoverningAnchor(es[k..], id, m - k)
  {
    var s := es[k..];
    assert forall j :: k <= j < |es| ==> es[j] == s[j - k];
    assert forall j :: 0 <= j < |s| ==> s[j] == es[j + k];
    if k <= m < |es| {
      assert es[m] == s[m - k];
      if GoverningAnchor(s, id, m - k) {
        forall j | m < j < |es| ensures !IsAnchorFor(es[j], id) { assert es[j] == s[j - k]; }
      }
    }
  }

  lemma VouchedInSuffix(es: seq<Entry>, k: nat, i: nat)
    requires k <= i < |es|
    ensures Vouched(es, i) <==> Vouched(es[k..], i - k)
  {
    var s := es[k..];
    assert s[i - k] == es[i];
    if Vouched(es, i) {
      var m :| i < m && GoverningAnchor(es, es[i].id, m) && es[m].payload.chainAnchor.value.storedHash == es[i].hash;
      GoverningInSuffix(es, k, es[i].id, m);
      assert s[m - k] == es[m];
    }
    if Vouched(s, i - k) {
      var m :| i - k < m && GoverningAnchor(s, s[i - k].id, m)
        && s[m].payload.chainAnchor.value.storedHash == s[i - k].hash;
      GoverningInSuffix(es, k, es[i].id, m + k);
      assert s[m] == es[m + k];
    }
  }

  lemma EntryOkInSuffix(H: HashFn, es: seq<Entry>, genesis: string, k: nat, i: nat)
    requires k <= i < |es| && EntryOk(H, es, genesis, i)
    ensures EntryOk(H, es[k..], es[k].prev, i - k)
  {
    var s := es[k..];
    assert s[i - k] == es[i];
    VouchedInSuffix(es, k, i);
    assert LinkedAt(es, genesis, i);
    if k < i {
      assert s[i - k - 1] == es[i - 1];
    }
  }

  // Any suffix of an accepted ledger, seeded with its own first Prev, is accepted.
  lemma SuffixAccepted(H: HashFn, es: seq<Entry>, genesis: string, k: nat)
    requires Accepted(H, es, genesis) && k < |es|
    ensures Accepted(H, es[k..], es[k].prev)
  {
    forall i | 0 <= i < |es| - k ensures EntryOk(H, es[k..], es[k].prev, i) {
      assert EntryOk(H, es, genesis, i + k);
      EntryOkInSuffix(H, es, genesis, k, i + k);
    }
  }

  // It reports exactly the anomalies of its own range, and the ledger's own LastHash.
  lemma {:induction false} SuffixAnomalies(H: HashFn, es: seq<Entry>, genesis: string, k: nat)
    requires k < |es|
    ensures MismatchedIds(H, es) == MismatchedIds(H, es[..k]) + MismatchedIds(H, es[k..])
    ensures PrevOf(es[k..], es[k].prev, |es| - k) == PrevOf(es, genesis, |es|)
  {
    var a, b := es[..k], es[k..];
    assert a + b == es;
    MismatchedIdsAppend(H, a, b);
  }
}
