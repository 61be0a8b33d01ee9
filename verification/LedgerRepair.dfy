/** Anchoring as a repair procedure: what one successful Anchor changes, when repeating it
    converges, and that it then stops (internal/ledger/anchor.go, verify.go). */
module LedgerRepair {
  import opened LedgerEntry
  import opened LedgerVerify
  import opened LedgerFile

  ghost predicate UniqueIds(es: seq<Entry>) {
    forall i, j :: 0 <= i < j < |es| ==> es[i].id != es[j].id
  }

  ghost predicate Hashable(H: HashFn, es: seq<Entry>) {
    forall i :: 0 <= i < |es| ==> HashEntry(H, es[i]).Some?
  }

  // A ledger whose only faults are hashes that no longer recompute.
  ghost predicate Sound(H: HashFn, es: seq<Entry>) {
    UniqueIds(es) && Linked(es, GENESIS_HASH) && Hashable(H, es)
  }

  // Positions still failing verification.
  ghost function Unvouched(H: HashFn, es: seq<Entry>): set<int> {
    set i | 0 <= i < |es| && !Intact(H, es[i]) && !Vouched(es, i)
  }

  predicate IdUnused(es: seq<Entry>, id: string) {
    forall i :: 0 <= i < |es| ==> es[i].id != id
  }

  // Every anchor entry can be encoded: it holds strings only.
  ghost predicate AnchorsEncode(H: HashFn) {
    forall req: Request, prev :: req.entryType == ChainAnchor ==> H(Unhashed(req, prev)).Some?
  }

  // One successful Anchor: the arguments, the position vouched for, the entry appended.
  datatype Call = Call(a: AnchorArgs, t: int, e: Entry)

  // The call succeeds on es, under an id no entry carries yet.
  ghost predicate Repairs(H: HashFn, es: seq<Entry>, c: Call) {
    Anchors(H, es, c.a, c.t, c.e) && IdUnused(es, c.a.ulid)
  }

  // Zero unvouched mismatches is acceptance, with the mismatched ids as anomalies.
  lemma NoneUnvouchedIsAccepted(H: HashFn, es: seq<Entry>)
    requires Sound(H, es)
    ensures Accepted(H, es, GENESIS_HASH) <==> Unvouched(H, es) == {}
  {
    if Unvouched(H, es) == {} {
      forall i | 0 <= i < |es| ensures EntryOk(H, es, GENESIS_HASH, i) {
        assert i !in Unvouched(H, es);
      }
    }
    if Accepted(H, es, GENESIS_HASH) {
      forall i ensures i !in Unvouched(H, es) {
        if 0 <= i < |es| { assert EntryOk(H, es, GENESIS_HASH, i); }
      }
    }
  }

  lemma GoverningAfterAppend(es: seq<Entry>, e: Entry, id: string, k: int)
    requires !IsAnchorFor(e, id)
    ensures GoverningAnchor(es + [e], id, k) <==> GoverningAnchor(es, id, k)
  {
    var next := es + [e];
    assert forall j :: 0 <= j < |es| ==> next[j] == es[j];
    assert next[|es|] == e;
    if GoverningAnchor(next, id, k) {
      assert k != |es|;
      forall j | k < j < |es| ensures !IsAnchorFor(es[j], id) { assert next[j] == es[j]; }
    }
  }

  lemma VouchedAfterAppend(es: seq<Entry>, e: Entry, i: nat)
    requires i < |es| && !IsAnchorFor(e, es[i].id)
    ensures Vouched(es + [e], i) <==> Vouched(es, i)
  {
    var next := es + [e];
    forall k ensures GoverningAnchor(next, es[i].id, k) <==> GoverningAnchor(es, es[i].id, k) {
      GoverningAfterAppend(es, e, es[i].id, k);
    }
    assert next[i] == es[i];
  }

  // Whatever others appended since it read, the anchor vouches for its target.
  lemma VouchedByNewAnchor(H: HashFn, seen: seq<Entry>, es: seq<Entry>, a: AnchorArgs, t: int, e: Entry)
    requires seen <= es && AnchorsSeen(H, seen, es, a, t, e)
    ensures Vouched(es + [e], t)
    ensures seen == es ==> !Vouched(es, t)
    ensures e.payload.chainAnchor.Some? && e.entryType == ChainAnchor
      && e.payload.chainAnchor.value.entryId == a.entryId
    ensures e.id == a.ulid && es[t].id == a.entryId && !Intact(H, es[t])
  {
    var next := es + [e];
    assert next[|es|] == e && next[t] == es[t] == seen[t];
    assert GoverningAnchor(next, next[t].id, |es|);
  }

  lemma SoundAfterAnchor(H: HashFn, seen: seq<Entry>, es: seq<Entry>, a: AnchorArgs, t: int, e: Entry)
    requires Sound(H, es) && seen <= es && AnchorsSeen(H, seen, es, a, t, e) && IdUnused(es, a.ulid)
    ensures Sound(H, es + [e])
  {
    var next := es + [e];
    assert forall j :: 0 <= j < |es| ==> next[j] == es[j];
    assert UniqueIds(next) by { assert e.id == a.ulid; }
    assert Hashable(H, next);
    forall i | 0 <= i < |next| ensures LinkedAt(next, GENESIS_HASH, i) {
      assert i == |es| || LinkedAt(es, GENESIS_HASH, i);
    }
  }

  lemma UnvouchedAfterAnchor(H: HashFn, seen: seq<Entry>, es: seq<Entry>, a: AnchorArgs, t: int, e: Entry, i: int)
    requires Sound(H, es) && seen <= es && AnchorsSeen(H, seen, es, a, t, e)
    ensures i in Unvouched(H, es + [e]) <==> i in Unvouched(H, es) && i != t
  {
    var next := es + [e];
    VouchedByNewAnchor(H, seen, es, a, t, e);
    if 0 <= i < |es| {
      assert next[i] == es[i];
      if i != t {
        assert es[i].id != es[t].id;
        VouchedAfterAppend(es, e, i);
      }
    }
  }

  // An anchor that raced others is as good as one that did not: a sound ledger stays sound, and
  // exactly its target leaves the unvouched mismatches, if it has not left them already.
  lemma RacedAnchorIsHarmless(H: HashFn, seen: seq<Entry>, es: seq<Entry>, a: AnchorArgs, t: int, e: Entry)
    requires Sound(H, es) && seen <= es && AnchorsSeen(H, seen, es, a, t, e) && IdUnused(es, a.ulid)
    ensures Sound(H, es + [e]) && Unvouched(H, es + [e]) == Unvouched(H, es) - {t}
    ensures Accepted(H, es, GENESIS_HASH) ==> Accepted(H, es + [e], GENESIS_HASH)
  {
    SoundAfterAnchor(H, seen, es, a, t, e);
    forall i ensures i in Unvouched(H, es + [e]) <==> i in Unvouched(H, es) - {t} {
      UnvouchedAfterAnchor(H, seen, es, a, t, e, i);
    }
    NoneUnvouchedIsAccepted(H, es);
    NoneUnvouchedIsAccepted(H, es + [e]);
  }

  // It may be the second anchor of its entry, which an anchor is to refuse: it is exactly when
  // another one was appended after it read.
  lemma SecondAnchorExactly(H: HashFn, seen: seq<Entry>, es: seq<Entry>, a: AnchorArgs, t: int, e: Entry)
    requires seen <= es && AnchorsSeen(H, seen, es, a, t, e)
    ensures Named(es, a.entryId) <==> exists k :: |seen| <= k < |es| && IsAnchorFor(es[k], a.entryId)
  {
    forall k | 0 <= k < |seen| ensures !IsAnchorFor(es[k], a.entryId) {
      assert es[k] == seen[k];
    }
  }

  // Two anchors that read alike both succeed.
  lemma RaceAnchorsTwice(H: HashFn, seen: seq<Entry>, a: AnchorArgs, b: AnchorArgs, t: int)
    returns (e: Entry, f: Entry)
    requires AnchorsEncode(H) && Target(H, seen, a, t) && Target(H, seen, b, t)
    ensures AnchorsSeen(H, seen, seen, a, t, e) && AnchorsSeen(H, seen, seen + [e], b, t, f)
    ensures IsAnchorFor(e, a.entryId) && IsAnchorFor(f, a.entryId)
  {
    var recomputed := HashEntry(H, seen[t]).value;
    e := AnchorEntry(H, seen, a, seen[t], recomputed).value;
    f := AnchorEntry(H, seen + [e], b, seen[t], recomputed).value;
    VouchedByNewAnchor(H, seen, seen, a, t, e);
    VouchedByNewAnchor(H, seen, seen + [e], b, t, f);
  }

  // Each success removes exactly its target from the unvouched mismatches.
  lemma RepairLowersByOne(H: HashFn, es: seq<Entry>, c: Call)
    requires Sound(H, es) && Repairs(H, es, c)
    ensures Sound(H, es + [c.e])
    ensures c.t in Unvouched(H, es)
    ensures Unvouched(H, es + [c.e]) == Unvouched(H, es) - {c.t}
    ensures |Unvouched(H, es + [c.e])| == |Unvouched(H, es)| - 1
  {
    VouchedByNewAnchor(H, es, es, c.a, c.t, c.e);
    RacedAnchorIsHarmless(H, es, es, c.a, c.t, c.e);
  }

  // An accepted ledger offers Anchor nothing to do.
  lemma AcceptedIsRefused(H: HashFn, es: seq<Entry>, genesis: string, a: AnchorArgs, t: int, e: Entry)
    requires Accepted(H, es, genesis)
    ensures !Anchors(H, es, a, t, e)
  {
    assert 0 <= t < |es| ==> EntryOk(H, es, genesis, t);
    if Anchors(H, es, a, t, e) {
      VouchedByNewAnchor(H, es, es, a, t, e);
    }
  }

  // ---------- Convergence ----------

  // The calls, made one after another, all succeed and leave `last`.
  ghost predicate RepairsTo(H: HashFn, calls: seq<Call>, es: seq<Entry>, last: seq<Entry>)
    decreases |calls|
  {
    if calls == [] then es == last
    else Repairs(H, es, calls[0]) && RepairsTo(H, calls[1..], es + [calls[0].e], last)
  }

  // Some run of Anchor calls makes the ledger verify.
  ghost predicate Repairable(H: HashFn, es: seq<Entry>) {
    exists calls, last :: RepairsTo(H, calls, es, last) && Accepted(H, last, GENESIS_HASH)
  }

  // A mismatch is stuck when an anchor names it without vouching for it.
  ghost predicate Stuck(H: HashFn, es: seq<Entry>, i: int) {
    i in Unvouched(H, es) && Named(es, es[i].id)
  }

  lemma StuckStays(H: HashFn, es: seq<Entry>, c: Call, i: int)
    requires Sound(H, es) && Repairs(H, es, c) && Stuck(H, es, i)
    ensures Stuck(H, es + [c.e], i)
  {
    UnvouchedAfterAnchor(H, es, es, c.a, c.t, c.e, i);
    NamedAfterRepair(H, es, c, es[i].id);
    assert (es + [c.e])[i] == es[i];
  }

  lemma {:induction false} StuckForever(H: HashFn, calls: seq<Call>, es: seq<Entry>, last: seq<Entry>, i: int)
    requires Sound(H, es) && RepairsTo(H, calls, es, last) && Stuck(H, es, i)
    ensures Sound(H, last) && Stuck(H, last, i)
    decreases |calls|
  {
    if calls != [] {
      SoundAfterAnchor(H, es, es, calls[0].a, calls[0].t, calls[0].e);
      StuckStays(H, es, calls[0], i);
      StuckForever(H, calls[1..], es + [calls[0].e], last, i);
    }
  }

  function AllIds(es: seq<Entry>): string {
    if es == [] then "0" else es[0].id + AllIds(es[1..])
  }

  lemma FreshId(es: seq<Entry>, i: nat)
    requires i < |es|
    ensures |es[i].id| < |AllIds(es)|
  {
    if i > 0 {
      FreshId(es[1..], i - 1);
    } else {
      FreshIdNonempty(es[1..]);
    }
  }

  lemma FreshIdNonempty(es: seq<Entry>)
    ensures |AllIds(es)| > 0
  {
  }

  // An unvouched mismatch that no anchor names can be anchored, by any call that gives a reason and
  // an approver and whose own entry encodes.
  lemma CanRepair(H: HashFn, es: seq<Entry>, t: int, a: AnchorArgs) returns (c: Call)
    requires UniqueIds(es) && 0 <= t < |es| && HashEntry(H, es[t]).Some? && !Intact(H, es[t])
    requires !Named(es, es[t].id)
    requires Asked(a) && a.entryId == es[t].id && IdUnused(es, a.ulid)
    requires AnchorEntry(H, es, a, es[t], HashEntry(H, es[t]).value).Some?
    ensures Repairs(H, es, c) && c.t == t && c.a == a
  {
    c := Call(a, t, AnchorEntry(H, es, a, es[t], HashEntry(H, es[t]).value).value);
  }

  // Arguments under an id that no entry carries.
  lemma SomeArgs(es: seq<Entry>, id: string) returns (a: AnchorArgs)
    ensures Asked(a) && a.entryId == id && IdUnused(es, a.ulid)
  {
    a := AnchorArgs(id, "reason", "owner", "actor", 0, AllIds(es));
    forall i | 0 <= i < |es| ensures es[i].id != a.ulid { FreshId(es, i); }
  }

  lemma NamedAfterRepair(H: HashFn, es: seq<Entry>, c: Call, id: string)
    requires Repairs(H, es, c)
    ensures Named(es + [c.e], id) <==> Named(es, id) || id == c.a.entryId
  {
    var next := es + [c.e];
    VouchedByNewAnchor(H, es, es, c.a, c.t, c.e);
    assert next[|es|] == c.e;
    if Named(es, id) {
      var k :| 0 <= k < |es| && IsAnchorFor(es[k], id);
      assert IsAnchorFor(next[k], id);
    }
    if Named(next, id) {
      var k :| 0 <= k < |next| && IsAnchorFor(next[k], id);
      assert k == |es| || IsAnchorFor(es[k], id);
    }
  }

  lemma NoneStuckAfterRepair(H: HashFn, es: seq<Entry>, c: Call)
    requires Sound(H, es) && Repairs(H, es, c) && forall i :: !Stuck(H, es, i)
    ensures forall i :: !Stuck(H, es + [c.e], i)
  {
    forall i ensures !Stuck(H, es + [c.e], i) {
      UnvouchedAfterAnchor(H, es, es, c.a, c.t, c.e, i);
      if i in Unvouched(H, es) && i != c.t {
        assert !Stuck(H, es, i);
        assert (es + [c.e])[i] == es[i] && es[i].id != es[c.t].id;
        NamedAfterRepair(H, es, c, es[i].id);
      }
    }
  }

  lemma {:induction false} ConvergesWhenNoneStuck(H: HashFn, es: seq<Entry>)
    returns (calls: seq<Call>, last: seq<Entry>)
    requires AnchorsEncode(H)
    requires Sound(H, es) && forall i :: !Stuck(H, es, i)
    ensures RepairsTo(H, calls, es, last) && |calls| == |Unvouched(H, es)|
    ensures Accepted(H, last, GENESIS_HASH)
    decreases |Unvouched(H, es)|
  {
    if Unvouched(H, es) == {} {
      NoneUnvouchedIsAccepted(H, es);
      calls, last := [], es;
    } else {
      var t :| t in Unvouched(H, es);
      assert !Stuck(H, es, t);
      var a := SomeArgs(es, es[t].id);
      var c := CanRepair(H, es, t, a);
      RepairLowersByOne(H, es, c);
      NoneStuckAfterRepair(H, es, c);
      calls, last := ConvergesWhenNoneStuck(H, es + [c.e]);
      assert ([c] + calls)[1..] == calls;
      calls := [c] + calls;
    }
  }

  // The exact reach of the repair: it can finish if and only if no mismatch is named by an
  // anchor that fails to vouch for it.
  lemma RepairableExactly(H: HashFn, es: seq<Entry>)
    requires AnchorsEncode(H)
    requires Sound(H, es)
    ensures Repairable(H, es) <==> forall i :: !Stuck(H, es, i)
  {
    if forall i :: !Stuck(H, es, i) {
      var calls, last := ConvergesWhenNoneStuck(H, es);
    }
    if calls, last :| RepairsTo(H, calls, es, last) && Accepted(H, last, GENESIS_HASH) {
      forall i ensures !Stuck(H, es, i) {
        if Stuck(H, es, i) {
          StuckForever(H, calls, es, last, i);
          NoneUnvouchedIsAccepted(H, last);
        }
      }
    }
  }

  // However the calls are ordered, k successes leave exactly k fewer unvouched mismatches; so a
  // run of successes is never longer than the mismatches it started with.
  lemma {:induction false} EachSuccessCounts(H: HashFn, calls: seq<Call>, es: seq<Entry>, last: seq<Entry>)
    requires Sound(H, es) && RepairsTo(H, calls, es, last)
    ensures Sound(H, last)
    ensures |Unvouched(H, last)| == |Unvouched(H, es)| - |calls|
    decreases |calls|
  {
    if calls != [] {
      RepairLowersByOne(H, es, calls[0]);
      EachSuccessCounts(H, calls[1..], es + [calls[0].e], last);
    }
  }

  // When the count reaches zero the ledger verifies, and the anomalies it reports are the ids
  // of the entries mismatched at the start, in file order.
  lemma {:induction false} RepairedLedgerVerifies(H: HashFn, calls: seq<Call>, es: seq<Entry>, last: seq<Entry>)
    requires Sound(H, es) && RepairsTo(H, calls, es, last)
    ensures Accepted(H, last, GENESIS_HASH) <==> |calls| == |Unvouched(H, es)|
    ensures MismatchedIds(H, last) == MismatchedIds(H, es)
  {
    EachSuccessCounts(H, calls, es, last);
    NoneUnvouchedIsAccepted(H, last);
    AnchorsAddNoMismatch(H, calls, es, last);
  }

  lemma {:induction false} AnchorsAddNoMismatch(H: HashFn, calls: seq<Call>, es: seq<Entry>, last: seq<Entry>)
    requires RepairsTo(H, calls, es, last)
    ensures MismatchedIds(H, last) == MismatchedIds(H, es)
    decreases |calls|
  {
    if calls != [] {
      var next := es + [calls[0].e];
      assert next[..|es| + 1] == next && next[..|es|] == es;
      MismatchedIdsStep(H, next, |es|);
      AnchorsAddNoMismatch(H, calls[1..], next, last);
    }
  }
}
