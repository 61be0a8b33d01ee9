/** Cutting a ledger to a time window, and when the cut still verifies
    (internal/bundle/export.go, buildLedgerSlice). */
module BundleSlice {
  import opened Wrappers
  import opened LedgerEntry
  import opened LedgerVerify
  import Picking

  function KeptFrom(es: seq<Entry>, cutoff: Time): seq<Entry> {
    if es == [] then []
    else (if es[0].createdAt < cutoff then [] else [es[0]]) + KeptFrom(es[1..], cutoff)
  }

  // A window that is not positive keeps everything.
  function Kept(es: seq<Entry>, since: int, now: Time): seq<Entry> {
    if since > 0 then KeptFrom(es, now - since) else es
  }

  lemma {:induction false} KeptFromAppend(a: seq<Entry>, b: seq<Entry>, cutoff: Time)
    ensures KeptFrom(a + b, cutoff) == KeptFrom(a, cutoff) + KeptFrom(b, cutoff)
  {
    if a == [] {
      assert a + b == b;
    } else {
      var ab := a + b;
      assert ab[0] == a[0] && ab[1..] == a[1..] + b;
      KeptFromAppend(a[1..], b, cutoff);
      var head := if a[0].createdAt < cutoff then [] else [a[0]];
      var kept, more := KeptFrom(a[1..], cutoff), KeptFrom(b, cutoff);
      assert KeptFrom(ab, cutoff) == head + (kept + more) == (head + kept) + more;
    }
  }

  // Which entries an export takes: all without a window, and with one those it reaches back to.
  function Wanted(es: seq<Entry>, since: int, now: Time): (r: seq<bool>)
    ensures |r| == |es|
    ensures forall i :: 0 <= i < |es| ==> (r[i] <==> since <= 0 || now - since <= es[i].createdAt)
  {
    seq(|es|, i requires 0 <= i < |es| => since <= 0 || now - since <= es[i].createdAt)
  }

  // The slice holds each of them, once and in order, and nothing else.
  ghost predicate IsSlice(es: seq<Entry>, since: int, now: Time, kept: seq<Entry>) {
    Picking.Picks(es, Wanted(es, since, now), kept)
  }

  function FromCutoff(es: seq<Entry>, cutoff: Time): (r: seq<bool>)
    ensures |r| == |es| && forall i :: 0 <= i < |es| ==> (r[i] <==> cutoff <= es[i].createdAt)
  {
    seq(|es|, i requires 0 <= i < |es| => cutoff <= es[i].createdAt)
  }

  lemma {:induction false} KeptFromStep(es: seq<Entry>, x: Entry, cutoff: Time)
    ensures KeptFrom(es + [x], cutoff) == if cutoff <= x.createdAt then KeptFrom(es, cutoff) + [x]
      else KeptFrom(es, cutoff)
  {
    KeptFromAppend(es, [x], cutoff);
    assert KeptFrom([x][1..], cutoff) == [];
  }

  lemma {:induction false} CutOneMore(es: seq<Entry>, x: Entry, cutoff: Time, kept: seq<Entry>)
    requires Picking.Picks(es, FromCutoff(es, cutoff), kept)
    ensures Picking.Picks(es + [x], FromCutoff(es + [x], cutoff), if cutoff <= x.createdAt then kept + [x] else kept)
  {
    Picking.PicksOneMore(es, FromCutoff(es, cutoff), kept, x, cutoff <= x.createdAt);
    assert FromCutoff(es + [x], cutoff) == FromCutoff(es, cutoff) + [cutoff <= x.createdAt];
  }

  lemma {:induction false} KeptFromExactly(es: seq<Entry>, cutoff: Time)
    ensures Picking.Picks(es, FromCutoff(es, cutoff), KeptFrom(es, cutoff))
  {
    if es == [] {
      Picking.PicksNone<Entry>();
    } else {
      var init, x := es[..|es| - 1], es[|es| - 1];
      assert es == init + [x];
      KeptFromExactly(init, cutoff);
      KeptFromStep(init, x, cutoff);
      CutOneMore(init, x, cutoff, KeptFrom(init, cutoff));
    }
  }

  lemma {:induction false} KeptExactly(es: seq<Entry>, since: int, now: Time)
    ensures IsSlice(es, since, now, Kept(es, since, now))
  {
    if since > 0 {
      KeptFromExactly(es, now - since);
      assert Wanted(es, since, now) == FromCutoff(es, now - since);
    } else {
      Picking.PicksAll(es, Wanted(es, since, now));
    }
  }

  // That decides the slice.
  lemma SliceExactly(es: seq<Entry>, since: int, now: Time, kept: seq<Entry>)
    ensures IsSlice(es, since, now, kept) <==> kept == Kept(es, since, now)
  {
    KeptExactly(es, since, now);
    if IsSlice(es, since, now, kept) {
      Picking.PicksUnique(es, Wanted(es, since, now), kept, Kept(es, since, now));
    }
  }

  // Without a window the slice is the ledger.
  lemma NoWindowKeepsAll(es: seq<Entry>, since: int, now: Time, kept: seq<Entry>)
    requires since <= 0
    ensures IsSlice(es, since, now, kept) <==> kept == es
  {
    SliceExactly(es, since, now, kept);
  }

  method BuildLedgerSlice(es: seq<Entry>, since: int, now: Time) returns (kept: seq<Entry>)
    ensures kept == Kept(es, since, now)
    ensures IsSlice(es, since, now, kept)
  {
    ghost var slice := Kept(es, since, now);
    KeptExactly(es, since, now);
    if since <= 0 {
      return es;
    }
    var cutoff := now - since;
    kept := [];
    var i := 0;
    while i < |es|
      invariant 0 <= i <= |es|
      invariant kept == KeptFrom(es[..i], cutoff)
    {
      assert es[..i + 1] == es[..i] + [es[i]];
      KeptFromStep(es[..i], es[i], cutoff);
      if !(es[i].createdAt < cutoff) {
        kept := kept + [es[i]];
      }
      i := i + 1;
    }
    assert es[..|es|] == es;
    assert kept == slice;
  }

  // ---------- Nondecreasing times: the cut is a suffix ----------

  predicate TimesNondecreasing(es: seq<Entry>) {
    forall i, j :: 0 <= i < j < |es| ==> es[i].createdAt <= es[j].createdAt
  }

  lemma {:induction false} AllKept(es: seq<Entry>, cutoff: Time)
    requires forall i :: 0 <= i < |es| ==> cutoff <= es[i].createdAt
    ensures KeptFrom(es, cutoff) == es
  {
    if es != [] {
      AllKept(es[1..], cutoff);
      assert es == [es[0]] + es[1..];
    }
  }

  lemma {:induction false} KeptIsSuffix(es: seq<Entry>, cutoff: Time) returns (k: nat)
    requires TimesNondecreasing(es)
    ensures k <= |es| && KeptFrom(es, cutoff) == es[k..]
  {
    if es == [] {
      k := 0;
    } else if es[0].createdAt < cutoff {
      k := KeptIsSuffix(es[1..], cutoff);
      k := k + 1;
      assert es[1..][k - 1..] == es[k..];
    } else {
      forall i | 0 <= i < |es| ensures cutoff <= es[i].createdAt {
        assert i == 0 || es[0].createdAt <= es[i].createdAt;
      }
      AllKept(es, cutoff);
      k := 0;
    }
  }

  // A slice that would pass the chain half of bundle verification.
  ghost predicate SliceOk(H: HashFn, kept: seq<Entry>) {
    kept == [] || Accepted(H, kept, kept[0].prev)
  }

  lemma SliceOfOrderedLedgerOk(H: HashFn, es: seq<Entry>, genesis: string, since: int, now: Time)
    requires Accepted(H, es, genesis) && TimesNondecreasing(es)
    ensures SliceOk(H, Kept(es, since, now))
  {
    var k := 0;
    if since > 0 {
      k := KeptIsSuffix(es, now - since);
    } else {
      assert es[0..] == es;
    }
    if k < |es| {
      SuffixAccepted(H, es, genesis, k);
    }
  }

  // ---------- Any times: what the cut needs ----------

  predicate InWindow(es: seq<Entry>, cutoff: Time, i: int) {
    0 <= i < |es| && cutoff <= es[i].createdAt
  }

  // The kept positions, in order.
  ghost predicate Picks(es: seq<Entry>, cutoff: Time, pos: seq<int>) {
    && (forall m :: 0 <= m < |pos| ==> InWindow(es, cutoff, pos[m]))
    && (forall m, n :: 0 <= m < n < |pos| ==> pos[m] < pos[n])
    && (forall i :: InWindow(es, cutoff, i) ==> i in pos)
  }

  // Neighbours in the cut: both kept, nothing kept between.
  predicate Seam(es: seq<Entry>, cutoff: Time, i: int, k: int) {
    i < k && InWindow(es, cutoff, i) && InWindow(es, cutoff, k) && forall j :: i < j < k ==> !InWindow(es, cutoff, j)
  }

  // Neighbours in the cut are linked by hash.
  ghost predicate SeamsMeet(es: seq<Entry>, cutoff: Time) {
    forall i, k :: Seam(es, cutoff, i, k) ==> es[k].prev == es[i].hash
  }

  // Among the kept entries, the anchor at k governs entry i's id and records its hash.
  ghost predicate KeptVouch(es: seq<Entry>, cutoff: Time, i: int, k: int) {
    && 0 <= i < k && InWindow(es, cutoff, k) && IsAnchorFor(es[k], es[i].id)
    && es[k].payload.chainAnchor.value.storedHash == es[i].hash
    && forall j :: k < j && InWindow(es, cutoff, j) ==> !IsAnchorFor(es[j], es[i].id)
  }

  // Every kept mismatch is vouched for by what is kept.
  ghost predicate AnchorsKept(H: HashFn, es: seq<Entry>, cutoff: Time) {
    forall i :: InWindow(es, cutoff, i) && !Intact(H, es[i]) ==> exists k :: KeptVouch(es, cutoff, i, k)
  }

  lemma PickOf(es: seq<Entry>, cutoff: Time, pos: seq<int>, i: int) returns (m: nat)
    requires Picks(es, cutoff, pos) && InWindow(es, cutoff, i)
    ensures m < |pos| && pos[m] == i
  {
    m :| 0 <= m < |pos| && pos[m] == i;
  }

  ghost predicate Cut(es: seq<Entry>, cutoff: Time, pos: seq<int>, kept: seq<Entry>) {
    Picks(es, cutoff, pos) && |kept| == |pos| && forall m :: 0 <= m < |pos| ==> kept[m] == es[pos[m]]
  }

  lemma CutOf(es: seq<Entry>, cutoff: Time) returns (pos: seq<int>)
    ensures Cut(es, cutoff, pos, KeptFrom(es, cutoff))
  {
    KeptFromExactly(es, cutoff);
    var flags := FromCutoff(es, cutoff);
    pos :| Picking.Lists(pos, flags) && Picking.StandAt(es, pos, KeptFrom(es, cutoff));
    forall i | InWindow(es, cutoff, i) ensures i in pos {
      assert Picking.Flagged(flags, i);
    }
    forall m | 0 <= m < |pos| ensures InWindow(es, cutoff, pos[m]) {
      assert Picking.Flagged(flags, pos[m]);
    }
  }

  lemma NeighboursAreSeams(es: seq<Entry>, cutoff: Time, pos: seq<int>, m: nat)
    requires Picks(es, cutoff, pos) && m + 1 < |pos|
    ensures Seam(es, cutoff, pos[m], pos[m + 1])
  {
    forall j | InWindow(es, cutoff, j) ensures j <= pos[m] || pos[m + 1] <= j {
      var n := PickOf(es, cutoff, pos, j);
      assert n <= m || m + 1 <= n;
    }
  }

  lemma SeamsAreNeighbours(es: seq<Entry>, cutoff: Time, pos: seq<int>, i: int, k: int) returns (m: nat)
    requires Picks(es, cutoff, pos) && Seam(es, cutoff, i, k)
    ensures m + 1 < |pos| && pos[m] == i && pos[m + 1] == k
  {
    m := PickOf(es, cutoff, pos, i);
    var n := PickOf(es, cutoff, pos, k);
    assert m < n;
    assert InWindow(es, cutoff, pos[m + 1]);
  }

  lemma CutLinkedExactly(es: seq<Entry>, cutoff: Time, pos: seq<int>, kept: seq<Entry>)
    requires Cut(es, cutoff, pos, kept) && kept != []
    ensures Linked(kept, kept[0].prev) <==> SeamsMeet(es, cutoff)
  {
    if SeamsMeet(es, cutoff) {
      forall m | 0 <= m < |kept| ensures LinkedAt(kept, kept[0].prev, m) {
        if m > 0 {
          NeighboursAreSeams(es, cutoff, pos, m - 1);
        }
      }
    }
    if Linked(kept, kept[0].prev) {
      forall i, k | Seam(es, cutoff, i, k) ensures es[k].prev == es[i].hash {
        var m := SeamsAreNeighbours(es, cutoff, pos, i, k);
        assert LinkedAt(kept, kept[0].prev, m + 1);
      }
    }
  }

  lemma CutVouchedExactly(es: seq<Entry>, cutoff: Time, pos: seq<int>, kept: seq<Entry>, m: nat)
    requires Cut(es, cutoff, pos, kept) && m < |kept|
    ensures Vouched(kept, m) <==> exists k :: KeptVouch(es, cutoff, pos[m], k)
  {
    if Vouched(kept, m) {
      var n :| m < n && GoverningAnchor(kept, kept[m].id, n)
        && kept[n].payload.chainAnchor.value.storedHash == kept[m].hash;
      forall j | pos[n] < j && InWindow(es, cutoff, j) ensures !IsAnchorFor(es[j], es[pos[m]].id) {
        var o := PickOf(es, cutoff, pos, j);
        assert n < o;
        assert !IsAnchorFor(kept[o], kept[m].id);
      }
      assert KeptVouch(es, cutoff, pos[m], pos[n]);
    }
    if k :| KeptVouch(es, cutoff, pos[m], k) {
      var n := PickOf(es, cutoff, pos, k);
      forall o | n < o < |kept| ensures !IsAnchorFor(kept[o], kept[m].id) {
        assert pos[n] < pos[o] && InWindow(es, cutoff, pos[o]);
      }
      assert GoverningAnchor(kept, kept[m].id, n);
    }
  }

  // On any accepted ledger, the cut verifies if and only if neighbours in it are linked and every
  // mismatch it keeps is still vouched for by an anchor it keeps.
  lemma SliceOkExactly(H: HashFn, es: seq<Entry>, genesis: string, cutoff: Time)
    requires Accepted(H, es, genesis)
    ensures SliceOk(H, KeptFrom(es, cutoff)) <==> SeamsMeet(es, cutoff) && AnchorsKept(H, es, cutoff)
  {
    var kept := KeptFrom(es, cutoff);
    var pos := CutOf(es, cutoff);
    if kept == [] {
      forall i ensures !InWindow(es, cutoff, i) {
        if InWindow(es, cutoff, i) {
          var m := PickOf(es, cutoff, pos, i);
        }
      }
    } else {
      CutLinkedExactly(es, cutoff, pos, kept);
      CutAcceptedExactly(H, es, genesis, cutoff, pos, kept);
    }
  }

  lemma CutAcceptedExactly(
    H: HashFn, es: seq<Entry>, genesis: string, cutoff: Time, pos: seq<int>, kept: seq<Entry>)
    requires Accepted(H, es, genesis) && Cut(es, cutoff, pos, kept) && kept != []
    ensures Accepted(H, kept, kept[0].prev) <==> Linked(kept, kept[0].prev) && AnchorsKept(H, es, cutoff)
  {
    forall m | 0 <= m < |kept|
      ensures EntryOk(H, kept, kept[0].prev, m) <==> LinkedAt(kept, kept[0].prev, m) && KeptOk(H, es, cutoff, pos[m])
    {
      assert EntryOk(H, es, genesis, pos[m]);
      CutVouchedExactly(es, cutoff, pos, kept, m);
    }
    if AnchorsKept(H, es, cutoff) {
      forall m | 0 <= m < |kept| ensures KeptOk(H, es, cutoff, pos[m]) {
        assert InWindow(es, cutoff, pos[m]);
      }
    }
    if Accepted(H, kept, kept[0].prev) {
      forall i | InWindow(es, cutoff, i) ensures KeptOk(H, es, cutoff, i) {
        var m := PickOf(es, cutoff, pos, i);
        assert EntryOk(H, kept, kept[0].prev, m);
      }
      forall m | 0 <= m < |kept| ensures LinkedAt(kept, kept[0].prev, m) {
        assert EntryOk(H, kept, kept[0].prev, m);
      }
    }
  }

  ghost predicate KeptOk(H: HashFn, es: seq<Entry>, cutoff: Time, i: int) {
    InWindow(es, cutoff, i) ==> Intact(H, es[i]) || exists k :: KeptVouch(es, cutoff, i, k)
  }

  // ---------- Holes ----------

  predicate WindowCovers(es: seq<Entry>, cutoff: Time, i: int, k: int) {
    forall j :: i < j < k ==> InWindow(es, cutoff, j)
  }

  // No entry older than the cutoff sits between two that are kept.
  ghost predicate NoHole(es: seq<Entry>, cutoff: Time) {
    forall i, k :: i < k && InWindow(es, cutoff, i) && InWindow(es, cutoff, k) ==> WindowCovers(es, cutoff, i, k)
  }

  ghost predicate DistinctHashes(es: seq<Entry>) {
    forall i, j :: 0 <= i < j < |es| ==> es[i].hash != es[j].hash
  }

  lemma PristineDistinctHashes(H: HashFn, es: seq<Entry>)
    requires CollisionFree(H) && GenesisFresh(H) && Pristine(H, es, GENESIS_HASH)
    ensures DistinctHashes(es)
  {
    forall i, j | 0 <= i < j < |es| ensures es[i].hash != es[j].hash {
      if es[i].hash == es[j].hash {
        IntactPinned(H, es[i], es[j]);
        PristineNoRepeats(H, es, i, j);
      }
    }
  }

  // The last kept position before j, and the first one after it.
  lemma {:induction false} KeptBefore(es: seq<Entry>, cutoff: Time, i: int, j: int) returns (a: int)
    requires i < j && InWindow(es, cutoff, i)
    ensures i <= a < j && InWindow(es, cutoff, a) && forall m :: a < m < j ==> !InWindow(es, cutoff, m)
    decreases j - i
  {
    if InWindow(es, cutoff, j - 1) {
      a := j - 1;
    } else {
      a := KeptBefore(es, cutoff, i, j - 1);
    }
  }

  lemma {:induction false} KeptAfter(es: seq<Entry>, cutoff: Time, j: int, k: int) returns (b: int)
    requires j < k && InWindow(es, cutoff, k)
    ensures j < b <= k && InWindow(es, cutoff, b) && forall m :: j < m < b ==> !InWindow(es, cutoff, m)
    decreases k - j
  {
    if InWindow(es, cutoff, j + 1) {
      b := j + 1;
    } else {
      b := KeptAfter(es, cutoff, j + 1, k);
    }
  }

  // Where no two entries share a stored hash, neighbours meet exactly when there is no hole.
  lemma SeamsMeetExactly(es: seq<Entry>, genesis: string, cutoff: Time)
    requires Linked(es, genesis) && DistinctHashes(es)
    ensures SeamsMeet(es, cutoff) <==> NoHole(es, cutoff)
  {
    if NoHole(es, cutoff) {
      forall i, k | Seam(es, cutoff, i, k) ensures es[k].prev == es[i].hash {
        assert WindowCovers(es, cutoff, i, k);
        assert i + 1 == k || InWindow(es, cutoff, i + 1);
        assert LinkedAt(es, genesis, k);
      }
    }
    if SeamsMeet(es, cutoff) {
      forall i, k, j | i < j < k && InWindow(es, cutoff, i) && InWindow(es, cutoff, k) ensures InWindow(es, cutoff, j) {
        var a := KeptBefore(es, cutoff, i, j + 1);
        var b := KeptAfter(es, cutoff, a, k);
        assert Seam(es, cutoff, a, b);
        assert LinkedAt(es, genesis, b);
        assert b == a + 1;
      }
    }
  }

  // Without anomalies there is nothing to vouch for, and a hole is all that can go wrong.
  lemma PristineSliceOkExactly(H: HashFn, es: seq<Entry>, cutoff: Time)
    requires CollisionFree(H) && GenesisFresh(H) && Pristine(H, es, GENESIS_HASH)
    ensures SliceOk(H, KeptFrom(es, cutoff)) <==> NoHole(es, cutoff)
  {
    PristineIsAcceptedWithoutAnomalies(H, es, GENESIS_HASH);
    PristineDistinctHashes(H, es);
    SeamsMeetExactly(es, GENESIS_HASH, cutoff);
    SliceOkExactly(H, es, GENESIS_HASH, cutoff);
  }

  // A cut without a hole can still fail: an anomaly stays and the anchor that vouches for it goes,
  // because its time is before the cutoff.
  lemma CutCanDropTheAnchor(H: HashFn) returns (es: seq<Entry>, cutoff: Time)
    requires forall e :: H(e).Some?
    ensures Accepted(H, es, GENESIS_HASH) && NoHole(es, cutoff) && !SliceOk(H, KeptFrom(es, cutoff))
  {
    var bare := Entry(1, "a", 1, Checkpoint, "", EMPTY_PAYLOAD, GENESIS_HASH, "", "");
    var odd := bare.(hash := H(bare).value + "?");
    var vouch := AnchorPayload("a", odd.hash, H(bare).value, "reason", "owner");
    var blank := Entry(1, "b", 0, ChainAnchor, "", EMPTY_PAYLOAD.(chainAnchor := Some(vouch)), odd.hash, "", "");
    var anchor := blank.(hash := H(blank).value);
    es, cutoff := [odd, anchor], 1;
    assert Bare(odd) == bare && Bare(anchor) == blank;
    assert GoverningAnchor(es, "a", 1);
    assert EntryOk(H, es, GENESIS_HASH, 0) && EntryOk(H, es, GENESIS_HASH, 1);
    assert es[1..] == [anchor] && [anchor][1..] == [];
    assert KeptFrom([anchor], 1) == [];
    var kept := KeptFrom(es, cutoff);
    assert kept == [odd];
    assert !EntryOk(H, kept, kept[0].prev, 0);
  }
}
