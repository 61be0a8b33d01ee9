/** Ledger overrides and their expiry (internal/ledger/override.go). */
module Overrides {
  import opened Wrappers
  import opened Text
  import opened Sorting
  import opened LedgerEntry
  import Engine

  const DAY := 86400000000000 // nanoseconds
  const DEFAULT_EXPIRY := 30 * DAY
  const MAX_EXPIRY := 90 * DAY
  const LEGACY_GRACE := 30 * DAY

  datatype OverrideError = FindingRequired | ApproverRequired | ReasonRequired | NotPositive | TooLong

  method NewOverridePayload(findingId: string, approvedBy: string, reason: string, expiresIn: int, now: Time)
    returns (r: Result<OverridePayload, OverrideError>)
    ensures r.Ok? <==>
      && TrimSpace(findingId) != "" && TrimSpace(approvedBy) != "" && TrimSpace(reason) != ""
      && 0 <= expiresIn <= MAX_EXPIRY
    ensures r.Ok? ==> BuiltAt(r.value, now)
    ensures r.Ok? && expiresIn == 0 ==> r.value.expiresAt == Some(now + DEFAULT_EXPIRY)
    ensures r.Ok? && expiresIn != 0 ==> r.value.expiresAt == Some(now + expiresIn)
    ensures r.Ok? ==>
      r.value.findingId == findingId && r.value.approvedBy == approvedBy && r.value.reason == TrimSpace(reason)
    ensures r == Err(FindingRequired) <==> TrimSpace(findingId) == ""
    ensures r == Err(TooLong) ==> expiresIn > MAX_EXPIRY
    ensures r == Err(NotPositive) ==> expiresIn < 0
  {
    if |TrimSpace(findingId)| == 0 {
      return Err(FindingRequired);
    }
    if |TrimSpace(approvedBy)| == 0 {
      return Err(ApproverRequired);
    }
    var trimmed := TrimSpace(reason);
    if |trimmed| == 0 {
      return Err(ReasonRequired);
    }
    var window := expiresIn;
    if window == 0 {
      window := DEFAULT_EXPIRY;
    }
    if window < 0 {
      return Err(NotPositive);
    }
    if window > MAX_EXPIRY {
      return Err(TooLong);
    }
    return Ok(OverridePayload(findingId, approvedBy, trimmed, Some(now + window)));
  }

  // What any payload built at `now` carries: a positive window of at most 90 days.
  predicate BuiltAt(o: OverridePayload, now: Time) {
    o.expiresAt.Some? && now < o.expiresAt.value <= now + MAX_EXPIRY
  }

  function OverrideExpiry(e: Entry): Time
    requires e.payload.override.Some?
  {
    match e.payload.override.value.expiresAt
    case Some(at) => at
    case None => e.createdAt + LEGACY_GRACE
  }

  predicate IsOverride(e: Entry) {
    e.entryType == OverrideEntry && e.payload.override.Some?
  }

  predicate Active(e: Entry, now: Time) {
    IsOverride(e) && now < OverrideExpiry(e)
  }

  function FindingOf(e: Entry): string
    requires IsOverride(e)
  {
    e.payload.override.value.findingId
  }

  datatype OverrideState = OverrideState(
    entryId: string, findingId: string, approvedBy: string, reason: string, expiresAt: Time, legacyNoExpiry: bool)

  function StateOf(e: Entry): OverrideState
    requires IsOverride(e)
  {
    var o := e.payload.override.value;
    OverrideState(e.id, o.findingId, o.approvedBy, o.reason, OverrideExpiry(e), o.expiresAt.None?)
  }

  // Position i holds the last unexpired override of its finding among the first n entries.
  ghost predicate LastActiveBefore(es: seq<Entry>, now: Time, n: nat, i: int)
    requires n <= |es|
  {
    0 <= i < n && Active(es[i], now)
    && forall j :: i < j < n && Active(es[j], now) ==> FindingOf(es[j]) != FindingOf(es[i])
  }

  ghost predicate LastActive(es: seq<Entry>, now: Time, i: int) {
    LastActiveBefore(es, now, |es|, i)
  }

  // Exactly the last unexpired override per finding, sorted by entry id.
  ghost predicate ActiveSet(es: seq<Entry>, now: Time, states: seq<OverrideState>) {
    && (forall s :: s in states ==> exists i :: LastActive(es, now, i) && s == StateOf(es[i]))
    && (forall i :: LastActive(es, now, i) ==> StateOf(es[i]) in states)
    && (forall a, b :: 0 <= a < b < |states| ==> states[a].findingId != states[b].findingId)
    && SortedBy(ByEntryId, states)
  }

  predicate ByEntryId(a: OverrideState, b: OverrideState) {
    StringLess(a.entryId, b.entryId)
  }

  lemma ByEntryIdIsWeakOrder()
    ensures StrictWeakOrder(ByEntryId)
  {
    forall x, y ensures !ByEntryId(x, x) && !(ByEntryId(x, y) && ByEntryId(y, x)) {
      StringLessTotal(x.entryId, x.entryId);
      StringLessTotal(x.entryId, y.entryId);
    }
    forall x, y, z | ByEntryId(x, y) && ByEntryId(y, z) ensures ByEntryId(x, z) {
      StringLessTransitive(x.entryId, y.entryId, z.entryId);
    }
    forall x, y, z | !ByEntryId(y, x) && !ByEntryId(z, y) ensures !ByEntryId(z, x) {
      StringLessTotal(x.entryId, y.entryId);
      StringLessTotal(y.entryId, z.entryId);
      StringLessTotal(x.entryId, z.entryId);
      if StringLess(x.entryId, y.entryId) && StringLess(y.entryId, z.entryId) {
        StringLessTransitive(x.entryId, y.entryId, z.entryId);
      }
    }
  }

  ghost predicate TracksId(es: seq<Entry>, now: Time, n: nat, id: string, s: OverrideState)
    requires n <= |es|
  {
    exists i :: LastActiveBefore(es, now, n, i) && s == StateOf(es[i]) && FindingOf(es[i]) == id
  }

  // byFinding holds, for each finding, its last active override so far.
  ghost predicate Tracks(es: seq<Entry>, now: Time, n: nat, byFinding: map<string, OverrideState>)
    requires n <= |es|
  {
    && (forall id :: id in byFinding ==> TracksId(es, now, n, id, byFinding[id]))
    && (forall i :: 0 <= i < n && Active(es[i], now) ==> FindingOf(es[i]) in byFinding)
  }

  lemma TracksIdStays(es: seq<Entry>, now: Time, n: nat, id: string, s: OverrideState)
    requires n < |es| && TracksId(es, now, n, id, s)
    requires !Active(es[n], now) || FindingOf(es[n]) != id
    ensures TracksId(es, now, n + 1, id, s)
  {
    var i :| LastActiveBefore(es, now, n, i) && s == StateOf(es[i]) && FindingOf(es[i]) == id;
    assert LastActiveBefore(es, now, n + 1, i);
  }

  lemma TracksSkip(es: seq<Entry>, now: Time, n: nat, byFinding: map<string, OverrideState>)
    requires n < |es| && Tracks(es, now, n, byFinding) && !Active(es[n], now)
    ensures Tracks(es, now, n + 1, byFinding)
  {
    forall id | id in byFinding ensures TracksId(es, now, n + 1, id, byFinding[id]) {
      TracksIdStays(es, now, n, id, byFinding[id]);
    }
  }

  lemma TracksPut(es: seq<Entry>, now: Time, n: nat, byFinding: map<string, OverrideState>)
    requires n < |es| && Tracks(es, now, n, byFinding) && Active(es[n], now)
    ensures Tracks(es, now, n + 1, byFinding[FindingOf(es[n]) := StateOf(es[n])])
  {
    var next := byFinding[FindingOf(es[n]) := StateOf(es[n])];
    assert LastActiveBefore(es, now, n + 1, n);
    forall id | id in next ensures TracksId(es, now, n + 1, id, next[id]) {
      if id != FindingOf(es[n]) {
        TracksIdStays(es, now, n, id, byFinding[id]);
      }
    }
  }

  // The states of a map, in whatever order the map is walked.
  method StatesOf(byFinding: map<string, OverrideState>) returns (states: seq<OverrideState>)
    requires forall id :: id in byFinding ==> byFinding[id].findingId == id
    ensures forall s :: s in states <==> s.findingId in byFinding && byFinding[s.findingId] == s
    ensures forall a, b :: 0 <= a < b < |states| ==> states[a].findingId != states[b].findingId
  {
    states := [];
    var left := byFinding.Keys;
    while left != {}
      invariant left <= byFinding.Keys
      invariant forall s :: s in states <==> s.findingId in byFinding.Keys - left && byFinding[s.findingId] == s
      invariant forall a, b :: 0 <= a < b < |states| ==> states[a].findingId != states[b].findingId
      decreases |left|
    {
      var id :| id in left;
      forall a | 0 <= a < |states| ensures states[a].findingId != id { assert states[a] in states; }
      states := states + [byFinding[id]];
      left := left - {id};
    }
  }

  method ActiveOverrideStates(es: seq<Entry>, now: Time) returns (states: seq<OverrideState>)
    ensures ActiveSet(es, now, states)
  {
    var byFinding: map<string, OverrideState> := map[];
    var n := 0;
    while n < |es|
      invariant 0 <= n <= |es|
      invariant Tracks(es, now, n, byFinding)
    {
      var e := es[n];
      if e.entryType == OverrideEntry && e.payload.override.Some? && now < OverrideExpiry(e) {
        TracksPut(es, now, n, byFinding);
        byFinding := byFinding[FindingOf(e) := StateOf(e)];
      } else {
        TracksSkip(es, now, n, byFinding);
      }
      n := n + 1;
    }
    assert forall id :: id in byFinding ==> TracksId(es, now, |es|, id, byFinding[id]);
    var unsorted := StatesOf(byFinding);
    ByEntryIdIsWeakOrder();
    states := SortSlice(ByEntryId, unsorted);
    TrackedIsActiveSet(es, now, byFinding, unsorted, states);
  }

  lemma DistinctSurvivesSort(a: seq<OverrideState>, b: seq<OverrideState>)
    requires multiset(a) == multiset(b)
    requires forall i, j :: 0 <= i < j < |a| ==> a[i].findingId != a[j].findingId
    ensures forall i, j :: 0 <= i < j < |b| ==> b[i].findingId != b[j].findingId
  {
    forall i, j | 0 <= i < j < |b| ensures b[i].findingId != b[j].findingId {
      if b[i].findingId == b[j].findingId {
        SameMembers(a, b);
        assert b[i] in a && b[j] in a;
        var m :| 0 <= m < |a| && a[m] == b[i];
        var k :| 0 <= k < |a| && a[k] == b[j];
        assert m == k;
        TwiceInMultiset(b, i, j);
        OnceInMultiset(a, m);
      }
    }
  }

  lemma TwiceInMultiset<T>(s: seq<T>, i: nat, j: nat)
    requires i < j < |s| && s[i] == s[j]
    ensures multiset(s)[s[i]] >= 2
  {
    assert s == s[..j] + s[j..];
    assert s[i] == s[..j][i] && s[j] == s[j..][0];
    assert s[i] in multiset(s[..j]) && s[i] in multiset(s[j..]);
    assert multiset(s) == multiset(s[..j]) + multiset(s[j..]);
  }

  lemma OnceInMultiset(s: seq<OverrideState>, m: nat)
    requires m < |s| && forall i, j :: 0 <= i < j < |s| ==> s[i].findingId != s[j].findingId
    ensures multiset(s)[s[m]] == 1
  {
    assert s == s[..m] + [s[m]] + s[m + 1..];
    assert s[m] !in s[..m] && s[m] !in s[m + 1..];
    assert s[m] !in multiset(s[..m]) && s[m] !in multiset(s[m + 1..]);
  }

  lemma TrackedIsActiveSet(es: seq<Entry>, now: Time, byFinding: map<string, OverrideState>,
                           unsorted: seq<OverrideState>, states: seq<OverrideState>)
    requires Tracks(es, now, |es|, byFinding) && SortOf(ByEntryId, unsorted, states)
    requires forall s :: s in unsorted <==> s.findingId in byFinding && byFinding[s.findingId] == s
    requires forall a, b :: 0 <= a < b < |unsorted| ==> unsorted[a].findingId != unsorted[b].findingId
    ensures ActiveSet(es, now, states)
  {
    SameMembers(states, unsorted);
    DistinctSurvivesSort(unsorted, states);
    forall s | s in states ensures exists i :: LastActive(es, now, i) && s == StateOf(es[i]) {
      assert TracksId(es, now, |es|, s.findingId, s);
      var i :| LastActiveBefore(es, now, |es|, i) && s == StateOf(es[i]) && FindingOf(es[i]) == s.findingId;
      assert LastActive(es, now, i);
    }
    forall i | LastActive(es, now, i) ensures StateOf(es[i]) in states {
      var id := FindingOf(es[i]);
      assert id in byFinding;
      assert TracksId(es, now, |es|, id, byFinding[id]);
      var k :| LastActiveBefore(es, now, |es|, k) && byFinding[id] == StateOf(es[k]) && FindingOf(es[k]) == id;
      assert k == i;
    }
  }

  method ActiveOverrides(es: seq<Entry>, now: Time) returns (overrides: seq<Engine.Override>)
    ensures ActiveOverridesAre(es, now, overrides)
  {
    var states := ActiveOverrideStates(es, now);
    overrides := [];
    var i := 0;
    while i < |states|
      invariant 0 <= i <= |states|
      invariant overrides == Map(AsOverride, states)[..i]
    {
      overrides := overrides + [AsOverride(states[i])];
      i := i + 1;
    }
  }

  function AsOverride(s: OverrideState): Engine.Override {
    Engine.Override(s.findingId, s.approvedBy, s.reason)
  }

  ghost predicate ActiveOverridesAre(es: seq<Entry>, now: Time, overrides: seq<Engine.Override>) {
    exists states :: ActiveSet(es, now, states) && overrides == Map(AsOverride, states)
  }

  // ---------- Over the ledger's own fields ----------

  // An override on file that has not expired: its own expiry if it has one, else 30 days from its entry.
  predicate Unexpired(e: Entry, now: Time) {
    && e.entryType == OverrideEntry && e.payload.override.Some?
    && (match e.payload.override.value.expiresAt
        case Some(at) => now < at
        case None => now < e.createdAt + 2592000000000000)
  }

  // Of those for one finding, the last.
  ghost predicate LatestAt(es: seq<Entry>, now: Time, i: int) {
    && 0 <= i < |es| && Unexpired(es[i], now)
    && forall j :: i < j < |es| && Unexpired(es[j], now) ==>
      es[j].payload.override.value.findingId != es[i].payload.override.value.findingId
  }

  // The state reports the entry's own id, finding, approver and reason, and when it expires.
  predicate ReportsEntry(e: Entry, s: OverrideState) {
    && e.payload.override.Some? && s.entryId == e.id
    && s.findingId == e.payload.override.value.findingId
    && s.approvedBy == e.payload.override.value.approvedBy && s.reason == e.payload.override.value.reason
    && (match e.payload.override.value.expiresAt
        case Some(at) => s.expiresAt == at && !s.legacyNoExpiry
        case None => s.expiresAt == e.createdAt + 2592000000000000 && s.legacyNoExpiry)
  }

  predicate HandsOn(e: Entry, o: Engine.Override) {
    && e.payload.override.Some? && o.findingId == e.payload.override.value.findingId
    && o.approvedBy == e.payload.override.value.approvedBy && o.reason == e.payload.override.value.reason
  }

  predicate NoTwoAlike(at: seq<int>) {
    forall m, n :: 0 <= m < n < |at| ==> at[m] != at[n]
  }

  // Ids do not descend: none stands before one it parts from by a later character or as a longer one.
  ghost predicate IdsInOrder(es: seq<Entry>, at: seq<int>) {
    forall m, n, k :: 0 <= m < n < |at| && 0 <= at[m] < |es| && 0 <= at[n] < |es| ==>
      !PartsAt(es[at[n]].id, es[at[m]].id, k)
  }

  // The latest unexpired override of each finding, each once, in the order of entry ids.
  ghost predicate LatestOnes(es: seq<Entry>, now: Time, at: seq<int>) {
    && NoTwoAlike(at) && IdsInOrder(es, at)
    && (forall m :: 0 <= m < |at| ==> LatestAt(es, now, at[m]))
    && (forall i :: LatestAt(es, now, i) ==> i in at)
  }

  lemma LatestIsLast(es: seq<Entry>, now: Time, i: int)
    ensures LatestAt(es, now, i) <==> LastActive(es, now, i)
  {
    assert forall e :: Unexpired(e, now) <==> Active(e, now);
  }

  ghost predicate StandsFor(es: seq<Entry>, now: Time, s: OverrideState, i: int) {
    LatestAt(es, now, i) && s == StateOf(es[i])
  }

  lemma {:induction false} PositionsOf(es: seq<Entry>, now: Time, states: seq<OverrideState>, n: nat)
    returns (at: seq<int>)
    requires ActiveSet(es, now, states) && n <= |states|
    ensures |at| == n && forall m :: 0 <= m < n ==> StandsFor(es, now, states[m], at[m])
  {
    if n == 0 {
      at := [];
    } else {
      at := PositionsOf(es, now, states, n - 1);
      assert states[n - 1] in states;
      var i :| LastActive(es, now, i) && states[n - 1] == StateOf(es[i]);
      LatestIsLast(es, now, i);
      at := at + [i];
    }
  }

  lemma StatesAreLatest(es: seq<Entry>, now: Time, states: seq<OverrideState>) returns (at: seq<int>)
    requires ActiveSet(es, now, states)
    ensures LatestOnes(es, now, at) && |at| == |states|
    ensures forall m :: 0 <= m < |at| ==> 0 <= at[m] < |es| && ReportsEntry(es[at[m]], states[m])
  {
    at := PositionsOf(es, now, states, |states|);
    forall m | 0 <= m < |at| ensures LatestAt(es, now, at[m]) && ReportsEntry(es[at[m]], states[m]) {
      assert StandsFor(es, now, states[m], at[m]);
    }
    forall i | LatestAt(es, now, i) ensures i in at {
      LatestIsLast(es, now, i);
      assert StateOf(es[i]) in states;
      var m :| 0 <= m < |states| && states[m] == StateOf(es[i]);
      assert StandsFor(es, now, states[m], at[m]);
      assert i < at[m] || at[m] < i || at[m] == i;
    }
    forall m, n | 0 <= m < n < |at| ensures at[m] != at[n] {
      assert states[m].findingId != states[n].findingId;
      assert StandsFor(es, now, states[m], at[m]) && StandsFor(es, now, states[n], at[n]);
    }
    forall m, n, k | 0 <= m < n < |at| && 0 <= at[m] < |es| && 0 <= at[n] < |es|
      ensures !PartsAt(es[at[n]].id, es[at[m]].id, k)
    {
      assert StandsFor(es, now, states[m], at[m]) && StandsFor(es, now, states[n], at[n]);
      assert !ByEntryId(states[n], states[m]);
      StringLessExactly(es[at[n]].id, es[at[m]].id);
    }
  }

  // What is active is the latest unexpired override of each finding, with the approver and the reason
  // its entry records.
  lemma ActiveMeans(es: seq<Entry>, now: Time, overrides: seq<Engine.Override>) returns (at: seq<int>)
    requires ActiveOverridesAre(es, now, overrides)
    ensures LatestOnes(es, now, at) && |at| == |overrides|
    ensures forall m :: 0 <= m < |at| ==> 0 <= at[m] < |es| && HandsOn(es[at[m]], overrides[m])
  {
    var states :| ActiveSet(es, now, states) && overrides == Map(AsOverride, states);
    at := StatesAreLatest(es, now, states);
  }

  ghost predicate Waived(es: seq<Entry>, now: Time, id: string) {
    exists i :: 0 <= i < |es| && Unexpired(es[i], now) && es[i].payload.override.value.findingId == id
  }

  // Ledger to exit code: the process fails exactly when a finding that stops it has no unexpired
  // override on file.
  lemma ExitAfterOverrides(es: seq<Entry>, now: Time, findings: seq<Engine.Finding>, overrides: seq<Engine.Override>,
                           out: seq<Engine.Finding>, v: Engine.Verdict, failOnWarn: bool)
    requires ActiveOverridesAre(es, now, overrides)
    requires Engine.Applied(findings, overrides, out) && Engine.IsWorst(out, v)
    ensures Engine.ExitCode(v, failOnWarn) ==
      if exists i :: 0 <= i < |findings| && Engine.Stops(findings[i], failOnWarn) && !Waived(es, now, findings[i].id)
      then 1 else 0
  {
    Engine.ExitExactly(out, v, failOnWarn);
    forall i | 0 <= i < |findings|
      ensures Engine.Stops(out[i], failOnWarn) <==>
        Engine.Stops(findings[i], failOnWarn) && !Waived(es, now, findings[i].id)
    {
      CoveredExactly(es, now, overrides, findings[i].id);
      assert forall e :: Unexpired(e, now) <==> Active(e, now);
      WaivedIsCovered(es, now, overrides, findings[i].id);
    }
  }

  lemma WaivedIsCovered(es: seq<Entry>, now: Time, overrides: seq<Engine.Override>, id: string)
    requires ActiveOverridesAre(es, now, overrides)
    ensures Waived(es, now, id) <==> Engine.Covered(overrides, id)
  {
    CoveredExactly(es, now, overrides, id);
  }

  // ---------- Time ----------

  // An expired override never applies again, and an unexpired one applied at every earlier time.
  lemma ActiveShrinks(e: Entry, earlier: Time, later: Time)
    requires earlier <= later && Active(e, later)
    ensures Active(e, earlier)
  {
  }

  // No override outlives 90 days from the moment its payload was built.
  lemma NewPayloadLapses(e: Entry, builtAt: Time, now: Time)
    requires e.payload.override.Some? && BuiltAt(e.payload.override.value, builtAt)
    requires builtAt + MAX_EXPIRY <= now
    ensures !Active(e, now)
  {
  }

  lemma {:induction false} LastActiveExists(es: seq<Entry>, now: Time, i: nat) returns (k: nat)
    requires i < |es| && Active(es[i], now)
    ensures LastActive(es, now, k) && FindingOf(es[k]) == FindingOf(es[i])
    decreases |es| - i
  {
    if j :| i < j < |es| && Active(es[j], now) && FindingOf(es[j]) == FindingOf(es[i]) {
      k := LastActiveExists(es, now, j);
    } else {
      k := i;
    }
  }

  // A finding is covered exactly when some unexpired override names it.
  lemma CoveredExactly(es: seq<Entry>, now: Time, overrides: seq<Engine.Override>, id: string)
    requires ActiveOverridesAre(es, now, overrides)
    ensures Engine.Covered(overrides, id) <==> exists i :: 0 <= i < |es| && Active(es[i], now) && FindingOf(es[i]) == id
  {
    var states :| ActiveSet(es, now, states) && overrides == Map(AsOverride, states);
    if Engine.Covered(overrides, id) {
      var k :| 0 <= k < |overrides| && overrides[k].findingId == id;
      assert states[k] in states;
    }
    if i :| 0 <= i < |es| && Active(es[i], now) && FindingOf(es[i]) == id {
      var last := LastActiveExists(es, now, i);
      assert StateOf(es[last]) in states;
      var k :| 0 <= k < |states| && states[k] == StateOf(es[last]);
      assert overrides[k].findingId == id;
    }
  }

  // Every override on file was built at its entry's creation, or has no expiry of its own.
  predicate BuiltOrLegacy(e: Entry) {
    IsOverride(e) && e.payload.override.value.expiresAt.Some? ==> BuiltAt(e.payload.override.value, e.createdAt)
  }

  // The longest an entry's override can apply: 30 days from its creation without an expiry of its
  // own, 90 days with one.
  function LongestWindow(e: Entry): int {
    if IsOverride(e) && e.payload.override.value.expiresAt.None? then LEGACY_GRACE else MAX_EXPIRY
  }

  // Once every entry's own window has passed, no override is left.
  lemma NothingOutlivesItsWindow(es: seq<Entry>, now: Time, overrides: seq<Engine.Override>)
    requires ActiveOverridesAre(es, now, overrides)
    requires forall i :: 0 <= i < |es| ==> BuiltOrLegacy(es[i]) && es[i].createdAt + LongestWindow(es[i]) <= now
    ensures overrides == []
  {
    if overrides != [] {
      CoveredExactly(es, now, overrides, overrides[0].findingId);
    }
  }

  // The bounds are attained: an entry without an expiry applies until its 30 days have passed, and
  // no entry built at its creation outlives its 90.
  lemma WindowExactly(e: Entry, now: Time)
    requires IsOverride(e) && BuiltOrLegacy(e)
    ensures Active(e, now) ==> now < e.createdAt + LongestWindow(e)
    ensures e.payload.override.value.expiresAt.None? ==> (Active(e, now) <==> now < e.createdAt + LongestWindow(e))
    ensures e.payload.override.value.expiresAt == Some(e.createdAt + MAX_EXPIRY) ==>
      (Active(e, now) <==> now < e.createdAt + LongestWindow(e))
  {
  }

  lemma CoverShrinks(es: seq<Entry>, earlier: Time, later: Time,
                     o1: seq<Engine.Override>, o2: seq<Engine.Override>, id: string)
    requires earlier <= later && ActiveOverridesAre(es, earlier, o1) && ActiveOverridesAre(es, later, o2)
    ensures Engine.Covered(o2, id) ==> Engine.Covered(o1, id)
  {
    CoveredExactly(es, earlier, o1, id);
    CoveredExactly(es, later, o2, id);
    if j :| 0 <= j < |es| && Active(es[j], later) && FindingOf(es[j]) == id {
      ActiveShrinks(es[j], earlier, later);
    }
  }

  lemma FewerSoftened(findings: seq<Engine.Finding>, o1: seq<Engine.Override>, o2: seq<Engine.Override>,
                      out1: seq<Engine.Finding>, out2: seq<Engine.Finding>, i: nat)
    requires Engine.Applied(findings, o1, out1) && Engine.Applied(findings, o2, out2) && i < |findings|
    requires Engine.Covered(o2, findings[i].id) ==> Engine.Covered(o1, findings[i].id)
    ensures Engine.Rank(out1[i].verdict) <= Engine.Rank(out2[i].verdict)
  {
  }

  // As time passes over one ledger, the overall verdict of one set of findings can only get
  // stricter, and it is never stricter than without overrides.
  lemma VerdictOnlyTightens(es: seq<Entry>, findings: seq<Engine.Finding>, earlier: Time, later: Time,
                            o1: seq<Engine.Override>, o2: seq<Engine.Override>,
                            out1: seq<Engine.Finding>, out2: seq<Engine.Finding>,
                            v1: Engine.Verdict, v2: Engine.Verdict, plain: Engine.Verdict)
    requires earlier <= later
    requires ActiveOverridesAre(es, earlier, o1) && ActiveOverridesAre(es, later, o2)
    requires Engine.Applied(findings, o1, out1) && Engine.Applied(findings, o2, out2)
    requires Engine.IsWorst(out1, v1) && Engine.IsWorst(out2, v2) && Engine.IsWorst(findings, plain)
    ensures Engine.Rank(v1) <= Engine.Rank(v2) <= Engine.Rank(plain)
  {
    forall i | 0 <= i < |findings| ensures Engine.Rank(out1[i].verdict) <= Engine.Rank(out2[i].verdict) {
      CoverShrinks(es, earlier, later, o1, o2, findings[i].id);
      FewerSoftened(findings, o1, o2, out1, out2, i);
    }
    Engine.WorstIsMonotone(out1, out2, v1, v2);
    Engine.AppliedIsWeaker(findings, o2, out2, v2, plain);
  }
}
