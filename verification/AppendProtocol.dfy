/** Concurrent writers of one ledger file (internal/ledger/ledger.go, Append): the steps of
    Append interleaved with process deaths and power cuts.

    A power cut may drop any suffix of lines not yet synced. It may also lose the file's name,
    if the directory entry that Append syncs on a best-effort basis never reached the disk. */
module AppendProtocol {
  import opened Wrappers
  import opened LedgerEntry
  import opened LedgerVerify
  import opened LedgerFile

  // Where a writer stands inside Append. From Locked to Leaving it holds the lock.
  datatype Pc =
    | Idle
    | Looked(req: Request, newFile: bool)                 // after os.Stat
    | Locked(req: Request, newFile: bool)                 // after Flock(LOCK_EX)
    | Opened(req: Request, newFile: bool)                 // after OpenFile(O_CREATE)
    | HasPrev(req: Request, newFile: bool, prev: string)  // after lastHashLocked
    | Written(newFile: bool, entry: Entry)                // after Write, before fsync
    | Synced(newFile: bool, entry: Entry)                 // after fsync
    | Leaving(result: Option<Entry>)                    // deferred unlock; None is an error return

  datatype State = State(
    file: seq<Entry>,
    exist: bool,
    synced: nat,          // lines on disk
    nameSynced: bool,     // the directory entry is on disk
    lock: Option<nat>,
    pcs: seq<Pc>,         // one per writer
    returned: seq<Entry>) // what successful Appends have returned so far

  datatype Step =
    | Stat(w: nat, req: Request)
    | TakeLock(w: nat)
    | Open(w: nat)
    | ReadLast(w: nat)
    | Write(w: nat, ok: bool)
    | Sync(w: nat, ok: bool)
    | SyncDir(w: nat, ok: bool)
    | Unlock(w: nat)
    | Die(w: nat)
    | PowerCut(keep: nat)
    | PowerCutLosingName

  predicate Holds(pc: Pc) {
    !pc.Idle? && !pc.Looked?
  }

  function Start(n: nat): State {
    State([], false, 0, false, None, seq(n, _ => Idle), [])
  }

  ghost predicate Next(H: HashFn, s: State, step: Step, t: State) {
    match step
    case Stat(w, req) =>
      w < |s.pcs| && s.pcs[w].Idle? && t == s.(pcs := s.pcs[w := Looked(req, !s.exist)])
    case TakeLock(w) =>
      w < |s.pcs| && s.pcs[w].Looked? && s.lock.None?
      && t == s.(lock := Some(w), pcs := s.pcs[w := Locked(s.pcs[w].req, s.pcs[w].newFile)])
    case Open(w) =>
      w < |s.pcs| && s.pcs[w].Locked?
      && t == s.(exist := true, pcs := s.pcs[w := Opened(s.pcs[w].req, s.pcs[w].newFile)])
    case ReadLast(w) =>
      w < |s.pcs| && s.pcs[w].Opened?
      && t == s.(pcs := s.pcs[w := HasPrev(s.pcs[w].req, s.pcs[w].newFile, LastHash(s.file))])
    case Write(w, ok) =>
      w < |s.pcs| && s.pcs[w].HasPrev? &&
      var e := Chained(H, s.pcs[w].req, s.pcs[w].prev);
      if ok && e.Some? then
        t == s.(file := s.file + [e.value], pcs := s.pcs[w := Written(s.pcs[w].newFile, e.value)])
      else t == s.(pcs := s.pcs[w := Leaving(None)])
    case Sync(w, ok) =>
      w < |s.pcs| && s.pcs[w].Written? &&
      if ok then t == s.(synced := |s.file|, pcs := s.pcs[w := Synced(s.pcs[w].newFile, s.pcs[w].entry)])
      else t == s.(pcs := s.pcs[w := Leaving(None)])
    case SyncDir(w, ok) =>
      // A failed directory sync is swallowed; a writer that found the file there skips it.
      w < |s.pcs| && s.pcs[w].Synced?
      && t == s.(nameSynced := s.nameSynced || (s.pcs[w].newFile && ok),
                 pcs := s.pcs[w := Leaving(Some(s.pcs[w].entry))])
    case Unlock(w) =>
      w < |s.pcs| && s.pcs[w].Leaving?
      && t == s.(lock := None, pcs := s.pcs[w := Idle],
                 returned := s.returned + (if s.pcs[w].result.Some? then [s.pcs[w].result.value] else []))
    case Die(w) =>
      // The kernel drops the flock with the process.
      w < |s.pcs|
      && t == s.(lock := if s.lock == Some(w) then None else s.lock, pcs := s.pcs[w := Idle])
    case PowerCut(keep) =>
      s.synced <= keep <= |s.file|
      && t == s.(file := s.file[..keep], synced := keep, nameSynced := s.exist, lock := None,
                 pcs := seq(|s.pcs|, _ => Idle))
    case PowerCutLosingName =>
      s.exist && !s.nameSynced
      && t == s.(file := [], exist := false, synced := 0, lock := None, pcs := seq(|s.pcs|, _ => Idle))
  }

  // run[k] is the state after the first k steps.
  ghost predicate Run(H: HashFn, n: nat, steps: seq<Step>, run: seq<State>) {
    |run| == |steps| + 1 && run[0] == Start(n)
    && forall k :: 0 <= k < |steps| ==> StepAt(H, steps, run, k)
  }

  ghost predicate StepAt(H: HashFn, steps: seq<Step>, run: seq<State>, k: int)
    requires 0 <= k < |steps| && |run| == |steps| + 1
  {
    Next(H, run[k], steps[k], run[k + 1])
  }

  // ---------- What every step keeps, power cuts of either kind included ----------

  // What writer w may rely on.
  predicate WriterOk(s: State, w: int)
    requires 0 <= w < |s.pcs|
  {
    var pc := s.pcs[w];
    && (Holds(pc) <==> s.lock == Some(w))
    && (Holds(pc) && !pc.Locked? && pc != Leaving(None) ==> s.exist)
    && (pc.HasPrev? ==> pc.prev == LastHash(s.file))
    && (pc.Written? ==> s.file != [] && s.file[|s.file| - 1] == pc.entry)
    && (pc.Synced? ==> s.file != [] && s.file[|s.file| - 1] == pc.entry && s.synced == |s.file|)
    && (pc.Leaving? && pc.result.Some? ==>
          s.file != [] && s.file[|s.file| - 1] == pc.result.value && s.synced == |s.file|)
  }

  ghost predicate Inv(H: HashFn, s: State) {
    && Pristine(H, s.file, GENESIS_HASH)
    && s.synced <= |s.file|
    && (!s.exist ==> s.file == [] && !s.nameSynced)
    && forall w :: 0 <= w < |s.pcs| ==> WriterOk(s, w)
  }

  lemma AppendKeepsPristine(H: HashFn, es: seq<Entry>, e: Entry)
    requires Pristine(H, es, GENESIS_HASH) && Intact(H, e) && e.prev == LastHash(es)
    ensures Pristine(H, es + [e], GENESIS_HASH)
  {
    var next := es + [e];
    forall i | 0 <= i < |next| ensures LinkedAt(next, GENESIS_HASH, i) && Intact(H, next[i]) {
      if i < |es| {
        assert LinkedAt(es, GENESIS_HASH, i) && next[i] == es[i];
        if i > 0 { assert next[i - 1] == es[i - 1]; }
      }
    }
  }

  lemma NextKeepsFile(H: HashFn, s: State, step: Step, t: State)
    requires Inv(H, s) && Next(H, s, step, t)
    ensures Pristine(H, t.file, GENESIS_HASH)
    ensures t.synced <= |t.file| && (!t.exist ==> t.file == [] && !t.nameSynced)
  {
    match step
    case Write(w, ok) =>
      assert WriterOk(s, w);
      if ok && Chained(H, s.pcs[w].req, s.pcs[w].prev).Some? {
        AppendKeepsPristine(H, s.file, t.file[|s.file|]);
      }
    case SyncDir(w, ok) =>
      assert WriterOk(s, w);
    case PowerCut(keep) =>
      PristinePrefix(H, s.file, GENESIS_HASH, keep);
    case _ =>
  }

  // The writer a step belongs to; power cuts belong to none.
  function Actor(step: Step): Option<nat> {
    match step
    case PowerCut(_) => None
    case PowerCutLosingName => None
    case _ => Some(step.w)
  }

  // A writer holding the lock is alone in changing what the others rely on.
  lemma NextKeepsWriter(H: HashFn, s: State, step: Step, t: State, v: nat)
    requires Inv(H, s) && Next(H, s, step, t) && v < |t.pcs|
    ensures |t.pcs| == |s.pcs| && WriterOk(t, v)
  {
    assert |t.pcs| == |s.pcs|;
    assert WriterOk(s, v);
    var actor := Actor(step);
    if actor.Some? {
      assert WriterOk(s, actor.value);
    }
  }

  lemma NextKeepsInv(H: HashFn, s: State, step: Step, t: State)
    requires Inv(H, s) && Next(H, s, step, t)
    ensures Inv(H, t)
  {
    NextKeepsFile(H, s, step, t);
    forall v | 0 <= v < |t.pcs| ensures WriterOk(t, v) {
      NextKeepsWriter(H, s, step, t, v);
    }
  }

  lemma {:induction false} RunKeepsInv(H: HashFn, n: nat, steps: seq<Step>, run: seq<State>, k: nat)
    requires Run(H, n, steps, run) && k <= |steps|
    ensures Inv(H, run[k])
  {
    if k > 0 {
      RunKeepsInv(H, n, steps, run, k - 1);
      assert StepAt(H, steps, run, k - 1);
      NextKeepsInv(H, run[k - 1], steps[k - 1], run[k]);
    }
  }

  // Whatever the interleaving, the deaths and the power cuts: every file VerifyEntries could
  // ever read is accepted, with no anomalies.
  lemma EveryReachableFileVerifies(H: HashFn, n: nat, steps: seq<Step>, run: seq<State>, k: nat)
    requires Run(H, n, steps, run) && k <= |steps|
    ensures Accepted(H, run[k].file, GENESIS_HASH) && MismatchedIds(H, run[k].file) == []
  {
    RunKeepsInv(H, n, steps, run, k);
    PristineIsAcceptedWithoutAnomalies(H, run[k].file, GENESIS_HASH);
  }

  // ---------- What is in the file was asked for ----------

  // Some writer asked for req in the first k steps.
  predicate Asked(steps: seq<Step>, k: nat, req: Request)
    requires k <= |steps|
  {
    exists j :: 0 <= j < k && steps[j].Stat? && steps[j].req == req
  }

  // The entry carries a request that some writer made.
  ghost predicate AskedFor(steps: seq<Step>, k: nat, e: Entry)
    requires k <= |steps|
  {
    exists req :: Asked(steps, k, req) && Carries(e, req)
  }

  ghost predicate PcAsked(steps: seq<Step>, k: nat, pc: Pc)
    requires k <= |steps|
  {
    match pc
    case Idle => true
    case Written(_, e) => AskedFor(steps, k, e)
    case Synced(_, e) => AskedFor(steps, k, e)
    case Leaving(result) => result.Some? ==> AskedFor(steps, k, result.value)
    case _ => Asked(steps, k, pc.req)
  }

  ghost predicate FileAsked(steps: seq<Step>, k: nat, file: seq<Entry>)
    requires k <= |steps|
  {
    forall i :: 0 <= i < |file| ==> AskedFor(steps, k, file[i])
  }

  ghost predicate AllAsked(steps: seq<Step>, k: nat, s: State)
    requires k <= |steps|
  {
    && FileAsked(steps, k, s.file) && FileAsked(steps, k, s.returned)
    && forall w :: 0 <= w < |s.pcs| ==> PcAsked(steps, k, s.pcs[w])
  }

  lemma AskedStays(steps: seq<Step>, k: nat, e: Entry)
    requires k < |steps| && AskedFor(steps, k, e)
    ensures AskedFor(steps, k + 1, e)
  {
    var req :| Asked(steps, k, req) && Carries(e, req);
    assert Asked(steps, k + 1, req);
  }

  lemma PcAskedStays(steps: seq<Step>, k: nat, pc: Pc)
    requires k < |steps| && PcAsked(steps, k, pc)
    ensures PcAsked(steps, k + 1, pc)
  {
    match pc {
      case Written(_, e) => AskedStays(steps, k, e);
      case Synced(_, e) => AskedStays(steps, k, e);
      case Leaving(result) => if result.Some? { AskedStays(steps, k, result.value); }
      case _ =>
    }
  }

  lemma AllAskedStays(steps: seq<Step>, k: nat, s: State)
    requires k < |steps| && AllAsked(steps, k, s)
    ensures AllAsked(steps, k + 1, s)
  {
    forall i | 0 <= i < |s.file| ensures AskedFor(steps, k + 1, s.file[i]) { AskedStays(steps, k, s.file[i]); }
    forall i | 0 <= i < |s.returned| ensures AskedFor(steps, k + 1, s.returned[i]) {
      AskedStays(steps, k, s.returned[i]);
    }
    forall w | 0 <= w < |s.pcs| ensures PcAsked(steps, k + 1, s.pcs[w]) { PcAskedStays(steps, k, s.pcs[w]); }
  }

  // What the step itself adds was asked for.
  lemma NextAsksFile(H: HashFn, steps: seq<Step>, k: nat, s: State, t: State)
    requires k < |steps| && AllAsked(steps, k + 1, s) && Next(H, s, steps[k], t)
    ensures FileAsked(steps, k + 1, t.file) && FileAsked(steps, k + 1, t.returned)
  {
    match steps[k]
    case Write(w, ok) =>
      assert PcAsked(steps, k + 1, s.pcs[w]);
      var e := Chained(H, s.pcs[w].req, s.pcs[w].prev);
      if e.Some? { assert AskedFor(steps, k + 1, e.value); }
    case Unlock(w) => assert PcAsked(steps, k + 1, s.pcs[w]);
    case _ =>
  }

  // A writer's next place, when it takes a step itself.
  lemma NextAsksActor(H: HashFn, steps: seq<Step>, k: nat, s: State, t: State, w: nat)
    requires k < |steps| && AllAsked(steps, k + 1, s) && Next(H, s, steps[k], t)
    requires Actor(steps[k]) == Some(w) && w < |t.pcs|
    ensures PcAsked(steps, k + 1, t.pcs[w])
  {
    assert PcAsked(steps, k + 1, s.pcs[w]);
    match steps[k]
    case Stat(_, req) => assert Asked(steps, k + 1, req);
    case Write(_, ok) =>
      var e := Chained(H, s.pcs[w].req, s.pcs[w].prev);
      if e.Some? { assert AskedFor(steps, k + 1, e.value); }
    case _ =>
  }

  lemma OthersStay(H: HashFn, s: State, step: Step, t: State, v: nat)
    requires Next(H, s, step, t) && v < |t.pcs| && Actor(step) != Some(v)
    ensures |t.pcs| == |s.pcs| && (t.pcs[v] == s.pcs[v] || t.pcs[v].Idle?)
  {
  }

  lemma NextAsks(H: HashFn, steps: seq<Step>, k: nat, s: State, t: State)
    requires k < |steps| && AllAsked(steps, k + 1, s) && Next(H, s, steps[k], t)
    ensures AllAsked(steps, k + 1, t)
  {
    NextAsksFile(H, steps, k, s, t);
    forall v | 0 <= v < |t.pcs| ensures PcAsked(steps, k + 1, t.pcs[v]) {
      if Actor(steps[k]) == Some(v) {
        NextAsksActor(H, steps, k, s, t, v);
      } else {
        OthersStay(H, s, steps[k], t, v);
      }
    }
  }

  // In every state of every run, each entry in the file and each one returned carries, field by
  // field, a request that some writer made: nothing is made up, mixed up or left out.
  lemma {:induction false} EveryEntryWasAskedFor(H: HashFn, n: nat, steps: seq<Step>, run: seq<State>, k: nat)
    requires Run(H, n, steps, run) && k <= |steps|
    ensures FileAsked(steps, k, run[k].file) && FileAsked(steps, k, run[k].returned)
    ensures AllAsked(steps, k, run[k])
  {
    if k > 0 {
      EveryEntryWasAskedFor(H, n, steps, run, k - 1);
      AllAskedStays(steps, k - 1, run[k - 1]);
      assert StepAt(H, steps, run, k - 1);
      NextAsks(H, steps, k - 1, run[k - 1], run[k]);
    }
  }

  // At most one writer is between lock and unlock.
  lemma MutualExclusion(H: HashFn, n: nat, steps: seq<Step>, run: seq<State>, k: nat, v: nat, w: nat)
    requires Run(H, n, steps, run) && k <= |steps|
    requires v < |run[k].pcs| && w < |run[k].pcs| && Holds(run[k].pcs[v]) && Holds(run[k].pcs[w])
    ensures v == w
  {
    RunKeepsInv(H, n, steps, run, k);
    assert WriterOk(run[k], v) && WriterOk(run[k], w);
  }

  // ---------- Success is durable ----------

  ghost predicate ExactlyOnce(es: seq<Entry>, e: Entry) {
    exists i :: 0 <= i < |es| && es[i] == e && forall j :: 0 <= j < |es| && j != i ==> es[j] != e
  }

  predicate Pending(pc: Pc, e: Entry) {
    ((pc.Written? || pc.Synced?) && pc.entry == e) || pc == Leaving(Some(e))
  }

  ghost predicate NotPending(s: State, w: int)
    requires 0 <= w < |s.pcs|
  {
    forall e :: e in s.returned ==> !Pending(s.pcs[w], e)
  }

  // Returned entries are synced, pairwise distinct, and none is still in a writer's hands.
  ghost predicate Durable(s: State) {
    && s.synced <= |s.file|
    && (forall e :: e in s.returned ==> e in s.file[..s.synced])
    && (forall i, j :: 0 <= i < j < |s.returned| ==> s.returned[i] != s.returned[j])
    && (forall w :: 0 <= w < |s.pcs| ==> NotPending(s, w))
  }

  lemma WrittenIsNew(H: HashFn, es: seq<Entry>, e: Entry)
    requires CollisionFree(H) && GenesisFresh(H) && Pristine(H, es + [e], GENESIS_HASH)
    ensures e !in es
  {
    if e in es {
      var i :| 0 <= i < |es| && es[i] == e;
      PristineNoRepeats(H, es + [e], i, |es|);
    }
  }

  lemma SyncedStays(H: HashFn, s: State, step: Step, t: State)
    requires Inv(H, s) && Next(H, s, step, t) && !step.PowerCutLosingName?
    ensures s.synced <= t.synced <= |t.file| && s.file[..s.synced] <= t.file[..t.synced]
  {
  }

  // The line a writer has just written is none that was ever returned.
  lemma WriteIsNotReturned(H: HashFn, s: State, step: Step, t: State)
    requires CollisionFree(H) && GenesisFresh(H)
    requires Inv(H, s) && Durable(s) && Next(H, s, step, t) && step.Write?
    ensures t.returned == s.returned && (t.pcs[step.w].Written? ==> t.pcs[step.w].entry !in s.returned)
  {
    if t.pcs[step.w].Written? {
      NextKeepsFile(H, s, step, t);
      WrittenIsNew(H, s.file, t.pcs[step.w].entry);
      assert forall e :: e in s.returned ==> e in s.file;
    }
  }

  // The entry being returned leaves its writer's hands, and nobody else holds one.
  lemma UnlockLeavesNonePending(H: HashFn, s: State, step: Step, t: State, v: nat)
    requires Inv(H, s) && Durable(s) && Next(H, s, step, t) && step.Unlock? && v < |t.pcs|
    ensures NotPending(t, v)
  {
    assert WriterOk(s, v) && WriterOk(s, step.w);
    assert !Holds(t.pcs[v]);
  }

  // What is pending after any other step was pending before it.
  lemma PendingWasPending(H: HashFn, s: State, step: Step, t: State, v: nat, e: Entry)
    requires Next(H, s, step, t) && !step.Write? && !step.Unlock? && v < |t.pcs| == |s.pcs|
    ensures Pending(t.pcs[v], e) ==> Pending(s.pcs[v], e)
  {
  }

  lemma NextKeepsNotPending(H: HashFn, s: State, step: Step, t: State, v: nat)
    requires CollisionFree(H) && GenesisFresh(H)
    requires Inv(H, s) && Durable(s) && Next(H, s, step, t) && v < |t.pcs| == |s.pcs|
    ensures NotPending(t, v)
  {
    if step.Unlock? {
      UnlockLeavesNonePending(H, s, step, t, v);
    } else {
      assert t.returned == s.returned && NotPending(s, v);
      if step.Write? {
        WriteIsNotReturned(H, s, step, t);
      } else {
        forall e | e in t.returned ensures !Pending(t.pcs[v], e) {
          PendingWasPending(H, s, step, t, v, e);
        }
      }
    }
  }

  lemma NextKeepsDurable(H: HashFn, s: State, step: Step, t: State)
    requires CollisionFree(H) && GenesisFresh(H)
    requires Inv(H, s) && Durable(s) && Next(H, s, step, t) && !step.PowerCutLosingName?
    ensures Durable(t)
    ensures s.returned <= t.returned
  {
    SyncedStays(H, s, step, t);
    assert |t.pcs| == |s.pcs|;
    forall v | 0 <= v < |t.pcs| ensures NotPending(t, v) {
      NextKeepsNotPending(H, s, step, t, v);
    }
    if step.Unlock? {
      assert WriterOk(s, step.w) && NotPending(s, step.w);
      var result := s.pcs[step.w].result;
      if result.Some? {
        assert Pending(s.pcs[step.w], result.value);
        assert s.file[..s.synced] == s.file;
        assert t.returned == s.returned + [result.value];
      }
    }
  }

  // No power cut in the first k steps found the directory entry unsynced.
  predicate NameKept(steps: seq<Step>, k: nat)
    requires k <= |steps|
  {
    forall i :: 0 <= i < k ==> !steps[i].PowerCutLosingName?
  }

  // While the name is kept, no two successes return one entry, and every one returned is synced.
  lemma {:induction false} RunKeepsDurable(H: HashFn, n: nat, steps: seq<Step>, run: seq<State>, k: nat)
    requires CollisionFree(H) && GenesisFresh(H)
    requires Run(H, n, steps, run) && k <= |steps| && NameKept(steps, k)
    ensures Durable(run[k])
  {
    if k > 0 {
      RunKeepsDurable(H, n, steps, run, k - 1);
      RunKeepsInv(H, n, steps, run, k - 1);
      assert StepAt(H, steps, run, k - 1);
      NextKeepsDurable(H, run[k - 1], steps[k - 1], run[k]);
    }
  }

  // ---------- When success is for good ----------

  // A run from any state.
  ghost predicate Continues(H: HashFn, s: State, steps: seq<Step>, run: seq<State>) {
    |run| == |steps| + 1 && run[0] == s && forall k :: 0 <= k < |steps| ==> StepAt(H, steps, run, k)
  }

  // Whatever happens from here on, the entry is in the file exactly once.
  ghost predicate ForGood(H: HashFn, s: State, e: Entry) {
    forall steps, run: seq<State> :: Continues(H, s, steps, run) ==> ExactlyOnce(run[|steps|].file, e)
  }

  // A directory entry on disk stays there, and so do the synced lines with it.
  lemma SyncedNameStays(H: HashFn, s: State, step: Step, t: State)
    requires Inv(H, s) && Next(H, s, step, t) && s.nameSynced
    ensures t.nameSynced && s.synced <= t.synced <= |t.file| && s.file[..s.synced] <= t.file[..t.synced]
  {
  }

  predicate OnDisk(s: State, e: Entry) {
    s.synced <= |s.file| && e in s.file[..s.synced]
  }

  lemma {:induction false} ContinuesOnDisk(H: HashFn, s: State, steps: seq<Step>, run: seq<State>, k: nat, e: Entry)
    requires Inv(H, s) && s.nameSynced && OnDisk(s, e) && Continues(H, s, steps, run) && k <= |steps|
    ensures Inv(H, run[k]) && run[k].nameSynced && OnDisk(run[k], e)
  {
    if k > 0 {
      ContinuesOnDisk(H, s, steps, run, k - 1, e);
      assert StepAt(H, steps, run, k - 1);
      NextKeepsInv(H, run[k - 1], steps[k - 1], run[k]);
      SyncedNameStays(H, run[k - 1], steps[k - 1], run[k]);
    }
  }

  lemma OnDiskOnce(H: HashFn, s: State, e: Entry)
    requires CollisionFree(H) && GenesisFresh(H) && Inv(H, s) && OnDisk(s, e)
    ensures ExactlyOnce(s.file, e)
  {
    var i :| 0 <= i < s.synced && s.file[..s.synced][i] == e;
    assert s.file[i] == e;
    forall m | 0 <= m < |s.file| && m != i ensures s.file[m] != e {
      if s.file[m] == e { PristineNoRepeats(H, s.file, i, m); }
    }
  }

  // A synced entry survives everything that can still happen if and only if the directory entry
  // is on disk too.
  lemma ForGoodExactly(H: HashFn, s: State, e: Entry)
    requires CollisionFree(H) && GenesisFresh(H) && Inv(H, s) && OnDisk(s, e)
    ensures ForGood(H, s, e) <==> s.nameSynced
  {
    if s.nameSynced {
      forall steps, run: seq<State> | Continues(H, s, steps, run) ensures ExactlyOnce(run[|steps|].file, e) {
        ContinuesOnDisk(H, s, steps, run, |steps|, e);
        OnDiskOnce(H, run[|steps|], e);
      }
    } else {
      var t := s.(file := [], exist := false, synced := 0, lock := None, pcs := seq(|s.pcs|, _ => Idle));
      var steps, run := [PowerCutLosingName], [s, t];
      assert StepAt(H, steps, run, 0);
      assert Continues(H, s, steps, run) && !ExactlyOnce(run[|steps|].file, e);
    }
  }

  // Step j is the return of a successful Append with entry e.
  ghost predicate Returns(steps: seq<Step>, run: seq<State>, j: nat, e: Entry)
    requires j < |steps| < |run|
  {
    steps[j].Unlock? && steps[j].w < |run[j].pcs| && run[j].pcs[steps[j].w] == Leaving(Some(e))
  }

  lemma ReturnedOnDisk(H: HashFn, n: nat, steps: seq<Step>, run: seq<State>, j: nat, e: Entry)
    requires Run(H, n, steps, run) && j < |steps| && Returns(steps, run, j, e)
    ensures Inv(H, run[j + 1]) && OnDisk(run[j + 1], e)
  {
    RunKeepsInv(H, n, steps, run, j);
    RunKeepsInv(H, n, steps, run, j + 1);
    assert StepAt(H, steps, run, j) && WriterOk(run[j], steps[j].w);
    assert run[j].file[..run[j].synced] == run[j].file;
  }

  // No power cut after step j and before step k found the directory entry unsynced.
  predicate NameKeptFrom(steps: seq<Step>, j: nat, k: nat)
    requires k <= |steps|
  {
    forall i :: j < i < k ==> !steps[i].PowerCutLosingName?
  }

  lemma {:induction false} StaysOnDisk(
    H: HashFn, n: nat, steps: seq<Step>, run: seq<State>, j: nat, k: nat, e: Entry)
    requires Run(H, n, steps, run) && j < k <= |steps| && Returns(steps, run, j, e) && NameKeptFrom(steps, j, k)
    ensures OnDisk(run[k], e)
  {
    if k == j + 1 {
      ReturnedOnDisk(H, n, steps, run, j, e);
    } else {
      StaysOnDisk(H, n, steps, run, j, k - 1, e);
      RunKeepsInv(H, n, steps, run, k - 1);
      assert StepAt(H, steps, run, k - 1);
      SyncedStays(H, run[k - 1], steps[k - 1], run[k]);
    }
  }

  // The file holds e exactly once in every state after step j, up to step k.
  ghost predicate PresentFrom(run: seq<State>, j: nat, k: nat, e: Entry)
    requires k < |run|
  {
    forall m :: j < m <= k ==> ExactlyOnce(run[m].file, e)
  }

  // An entry returned at step j is in the file exactly once in every state from then on up to
  // step k if and only if no power cut in between loses the file's name.
  lemma SuccessIsPresentExactlyOnce(
    H: HashFn, n: nat, steps: seq<Step>, run: seq<State>, j: nat, k: nat, e: Entry)
    requires CollisionFree(H) && GenesisFresh(H)
    requires Run(H, n, steps, run) && j < k <= |steps| && Returns(steps, run, j, e)
    ensures PresentFrom(run, j, k, e) <==> NameKeptFrom(steps, j, k)
  {
    if NameKeptFrom(steps, j, k) {
      forall m | j < m <= k ensures ExactlyOnce(run[m].file, e) {
        StaysOnDisk(H, n, steps, run, j, m, e);
        RunKeepsInv(H, n, steps, run, m);
        OnDiskOnce(H, run[m], e);
      }
    } else {
      var i :| j < i < k && steps[i].PowerCutLosingName?;
      assert StepAt(H, steps, run, i);
      assert run[i + 1].file == [];
    }
  }

  // In any run, losses of the name before it included: success is for good if and only if the
  // directory entry is on disk when Append returns.
  lemma SuccessIsForGoodExactly(H: HashFn, n: nat, steps: seq<Step>, run: seq<State>, j: nat, e: Entry)
    requires CollisionFree(H) && GenesisFresh(H)
    requires Run(H, n, steps, run) && j < |steps| && Returns(steps, run, j, e)
    ensures ForGood(H, run[j + 1], e) <==> run[j + 1].nameSynced
  {
    ReturnedOnDisk(H, n, steps, run, j, e);
    ForGoodExactly(H, run[j + 1], e);
  }

  // A creator's successful directory sync settles it: from then on every success of any writer is
  // for good.
  lemma DirectorySyncSettles(H: HashFn, n: nat, steps: seq<Step>, run: seq<State>, i: nat, j: nat, e: Entry)
    requires CollisionFree(H) && GenesisFresh(H)
    requires Run(H, n, steps, run) && i < j < |steps|
    requires steps[i].SyncDir? && steps[i].ok && steps[i].w < |run[i].pcs|
    requires run[i].pcs[steps[i].w].Synced? && run[i].pcs[steps[i].w].newFile
    requires Returns(steps, run, j, e)
    ensures ForGood(H, run[j + 1], e)
  {
    assert StepAt(H, steps, run, i);
    NameStaysSynced(H, n, steps, run, i + 1, j + 1);
    SuccessIsForGoodExactly(H, n, steps, run, j, e);
  }

  lemma {:induction false} NameStaysSynced(H: HashFn, n: nat, steps: seq<Step>, run: seq<State>, i: nat, j: nat)
    requires Run(H, n, steps, run) && i <= j <= |steps| && run[i].nameSynced
    ensures run[j].nameSynced
  {
    if i < j {
      NameStaysSynced(H, n, steps, run, i, j - 1);
      RunKeepsInv(H, n, steps, run, j - 1);
      assert StepAt(H, steps, run, j - 1);
      SyncedNameStays(H, run[j - 1], steps[j - 1], run[j]);
    }
  }

  // ---------- The directory sync can be missed altogether ----------

  // The file exists, empty, and its creator is gone.
  function Orphaned(): State {
    State([], true, 0, false, None, [Idle, Idle], [])
  }

  lemma CreatorDies(H: HashFn, req: Request) returns (steps: seq<Step>, run: seq<State>)
    ensures |steps| == 4 && Run(H, 2, steps, run) && NameKept(steps, 4) && run[4] == Orphaned()
  {
    var s1 := Start(2).(pcs := [Looked(req, true), Idle]);
    var s2 := s1.(lock := Some(0), pcs := [Locked(req, true), Idle]);
    var s3 := s2.(exist := true, pcs := [Opened(req, true), Idle]);
    assert Start(2).pcs == [Idle, Idle];
    steps := [Stat(0, req), TakeLock(0), Open(0), Die(0)];
    run := [Start(2), s1, s2, s3, Orphaned()];
  }

  lemma SecondWriterReturns(H: HashFn, req: Request) returns (e: Entry, steps: seq<Step>, run: seq<State>)
    requires Chained(H, req, GENESIS_HASH).Some?
    ensures |steps| == 8 && |run| == 9 && run[0] == Orphaned()
    ensures forall k :: 0 <= k < 8 ==> StepAt(H, steps, run, k) && !steps[k].PowerCutLosingName?
    ensures run[8] == Orphaned().(file := [e], synced := 1, returned := [e])
  {
    e := Chained(H, req, GENESIS_HASH).value;
    var s5 := Orphaned().(pcs := [Idle, Looked(req, false)]);
    var s6 := s5.(lock := Some(1), pcs := [Idle, Locked(req, false)]);
    var s7 := s6.(pcs := [Idle, Opened(req, false)]);
    var s8 := s7.(pcs := [Idle, HasPrev(req, false, GENESIS_HASH)]);
    var s9 := s8.(file := [e], pcs := [Idle, Written(false, e)]);
    var s10 := s9.(synced := 1, pcs := [Idle, Synced(false, e)]);
    var s11 := s10.(pcs := [Idle, Leaving(Some(e))]);
    var s12 := Orphaned().(file := [e], synced := 1, returned := [e]);
    steps := [Stat(1, req), TakeLock(1), Open(1), ReadLast(1), Write(1, true), Sync(1, true), SyncDir(1, true),
      Unlock(1)];
    run := [Orphaned(), s5, s6, s7, s8, s9, s10, s11, s12];
    assert Next(H, s8, steps[4], s9);
  }

  // The writer that created the file dies before it syncs the directory; the next writer finds
  // the file, so it never syncs the directory either, and its success can be lost.
  lemma DirectorySyncCanBeSkipped(H: HashFn, req: Request) returns (steps: seq<Step>, run: seq<State>, k: nat)
    requires Chained(H, req, GENESIS_HASH).Some?
    ensures Run(H, 2, steps, run) && k < |steps| && NameKept(steps, k)
    ensures run[k].returned != [] && run[k].returned[0] !in run[k + 1].file
  {
    var steps1, run1 := CreatorDies(H, req);
    var e, steps2, run2 := SecondWriterReturns(H, req);
    var last := Orphaned().(exist := false, returned := [e]);
    steps, run, k := steps1 + steps2 + [PowerCutLosingName], run1 + run2[1..] + [last], 12;
    forall m | 0 <= m < |steps| ensures StepAt(H, steps, run, m) {
      if m < 4 {
        assert StepAt(H, steps1, run1, m);
      } else if m < 12 {
        assert StepAt(H, steps2, run2, m - 4);
      }
    }
    assert run[12] == run2[8];
  }
}
