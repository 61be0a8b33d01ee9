/** Ledger entries and their hash (internal/ledger/entry.go, canonical.go).

    SHA-256 over canonical JSON is an abstract function H of the entry with its Hash field
    cleared; H answers None where encoding fails. */
module LedgerEntry {
  import opened Wrappers

  // Nanoseconds on one clock.
  type Time = int

  // 61 zeros, as the source writes it: three short of a real digest.
  const GENESIS_HASH: string := "sha256:0000000000000000000000000000000000000000000000000000000000000"

  datatype EntryType =
    | Decision | OverrideEntry | Acknowledgement | Checkpoint | DrillEntry
    | ChainAnchor | Accept | AcceptClear | Epoch | Unrecognized(name: string)

  datatype AnchorPayload = AnchorPayload(
    entryId: string, storedHash: string, recomputedHash: string, reason: string, approvedBy: string)

  datatype OverridePayload = OverridePayload(
    findingId: string, approvedBy: string, reason: string, expiresAt: Option<Time>)

  datatype DrillPayload = DrillPayload(
    proofId: string, mode: string, verified: bool, rtoMs: int, rpoMs: Option<int>)

  datatype DecisionPayload = DecisionPayload(
    verdict: string, guardIds: seq<string>, gateState: string)

  // A struct of optional pointers, not a tagged union: the readers check both the type and
  // the pointer. `rest` stands for the payload fields no modelled function reads.
  datatype Payload = Payload(
    decision: Option<DecisionPayload>,
    override: Option<OverridePayload>,
    drill: Option<DrillPayload>,
    chainAnchor: Option<AnchorPayload>,
    rest: string)

  const EMPTY_PAYLOAD := Payload(None, None, None, None, "")

  datatype Entry = Entry(
    schema: int, id: string, createdAt: Time, entryType: EntryType, actor: string,
    payload: Payload, prev: string, hash: string, stamps: string)

  type HashFn = Entry -> Option<string>

  function Bare(e: Entry): Entry {
    e.(hash := "")
  }

  function HashEntry(H: HashFn, e: Entry): Option<string> {
    H(Bare(e))
  }

  // The stored hash is the recomputed one.
  predicate Intact(H: HashFn, e: Entry) {
    HashEntry(H, e) == Some(e.hash)
  }

  // What SHA-256 is assumed to be, wherever a lemma needs it.
  ghost predicate CollisionFree(H: HashFn) {
    forall a, b :: H(a).Some? && H(a) == H(b) ==> a == b
  }

  ghost predicate GenesisFresh(H: HashFn) {
    forall a :: H(a) != Some(GENESIS_HASH)
  }

  // Every digest hashEntry prints is "sha256:" and 64 hex digits.
  ghost predicate DigestShaped(H: HashFn) {
    forall a :: H(a).Some? ==> |H(a).value| == 71
  }

  lemma DigestNeverGenesis(H: HashFn)
    requires DigestShaped(H)
    ensures GenesisFresh(H)
  {
    assert |GENESIS_HASH| == 68;
  }

  // Two intact entries with one hash are one entry.
  lemma IntactPinned(H: HashFn, a: Entry, b: Entry)
    requires CollisionFree(H)
    requires Intact(H, a) && Intact(H, b) && a.hash == b.hash
    ensures a == b
  {
    assert H(Bare(a)) == H(Bare(b));
    assert a == Bare(a).(hash := a.hash);
    assert b == Bare(b).(hash := b.hash);
  }
}
