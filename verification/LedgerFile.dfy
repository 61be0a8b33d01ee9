/** The ledger file, its append and its repair step (internal/ledger/ledger.go, anchor.go),
    for one caller at a time. AppendProtocol has the concurrent writers. */
module LedgerFile {
  import opened Wrappers
  import opened LedgerEntry
  import opened LedgerVerify
  import Picking

  // One scanned line. Empty lines are skipped; the rest decode or do not.
  datatype Line = Blank | Record(entry: Entry) | Malformed

  datatype LedgerError = Corrupt | CannotEncode | WriteFailed | SyncFailed

  datatype Request = Request(
    id: string, now: Time, entryType: EntryType, actor: string, payload: Payload, stamps: string)

  const SCHEMA_VERSION := 2

  function Unhashed(req: Request, prev: string): Entry {
    Entry(SCHEMA_VERSION, req.id, req.now, req.entryType, req.actor, req.payload, prev, "", req.stamps)
  }

  // The entry says of the request all there is to say.
  predicate Carries(e: Entry, req: Request) {
    && e.schema == 2 && e.id == req.id && e.createdAt == req.now && e.entryType == req.entryType
    && e.actor == req.actor && e.payload == req.payload && e.stamps == req.stamps
  }

  // The entry Append chains onto prev, if it can be hashed.
  function Chained(H: HashFn, req: Request, prev: string): (r: Option<Entry>)
    ensures r.Some? ==> Intact(H, r.value) && r.value.prev == prev && Carries(r.value, req)
    ensures r.None? <==> H(Unhashed(req, prev)).None?
  {
    var e := Unhashed(req, prev);
    match HashEntry(H, e)
    case None => None
    case Some(h) =>
      assert Bare(e.(hash := h)) == Bare(e) == e;
      Some(e.(hash := h))
  }

  function LastHash(es: seq<Entry>): string {
    PrevOf(es, GENESIS_HASH, |es|)
  }

  // ---------- Reading lines ----------

  predicate Readable(lines: seq<Line>) {
    Malformed !in lines
  }

  function Recorded(line: Line): seq<Entry> {
    match line
    case Record(e) => [e]
    case _ => []
  }

  function Records(lines: seq<Line>): seq<Entry> {
    if lines == [] then []
    else Records(lines[..|lines| - 1]) + Recorded(lines[|lines| - 1])
  }

  function Contents(lines: seq<Line>): Result<seq<Entry>, LedgerError> {
    if Readable(lines) then Ok(Records(lines)) else Err(Corrupt)
  }

  lemma RecordsStep(lines: seq<Line>, i: nat)
    requires i < |lines|
    ensures Records(lines[..i + 1]) == Records(lines[..i]) + Recorded(lines[i])
  {
    assert lines[..i + 1][..i] == lines[..i];
  }

  function WhichRecord(lines: seq<Line>): (r: seq<bool>)
    ensures |r| == |lines| && forall i :: 0 <= i < |lines| ==> (r[i] <==> lines[i].Record?)
  {
    seq(|lines|, i requires 0 <= i < |lines| => lines[i].Record?)
  }

  function Lined(es: seq<Entry>): (r: seq<Line>)
    ensures |r| == |es| && forall i :: 0 <= i < |es| ==> r[i] == Record(es[i])
  {
    seq(|es|, i requires 0 <= i < |es| => Record(es[i]))
  }

  // Every record is read, once and in order, and nothing else is.
  ghost predicate ReadsOut(lines: seq<Line>, es: seq<Entry>) {
    Picking.Picks(lines, WhichRecord(lines), Lined(es))
  }

  lemma ReadsOneMore(lines: seq<Line>, es: seq<Entry>, line: Line)
    requires ReadsOut(lines, es)
    ensures ReadsOut(lines + [line], es + Recorded(line))
  {
    Picking.PicksOneMore(lines, WhichRecord(lines), Lined(es), line, line.Record?);
    assert WhichRecord(lines + [line]) == WhichRecord(lines) + [line.Record?];
    if line.Record? {
      assert Lined(es + [line.entry]) == Lined(es) + [line];
    } else {
      assert es + Recorded(line) == es;
    }
  }

  lemma {:induction false} RecordsExactly(lines: seq<Line>)
    ensures ReadsOut(lines, Records(lines))
  {
    if lines == [] {
      Picking.PicksNone<Line>();
    } else {
      var n := |lines| - 1;
      RecordsExactly(lines[..n]);
      ReadsOneMore(lines[..n], Records(lines[..n]), lines[n]);
      assert lines == lines[..n] + [lines[n]];
    }
  }

  predicate LastRecordAt(lines: seq<Line>, i: int) {
    0 <= i < |lines| && lines[i].Record? && forall j :: i < j < |lines| ==> !lines[j].Record?
  }

  // What the next entry chains onto: the hash of the last record, genesis without one.
  ghost predicate LastRecorded(lines: seq<Line>, hash: string) {
    || (hash == GENESIS_HASH && forall j :: 0 <= j < |lines| ==> !lines[j].Record?)
    || exists i :: LastRecordAt(lines, i) && lines[i].entry.hash == hash
  }

  lemma LastRecordedSkips(lines: seq<Line>, line: Line, hash: string)
    requires LastRecorded(lines, hash) && !line.Record?
    ensures LastRecorded(lines + [line], hash)
  {
    if i :| LastRecordAt(lines, i) && lines[i].entry.hash == hash {
      assert LastRecordAt(lines + [line], i);
    }
  }

  lemma {:induction false} LastHashExactly(lines: seq<Line>)
    ensures LastRecorded(lines, LastHash(Records(lines)))
  {
    if lines != [] {
      var n := |lines| - 1;
      LastHashExactly(lines[..n]);
      assert lines == lines[..n] + [lines[n]];
      if lines[n].Record? {
        assert LastRecordAt(lines, n);
      } else {
        assert Records(lines) == Records(lines[..n]);
        LastRecordedSkips(lines[..n], lines[n], LastHash(Records(lines[..n])));
      }
    }
  }

  // The first i lines are readable, and `last` is the hash they leave.
  ghost predicate ReadSoFar(lines: seq<Line>, i: nat, last: string) {
    i <= |lines| && Readable(lines[..i]) && last == LastHash(Records(lines[..i]))
  }

  lemma ReadOneMore(lines: seq<Line>, i: nat, last: string)
    requires i < |lines| && ReadSoFar(lines, i, last) && lines[i] != Malformed
    ensures ReadSoFar(lines, i + 1, if lines[i].Record? then lines[i].entry.hash else last)
  {
    RecordsStep(lines, i);
    assert lines[..i + 1] == lines[..i] + [lines[i]];
  }

  lemma ReadToTheEnd(lines: seq<Line>, last: string)
    requires ReadSoFar(lines, |lines|, last)
    ensures Readable(lines) && last == LastHash(Records(lines))
  {
    assert lines[..|lines|] == lines;
  }

  lemma ContentsAppend(lines: seq<Line>, e: Entry)
    requires Readable(lines)
    ensures Contents(lines + [Record(e)]) == Ok(Records(lines) + [e])
  {
    assert (lines + [Record(e)])[..|lines|] == lines;
  }

  // ---------- The repair step, as a function of the entries on disk ----------

  datatype AnchorArgs = AnchorArgs(
    entryId: string, reason: string, approvedBy: string, actor: string, now: Time, ulid: string)

  datatype AnchorError =
    | ReasonRequired | ApproverRequired | Unreadable(cause: LedgerError) | NotFound
    | AlreadyAnchored(anchorId: string) | CannotRecompute | AlreadyVerifies | AppendFailed(cause: LedgerError)

  predicate FoundAt(es: seq<Entry>, id: string, t: int) {
    0 <= t < |es| && es[t].id == id && forall j :: 0 <= j < t ==> es[j].id != id
  }

  ghost predicate Found(es: seq<Entry>, id: string) {
    exists t :: FoundAt(es, id, t)
  }

  predicate FirstAnchorAt(es: seq<Entry>, id: string, k: int) {
    0 <= k < |es| && IsAnchorFor(es[k], id) && forall j :: 0 <= j < k ==> !IsAnchorFor(es[j], id)
  }

  predicate Named(es: seq<Entry>, id: string) {
    exists k :: 0 <= k < |es| && IsAnchorFor(es[k], id)
  }

  function AnchorRequest(a: AnchorArgs, target: Entry, recomputed: string): Request {
    Request(a.ulid, a.now, ChainAnchor, a.actor,
      EMPTY_PAYLOAD.(chainAnchor :=
        Some(AnchorPayload(a.entryId, target.hash, recomputed, a.reason, a.approvedBy))), "")
  }

  predicate Asked(a: AnchorArgs) {
    a.reason != "" && a.approvedBy != ""
  }

  // The first entry of the id is mismatched and no anchor names it.
  ghost predicate Target(H: HashFn, es: seq<Entry>, a: AnchorArgs, t: int) {
    && Asked(a) && FoundAt(es, a.entryId, t) && !Named(es, a.entryId)
    && HashEntry(H, es[t]).Some? && !Intact(H, es[t])
  }

  // The entry an anchor for it would be.
  function AnchorEntry(H: HashFn, es: seq<Entry>, a: AnchorArgs, target: Entry, recomputed: string): Option<Entry> {
    Chained(H, AnchorRequest(a, target, recomputed), LastHash(es))
  }

  // Anchor reads the file before it takes the lock. Having read `seen`, it appends exactly `e` to
  // `es`, vouching for the first entry it saw that carries the id.
  ghost predicate AnchorsSeen(H: HashFn, seen: seq<Entry>, es: seq<Entry>, a: AnchorArgs, t: int, e: Entry) {
    Target(H, seen, a, t) && AnchorEntry(H, es, a, seen[t], HashEntry(H, seen[t]).value) == Some(e)
  }

  // The same when nobody else wrote in between.
  ghost predicate Anchors(H: HashFn, es: seq<Entry>, a: AnchorArgs, t: int, e: Entry) {
    AnchorsSeen(H, es, es, a, t, e)
  }

  ghost predicate Anchorable(H: HashFn, seen: seq<Entry>, es: seq<Entry>, a: AnchorArgs) {
    exists t, e :: AnchorsSeen(H, seen, es, a, t, e)
  }

  // What the entry says: of the first entry with the id that was read, both its hashes, which differ;
  // of the call, who, when, why and by whose leave.
  lemma AnchorSays(H: HashFn, seen: seq<Entry>, es: seq<Entry>, a: AnchorArgs, t: int, e: Entry)
    requires AnchorsSeen(H, seen, es, a, t, e)
    ensures 0 <= t < |seen| && seen[t].id == a.entryId && forall j :: 0 <= j < t ==> seen[j].id != a.entryId
    ensures e.id == a.ulid && e.createdAt == a.now && e.actor == a.actor && e.entryType == ChainAnchor
    ensures e.payload.chainAnchor.Some? && e.payload.override.None? && e.payload.drill.None?
    ensures
      var p := e.payload.chainAnchor.value;
      && p.entryId == a.entryId && p.reason == a.reason != "" && p.approvedBy == a.approvedBy != ""
      && p.storedHash == seen[t].hash && H(seen[t].(hash := "")) == Some(p.recomputedHash)
      && p.storedHash != p.recomputedHash
  {
  }

  // Append's answer on a file of these lines.
  function Appended(
    H: HashFn, lines: seq<Line>, req: Request, writeOk: bool, syncOk: bool): Result<Entry, LedgerError>
  {
    match Contents(lines)
    case Err(c) => Err(c)
    case Ok(es) =>
      match Chained(H, req, LastHash(es))
      case None => Err(CannotEncode)
      case Some(e) => if !writeOk then Err(WriteFailed) else if !syncOk then Err(SyncFailed) else Ok(e)
  }

  // What Append answers, on the lines there are by then, to an anchor that is due.
  ghost predicate AppendAnswers(
    H: HashFn, seen: seq<Entry>, lines: seq<Line>, a: AnchorArgs, writeOk: bool, syncOk: bool,
    r: Result<Entry, LedgerError>)
  {
    exists t ::
      Target(H, seen, a, t)
      && r == Appended(H, lines, AnchorRequest(a, seen[t], HashEntry(H, seen[t]).value), writeOk, syncOk)
  }

  // What Anchor answers on readable entries, each answer with its own reasons.
  ghost predicate AnchorOutcome(
    H: HashFn, seen: seq<Entry>, lines: seq<Line>, a: AnchorArgs, writeOk: bool, syncOk: bool,
    r: Result<Entry, AnchorError>)
  {
    match r
    case Ok(e) => AppendAnswers(H, seen, lines, a, writeOk, syncOk, Ok(e))
    case Err(ReasonRequired) => a.reason == ""
    case Err(ApproverRequired) => a.reason != "" && a.approvedBy == ""
    case Err(Unreadable(_)) => false
    case Err(NotFound) => Asked(a) && !Found(seen, a.entryId)
    case Err(AlreadyAnchored(anchorId)) =>
      Asked(a) && Found(seen, a.entryId) && exists k :: FirstAnchorAt(seen, a.entryId, k) && seen[k].id == anchorId
    case Err(CannotRecompute) =>
      Asked(a) && !Named(seen, a.entryId) && exists t :: FoundAt(seen, a.entryId, t) && HashEntry(H, seen[t]).None?
    case Err(AlreadyVerifies) =>
      Asked(a) && !Named(seen, a.entryId) && exists t :: FoundAt(seen, a.entryId, t) && Intact(H, seen[t])
    case Err(AppendFailed(cause)) => AppendAnswers(H, seen, lines, a, writeOk, syncOk, Err(cause))
  }

  lemma FoundUnique(es: seq<Entry>, id: string, t: int, u: int)
    requires FoundAt(es, id, t) && FoundAt(es, id, u)
    ensures t == u
  {
  }

  lemma FirstAnchorUnique(es: seq<Entry>, id: string, k: int, m: int)
    requires FirstAnchorAt(es, id, k) && FirstAnchorAt(es, id, m)
    ensures k == m && Named(es, id)
  {
  }

  lemma AppendAnswersUnique(
    H: HashFn, seen: seq<Entry>, lines: seq<Line>, a: AnchorArgs, writeOk: bool, syncOk: bool,
    r: Result<Entry, LedgerError>, s: Result<Entry, LedgerError>)
    requires AppendAnswers(H, seen, lines, a, writeOk, syncOk, r)
    requires AppendAnswers(H, seen, lines, a, writeOk, syncOk, s)
    ensures r == s
  {
    var t :| Target(H, seen, a, t)
      && r == Appended(H, lines, AnchorRequest(a, seen[t], HashEntry(H, seen[t]).value), writeOk, syncOk);
    var u :| Target(H, seen, a, u)
      && s == Appended(H, lines, AnchorRequest(a, seen[u], HashEntry(H, seen[u]).value), writeOk, syncOk);
    FoundUnique(seen, a.entryId, t, u);
  }

  // The answer to an anchor that is not even due.
  predicate Unasked(r: Result<Entry, AnchorError>) {
    r.Err? && (r.error.ReasonRequired? || r.error.ApproverRequired? || r.error.NotFound?)
  }

  lemma RefusalUnique(
    H: HashFn, seen: seq<Entry>, lines: seq<Line>, a: AnchorArgs, writeOk: bool, syncOk: bool,
    r: Result<Entry, AnchorError>, s: Result<Entry, AnchorError>)
    requires AnchorOutcome(H, seen, lines, a, writeOk, syncOk, r)
    requires AnchorOutcome(H, seen, lines, a, writeOk, syncOk, s)
    requires Unasked(r) || (r.Err? && r.error.AlreadyAnchored?)
    ensures r == s
  {
    if !Unasked(r) {
      var k :| FirstAnchorAt(seen, a.entryId, k) && seen[k].id == r.error.anchorId;
      FirstAnchorUnique(seen, a.entryId, k, k);
      if s.Err? && s.error.AlreadyAnchored? {
        var m :| FirstAnchorAt(seen, a.entryId, m) && seen[m].id == s.error.anchorId;
        FirstAnchorUnique(seen, a.entryId, k, m);
      }
    }
  }

  lemma DueUnique(
    H: HashFn, seen: seq<Entry>, lines: seq<Line>, a: AnchorArgs, writeOk: bool, syncOk: bool,
    r: Result<Entry, AnchorError>, s: Result<Entry, AnchorError>)
    requires AnchorOutcome(H, seen, lines, a, writeOk, syncOk, r)
    requires AnchorOutcome(H, seen, lines, a, writeOk, syncOk, s)
    requires r.Ok? || r.error.AppendFailed?
    requires s.Ok? || s.error.AppendFailed?
    ensures r == s
  {
    var x := if r.Ok? then Ok(r.value) else Err(r.error.cause);
    var y := if s.Ok? then Ok(s.value) else Err(s.error.cause);
    AppendAnswersUnique(H, seen, lines, a, writeOk, syncOk, x, y);
  }

  // Every answer excludes every other, so each of the conditions above is exact.
  lemma AnchorOutcomeUnique(
    H: HashFn, seen: seq<Entry>, lines: seq<Line>, a: AnchorArgs, writeOk: bool, syncOk: bool,
    r: Result<Entry, AnchorError>, s: Result<Entry, AnchorError>)
    requires AnchorOutcome(H, seen, lines, a, writeOk, syncOk, r)
    requires AnchorOutcome(H, seen, lines, a, writeOk, syncOk, s)
    ensures r == s
  {
    if Unasked(r) || (r.Err? && r.error.AlreadyAnchored?) {
      RefusalUnique(H, seen, lines, a, writeOk, syncOk, r, s);
    } else if Unasked(s) || (s.Err? && s.error.AlreadyAnchored?) {
      RefusalUnique(H, seen, lines, a, writeOk, syncOk, s, r);
    } else if (r.Ok? || r.error.AppendFailed?) && (s.Ok? || s.error.AppendFailed?) {
      DueUnique(H, seen, lines, a, writeOk, syncOk, r, s);
    } else {
      forall t, u | FoundAt(seen, a.entryId, t) && FoundAt(seen, a.entryId, u) ensures t == u {
        FoundUnique(seen, a.entryId, t, u);
      }
    }
  }

  // Success needs a working disk, readable lines and something to anchor, and nothing more.
  lemma AnchorSucceedsExactly(
    H: HashFn, seen: seq<Entry>, lines: seq<Line>, a: AnchorArgs, writeOk: bool, syncOk: bool,
    r: Result<Entry, AnchorError>)
    requires AnchorOutcome(H, seen, lines, a, writeOk, syncOk, r)
    ensures r.Ok? <==> writeOk && syncOk && Readable(lines) && Anchorable(H, seen, Records(lines), a)
    ensures r.Ok? ==> exists t :: AnchorsSeen(H, seen, Records(lines), a, t, r.value)
  {
    if r.Ok? {
      var t :| Target(H, seen, a, t)
        && Ok(r.value) == Appended(H, lines, AnchorRequest(a, seen[t], HashEntry(H, seen[t]).value), writeOk, syncOk);
      assert AnchorsSeen(H, seen, Records(lines), a, t, r.value);
    }
    if writeOk && syncOk && Readable(lines) && Anchorable(H, seen, Records(lines), a) {
      var t, e :| AnchorsSeen(H, seen, Records(lines), a, t, e);
      assert AppendAnswers(H, seen, lines, a, writeOk, syncOk, Ok(e));
      AnchorOutcomeUnique(H, seen, lines, a, writeOk, syncOk, r, Ok(e));
    }
  }

  // ---------- The file ----------

  class File {
    const H: HashFn
    var lines: seq<Line>
    // Lines known to be on disk.
    var synced: nat

    ghost predicate Valid()
      reads this
    {
      synced <= |lines|
    }

    constructor (H: HashFn, lines: seq<Line>)
      ensures Valid() && this.H == H && this.lines == lines && synced == |lines|
    {
      this.H := H;
      this.lines := lines;
      synced := |lines|;
    }

    method LastHashLocked() returns (r: Result<string, LedgerError>)
      ensures r == match Contents(lines) case Ok(es) => Ok(LastHash(es)) case Err(e) => Err(e)
      ensures r.Ok? <==> Malformed !in lines
      ensures r.Ok? ==> LastRecorded(lines, r.value)
    {
      LastHashExactly(lines);
      var last := GENESIS_HASH;
      var i := 0;
      while i < |lines|
        invariant 0 <= i <= |lines| && ReadSoFar(lines, i, last)
      {
        if lines[i] != Malformed { ReadOneMore(lines, i, last); }
        match lines[i] {
          case Blank =>
          case Malformed => return Err(Corrupt);
          case Record(e) => last := e.hash;
        }
        i := i + 1;
      }
      ReadToTheEnd(lines, last);
      return Ok(last);
    }

    method ReadAll() returns (r: Result<seq<Entry>, LedgerError>)
      ensures r == Contents(lines)
      ensures r.Ok? <==> Malformed !in lines
      ensures r.Ok? ==> ReadsOut(lines, r.value)
    {
      RecordsExactly(lines);
      var entries: seq<Entry> := [];
      var i := 0;
      while i < |lines|
        invariant 0 <= i <= |lines|
        invariant Readable(lines[..i])
        invariant entries == Records(lines[..i])
      {
        RecordsStep(lines, i);
        assert lines[..i + 1] == lines[..i] + [lines[i]];
        match lines[i] {
          case Blank =>
          case Malformed => return Err(Corrupt);
          case Record(e) => entries := entries + [e];
        }
        i := i + 1;
      }
      assert lines[..|lines|] == lines;
      return Ok(entries);
    }

    // writeOk and syncOk are what the disk answers. A failed fsync reports failure although
    // the line is already in the file.
    method Append(req: Request, writeOk: bool, syncOk: bool) returns (r: Result<Entry, LedgerError>)
      requires Valid()
      modifies this
      ensures Valid() && r == Appended(H, old(lines), req, writeOk, syncOk)
      ensures r.Ok? ==>
        && lines == old(lines) + [Record(r.value)] && Carries(r.value, req) && Intact(H, r.value)
        && LastRecorded(old(lines), r.value.prev) && synced == |lines|
      ensures r == Err(SyncFailed) ==>
        exists e :: lines == old(lines) + [Record(e)] && Carries(e, req) && Intact(H, e)
      ensures match old(Contents(lines))
        case Err(c) => r == Err(c) && lines == old(lines) && synced == old(synced)
        case Ok(es) =>
          match Chained(H, req, LastHash(es))
          case None => r == Err(CannotEncode) && lines == old(lines) && synced == old(synced)
          case Some(e) =>
            if !writeOk then r == Err(WriteFailed) && lines == old(lines) && synced == old(synced)
            else
              && lines == old(lines) + [Record(e)] && Contents(lines) == Ok(es + [e])
              && if syncOk then r == Ok(e) && synced == |lines| else r == Err(SyncFailed) && synced == old(synced)
    {
      var prev := LastHashLocked();
      if prev.Err? {
        return Err(prev.error);
      }
      var entry := Unhashed(req, prev.value);
      var hash := HashEntry(H, entry);
      if hash.None? {
        return Err(CannotEncode);
      }
      entry := entry.(hash := hash.value);
      if !writeOk {
        return Err(WriteFailed);
      }
      ContentsAppend(lines, entry);
      lines := lines + [Record(entry)];
      if !syncOk {
        return Err(SyncFailed);
      }
      synced := |lines|;
      return Ok(entry);
    }

    // `meanwhile` is what other writers append between the read and the lock.
    method Anchor(a: AnchorArgs, meanwhile: seq<Line>, writeOk: bool, syncOk: bool)
      returns (r: Result<Entry, AnchorError>)
      requires Valid()
      modifies this
      ensures Valid()
      ensures r.Ok? ==> lines == old(lines) + meanwhile + [Record(r.value)] && synced == |lines|
      ensures r.Err? && r.error.AppendFailed? && r.error.cause != SyncFailed ==>
        lines == old(lines) + meanwhile && synced == old(synced)
      ensures r.Err? && !r.error.AppendFailed? ==> lines == old(lines) && synced == old(synced)
      ensures old(Contents(lines)).Ok? ==>
        AnchorOutcome(H, old(Records(lines)), old(lines) + meanwhile, a, writeOk, syncOk, r)
      ensures old(Contents(lines)).Err? ==>
        r == Err(if a.reason == "" then ReasonRequired else if a.approvedBy == "" then ApproverRequired
          else Unreadable(Corrupt))
    {
      if a.reason == "" {
        return Err(ReasonRequired);
      }
      if a.approvedBy == "" {
        return Err(ApproverRequired);
      }
      var read := ReadAll();
      if read.Err? {
        return Err(Unreadable(read.error));
      }
      var entries := read.value;
      assert entries == old(Records(lines));

      var t := 0;
      while t < |entries| && entries[t].id != a.entryId
        invariant 0 <= t <= |entries|
        invariant forall j :: 0 <= j < t ==> entries[j].id != a.entryId
      {
        t := t + 1;
      }
      if t == |entries| {
        return Err(NotFound);
      }
      assert FoundAt(entries, a.entryId, t);

      var k := 0;
      while k < |entries|
        invariant 0 <= k <= |entries|
        invariant forall j :: 0 <= j < k ==> !IsAnchorFor(entries[j], a.entryId)
      {
        if IsAnchorFor(entries[k], a.entryId) {
          assert FirstAnchorAt(entries, a.entryId, k);
          return Err(AlreadyAnchored(entries[k].id));
        }
        k := k + 1;
      }

      var recomputed := HashEntry(H, entries[t]);
      if recomputed.None? {
        return Err(CannotRecompute);
      }
      if recomputed.value == entries[t].hash {
        return Err(AlreadyVerifies);
      }
      lines := lines + meanwhile;
      var appended := Append(AnchorRequest(a, entries[t], recomputed.value), writeOk, syncOk);
      assert Target(H, entries, a, t);
      match appended {
        case Ok(e) => return Ok(e);
        case Err(c) => return Err(AppendFailed(c));
      }
    }
  }
}
