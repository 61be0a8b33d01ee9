/** What the ledger gives back: appends read back request by request, and an appended override
    covers its finding until it expires (internal/ledger/ledger.go, override.go). */
module LedgerRecords {
  import opened Wrappers
  import opened LedgerEntry
  import opened LedgerFile
  import opened Sorting
  import opened Overrides
  import Engine

  // Every entry carries its request, in order.
  ghost predicate CarryAll(es: seq<Entry>, reqs: seq<Request>) {
    |es| == |reqs| && forall i :: 0 <= i < |es| ==> Carries(es[i], reqs[i])
  }

  // Successful appends, one after another, and then a read: what was there is read first, and then
  // the requests, each in its own entry, in order.
  method AppendAll(f: File, reqs: seq<Request>) returns (r: Result<seq<Entry>, LedgerError>)
    requires f.Valid()
    modifies f
    ensures f.Valid()
    ensures r.Ok? ==> exists before, added ::
      r.value == before + added && CarryAll(added, reqs) && ReadsOut(old(f.lines), before)
    ensures r.Ok? ==> ReadsOut(f.lines, r.value)
  {
    ghost var before := Records(f.lines);
    RecordsExactly(f.lines);
    ghost var added: seq<Entry> := [];
    var i := 0;
    while i < |reqs|
      invariant 0 <= i <= |reqs| && f.Valid()
      invariant Records(f.lines) == before + added && CarryAll(added, reqs[..i])
    {
      ghost var lines := f.lines;
      var e := f.Append(reqs[i], true, true);
      if e.Err? {
        return Err(e.error);
      }
      assert f.lines[..|lines|] == lines;
      added := added + [e.value];
      assert before + added == Records(lines) + [e.value];
      i := i + 1;
    }
    assert reqs[..|reqs|] == reqs;
    r := f.ReadAll();
  }

  // An override on file covers its finding until its own expiry, and leaves every other finding as
  // it was.
  lemma AppendedOverrideCovers(
    es: seq<Entry>, e: Entry, req: Request, o: OverridePayload, now: Time, id: string,
    before: seq<Engine.Override>, after: seq<Engine.Override>)
    requires Carries(e, req) && req.entryType == OverrideEntry && req.payload.override == Some(o)
    requires ActiveOverridesAre(es, now, before) && ActiveOverridesAre(es + [e], now, after)
    ensures
      var expiry := if o.expiresAt.Some? then o.expiresAt.value else req.now + LEGACY_GRACE;
      Engine.Covered(after, id) <==> Engine.Covered(before, id) || (id == o.findingId && now < expiry)
  {
    CoveredExactly(es, now, before, id);
    CoveredExactly(es + [e], now, after, id);
    var next := es + [e];
    if i :| 0 <= i < |es| && Active(es[i], now) && FindingOf(es[i]) == id {
      assert next[i] == es[i];
    }
    assert next[|es|] == e;
  }

  // And while it is active it is the one that governs, with its own approver and reason.
  lemma AppendedOverrideGoverns(
    es: seq<Entry>, e: Entry, req: Request, o: OverridePayload, now: Time, after: seq<Engine.Override>)
    requires Carries(e, req) && req.entryType == OverrideEntry && req.payload.override == Some(o)
    requires now < (if o.expiresAt.Some? then o.expiresAt.value else req.now + LEGACY_GRACE)
    requires ActiveOverridesAre(es + [e], now, after)
    ensures Engine.Override(o.findingId, o.approvedBy, o.reason) in after
  {
    var next := es + [e];
    assert next[|es|] == e && LastActive(next, now, |es|);
    var states :| ActiveSet(next, now, states) && after == Map(AsOverride, states);
    var k :| 0 <= k < |states| && states[k] == StateOf(e);
    assert after[k] == AsOverride(states[k]);
  }
}
