/** JSON lines: printing one record a line and splitting them back
    (internal/bundle/export.go ledgerJSONL, verify.go parseLedgerJSONL). */
module BundleLines {
  import opened Wrappers
  import opened LedgerEntry
  import opened Lines
  import Picking

  // ---------- Records ----------

  // JSON encoding of one entry; decoding is its inverse, and the text is one nonempty line.
  datatype EntryCodec = EntryCodec(encode: Entry -> Option<Bytes>, decode: Bytes -> Option<Entry>)

  ghost predicate CodecOk(c: EntryCodec) {
    forall e :: c.encode(e).Some? ==>
      var text := c.encode(e).value;
      text != "" && OneLine(text) && c.decode(text) == Some(e)
  }

  predicate Encodable(c: EntryCodec, es: seq<Entry>) {
    forall i :: 0 <= i < |es| ==> c.encode(es[i]).Some?
  }

  function Encoded(c: EntryCodec, es: seq<Entry>): seq<Bytes>
    requires Encodable(c, es)
  {
    seq(|es|, i requires 0 <= i < |es| => c.encode(es[i]).value)
  }

  method LedgerJSONL(c: EntryCodec, es: seq<Entry>) returns (r: Option<Bytes>)
    ensures r.Some? <==> Encodable(c, es)
    ensures r.Some? ==> r.value == Unlines(Encoded(c, es))
  {
    var buf: Bytes := "";
    var i := 0;
    while i < |es|
      invariant 0 <= i <= |es|
      invariant Encodable(c, es[..i]) && buf == Unlines(Encoded(c, es[..i]))
    {
      var line := c.encode(es[i]);
      if line.None? {
        return None;
      }
      UnlinesAppend(Encoded(c, es[..i]), line.value);
      assert Encoded(c, es[..i + 1]) == Encoded(c, es[..i]) + [line.value];
      buf := buf + line.value + "\n";
      i := i + 1;
    }
    assert es[..|es|] == es;
    return Some(buf);
  }

  // Decoding the nonempty lines, all or nothing.
  function DecodeLines(c: EntryCodec, lines: seq<Bytes>): Option<seq<Entry>> {
    if lines == [] then Some([])
    else
      var init := DecodeLines(c, lines[..|lines| - 1]);
      var last := lines[|lines| - 1];
      if init.None? then None
      else if last == "" then init
      else if c.decode(last).None? then None
      else Some(init.value + [c.decode(last).value])
  }

  // What a slice's bytes say: well defined, since the split is unique.
  ghost predicate Says(c: EntryCodec, data: Bytes, r: Option<seq<Entry>>) {
    exists lines :: IsSplit(data, lines) && DecodeLines(c, lines) == r
  }

  lemma {:induction false} DecodeLinesPrefix(c: EntryCodec, lines: seq<Bytes>, i: nat)
    requires i <= |lines| && DecodeLines(c, lines[..i]).None?
    ensures DecodeLines(c, lines).None?
    decreases |lines| - i
  {
    if i < |lines| {
      assert lines[..i + 1][..i] == lines[..i];
      DecodeLinesPrefix(c, lines, i + 1);
    } else {
      assert lines[..i] == lines;
    }
  }

  method ParseLedgerJSONL(c: EntryCodec, data: Bytes) returns (r: Option<seq<Entry>>)
    ensures Says(c, data, r)
  {
    var lines := SplitLines(data);
    var entries: seq<Entry> := [];
    var i := 0;
    while i < |lines|
      invariant 0 <= i <= |lines|
      invariant DecodeLines(c, lines[..i]) == Some(entries)
    {
      assert lines[..i + 1][..i] == lines[..i];
      if |lines[i]| != 0 {
        var e := c.decode(lines[i]);
        if e.None? {
          DecodeLinesPrefix(c, lines, i + 1);
          return None;
        }
        entries := entries + [e.value];
      }
      i := i + 1;
    }
    assert lines[..|lines|] == lines;
    return Some(entries);
  }

  lemma {:induction false} DecodeEncoded(c: EntryCodec, es: seq<Entry>)
    requires CodecOk(c) && Encodable(c, es)
    ensures DecodeLines(c, Encoded(c, es)) == Some(es)
  {
    if es != [] {
      var n := |es| - 1;
      DecodeEncoded(c, es[..n]);
      assert Encoded(c, es)[..n] == Encoded(c, es[..n]);
      assert es == es[..n] + [es[n]];
    }
  }

  // Printing and parsing a ledger slice is the identity, whatever the bytes in between.
  lemma JsonlRoundTrip(c: EntryCodec, es: seq<Entry>, r: Option<seq<Entry>>)
    requires CodecOk(c) && Encodable(c, es)
    ensures Says(c, Unlines(Encoded(c, es)), r) <==> r == Some(es)
  {
    DecodeEncoded(c, es);
    var printed := Encoded(c, es);
    assert IsSplit(Unlines(printed), printed);
    if Says(c, Unlines(printed), r) {
      var lines :| IsSplit(Unlines(printed), lines) && DecodeLines(c, lines) == r;
      SplitOfUnlines(printed, lines);
    }
  }

  // ---------- What any bytes say ----------

  function NonBlank(lines: seq<Bytes>): (r: seq<bool>)
    ensures |r| == |lines| && forall i :: 0 <= i < |lines| ==> (r[i] <==> lines[i] != "")
  {
    seq(|lines|, i requires 0 <= i < |lines| => lines[i] != "")
  }

  // The nonempty lines, in order, decode to the entries one by one.
  ghost predicate DecodeTo(c: EntryCodec, lines: seq<Bytes>, es: seq<Entry>) {
    exists texts :: Picking.Picks(lines, NonBlank(lines), texts) && DecodeEach(c, texts, es)
  }

  predicate DecodeEach(c: EntryCodec, texts: seq<Bytes>, es: seq<Entry>) {
    |texts| == |es| && forall i :: 0 <= i < |es| ==> c.decode(texts[i]) == Some(es[i])
  }

  lemma DecodeSkips(c: EntryCodec, lines: seq<Bytes>, es: seq<Entry>)
    requires DecodeTo(c, lines, es)
    ensures DecodeTo(c, lines + [""], es)
  {
    var texts :| Picking.Picks(lines, NonBlank(lines), texts) && DecodeEach(c, texts, es);
    Picking.PicksOneMore(lines, NonBlank(lines), texts, "", false);
    assert NonBlank(lines + [""]) == NonBlank(lines) + [false];
  }

  lemma DecodeOneMore(c: EntryCodec, lines: seq<Bytes>, es: seq<Entry>, line: Bytes, e: Entry)
    requires DecodeTo(c, lines, es) && line != "" && c.decode(line) == Some(e)
    ensures DecodeTo(c, lines + [line], es + [e])
  {
    var texts :| Picking.Picks(lines, NonBlank(lines), texts) && DecodeEach(c, texts, es);
    Picking.PicksOneMore(lines, NonBlank(lines), texts, line, true);
    assert NonBlank(lines + [line]) == NonBlank(lines) + [true];
    assert DecodeEach(c, texts + [line], es + [e]);
  }

  lemma {:induction false} DecodeLinesExactly(c: EntryCodec, lines: seq<Bytes>)
    ensures DecodeLines(c, lines).Some? <==> forall i :: 0 <= i < |lines| && lines[i] != "" ==> c.decode(lines[i]).Some?
    ensures DecodeLines(c, lines).Some? ==> DecodeTo(c, lines, DecodeLines(c, lines).value)
  {
    if lines == [] {
      Picking.PicksNone<Bytes>();
      assert DecodeEach(c, [], []);
      assert NonBlank([]) == [];
    } else {
      var n := |lines| - 1;
      DecodeLinesExactly(c, lines[..n]);
      assert lines == lines[..n] + [lines[n]];
      assert forall i :: 0 <= i < n ==> lines[..n][i] == lines[i];
      if DecodeLines(c, lines).Some? {
        var es := DecodeLines(c, lines[..n]).value;
        if lines[n] == "" {
          DecodeSkips(c, lines[..n], es);
        } else {
          DecodeOneMore(c, lines[..n], es, lines[n], c.decode(lines[n]).value);
        }
      }
    }
  }

  // A slice is unreadable if and only if some nonempty line does not decode; otherwise it says the
  // entries of its nonempty lines, in order.
  lemma SaysExactly(c: EntryCodec, data: Bytes, lines: seq<Bytes>, r: Option<seq<Entry>>)
    requires IsSplit(data, lines) && Says(c, data, r)
    ensures r.None? <==> exists i :: 0 <= i < |lines| && lines[i] != "" && c.decode(lines[i]).None?
    ensures r.Some? ==> DecodeTo(c, lines, r.value)
  {
    var other :| IsSplit(data, other) && DecodeLines(c, other) == r;
    SplitUnique(data, lines, other);
    DecodeLinesExactly(c, lines);
  }
}
