/** What each line says to the parser (internal/intent/diff.go), for every line there can be. */
module DiffTokens {
  import opened Wrappers
  import opened Text
  import opened Diff
  import Decimal

  predicate AllSpace(s: string) {
    forall i :: 0 <= i < |s| ==> IsSpace(s[i])
  }

  // ---------- Trimming ----------

  // s with nothing but spaces around it.
  ghost predicate TrimsTo(s: string, m: string) {
    Trimmed(m) && exists l, r :: s == l + m + r && AllSpace(l) && AllSpace(r)
  }

  lemma {:induction false} TrimLeftCuts(s: string) returns (l: string)
    ensures s == l + TrimLeft(s) && AllSpace(l)
    ensures TrimLeft(s) == "" || !IsSpace(TrimLeft(s)[0])
  {
    if s != "" && IsSpace(s[0]) {
      var rest := TrimLeftCuts(s[1..]);
      l := [s[0]] + rest;
      assert s == [s[0]] + s[1..];
    } else {
      l := "";
    }
  }

  lemma {:induction false} TrimRightCuts(s: string) returns (r: string)
    ensures s == TrimRight(s) + r && AllSpace(r)
    ensures TrimRight(s) == "" || !IsSpace(TrimRight(s)[|TrimRight(s)| - 1])
  {
    if s != "" && IsSpace(s[|s| - 1]) {
      var rest := TrimRightCuts(s[..|s| - 1]);
      r := rest + [s[|s| - 1]];
      assert s == s[..|s| - 1] + [s[|s| - 1]];
    } else {
      r := "";
    }
  }

  lemma TrimSpaceTrims(s: string)
    ensures TrimsTo(s, TrimSpace(s))
  {
    var l := TrimLeftCuts(s);
    var r := TrimRightCuts(TrimLeft(s));
    var m := TrimSpace(s);
    assert m != "" ==> m[0] == TrimLeft(s)[0];
    assert s == l + m + r;
  }

  lemma {:induction false} TrimLeftAfter(l: string, s: string)
    requires AllSpace(l)
    ensures TrimLeft(l + s) == TrimLeft(s)
  {
    if l == "" {
      assert l + s == s;
    } else {
      assert (l + s)[1..] == l[1..] + s;
      TrimLeftAfter(l[1..], s);
    }
  }

  lemma {:induction false} TrimRightOfSpace(r: string)
    requires AllSpace(r)
    ensures TrimRight(r) == ""
  {
    if r != "" {
      TrimRightOfSpace(r[..|r| - 1]);
    }
  }

  lemma TrimSpaceExactly(s: string, m: string)
    ensures TrimSpace(s) == m <==> TrimsTo(s, m)
  {
    TrimSpaceTrims(s);
    if TrimsTo(s, m) {
      var l, r :| s == l + m + r && AllSpace(l) && AllSpace(r);
      TrimSpaceAround(l, m, r);
    }
  }

  lemma {:induction false} TrimSpaceAround(l: string, m: string, r: string)
    requires Trimmed(m) && AllSpace(l) && AllSpace(r)
    ensures TrimSpace(l + m + r) == m
  {
    assert l + m + r == l + (m + r);
    TrimLeftAfter(l, m + r);
    TrimRightOfSpace(r);
    if m == "" {
      assert m + r == r && r + "" == r;
      TrimLeftAfter(r, "");
    } else {
      TrimRightAfter(m, r);
      assert m + "" == m;
    }
  }

  // ---------- Path lines ----------

  // p as it is written after a marker: perhaps with an "a/" or "b/" before it.
  predicate Spells(m: string, p: string) {
    m == "a/" + p || m == "b/" + p || (m == p && !("a/" <= m) && !("b/" <= m))
  }

  ghost predicate PathLine(line: string, marker: string, p: string) {
    marker <= line && exists m :: TrimsTo(line[|marker|..], m) && Spells(m, p)
  }

  lemma StripExactly(m: string, p: string)
    ensures StripDiffPrefix(m) == p <==> Spells(m, p)
  {
    assert ("a/" + p)[2..] == p && ("b/" + p)[2..] == p;
    if "a/" <= m || "b/" <= m {
      assert m == m[..2] + m[2..];
    }
  }

  lemma PathExactly(line: string, marker: string, p: string)
    requires |marker| == 4 && marker <= line
    ensures PathOnLine(line, marker) == p <==> PathLine(line, marker, p)
  {
    var m := TrimSpace(line[4..]);
    TrimSpaceExactly(line[4..], m);
    StripExactly(m, p);
    forall n | TrimsTo(line[4..], n) ensures n == m {
      TrimSpaceExactly(line[4..], n);
    }
  }

  // The markers exclude each other.
  predicate Marked(line: string) {
    "diff --git " <= line || "--- " <= line || "+++ " <= line || "@@ " <= line
  }

  lemma MarkersApart(line: string)
    ensures "diff --git " <= line ==> line[0] == 'd'
    ensures "--- " <= line ==> line[0] == '-'
    ensures "+++ " <= line ==> line[0] == '+'
    ensures "@@ " <= line ==> line[0] == '@'
  {
    var d, m, p, a := "diff --git ", "--- ", "+++ ", "@@ ";
    assert d[0] == 'd' && m[0] == '-' && p[0] == '+' && a[0] == '@';
  }

  lemma PathTokensExactly(line: string, p: string)
    ensures TokenOf(line) == OldSide(p) <==> PathLine(line, "--- ", p)
    ensures TokenOf(line) == NewSide(p) <==> PathLine(line, "+++ ", p)
  {
    MarkersApart(line);
    if "--- " <= line { PathExactly(line, "--- ", p); }
    if "+++ " <= line { PathExactly(line, "+++ ", p); }
  }

  // ---------- Body lines ----------

  function Sign(kind: LineKind): char {
    match kind
    case Plus => '+'
    case Minus => '-'
    case Context => ' '
  }

  // A body line is its sign and its text; an empty line is an empty context line.
  lemma SaysExactly(line: string, kind: LineKind, text: string)
    ensures TokenOf(line) == Says(kind, text) <==>
      !Marked(line) && (line == [Sign(kind)] + text || (line == "" && kind == Context && text == ""))
  {
    if line != "" {
      assert line == [line[0]] + line[1..];
      assert ([Sign(kind)] + text)[1..] == text && ([Sign(kind)] + text)[0] == Sign(kind);
    }
  }

  lemma SaysNothingExactly(line: string)
    ensures TokenOf(line) == SaysNothing <==>
      !Marked(line) && line != "" && line[0] != '+' && line[0] != '-' && line[0] != ' '
  {
  }

  // ---------- Section headers ----------

  ghost predicate FirstAt(s: string, sub: string, i: nat) {
    OccursAt(s, sub, i) && forall j :: 0 <= j < i ==> !OccursAt(s, sub, j)
  }

  lemma IndexExactly(s: string, sub: string, i: nat)
    ensures Index(s, sub) == Some(i) <==> FirstAt(s, sub, i)
    ensures Index(s, sub).None? <==> forall j :: 0 <= j ==> !OccursAt(s, sub, j)
  {
    if FirstAt(s, sub, i) { IndexIsFirst(s, sub, i); }
    IndexOccurs(s, sub);
    forall j | 0 <= j && OccursAt(s, sub, j) ensures Index(s, sub).Some? && Index(s, sub).value <= j {
      IndexAtMost(s, sub, j);
    }
  }

  predicate FormerIs(x: string, former: string) {
    x == "a/" + former || (x == former && !("a/" <= x))
  }

  // "diff --git a/FORMER b/LATTER", cut at the first " b/"; without one, no names.
  ghost predicate HeaderLine(line: string, former: string, latter: string) {
    && "diff --git " <= line
    && var rest := line[11..];
       if exists i :: i >= 0 && OccursAt(rest, " b/", i)
       then exists i: nat :: FirstAt(rest, " b/", i) && FormerIs(rest[..i], former) && rest[i + 3..] == latter
       else former == "" && latter == ""
  }

  lemma HeaderExactly(line: string, former: string, latter: string)
    ensures TokenOf(line) == GitPaths(former, latter) <==> HeaderLine(line, former, latter)
  {
    MarkersApart(line);
    if "diff --git " <= line {
      var rest := line[11..];
      assert TrimPrefix(line, GIT_HEADER) == rest;
      IndexExactly(rest, " b/", 0);
      if i: nat :| FirstAt(rest, " b/", i) {
        IndexExactly(rest, " b/", i);
        FormerExactly(rest[..i], former);
        forall j: nat | FirstAt(rest, " b/", j) ensures j == i {
          IndexExactly(rest, " b/", j);
        }
      } else if Index(rest, " b/").Some? {
        IndexExactly(rest, " b/", Index(rest, " b/").value);
      }
    }
  }

  lemma FormerExactly(x: string, former: string)
    ensures TrimPrefix(x, "a/") == former <==> FormerIs(x, former)
  {
    assert ("a/" + former)[2..] == former;
    if "a/" <= x { assert x == x[..2] + x[2..]; }
  }

  // ---------- Hunk headers ----------

  // An optional sign and decimal digits, within 64 bits.
  ghost predicate Numeral(s: string, n: int) {
    -9223372036854775808 <= n <= 9223372036854775807 && exists d :: Spelt(s, n, d)
  }

  predicate Spelt(s: string, n: int, d: string) {
    && d != "" && Decimal.AllDigits(d)
    && ((n == Decimal.Value(d) && (s == d || s == "+" + d)) || (n + Decimal.Value(d) == 0 && s == "-" + d))
  }

  lemma {:induction false} NumeralExactly(s: string, n: int)
    ensures Decimal.Atoi(s) == Some(n) <==> Numeral(s, n)
  {
    if Decimal.Atoi(s) == Some(n) {
      AtoiSpelt(s, n);
    }
    if Numeral(s, n) {
      var d :| Spelt(s, n, d);
      SpeltAtoi(s, n, d);
    }
  }

  lemma {:induction false} AtoiSpelt(s: string, n: int)
    requires Decimal.Atoi(s) == Some(n)
    ensures Spelt(s, n, if s[0] == '-' || s[0] == '+' then s[1..] else s)
  {
    assert s == [s[0]] + s[1..];
  }

  lemma {:induction false} SpeltAtoi(s: string, n: int, d: string)
    requires Spelt(s, n, d) && -9223372036854775808 <= n <= 9223372036854775807
    ensures Decimal.Atoi(s) == Some(n)
  {
    assert Decimal.IsDigit(d[0]);
    assert s == "+" + d || s == "-" + d ==> s[1..] == d;
  }

  // After the sign of its side, "START,COUNT" or "START", which counts one line.
  ghost predicate RangeField(field: string, want: char, start: int, count: int) {
    field != "" && field[0] == want && RangeText(field[1..], start, count)
  }

  ghost predicate RangeText(text: string, start: int, count: int) {
    || (exists x, y :: WithCount(text, start, count, x, y))
    || (count == 1 && ',' !in text && Numeral(text, start))
  }

  ghost predicate WithCount(text: string, start: int, count: int, x: string, y: string) {
    text == x + "," + y && ',' !in x && Numeral(x, start) && Numeral(y, count)
  }

  lemma CommaAt(s: string, i: nat)
    ensures OccursAt(s, ",", i) <==> i < |s| && s[i] == ','
  {
    if i <= |s| { assert i < |s| ==> s[i..][0] == s[i]; }
  }

  // Where the first comma is, if there is one.
  predicate FirstComma(s: string, comma: Option<nat>) {
    match comma
    case None => ',' !in s
    case Some(i) => i < |s| && s[i] == ',' && ',' !in s[..i]
  }

  lemma {:induction false} IndexIsFirstComma(s: string)
    ensures FirstComma(s, Index(s, ","))
  {
    forall j: nat ensures OccursAt(s, ",", j) <==> j < |s| && s[j] == ',' {
      CommaAt(s, j);
    }
    if Index(s, ",").Some? {
      IndexExactly(s, ",", Index(s, ",").value);
    } else {
      IndexExactly(s, ",", 0);
    }
  }

  lemma FirstCommaUnique(s: string, i: nat, j: nat)
    requires FirstComma(s, Some(i)) && FirstComma(s, Some(j))
    ensures i == j
  {
    assert forall k :: 0 <= k < i ==> s[..i][k] == s[k];
    assert forall k :: 0 <= k < j ==> s[..j][k] == s[k];
  }

  lemma {:induction false} RangeExactly(field: string, want: char, start: int, count: int)
    ensures ParseRange(field, want) == Some((start, count)) <==> RangeField(field, want, start, count)
  {
    if field != "" {
      var text := field[1..];
      IndexIsFirstComma(text);
      RangeAtExactly(text, Index(text, ","), start, count);
    }
  }

  lemma {:induction false} RangeAtExactly(text: string, comma: Option<nat>, start: int, count: int)
    requires FirstComma(text, comma)
    ensures RangeAt(text, comma) == Some((start, count)) <==> RangeText(text, start, count)
  {
    if comma.None? {
      NoCountWithoutComma(text, start, count);
      NumeralExactly(text, start);
    } else {
      CutExactly(text, comma.value, start, count);
    }
  }

  lemma NoCountWithoutComma(text: string, start: int, count: int)
    requires ',' !in text
    ensures forall x, y :: !WithCount(text, start, count, x, y)
  {
    forall x, y ensures !WithCount(text, start, count, x, y) {
      assert (x + "," + y)[|x|] == ',';
    }
  }

  lemma {:induction false} CutExactly(text: string, i: nat, start: int, count: int)
    requires FirstComma(text, Some(i))
    ensures RangeAt(text, Some(i)) == Some((start, count)) <==> RangeText(text, start, count)
  {
    if RangeAt(text, Some(i)) == Some((start, count)) {
      CutReads(text, i, start, count);
    }
    if x, y :| WithCount(text, start, count, x, y) {
      ReadsCut(text, i, start, count, x, y);
    }
    assert text[i] == ',' && ',' in text;
  }

  lemma {:induction false} CutReads(text: string, i: nat, start: int, count: int)
    requires FirstComma(text, Some(i)) && RangeAt(text, Some(i)) == Some((start, count))
    ensures WithCount(text, start, count, text[..i], text[i + 1..])
  {
    CommaCuts(text, i);
    PartsRead(text, i, start, count);
  }

  lemma CommaCuts(text: string, i: nat)
    requires i < |text| && text[i] == ','
    ensures text == text[..i] + "," + text[i + 1..]
  {
  }

  lemma {:induction false} PartsRead(text: string, i: nat, start: int, count: int)
    requires i < |text| && RangeAt(text, Some(i)) == Some((start, count))
    ensures Numeral(text[..i], start) && Numeral(text[i + 1..], count)
  {
    AtoiReads(text[..i]);
    AtoiReads(text[i + 1..]);
  }

  lemma {:induction false} AtoiReads(s: string)
    ensures Decimal.Atoi(s).Some? ==> Numeral(s, Decimal.Atoi(s).value)
  {
    if Decimal.Atoi(s).Some? {
      NumeralExactly(s, Decimal.Atoi(s).value);
    }
  }

  lemma {:induction false} ReadsCut(text: string, i: nat, start: int, count: int, x: string, y: string)
    requires FirstComma(text, Some(i)) && WithCount(text, start, count, x, y)
    ensures RangeAt(text, Some(i)) == Some((start, count))
  {
    CutUnique(text, i, x, y);
    NumeralExactly(x, start);
    NumeralExactly(y, count);
  }

  lemma CutUnique(text: string, i: nat, x: string, y: string)
    requires FirstComma(text, Some(i)) && text == x + "," + y && ',' !in x
    ensures x == text[..i] && y == text[i + 1..]
  {
    assert text[|x|] == ',' && text[..|x|] == x && text[|x| + 1..] == y;
    FirstCommaUnique(text, i, |x|);
  }

  // Two runs of non-spaces.
  ghost predicate TwoFields(s: string, a: string, b: string) {
    a != "" && NoSpace(a) && b != "" && NoSpace(b) && exists l, m, r :: Apart(s, l, a, m, b, r)
  }

  predicate Apart(s: string, l: string, a: string, m: string, b: string, r: string) {
    s == l + a + m + b + r && AllSpace(l) && m != "" && AllSpace(m) && AllSpace(r)
  }

  lemma {:induction false} FieldsAfter(l: string, s: string)
    requires AllSpace(l)
    ensures Fields(l + s) == Fields(s)
  {
    if l == "" {
      assert l + s == s;
    } else {
      assert (l + s)[1..] == l[1..] + s;
      FieldsAfter(l[1..], s);
    }
  }

  lemma {:induction false} FieldsOfOne(b: string, r: string)
    requires b != "" && NoSpace(b) && AllSpace(r)
    ensures Fields(b + r) == [b]
  {
    FieldFirst(b, r);
    assert r + "" == r;
    FieldsAfter(r, "");
  }

  lemma {:induction false} FieldsOfTwo(l: string, a: string, m: string, b: string, r: string)
    requires AllSpace(l) && m != "" && AllSpace(m) && AllSpace(r)
    requires a != "" && NoSpace(a) && b != "" && NoSpace(b)
    ensures Fields(l + a + m + b + r) == [a, b]
  {
    assert l + a + m + b + r == l + (a + (m + (b + r)));
    FieldsAfter(l, a + (m + (b + r)));
    FieldFirst(a, m + (b + r));
    FieldsAfter(m, b + r);
    FieldsOfOne(b, r);
  }

  lemma {:induction false} LeadingRun(s: string) returns (n: nat)
    requires s != "" && !IsSpace(s[0])
    ensures 0 < n <= |s| && NoSpace(s[..n]) && (n == |s| || IsSpace(s[n])) && Fields(s) == [s[..n]] + Fields(s[n..])
  {
    n := FieldLength(s);
    RunLength(s);
  }

  lemma {:induction false} RunLength(s: string)
    ensures var n := FieldLength(s); NoSpace(s[..n]) && (n == |s| || IsSpace(s[n]))
  {
    if s != "" && !IsSpace(s[0]) {
      RunLength(s[1..]);
      assert s[..FieldLength(s)] == [s[0]] + s[1..][..FieldLength(s) - 1];
    }
  }

  // Spaces, a field, and the rest; or spaces alone.
  lemma {:induction false} NextField(s: string) returns (l: string, a: string, rest: string)
    ensures s == l + a + rest && AllSpace(l) && NoSpace(a) && (a == "" ==> rest == "" && Fields(s) == [])
    ensures a != "" ==> Fields(s) == [a] + Fields(rest) && (rest == "" || IsSpace(rest[0]))
  {
    if s == "" {
      l, a, rest := "", "", "";
    } else if IsSpace(s[0]) {
      l, a, rest := NextField(s[1..]);
      l := [s[0]] + l;
      assert s == [s[0]] + s[1..];
    } else {
      var n := LeadingRun(s);
      l, a, rest := "", s[..n], s[n..];
    }
  }

  lemma TwoFieldsExactly(s: string, a: string, b: string)
    ensures Fields(s) == [a, b] <==> TwoFields(s, a, b)
  {
    if TwoFields(s, a, b) {
      var l, m, r :| Apart(s, l, a, m, b, r);
      FieldsOfTwo(l, a, m, b, r);
    }
    if Fields(s) == [a, b] {
      FieldsGiveTwo(s, a, b);
    }
  }

  lemma {:induction false} FirstField(s: string, a: string, more: seq<string>) returns (l: string, rest: string)
    requires Fields(s) == [a] + more
    ensures s == l + a + rest && AllSpace(l) && a != "" && NoSpace(a) && Fields(rest) == more
    ensures rest == "" || IsSpace(rest[0])
  {
    var x;
    l, x, rest := NextField(s);
    assert ([a] + more)[0] == a && ([a] + more)[1..] == more;
    assert ([x] + Fields(rest))[0] == x && ([x] + Fields(rest))[1..] == Fields(rest);
  }

  lemma {:induction false} FieldsGiveTwo(s: string, a: string, b: string)
    requires Fields(s) == [a, b]
    ensures TwoFields(s, a, b)
  {
    assert [a, b] == [a] + [b] && [b] == [b] + [];
    var l, rest := FirstField(s, a, [b]);
    var m, tail := FirstField(rest, b, []);
    var r, z, end := NextField(tail);
    GapBetween(m, b, tail, rest);
    assert tail == r;
    assert s == l + a + m + b + r;
    assert Apart(s, l, a, m, b, r);
  }

  lemma GapBetween(m: string, b: string, tail: string, rest: string)
    requires rest == m + b + tail && b != "" && NoSpace(b) && (rest == "" || IsSpace(rest[0]))
    ensures m != ""
  {
    assert (b + tail)[0] == b[0];
    assert rest == m + (b + tail);
  }

  // "@@ ", a range of each side, and the first " @@"; what follows is not read.
  ghost predicate HunkLine(line: string, h: Hunk) {
    && "@@ " <= line && h.lines == [] && h.added == 0 && h.removed == 0
    && exists i: nat, a, b :: HunkParts(line[3..], i, a, b, h)
  }

  ghost predicate HunkParts(body: string, i: nat, a: string, b: string, h: Hunk) {
    && FirstAt(body, " @@", i) && TwoFields(body[..i], a, b)
    && RangeField(a, '-', h.oldStart, h.oldLines) && RangeField(b, '+', h.newStart, h.newLines)
  }

  lemma HunkExactly(line: string, h: Hunk)
    ensures TokenOf(line) == HunkAt(Some(h)) <==> HunkLine(line, h)
  {
    MarkersApart(line);
    if "@@ " <= line {
      assert TokenOf(line) == HunkAt(ParseHunkHeader(line));
      HeaderParsesExactly(line, h);
    }
  }

  lemma {:induction false} HeaderParsesExactly(line: string, h: Hunk)
    requires "@@ " <= line
    ensures ParseHunkHeader(line) == Some(h) <==> HunkLine(line, h)
  {
    if ParseHunkHeader(line) == Some(h) {
      HunkParsed(line, h);
    }
    if HunkLine(line, h) {
      var i: nat, a, b :| HunkParts(line[3..], i, a, b, h);
      HunkPartsParse(line, i, a, b, h);
    }
  }

  lemma {:induction false} HunkParsed(line: string, h: Hunk)
    requires "@@ " <= line && ParseHunkHeader(line) == Some(h)
    ensures HunkLine(line, h)
  {
    var body := line[3..];
    assert TrimPrefix(line, HUNK_HEADER) == body;
    var i := Index(body, " @@").value;
    IndexExactly(body, " @@", i);
    var ranges := Fields(body[..i]);
    RangesExactly(ranges, h);
    TwoFieldsExactly(body[..i], ranges[0], ranges[1]);
    assert ranges == [ranges[0], ranges[1]];
    assert HunkParts(body, i, ranges[0], ranges[1], h);
  }

  lemma {:induction false} HunkPartsParse(line: string, i: nat, a: string, b: string, h: Hunk)
    requires "@@ " <= line && HunkParts(line[3..], i, a, b, h) && h.lines == [] && h.added == 0 && h.removed == 0
    ensures ParseHunkHeader(line) == Some(h)
  {
    var body := line[3..];
    assert TrimPrefix(line, HUNK_HEADER) == body;
    IndexExactly(body, " @@", i);
    TwoFieldsExactly(body[..i], a, b);
    RangesExactly([a, b], h);
  }

  lemma {:induction false} RangesExactly(ranges: seq<string>, h: Hunk)
    ensures HunkOfRanges(ranges) == Some(h) <==>
      && |ranges| == 2 && h.lines == [] && h.added == 0 && h.removed == 0
      && RangeField(ranges[0], '-', h.oldStart, h.oldLines) && RangeField(ranges[1], '+', h.newStart, h.newLines)
  {
    if |ranges| == 2 {
      RangeExactly(ranges[0], '-', h.oldStart, h.oldLines);
      RangeExactly(ranges[1], '+', h.newStart, h.newLines);
    }
  }
}
