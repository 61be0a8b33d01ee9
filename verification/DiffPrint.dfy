/** Printing file diffs the way git does, and what the parser (internal/intent/diff.go) reads back. */
module DiffPrint {
  import opened Wrappers
  import opened Text
  import opened Lines
  import opened Diff

  // ---------- The printer ----------

  // A file's diff and the extended header lines git prints above its paths.
  datatype Patch = Patch(file: FileDiff, notes: seq<string>)

  predicate Ranged(h: Hunk) {
    && 0 <= h.oldStart <= Decimal.INT64_MAX && 0 <= h.oldLines <= Decimal.INT64_MAX
    && 0 <= h.newStart <= Decimal.INT64_MAX && 0 <= h.newLines <= Decimal.INT64_MAX
  }

  function RangeText(start: nat, count: nat): string {
    if count == 1 then Decimal.Digits(start) else Decimal.Digits(start) + "," + Decimal.Digits(count)
  }

  function RangesText(h: Hunk): string
    requires Ranged(h)
  {
    ("-" + RangeText(h.oldStart, h.oldLines)) + " " + ("+" + RangeText(h.newStart, h.newLines))
  }

  function PrintHunkHeader(h: Hunk): string
    requires Ranged(h)
  {
    HUNK_HEADER + (RangesText(h) + " @@")
  }

  function PrintLine(l: DiffLine): string {
    match l.kind
    case Context => " " + l.text
    case Plus => "+" + l.text
    case Minus => "-" + l.text
  }

  function PrintBody(lines: seq<DiffLine>): (r: seq<string>)
    ensures |r| == |lines| && forall i :: 0 <= i < |lines| ==> r[i] == PrintLine(lines[i])
  {
    seq(|lines|, i requires 0 <= i < |lines| => PrintLine(lines[i]))
  }

  function PrintHunk(h: Hunk): seq<string>
    requires Ranged(h)
  {
    [PrintHunkHeader(h)] + PrintBody(h.lines)
  }

  predicate AllRanged(hs: seq<Hunk>) {
    forall i :: 0 <= i < |hs| ==> Ranged(hs[i])
  }

  function HunkParts(hs: seq<Hunk>): seq<seq<string>>
    requires AllRanged(hs)
  {
    seq(|hs|, i requires 0 <= i < |hs| => PrintHunk(hs[i]))
  }

  function PrintHunks(hs: seq<Hunk>): seq<string>
    requires AllRanged(hs)
  {
    Flatten(HunkParts(hs), |hs|)
  }

  function GitLine(f: FileDiff): string {
    GIT_HEADER + ("a/" + f.oldPath + " b/" + f.newPath)
  }

  function OldLine(f: FileDiff): string {
    OLD_PATH + (if f.status == Added then DEV_NULL else "a/" + f.oldPath)
  }

  function NewLine(f: FileDiff): string {
    NEW_PATH + (if f.status == Deleted then DEV_NULL else "b/" + f.newPath)
  }

  function HeaderLines(p: Patch): seq<string> {
    [GitLine(p.file)] + (p.notes + ([OldLine(p.file)] + [NewLine(p.file)]))
  }

  function PrintFile(p: Patch): seq<string>
    requires AllRanged(p.file.hunks)
  {
    HeaderLines(p) + PrintHunks(p.file.hunks)
  }

  predicate PatchesRanged(ps: seq<Patch>) {
    forall i :: 0 <= i < |ps| ==> AllRanged(ps[i].file.hunks)
  }

  function FileParts(ps: seq<Patch>): seq<seq<string>>
    requires PatchesRanged(ps)
  {
    seq(|ps|, i requires 0 <= i < |ps| => PrintFile(ps[i]))
  }

  function PrintFiles(ps: seq<Patch>): seq<string>
    requires PatchesRanged(ps)
  {
    Flatten(FileParts(ps), |ps|)
  }

  function FilesOf(ps: seq<Patch>): (files: seq<FileDiff>)
    ensures |files| == |ps| && forall i :: 0 <= i < |ps| ==> files[i] == ps[i].file
  {
    seq(|ps|, i requires 0 <= i < |ps| => ps[i].file)
  }

  // ---------- What prints well ----------

  // Survives the scanner: no newline inside, no carriage return at the end.
  predicate Scannable(line: string) {
    OneLine(line) && DropCR(line) == line
  }

  // Not mistaken for a path line.
  predicate Unmistakable(kind: LineKind, text: string) {
    && (kind == Minus ==> !("-- " <= text))
    && (kind == Plus ==> !("++ " <= text))
  }

  predicate HunkClear(h: Hunk) {
    forall k :: 0 <= k < |h.lines| ==> Unmistakable(h.lines[k].kind, h.lines[k].text)
  }

  predicate FileClear(f: FileDiff) {
    forall i :: 0 <= i < |f.hunks| ==> HunkClear(f.hunks[i])
  }

  // No body line of any file can be mistaken for a path line.
  predicate AllClear(ps: seq<Patch>) {
    forall i :: 0 <= i < |ps| ==> FileClear(ps[i].file)
  }

  // Extended header lines are none of the lines the parser looks for.
  predicate NotesPrintable(notes: seq<string>) {
    forall i :: 0 <= i < |notes| ==> Classify(notes[i]) == Body
  }

  predicate AllNotesPrintable(ps: seq<Patch>) {
    forall i :: 0 <= i < |ps| ==> NotesPrintable(ps[i].notes)
  }

  // ---------- Running over concatenated lines ----------

  function RunAll(s: State, tokens: seq<Token>): Option<State> {
    Run(s, tokens, |tokens|)
  }

  lemma {:induction false} RunPrefix(s: State, a: seq<Token>, b: seq<Token>, n: nat)
    requires n <= |a|
    ensures Run(s, a + b, n) == Run(s, a, n)
  {
    if n > 0 {
      RunPrefix(s, a, b, n - 1);
    }
  }

  lemma {:induction false} RunSuffix(s: State, t: State, a: seq<Token>, b: seq<Token>, k: nat)
    requires k <= |b| && RunAll(s, a) == Some(t)
    ensures Run(s, a + b, |a| + k) == Run(t, b, k)
  {
    if k == 0 {
      RunPrefix(s, a, b, |a|);
    } else {
      RunSuffix(s, t, a, b, k - 1);
    }
  }

  lemma RunConcat(s: State, t: State, a: seq<Token>, b: seq<Token>)
    requires RunAll(s, a) == Some(t)
    ensures RunAll(s, a + b) == RunAll(t, b)
  {
    RunSuffix(s, t, a, b, |b|);
  }

  lemma RunOneThen(s: State, t: State, token: Token, rest: seq<Token>)
    requires Step(s, token) == Some(t)
    ensures RunAll(s, [token] + rest) == RunAll(t, rest)
  {
    assert Run(s, [token], 0) == Some(s);
    RunConcat(s, t, [token], rest);
  }

  lemma TokensConcat(a: seq<string>, b: seq<string>)
    ensures Tokens(a + b) == Tokens(a) + Tokens(b)
  {
  }

  // ---------- Which line is which ----------

  lemma ClassOfHeaders(x: string)
    ensures Classify(GIT_HEADER + x) == GitHeader
    ensures Classify(OLD_PATH + x) == OldPath
    ensures Classify(NEW_PATH + x) == NewPath
    ensures Classify(HUNK_HEADER + x) == HunkHeader
  {
    assert GIT_HEADER[0] == 'd';
    assert (OLD_PATH + x)[0] == '-' && (NEW_PATH + x)[0] == '+' && (HUNK_HEADER + x)[0] == '@';
  }

  lemma PrefixAfterFirst(c: char, rest: string, text: string)
    ensures [c] + rest <= [c] + text <==> rest <= text
  {
    assert ([c] + text)[1..] == text && ([c] + rest)[1..] == rest;
    if rest <= text {
      assert [c] + text == [c] + rest + text[|rest|..];
    }
    if [c] + rest <= [c] + text {
      assert ([c] + text)[..|rest| + 1] == [c] + rest;
      assert text[..|rest|] == rest;
    }
  }

  // A printed body line is read back as itself exactly when it cannot be mistaken for a path line.
  lemma BodyLineReadsBackExactly(l: DiffLine)
    ensures TokenOf(PrintLine(l)) == Says(l.kind, l.text) <==> Unmistakable(l.kind, l.text)
    ensures !Unmistakable(l.kind, l.text) ==> TokenOf(PrintLine(l)).OldSide? || TokenOf(PrintLine(l)).NewSide?
  {
    assert GIT_HEADER[0] == 'd' && HUNK_HEADER[0] == '@' && OLD_PATH[0] == '-' && NEW_PATH[0] == '+';
    assert PrintLine(l)[1..] == l.text;
    match l.kind
    case Context =>
    case Plus =>
      assert NEW_PATH == ['+'] + "++ ";
      PrefixAfterFirst('+', "++ ", l.text);
    case Minus =>
      assert OLD_PATH == ['-'] + "-- ";
      PrefixAfterFirst('-', "-- ", l.text);
  }

  // ---------- Hunks ----------

  predicate RangeChars(s: string) {
    forall i :: 0 <= i < |s| ==> Decimal.IsDigit(s[i]) || s[i] == ','
  }

  lemma RangeTextChars(start: nat, count: nat)
    ensures RangeChars(RangeText(start, count)) && RangeText(start, count) != ""
  {
  }

  lemma NoComma(digits: string)
    requires Decimal.AllDigits(digits)
    ensures Index(digits, ",") == None
  {
    IndexOccurs(digits, ",");
    if Index(digits, ",").Some? {
      var i := Index(digits, ",").value;
      DiffersAt(digits, ",", i, 0);
    }
  }

  lemma FirstComma(digits: string, rest: string)
    requires Decimal.AllDigits(digits)
    ensures Index(digits + "," + rest, ",") == Some(|digits|)
  {
    var s := digits + "," + rest;
    assert s[|digits|..] == "," + rest;
    forall j: nat | j < |digits| ensures !OccursAt(s, ",", j) {
      assert s[j] == digits[j];
      DiffersAt(s, ",", j, 0);
    }
    IndexIsFirst(s, ",", |digits|);
  }

  lemma RangeReadsBack(start: nat, count: nat, want: char)
    requires start <= Decimal.INT64_MAX && count <= Decimal.INT64_MAX
    ensures ParseRange([want] + RangeText(start, count), want) == Some((start, count))
  {
    var rest := RangeText(start, count);
    var a, b := Decimal.Digits(start), Decimal.Digits(count);
    assert ([want] + rest)[1..] == rest;
    Decimal.AtoiOfDigits(start);
    Decimal.AtoiOfDigits(count);
    if count == 1 {
      NoComma(a);
    } else {
      FirstComma(a, b);
      assert rest[..|a|] == a && rest[|a| + 1..] == b;
    }
  }

  // The hunk a header declares: no lines yet.
  function Bare(h: Hunk): Hunk {
    Hunk(h.oldStart, h.oldLines, h.newStart, h.newLines, [], 0, 0)
  }

  lemma HunkHeaderReadsBack(h: Hunk)
    requires Ranged(h)
    ensures TokenOf(PrintHunkHeader(h)) == HunkAt(Some(Bare(h)))
  {
    var x, y := "-" + RangeText(h.oldStart, h.oldLines), "+" + RangeText(h.newStart, h.newLines);
    var ranges := RangesText(h);
    var body := ranges + " @@";
    ClassOfHeaders(body);
    assert TrimPrefix(PrintHunkHeader(h), HUNK_HEADER) == body;
    RangeTextChars(h.oldStart, h.oldLines);
    RangeTextChars(h.newStart, h.newLines);
    assert NoSpace(x) && NoSpace(y);
    MarkIsFirst(x, y);
    assert body[..|ranges|] == ranges;
    TwoFields(x, y);
    RangeReadsBack(h.oldStart, h.oldLines, '-');
    RangeReadsBack(h.newStart, h.newLines, '+');
  }

  lemma MarkIsFirst(x: string, y: string)
    requires NoSpace(x) && NoSpace(y) && y != "" && y[0] != '@'
    ensures Index(x + " " + y + " @@", " @@") == Some(|x + " " + y|)
  {
    var ranges := x + " " + y;
    var body := ranges + " @@";
    assert body[|ranges|..] == " @@";
    forall j: nat | j < |ranges| ensures !OccursAt(body, " @@", j) {
      if j == |x| {
        assert body[j + 1] == y[0];
        DiffersAt(body, " @@", j, 1);
      } else {
        assert body[j] == if j < |x| then x[j] else y[j - |x| - 1];
        DiffersAt(body, " @@", j, 0);
      }
    }
    IndexIsFirst(body, " @@", |ranges|);
  }

  // The hunk after its first k lines.
  function PrefixHunk(h: Hunk, k: nat): Hunk
    requires k <= |h.lines|
  {
    Hunk(h.oldStart, h.oldLines, h.newStart, h.newLines, h.lines[..k], CountOf(h.lines, Plus, k),
      CountOf(h.lines, Minus, k))
  }

  function InBody(s: State, h: Hunk, k: nat): State
    requires k <= |h.lines|
  {
    s.(hunk := Some(PrefixHunk(h, k)),
       oldLine := Wrap(h.oldStart + OldBefore(h.lines, k)),
       newLine := Wrap(h.newStart + NewBefore(h.lines, k)))
  }

  lemma PrefixGrows(s: State, h: Hunk, k: nat)
    requires k < |h.lines| && NumberedAt(h, k)
    ensures Step(InBody(s, h, k), Says(h.lines[k].kind, h.lines[k].text)) == Some(InBody(s, h, k + 1))
  {
    WrapOfNext(h.oldStart + OldBefore(h.lines, k));
    WrapOfNext(h.newStart + NewBefore(h.lines, k));
    assert h.lines[..k + 1] == h.lines[..k] + [h.lines[k]];
  }

  // What the lines of a hunk say.
  function BodyTokens(lines: seq<DiffLine>): (r: seq<Token>)
    ensures |r| == |lines| && forall i :: 0 <= i < |lines| ==> r[i] == Says(lines[i].kind, lines[i].text)
  {
    seq(|lines|, i requires 0 <= i < |lines| => Says(lines[i].kind, lines[i].text))
  }

  lemma {:induction false} RunBody(s: State, h: Hunk, k: nat)
    requires HunkOk(h) && k <= |h.lines|
    ensures Run(InBody(s, h, 0), BodyTokens(h.lines), k) == Some(InBody(s, h, k))
  {
    if k > 0 {
      RunBody(s, h, k - 1);
      assert NumberedAt(h, k - 1);
      PrefixGrows(s, h, k - 1);
    }
  }

  function AfterHunk(s: State, h: Hunk): State {
    s.(hunk := Some(h),
       oldLine := Wrap(h.oldStart + OldBefore(h.lines, |h.lines|)),
       newLine := Wrap(h.newStart + NewBefore(h.lines, |h.lines|)))
  }

  lemma BodyEnds(s: State, h: Hunk)
    requires HunkOk(h)
    ensures InBody(s, h, |h.lines|) == AfterHunk(s, h)
  {
    assert h.lines[..|h.lines|] == h.lines;
  }

  lemma BodyStarts(s: State, h: Hunk)
    requires Ranged(h)
    ensures InBody(s, h, 0) == s.(hunk := Some(Bare(h)), oldLine := h.oldStart, newLine := h.newStart)
  {
    WrapIsIdentityInRange(h.oldStart);
    WrapIsIdentityInRange(h.newStart);
  }

  function HunkTokens(h: Hunk): seq<Token> {
    [HunkAt(Some(Bare(h)))] + BodyTokens(h.lines)
  }

  lemma RunHunk(s: State, h: Hunk)
    requires Ranged(h) && HunkOk(h) && s.cur.Some?
    ensures RunAll(s, HunkTokens(h)) == Some(AfterHunk(HunkFlushed(s), h))
  {
    var t := HunkFlushed(s);
    BodyStarts(t, h);
    RunOneThen(s, InBody(t, h, 0), HunkAt(Some(Bare(h))), BodyTokens(h.lines));
    RunBody(t, h, |h.lines|);
    BodyEnds(t, h);
  }

  // ---------- Files ----------

  // Nothing is open but what the current file holds.
  predicate Held(s: State) {
    s.hunk.Some? ==> s.cur.Some?
  }

  ghost predicate HunksFit(hs: seq<Hunk>) {
    forall i :: 0 <= i < |hs| ==> Ranged(hs[i]) && HunkOk(hs[i])
  }

  // The current file holds f's first n hunks, the last of them perhaps still open.
  predicate Holding(s: State, files: seq<FileDiff>, f: FileDiff, n: nat)
    requires n <= |f.hunks|
  {
    && s.cur.Some? && s.files == files
    && HunkFlushed(s).cur == Some(f.(hunks := f.hunks[..n]))
  }

  lemma HoldsOneMore(s: State, files: seq<FileDiff>, f: FileDiff, n: nat)
    requires n < |f.hunks| && Holding(s, files, f, n)
    ensures Holding(AfterHunk(HunkFlushed(s), f.hunks[n]), files, f, n + 1)
  {
    assert f.hunks[..n + 1] == f.hunks[..n] + [f.hunks[n]];
  }

  function HunkTokenParts(hs: seq<Hunk>): (parts: seq<seq<Token>>)
    ensures |parts| == |hs| && forall i :: 0 <= i < |hs| ==> parts[i] == HunkTokens(hs[i])
  {
    seq(|hs|, i requires 0 <= i < |hs| => HunkTokens(hs[i]))
  }

  function HunksTokens(hs: seq<Hunk>, n: nat): seq<Token>
    requires n <= |hs|
  {
    Flatten(HunkTokenParts(hs), n)
  }

  lemma RunOneMore(s: State, before: State, f: FileDiff, n: nat)
    requires n < |f.hunks| && Ranged(f.hunks[n]) && HunkOk(f.hunks[n])
    requires RunAll(s, HunksTokens(f.hunks, n)) == Some(before) && before.cur.Some?
    ensures RunAll(s, HunksTokens(f.hunks, n + 1)) == Some(AfterHunk(HunkFlushed(before), f.hunks[n]))
  {
    RunHunk(before, f.hunks[n]);
    RunConcat(s, before, HunksTokens(f.hunks, n), HunkTokens(f.hunks[n]));
  }

  lemma {:induction false} RunHunks(s: State, f: FileDiff, n: nat) returns (e: State)
    requires n <= |f.hunks| && HunksFit(f.hunks) && Holding(s, s.files, f, 0)
    ensures RunAll(s, HunksTokens(f.hunks, n)) == Some(e) && Holding(e, s.files, f, n)
  {
    if n == 0 {
      e := s;
    } else {
      var before := RunHunks(s, f, n - 1);
      assert Ranged(f.hunks[n - 1]) && HunkOk(f.hunks[n - 1]);
      RunOneMore(s, before, f, n - 1);
      HoldsOneMore(before, s.files, f, n - 1);
      e := AfterHunk(HunkFlushed(before), f.hunks[n - 1]);
    }
  }

  lemma {:induction false} RunNotes(s: State, notes: seq<Token>, n: nat)
    requires s.hunk.None? && n <= |notes| && forall i :: 0 <= i < |notes| ==> notes[i].Says? || notes[i].SaysNothing?
    ensures Run(s, notes, n) == Some(s)
  {
    if n > 0 {
      RunNotes(s, notes, n - 1);
    }
  }

  lemma TrimPrefixOf(prefix: string, s: string)
    ensures TrimPrefix(prefix + s, prefix) == s
  {
  }

  // A path line gives the path without its trailing space.
  lemma PathReadsBack(marker: string, side: string, p: string)
    requires side == "a/" || side == "b/"
    ensures PathOnLine(marker + (side + p), marker) == TrimRight(p)
  {
    TrimPrefixOf(marker, side + p);
    var text := side + p;
    assert text[0] == 'a' || text[0] == 'b';
    assert TrimLeft(text) == text;
    TrimRightAfter(side, p);
    assert (side + TrimRight(p))[2..] == TrimRight(p);
  }

  lemma DevNullReadsBack(marker: string)
    ensures PathOnLine(marker + DEV_NULL, marker) == DEV_NULL
  {
    TrimPrefixOf(marker, DEV_NULL);
    assert DEV_NULL[0] == '/' && DEV_NULL[|DEV_NULL| - 1] == 'l';
    TrimSpaceOfTrimmed(DEV_NULL);
  }

  // " b/" occurs nowhere.
  predicate NoMark(s: string) {
    forall j :: 0 <= j < |s| - 2 ==> s[j] != ' ' || s[j + 1] != 'b' || s[j + 2] != '/'
  }

  function HeaderOf(former: string, latter: string): (string, string) {
    ParseGitDiffHeader(GIT_HEADER + ("a/" + former + " b/" + latter))
  }

  // Cut at its first " b/", the header names both files if and only if the first name holds no
  // " b/"; otherwise it gets both wrong.
  lemma HeaderReadsBack(former: string, latter: string)
    ensures HeaderOf(former, latter) == (former, latter) <==> NoMark(former)
    ensures HeaderOf(former, latter).0 == former <==> NoMark(former)
    ensures HeaderOf(former, latter).1 == latter <==> NoMark(former)
  {
    if NoMark(former) {
      UnmarkedHeader(former, latter);
    } else {
      MarkedHeader(former, latter);
    }
  }

  lemma UnmarkedHeader(former: string, latter: string)
    requires NoMark(former)
    ensures HeaderOf(former, latter) == (former, latter)
  {
    var head := "a/" + former;
    var rest := head + " b/" + latter;
    TrimPrefixOf(GIT_HEADER, rest);
    assert rest[|head|..] == " b/" + latter;
    forall j: nat | j < |head| ensures !OccursAt(rest, " b/", j) {
      NotMarkedAt(former, latter, j);
    }
    IndexIsFirst(rest, " b/", |head|);
    assert rest[..|head|] == head && rest[|head| + 3..] == latter;
    TrimPrefixOf("a/", former);
  }

  lemma MarkedHeader(former: string, latter: string)
    requires !NoMark(former)
    ensures HeaderOf(former, latter).0 != former && HeaderOf(former, latter).1 != latter
  {
    var head := "a/" + former;
    var rest := head + " b/" + latter;
    TrimPrefixOf(GIT_HEADER, rest);
    var j :| 0 <= j < |former| - 2 && former[j] == ' ' && former[j + 1] == 'b' && former[j + 2] == '/';
    assert rest[j + 2..][..3] == " b/";
    IndexAtMost(rest, " b/", j + 2);
    var i := Index(rest, " b/").value;
    assert |HeaderOf(former, latter).0| <= i < |former|;
    assert |HeaderOf(former, latter).1| == |rest| - i - 3 > |latter|;
  }

  lemma NotMarkedAt(former: string, latter: string, j: nat)
    requires NoMark(former) && j < |"a/" + former|
    ensures !OccursAt("a/" + former + " b/" + latter, " b/", j)
  {
    var head := "a/" + former;
    var rest := head + " b/" + latter;
    assert rest[|head|] == ' ';
    assert forall i :: 0 <= i < |head| ==> rest[i] == head[i];
    if j + 1 == |head| {
      DiffersAt(rest, " b/", j, 1);
    } else if j + 2 == |head| {
      DiffersAt(rest, " b/", j, 2);
    } else if j < 2 {
      assert head[j] == "a/"[j];
      DiffersAt(rest, " b/", j, 0);
    } else {
      assert head[j] == former[j - 2] && head[j + 1] == former[j - 1] && head[j + 2] == former[j];
      if former[j - 2] != ' ' {
        DiffersAt(rest, " b/", j, 0);
      } else if former[j - 1] != 'b' {
        DiffersAt(rest, " b/", j, 1);
      } else {
        DiffersAt(rest, " b/", j, 2);
      }
    }
  }

  // What the lines above a file's hunks say: the two names in the header, the notes, and the two
  // path lines.
  datatype Heading = Heading(former: string, latter: string, notes: seq<Token>, oldSide: string, newSide: string)

  function HeadingTokens(h: Heading): seq<Token> {
    [GitPaths(h.former, h.latter)] + (h.notes + [OldSide(h.oldSide), NewSide(h.newSide)])
  }

  // The file they leave open.
  function Headed(h: Heading): FileDiff {
    WithNewPath(WithOldPath(FileDiff(h.former, h.latter, Modified, []), h.oldSide), h.newSide)
  }

  ghost predicate Quiet(notes: seq<Token>) {
    forall i :: 0 <= i < |notes| ==> notes[i].Says? || notes[i].SaysNothing?
  }

  lemma RunTwo(s: State, t: State, e: State, a: Token, b: Token)
    requires Step(s, a) == Some(t) && Step(t, b) == Some(e)
    ensures RunAll(s, [a, b]) == Some(e)
  {
    assert [a, b] == [a] + [b] && [b] == [b] + [];
    RunOneThen(s, t, a, [b]);
    RunOneThen(t, e, b, []);
  }

  lemma RunHeading(s: State, h: Heading)
    requires Held(s) && Quiet(h.notes)
    ensures RunAll(s, HeadingTokens(h)) == Some(FileFlushed(s).(cur := Some(Headed(h))))
  {
    var t := FileFlushed(s).(cur := Some(FileDiff(h.former, h.latter, Modified, [])));
    var u := t.(cur := Some(WithOldPath(t.cur.value, h.oldSide)));
    var paths := [OldSide(h.oldSide), NewSide(h.newSide)];
    RunOneThen(s, t, GitPaths(h.former, h.latter), h.notes + paths);
    RunNotes(t, h.notes, |h.notes|);
    RunConcat(t, t, h.notes, paths);
    RunTwo(t, u, t.(cur := Some(Headed(h))), OldSide(h.oldSide), NewSide(h.newSide));
  }

  // What the parser reads of one printed file.
  datatype Reading = Reading(heading: Heading, hunks: seq<Hunk>)

  function FileRead(r: Reading): FileDiff {
    Headed(r.heading).(hunks := r.hunks)
  }

  ghost predicate ReadingFits(r: Reading) {
    Quiet(r.heading.notes) && HunksFit(r.hunks)
  }

  function ReadingTokens(r: Reading): seq<Token> {
    HeadingTokens(r.heading) + HunksTokens(r.hunks, |r.hunks|)
  }

  lemma RunReading(s: State, r: Reading) returns (e: State)
    requires Held(s) && ReadingFits(r)
    ensures RunAll(s, ReadingTokens(r)) == Some(e)
    ensures Held(e) && FileFlushed(e).files == FileFlushed(s).files + [FileRead(r)]
  {
    var f := FileRead(r);
    var t := FileFlushed(s).(cur := Some(Headed(r.heading)));
    RunHeading(s, r.heading);
    RunConcat(s, t, HeadingTokens(r.heading), HunksTokens(r.hunks, |r.hunks|));
    e := RunHunks(t, f, |r.hunks|);
    assert f.hunks[..|f.hunks|] == f.hunks;
  }

  function ReadingParts(rs: seq<Reading>): (parts: seq<seq<Token>>)
    ensures |parts| == |rs| && forall i :: 0 <= i < |rs| ==> parts[i] == ReadingTokens(rs[i])
  {
    seq(|rs|, i requires 0 <= i < |rs| => ReadingTokens(rs[i]))
  }

  function FilesRead(rs: seq<Reading>, n: nat): seq<FileDiff>
    requires n <= |rs|
  {
    if n == 0 then [] else FilesRead(rs, n - 1) + [FileRead(rs[n - 1])]
  }

  // The machine goes from state to state, one part at a time.
  ghost predicate PassesAt(states: seq<State>, parts: seq<seq<Token>>, i: int) {
    0 <= i < |parts| && i + 1 < |states| ==> RunAll(states[i], parts[i]) == Some(states[i + 1])
  }

  ghost predicate Passes(states: seq<State>, parts: seq<seq<Token>>, n: nat) {
    n <= |parts| && |states| == n + 1 && forall i :: PassesAt(states, parts, i)
  }

  lemma {:induction false} RunParts(states: seq<State>, parts: seq<seq<Token>>, n: nat, k: nat)
    requires Passes(states, parts, n) && k <= n
    ensures RunAll(states[0], Flatten(parts, k)) == Some(states[k])
  {
    if k > 0 {
      RunParts(states, parts, n, k - 1);
      assert PassesAt(states, parts, k - 1);
      RunConcat(states[0], states[k - 1], Flatten(parts, k - 1), parts[k - 1]);
    }
  }

  lemma PassOneMore(states: seq<State>, parts: seq<seq<Token>>, n: nat, e: State)
    requires Passes(states, parts, n) && n < |parts| && RunAll(states[n], parts[n]) == Some(e)
    ensures Passes(states + [e], parts, n + 1)
  {
    forall i ensures PassesAt(states + [e], parts, i) {
      assert PassesAt(states, parts, i);
    }
  }

  // After the first n files, those are the files read.
  ghost predicate HasRead(rs: seq<Reading>, s: State, n: nat)
    requires n <= |rs|
  {
    Held(s) && FileFlushed(s).files == FilesRead(rs, n)
  }

  lemma HasReadOneMore(rs: seq<Reading>, n: nat, s: State, e: State)
    requires n < |rs| && HasRead(rs, s, n)
    requires Held(e) && FileFlushed(e).files == FileFlushed(s).files + [FileRead(rs[n])]
    ensures HasRead(rs, e, n + 1)
  {
  }

  ghost predicate AllFit(rs: seq<Reading>) {
    forall i :: 0 <= i < |rs| ==> ReadingFits(rs[i])
  }

  lemma ReadNext(rs: seq<Reading>, n: nat, s: State) returns (e: State)
    requires n < |rs| && AllFit(rs) && HasRead(rs, s, n)
    ensures RunAll(s, ReadingParts(rs)[n]) == Some(e) && HasRead(rs, e, n + 1)
  {
    e := RunReading(s, rs[n]);
    HasReadOneMore(rs, n, s, e);
  }

  // From any state that has read the first k files, part k leads to one that has read one more.
  ghost predicate LeadsOn(rs: seq<Reading>, parts: seq<seq<Token>>, k: nat) {
    k < |rs| && k < |parts| ==> forall s :: HasRead(rs, s, k) ==> LeadsFrom(rs, parts[k], k, s)
  }

  ghost predicate LeadsFrom(rs: seq<Reading>, part: seq<Token>, k: nat, s: State)
    requires k < |rs|
  {
    exists e :: RunAll(s, part) == Some(e) && HasRead(rs, e, k + 1)
  }

  lemma ReadingsLeadOn(rs: seq<Reading>, k: nat)
    requires AllFit(rs)
    ensures LeadsOn(rs, ReadingParts(rs), k)
  {
    if k < |rs| {
      forall s | HasRead(rs, s, k) ensures LeadsFrom(rs, ReadingParts(rs)[k], k, s) {
        var e := ReadNext(rs, k, s);
      }
    }
  }

  lemma {:induction false} ReadAll(rs: seq<Reading>, parts: seq<seq<Token>>, n: nat) returns (states: seq<State>)
    requires n <= |rs| == |parts| && forall k: nat :: LeadsOn(rs, parts, k)
    ensures Passes(states, parts, n) && states[0] == START && HasRead(rs, states[n], n)
  {
    if n == 0 {
      states := [START];
    } else {
      var before := ReadAll(rs, parts, n - 1);
      assert LeadsOn(rs, parts, n - 1);
      assert LeadsFrom(rs, parts[n - 1], n - 1, before[n - 1]);
      var e :| RunAll(before[n - 1], parts[n - 1]) == Some(e) && HasRead(rs, e, n);
      PassOneMore(before, parts, n - 1, e);
      states := before + [e];
    }
  }

  lemma RunReadings(rs: seq<Reading>) returns (e: State)
    requires AllFit(rs)
    ensures RunAll(START, Flatten(ReadingParts(rs), |rs|)) == Some(e)
    ensures Held(e) && FileFlushed(e).files == FilesRead(rs, |rs|)
  {
    forall k: nat ensures LeadsOn(rs, ReadingParts(rs), k) {
      ReadingsLeadOn(rs, k);
    }
    var states := ReadAll(rs, ReadingParts(rs), |rs|);
    RunParts(states, ReadingParts(rs), |rs|, |rs|);
    e := states[|rs|];
  }
}
