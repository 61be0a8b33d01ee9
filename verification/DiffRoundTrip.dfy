/** Parser and printer undo each other (internal/intent/diff.go). */
module DiffRoundTrip {
  import opened Wrappers
  import opened Text
  import opened Lines
  import opened Diff
  import opened DiffPrint

  // ---------- From printed lines to tokens ----------

  lemma BodyReadsBack(h: Hunk)
    requires HunkClear(h)
    ensures Tokens(PrintBody(h.lines)) == BodyTokens(h.lines)
  {
    forall k | 0 <= k < |h.lines| ensures Tokens(PrintBody(h.lines))[k] == BodyTokens(h.lines)[k] {
      BodyLineReadsBackExactly(h.lines[k]);
    }
  }

  lemma HunkReadsBack(h: Hunk)
    requires Ranged(h) && HunkClear(h)
    ensures Tokens(PrintHunk(h)) == HunkTokens(h)
  {
    HunkHeaderReadsBack(h);
    BodyReadsBack(h);
    TokensConcat([PrintHunkHeader(h)], PrintBody(h.lines));
    TokenOfOne(PrintHunkHeader(h));
  }

  lemma TokenOfOne(line: string)
    ensures Tokens([line]) == [TokenOf(line)]
  {
  }

  // Reading part by part is reading the whole.
  lemma {:induction false} PartsReadBack(lines: seq<seq<string>>, tokens: seq<seq<Token>>, n: nat)
    requires n <= |lines| == |tokens| && forall i :: 0 <= i < |lines| ==> Tokens(lines[i]) == tokens[i]
    ensures Tokens(Flatten(lines, n)) == Flatten(tokens, n)
  {
    if n > 0 {
      PartsReadBack(lines, tokens, n - 1);
      TokensConcat(Flatten(lines, n - 1), lines[n - 1]);
    }
  }

  lemma HunksReadBack(f: FileDiff)
    requires FileClear(f) && AllRanged(f.hunks)
    ensures Tokens(PrintHunks(f.hunks)) == HunksTokens(f.hunks, |f.hunks|)
  {
    var lines := HunkParts(f.hunks);
    var tokens := HunkTokenParts(f.hunks);
    forall i | 0 <= i < |f.hunks| ensures Tokens(lines[i]) == tokens[i] {
      HunkReadsBack(f.hunks[i]);
    }
    PartsReadBack(lines, tokens, |f.hunks|);
  }

  // ---------- What the header lines are read as ----------

  function HeadingOf(p: Patch): Heading {
    var f := p.file;
    var header := HeaderOf(f.oldPath, f.newPath);
    Heading(header.0, header.1, Tokens(p.notes),
            if f.status == Added then DEV_NULL else TrimRight(f.oldPath),
            if f.status == Deleted then DEV_NULL else TrimRight(f.newPath))
  }

  lemma OldLineReadsBack(p: Patch)
    ensures TokenOf(OldLine(p.file)) == OldSide(HeadingOf(p).oldSide)
  {
    ClassOfHeaders(if p.file.status == Added then DEV_NULL else "a/" + p.file.oldPath);
    DevNullReadsBack(OLD_PATH);
    PathReadsBack(OLD_PATH, "a/", p.file.oldPath);
  }

  lemma NewLineReadsBack(p: Patch)
    ensures TokenOf(NewLine(p.file)) == NewSide(HeadingOf(p).newSide)
  {
    ClassOfHeaders(if p.file.status == Deleted then DEV_NULL else "b/" + p.file.newPath);
    DevNullReadsBack(NEW_PATH);
    PathReadsBack(NEW_PATH, "b/", p.file.newPath);
  }

  lemma GitLineReadsBack(p: Patch)
    ensures TokenOf(GitLine(p.file)) == GitPaths(HeadingOf(p).former, HeadingOf(p).latter)
  {
    ClassOfHeaders("a/" + p.file.oldPath + " b/" + p.file.newPath);
  }

  lemma FourTokens(git: string, notes: seq<string>, older: string, newer: string)
    ensures Tokens([git] + (notes + ([older] + [newer]))) ==
      [TokenOf(git)] + (Tokens(notes) + [TokenOf(older), TokenOf(newer)])
  {
    TokensConcat([older], [newer]);
    TokensConcat(notes, [older] + [newer]);
    TokensConcat([git], notes + ([older] + [newer]));
  }

  lemma HeaderReadsAs(p: Patch)
    ensures Tokens(HeaderLines(p)) == HeadingTokens(HeadingOf(p))
  {
    GitLineReadsBack(p);
    OldLineReadsBack(p);
    NewLineReadsBack(p);
    FourTokens(GitLine(p.file), p.notes, OldLine(p.file), NewLine(p.file));
  }

  lemma NotesAreQuiet(notes: seq<string>)
    requires NotesPrintable(notes)
    ensures Quiet(Tokens(notes))
  {
    forall i | 0 <= i < |notes| ensures Tokens(notes)[i].Says? || Tokens(notes)[i].SaysNothing? {
      assert Tokens(notes)[i] == BodyToken(notes[i]);
    }
  }

  function ReadingOf(p: Patch): Reading {
    Reading(HeadingOf(p), p.file.hunks)
  }

  lemma FileReadsBack(p: Patch)
    requires FileClear(p.file) && AllRanged(p.file.hunks)
    ensures Tokens(PrintFile(p)) == ReadingTokens(ReadingOf(p))
  {
    TokensConcat(HeaderLines(p), PrintHunks(p.file.hunks));
    HeaderReadsAs(p);
    HunksReadBack(p.file);
  }

  // The file a printed one is read as: its hunks under the names and the status that the header
  // and the path lines give.
  function AsRead(f: FileDiff): FileDiff {
    FileRead(ReadingOf(Patch(f, [])))
  }

  lemma AsReadWithNotes(p: Patch)
    ensures FileRead(ReadingOf(p)) == AsRead(p.file)
  {
  }

  function AllAsRead(ps: seq<Patch>): (files: seq<FileDiff>)
    ensures |files| == |ps| && forall i :: 0 <= i < |ps| ==> files[i] == AsRead(ps[i].file)
  {
    seq(|ps|, i requires 0 <= i < |ps| => AsRead(ps[i].file))
  }

  // A path line gives the path back: it ends in no space and is not the null device.
  predicate ReadsPlain(path: string) {
    TrimRight(path) == path && path != DEV_NULL
  }

  // What it takes for the header and the path lines to give a file's names and status.
  predicate NamesKept(f: FileDiff) {
    match f.status
    case Modified =>
      ReadsPlain(f.oldPath) && ReadsPlain(f.newPath) && (f.oldPath == "" || f.newPath == "" || f.oldPath == f.newPath)
    case Renamed =>
      ReadsPlain(f.oldPath) && ReadsPlain(f.newPath) && f.oldPath != "" && f.newPath != "" && f.oldPath != f.newPath
    case Added => NoMark(f.oldPath) && ReadsPlain(f.newPath)
    case Deleted => NoMark(f.oldPath) && (TrimRight(f.oldPath) == f.oldPath || TrimRight(f.oldPath) == DEV_NULL)
  }

  // The same, once the header is known to give both names or neither.
  lemma {:induction false} HeadedExactly(f: FileDiff, former: string, latter: string, o: string, n: string, named: bool)
    requires (former == f.oldPath <==> named) && (latter == f.newPath <==> named)
    ensures Headed(Heading(former, latter, [], if f.status == Added then DEV_NULL else o,
                           if f.status == Deleted then DEV_NULL else n)) == f.(hunks := []) <==>
      match f.status
      case Modified =>
        o == f.oldPath && n == f.newPath && o != DEV_NULL && n != DEV_NULL && (o == "" || n == "" || o == n)
      case Renamed =>
        o == f.oldPath && n == f.newPath && o != DEV_NULL && n != DEV_NULL && o != "" && n != "" && o != n
      case Added => named && n == f.newPath && n != DEV_NULL
      case Deleted => named && (o == f.oldPath || o == DEV_NULL)
  {
  }

  lemma SameButForHunks(f: FileDiff, g: FileDiff)
    requires f.hunks == g.hunks
    ensures f == g <==> f.(hunks := []) == g.(hunks := [])
  {
  }

  lemma {:induction false} AsReadIsHeaded(f: FileDiff, header: (string, string))
    requires header == HeaderOf(f.oldPath, f.newPath)
    ensures AsRead(f).(hunks := []) ==
      Headed(Heading(header.0, header.1, [], if f.status == Added then DEV_NULL else TrimRight(f.oldPath),
                     if f.status == Deleted then DEV_NULL else TrimRight(f.newPath)))
  {
  }

  lemma {:induction false} HeadingKeptExactly(f: FileDiff)
    ensures AsRead(f).(hunks := []) == f.(hunks := []) <==> NamesKept(f)
  {
    var header := HeaderOf(f.oldPath, f.newPath);
    AsReadIsHeaded(f, header);
    HeaderReadsBack(f.oldPath, f.newPath);
    HeadedExactly(f, header.0, header.1, TrimRight(f.oldPath), TrimRight(f.newPath), NoMark(f.oldPath));
  }

  lemma {:induction false} NamesKeptExactly(f: FileDiff)
    ensures AsRead(f) == f <==> NamesKept(f)
  {
    HeadingKeptExactly(f);
    SameButForHunks(AsRead(f), f);
  }

  lemma CutAtFirstMark(x: string, y: string, latter: string)
    requires NoMark(x)
    ensures HeaderOf(x + " b/" + y, latter) == (x, y + " b/" + latter)
  {
    var rest := y + " b/" + latter;
    assert "a/" + (x + " b/" + y) + " b/" + latter == "a/" + x + " b/" + rest;
    UnmarkedHeader(x, rest);
  }

  // One way to fail: an added file whose old path holds " b/" is read under what comes before it.
  lemma MarkedNameIsMisread(f: FileDiff, x: string, y: string)
    requires f.status == Added && f.oldPath == x + " b/" + y && NoMark(x) && ReadsPlain(f.newPath)
    ensures AsRead(f) == f.(oldPath := x) && AsRead(f) != f
  {
    CutAtFirstMark(x, y, f.newPath);
    assert |x + " b/" + y| > |x|;
  }

  function ReadingsOf(ps: seq<Patch>): (rs: seq<Reading>)
    ensures |rs| == |ps| && forall i :: 0 <= i < |ps| ==> rs[i] == ReadingOf(ps[i])
  {
    seq(|ps|, i requires 0 <= i < |ps| => ReadingOf(ps[i]))
  }

  lemma {:induction false} FilesReadAre(rs: seq<Reading>, files: seq<FileDiff>, n: nat)
    requires n <= |rs| == |files| && forall i :: 0 <= i < |rs| ==> FileRead(rs[i]) == files[i]
    ensures FilesRead(rs, n) == files[..n]
  {
    if n > 0 {
      FilesReadAre(rs, files, n - 1);
      assert files[..n] == files[..n - 1] + [files[n - 1]];
    }
  }

  lemma FilesReadBack(ps: seq<Patch>)
    requires AllClear(ps) && PatchesRanged(ps)
    ensures Tokens(PrintFiles(ps)) == Flatten(ReadingParts(ReadingsOf(ps)), |ps|)
  {
    var lines := FileParts(ps);
    var tokens := ReadingParts(ReadingsOf(ps));
    forall i | 0 <= i < |ps| ensures Tokens(lines[i]) == tokens[i] {
      FileReadsBack(ps[i]);
    }
    PartsReadBack(lines, tokens, |ps|);
  }

  // Every parsed file satisfies this (Diff.EveryHunkIsNumbered).
  ghost predicate AllNumbered(ps: seq<Patch>) {
    FilesOk(FilesOf(ps))
  }

  lemma ReadingsFit(ps: seq<Patch>)
    requires AllNumbered(ps) && PatchesRanged(ps) && AllNotesPrintable(ps)
    ensures AllFit(ReadingsOf(ps))
  {
    forall i | 0 <= i < |ps| ensures ReadingFits(ReadingsOf(ps)[i]) {
      NotesAreQuiet(ps[i].notes);
      assert HunksOk(FilesOf(ps)[i]);
    }
  }

  lemma PrintedFilesParse(ps: seq<Patch>)
    requires AllClear(ps) && AllNumbered(ps) && PatchesRanged(ps) && AllNotesPrintable(ps)
    ensures Parse(PrintFiles(ps)) == Some(AllAsRead(ps))
  {
    FilesReadBack(ps);
    ReadingsFit(ps);
    var e := RunReadings(ReadingsOf(ps));
    var files := AllAsRead(ps);
    forall i | 0 <= i < |ps| ensures FileRead(ReadingsOf(ps)[i]) == files[i] {
      AsReadWithNotes(ps[i]);
    }
    FilesReadAre(ReadingsOf(ps), files, |ps|);
    assert files[..|ps|] == files;
  }

  // ---------- The scanner ----------

  predicate AllScannable(lines: seq<string>) {
    forall i :: 0 <= i < |lines| ==> Scannable(lines[i])
  }

  // Scanning printed lines gives them back exactly when each of them survives the scanner.
  lemma ScanReadsBackExactly(lines: seq<string>, raw: seq<string>)
    requires IsSplit(Unlines(lines), raw)
    ensures DropCRs(raw) == lines <==> AllScannable(lines)
  {
    if AllScannable(lines) {
      assert forall i :: 0 <= i < |lines| ==> Scannable(lines[i]);
      assert IsSplit(Unlines(lines), lines);
      SplitUnique(Unlines(lines), lines, raw);
    }
    if DropCRs(raw) == lines {
      forall i | 0 <= i < |lines| ensures OneLine(lines[i]) {
        assert lines[i] == DropCR(raw[i]) && OneLine(raw[i]);
      }
      assert IsSplit(Unlines(lines), lines);
      SplitUnique(Unlines(lines), lines, raw);
    }
  }

  // Printed diffs with no mistakable line parse to exactly the files printed, under the names and
  // the status that their header and path lines give.
  lemma RoundTrip(ps: seq<Patch>, r: Option<seq<FileDiff>>)
    requires PatchesRanged(ps) && AllScannable(PrintFiles(ps)) && AllNotesPrintable(ps)
    requires AllClear(ps) && AllNumbered(ps)
    ensures ParsesTo(Unlines(PrintFiles(ps)), r) <==> r == Some(AllAsRead(ps))
  {
    LinesParse(PrintFiles(ps), r);
    PrintedFilesParse(ps);
  }

  lemma LinesParse(lines: seq<string>, r: Option<seq<FileDiff>>)
    requires AllScannable(lines)
    ensures ParsesTo(Unlines(lines), r) <==> r == Parse(lines)
  {
    assert forall i :: 0 <= i < |lines| ==> Scannable(lines[i]);
    assert IsSplit(Unlines(lines), lines);
    ScanReadsBackExactly(lines, lines);
    ParseUnique(Unlines(lines), lines, r);
  }
}
