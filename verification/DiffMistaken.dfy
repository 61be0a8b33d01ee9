/** Printed diffs whose body lines may be mistaken for path lines (internal/intent/diff.go): what
    the parser records then, and exactly when the round trip holds. */
module DiffMistaken {
  import opened Wrappers
  import opened Lines
  import opened Diff
  import opened DiffPrint
  import opened DiffRoundTrip

  // ---------- Growth along a run ----------

  function Sum(s: seq<nat>, n: nat): nat
    requires n <= |s|
  {
    if n == 0 then 0 else Sum(s, n - 1) + s[n - 1]
  }

  // What a state weighs, and which states count as ready for the next part.
  datatype Gauge = Gauge(weight: State -> int, ready: State -> bool)

  // From x the machine gets to a ready state that weighs at most `extra` more.
  predicate Ends(g: Gauge, x: State, r: Option<State>, extra: int) {
    r.Some? && g.ready(r.value) && g.weight(r.value) <= g.weight(x) + extra
  }

  predicate TokenGrows(g: Gauge, tokens: seq<Token>, budget: seq<nat>, i: nat, x: State)
    requires i < |tokens| == |budget|
  {
    g.ready(x) ==> Ends(g, x, Step(x, tokens[i]), budget[i])
  }

  predicate PartGrows(g: Gauge, parts: seq<seq<Token>>, budget: seq<nat>, i: nat, x: State)
    requires i < |parts| == |budget|
  {
    g.ready(x) ==> Ends(g, x, RunAll(x, parts[i]), budget[i])
  }

  lemma {:induction false} TokensGrow(g: Gauge, s: State, tokens: seq<Token>, budget: seq<nat>, n: nat)
    requires n <= |tokens| == |budget| && g.ready(s)
    requires forall i: nat, x :: i < |tokens| ==> TokenGrows(g, tokens, budget, i, x)
    ensures Ends(g, s, Run(s, tokens, n), Sum(budget, n))
  {
    if n > 0 {
      TokensGrow(g, s, tokens, budget, n - 1);
      assert TokenGrows(g, tokens, budget, n - 1, Run(s, tokens, n - 1).value);
    }
  }

  lemma {:induction false} PartsGrow(g: Gauge, s: State, parts: seq<seq<Token>>, budget: seq<nat>, n: nat)
    requires n <= |parts| == |budget| && g.ready(s)
    requires forall i: nat, x :: i < |parts| ==> PartGrows(g, parts, budget, i, x)
    ensures Ends(g, s, RunAll(s, Flatten(parts, n)), Sum(budget, n))
  {
    if n > 0 {
      PartsGrow(g, s, parts, budget, n - 1);
      var before := RunAll(s, Flatten(parts, n - 1)).value;
      assert PartGrows(g, parts, budget, n - 1, before);
      RunConcat(s, before, Flatten(parts, n - 1), parts[n - 1]);
    }
  }

  // ---------- How many body lines are on record ----------

  function HunksWeight(hs: seq<Hunk>): nat {
    if hs == [] then 0 else HunksWeight(hs[..|hs| - 1]) + |hs[|hs| - 1].lines|
  }

  function FilesWeight(files: seq<FileDiff>): nat {
    if files == [] then 0 else FilesWeight(files[..|files| - 1]) + HunksWeight(files[|files| - 1].hunks)
  }

  function Weight(s: State): int {
    FilesWeight(s.files) + (if s.cur.Some? then HunksWeight(s.cur.value.hunks) else 0)
    + (if s.hunk.Some? then |s.hunk.value.lines| else 0)
  }

  lemma {:induction false} HunksWeightAppend(hs: seq<Hunk>, h: Hunk)
    ensures HunksWeight(hs + [h]) == HunksWeight(hs) + |h.lines|
  {
    assert (hs + [h])[..|hs|] == hs;
  }

  lemma {:induction false} FilesWeightAppend(files: seq<FileDiff>, f: FileDiff)
    ensures FilesWeight(files + [f]) == FilesWeight(files) + HunksWeight(f.hunks)
  {
    assert (files + [f])[..|files|] == files;
  }

  // Closing a hunk or a file loses no line.
  lemma FlushKeepsWeight(s: State)
    ensures Weight(HunkFlushed(s)) == Weight(s) && Weight(FileFlushed(s)) == Weight(s)
  {
    if s.cur.Some? && s.hunk.Some? {
      HunksWeightAppend(s.cur.value.hunks, s.hunk.value);
    }
    var t := HunkFlushed(s);
    if t.cur.Some? {
      FilesWeightAppend(t.files, t.cur.value);
    }
  }

  // ---------- What a mistaken line does ----------

  predicate HasFile(s: State) {
    s.cur.Some?
  }

  const INSIDE := Gauge(Weight, HasFile)
  const BETWEEN := Gauge(Weight, Held)

  // One for a line that is read as what it is, none for a mistaken one.
  function LineBudget(lines: seq<DiffLine>): (b: seq<nat>)
    ensures |b| == |lines|
    ensures forall i :: 0 <= i < |lines| ==> b[i] == if Unmistakable(lines[i].kind, lines[i].text) then 1 else 0
  {
    seq(|lines|, i requires 0 <= i < |lines| => if Unmistakable(lines[i].kind, lines[i].text) then 1 else 0)
  }

  function ClearLines(h: Hunk): nat {
    Sum(LineBudget(h.lines), |h.lines|)
  }

  // One printed line adds at most itself, and nothing when it is mistaken.
  lemma LineGrows(x: State, l: DiffLine)
    requires HasFile(x)
    ensures Ends(INSIDE, x, Step(x, TokenOf(PrintLine(l))), if Unmistakable(l.kind, l.text) then 1 else 0)
  {
    BodyLineReadsBackExactly(l);
  }

  lemma BodyGrows(s: State, lines: seq<DiffLine>)
    requires HasFile(s)
    ensures Ends(INSIDE, s, RunAll(s, Tokens(PrintBody(lines))), Sum(LineBudget(lines), |lines|))
  {
    var tokens, budget := Tokens(PrintBody(lines)), LineBudget(lines);
    forall i: nat, x | i < |tokens| ensures TokenGrows(INSIDE, tokens, budget, i, x) {
      if HasFile(x) { LineGrows(x, lines[i]); }
    }
    TokensGrow(INSIDE, s, tokens, budget, |lines|);
  }

  lemma HunkBegins(s: State, h: Hunk) returns (t: State)
    requires HasFile(s)
    ensures Step(s, HunkAt(Some(Bare(h)))) == Some(t) && HasFile(t) && Weight(t) == Weight(s)
  {
    FlushKeepsWeight(s);
    t := HunkFlushed(s).(hunk := Some(Bare(h)), oldLine := h.oldStart, newLine := h.newStart);
  }

  lemma HunkGrows(s: State, h: Hunk)
    requires HasFile(s) && Ranged(h)
    ensures Ends(INSIDE, s, RunAll(s, Tokens(PrintHunk(h))), ClearLines(h))
  {
    var begun := HunkBegins(s, h);
    HunkHeaderReadsBack(h);
    TokensConcat([PrintHunkHeader(h)], PrintBody(h.lines));
    TokenOfOne(PrintHunkHeader(h));
    BodyGrows(begun, h.lines);
    RunOneThen(s, begun, HunkAt(Some(Bare(h))), Tokens(PrintBody(h.lines)));
  }

  // ---------- Hunk by hunk, file by file ----------

  function TokenParts(parts: seq<seq<string>>): (r: seq<seq<Token>>)
    ensures |r| == |parts| && forall i :: 0 <= i < |parts| ==> r[i] == Tokens(parts[i])
  {
    seq(|parts|, i requires 0 <= i < |parts| => Tokens(parts[i]))
  }

  function HunkBudget(hs: seq<Hunk>): (b: seq<nat>)
    ensures |b| == |hs| && forall i :: 0 <= i < |hs| ==> b[i] == ClearLines(hs[i])
  {
    seq(|hs|, i requires 0 <= i < |hs| => ClearLines(hs[i]))
  }

  function ClearHunks(f: FileDiff): nat {
    Sum(HunkBudget(f.hunks), |f.hunks|)
  }

  lemma HunksGrow(s: State, f: FileDiff)
    requires HasFile(s) && AllRanged(f.hunks)
    ensures Ends(INSIDE, s, RunAll(s, Tokens(PrintHunks(f.hunks))), ClearHunks(f))
  {
    var lines := HunkParts(f.hunks);
    var parts, budget := TokenParts(lines), HunkBudget(f.hunks);
    forall i: nat, x | i < |parts| ensures PartGrows(INSIDE, parts, budget, i, x) {
      if HasFile(x) { HunkGrows(x, f.hunks[i]); }
    }
    PartsGrow(INSIDE, s, parts, budget, |f.hunks|);
    PartsReadBack(lines, parts, |f.hunks|);
  }

  lemma HeaderGrows(s: State, p: Patch) returns (t: State)
    requires Held(s) && NotesPrintable(p.notes)
    ensures RunAll(s, Tokens(HeaderLines(p))) == Some(t) && HasFile(t) && Weight(t) == Weight(s)
  {
    NotesAreQuiet(p.notes);
    HeaderReadsAs(p);
    RunHeading(s, HeadingOf(p));
    FlushKeepsWeight(s);
    t := FileFlushed(s).(cur := Some(Headed(HeadingOf(p))));
  }

  lemma FileGrows(s: State, p: Patch)
    requires Held(s) && NotesPrintable(p.notes) && AllRanged(p.file.hunks)
    ensures Ends(BETWEEN, s, RunAll(s, Tokens(PrintFile(p))), ClearHunks(p.file))
  {
    var begun := HeaderGrows(s, p);
    HunksGrow(begun, p.file);
    TokensConcat(HeaderLines(p), PrintHunks(p.file.hunks));
    RunConcat(s, begun, Tokens(HeaderLines(p)), Tokens(PrintHunks(p.file.hunks)));
  }

  function FileBudget(ps: seq<Patch>): (b: seq<nat>)
    ensures |b| == |ps| && forall i :: 0 <= i < |ps| ==> b[i] == ClearHunks(ps[i].file)
  {
    seq(|ps|, i requires 0 <= i < |ps| => ClearHunks(ps[i].file))
  }

  function ClearFiles(ps: seq<Patch>): nat {
    Sum(FileBudget(ps), |ps|)
  }

  lemma FilesGrow(ps: seq<Patch>)
    requires AllNotesPrintable(ps) && PatchesRanged(ps)
    ensures Ends(BETWEEN, START, RunAll(START, Tokens(PrintFiles(ps))), ClearFiles(ps))
  {
    var lines := FileParts(ps);
    var parts, budget := TokenParts(lines), FileBudget(ps);
    forall i: nat, x | i < |parts| ensures PartGrows(BETWEEN, parts, budget, i, x) {
      if Held(x) { FileGrows(x, ps[i]); }
    }
    PartsGrow(BETWEEN, START, parts, budget, |ps|);
    PartsReadBack(lines, parts, |ps|);
  }

  // However the lines are mistaken, the parse succeeds and records no more than the clear ones.
  lemma ParseRecordsClearLines(ps: seq<Patch>)
    requires AllNotesPrintable(ps) && PatchesRanged(ps)
    ensures Parse(PrintFiles(ps)).Some? && FilesWeight(Parse(PrintFiles(ps)).value) <= ClearFiles(ps)
  {
    FilesGrow(ps);
    FlushKeepsWeight(RunAll(START, Tokens(PrintFiles(ps))).value);
  }

  // ---------- Exactly when the round trip holds ----------

  // Sums of bounded terms reach their bound only when every term does.
  lemma {:induction false} SumFull(s: seq<nat>, bound: seq<nat>, n: nat)
    requires n <= |s| == |bound| && forall i :: 0 <= i < |s| ==> s[i] <= bound[i]
    ensures Sum(s, n) <= Sum(bound, n)
    ensures Sum(s, n) == Sum(bound, n) ==> forall i :: 0 <= i < n ==> s[i] == bound[i]
  {
    if n > 0 {
      SumFull(s, bound, n - 1);
    }
  }

  function Ones(n: nat): (s: seq<nat>)
    ensures |s| == n && forall i :: 0 <= i < n ==> s[i] == 1
  {
    seq(n, _ => 1)
  }

  lemma {:induction false} SumOfOnes(n: nat, k: nat)
    requires k <= n
    ensures Sum(Ones(n), k) == k
  {
    if k > 0 {
      SumOfOnes(n, k - 1);
    }
  }

  function LineCounts(hs: seq<Hunk>): (s: seq<nat>)
    ensures |s| == |hs| && forall i :: 0 <= i < |hs| ==> s[i] == |hs[i].lines|
  {
    seq(|hs|, i requires 0 <= i < |hs| => |hs[i].lines|)
  }

  lemma {:induction false} SumOfLineCounts(hs: seq<Hunk>, n: nat)
    requires n <= |hs|
    ensures Sum(LineCounts(hs), n) == HunksWeight(hs[..n])
  {
    if n > 0 {
      SumOfLineCounts(hs, n - 1);
      assert hs[..n] == hs[..n - 1] + [hs[n - 1]];
      HunksWeightAppend(hs[..n - 1], hs[n - 1]);
    }
  }

  function FileCounts(files: seq<FileDiff>): (s: seq<nat>)
    ensures |s| == |files| && forall i :: 0 <= i < |files| ==> s[i] == HunksWeight(files[i].hunks)
  {
    seq(|files|, i requires 0 <= i < |files| => HunksWeight(files[i].hunks))
  }

  lemma {:induction false} SumOfFileCounts(files: seq<FileDiff>, n: nat)
    requires n <= |files|
    ensures Sum(FileCounts(files), n) == FilesWeight(files[..n])
  {
    if n > 0 {
      SumOfFileCounts(files, n - 1);
      assert files[..n] == files[..n - 1] + [files[n - 1]];
      FilesWeightAppend(files[..n - 1], files[n - 1]);
    }
  }

  lemma ClearHunkIsFull(h: Hunk)
    ensures ClearLines(h) <= |h.lines|
    ensures ClearLines(h) == |h.lines| ==> HunkClear(h)
  {
    SumFull(LineBudget(h.lines), Ones(|h.lines|), |h.lines|);
    SumOfOnes(|h.lines|, |h.lines|);
  }

  lemma ClearFileIsFull(f: FileDiff)
    ensures ClearHunks(f) <= HunksWeight(f.hunks)
    ensures ClearHunks(f) == HunksWeight(f.hunks) ==> FileClear(f)
  {
    forall i | 0 <= i < |f.hunks|
      ensures ClearLines(f.hunks[i]) <= |f.hunks[i].lines|
      ensures ClearLines(f.hunks[i]) == |f.hunks[i].lines| ==> HunkClear(f.hunks[i])
    {
      ClearHunkIsFull(f.hunks[i]);
    }
    SumFull(HunkBudget(f.hunks), LineCounts(f.hunks), |f.hunks|);
    SumOfLineCounts(f.hunks, |f.hunks|);
    assert f.hunks[..|f.hunks|] == f.hunks;
  }

  lemma ClearFilesAreFull(ps: seq<Patch>)
    ensures ClearFiles(ps) == FilesWeight(FilesOf(ps)) ==> AllClear(ps)
    ensures ClearFiles(ps) <= FilesWeight(FilesOf(ps))
  {
    var files := FilesOf(ps);
    forall i | 0 <= i < |ps|
      ensures ClearHunks(ps[i].file) <= HunksWeight(files[i].hunks)
      ensures ClearHunks(ps[i].file) == HunksWeight(files[i].hunks) ==> FileClear(ps[i].file)
    {
      ClearFileIsFull(ps[i].file);
    }
    SumFull(FileBudget(ps), FileCounts(files), |ps|);
    SumOfFileCounts(files, |files|);
    assert files[..|files|] == files;
  }

  predicate AllNamed(ps: seq<Patch>) {
    forall i :: 0 <= i < |ps| ==> NamesKept(ps[i].file)
  }

  lemma AllNamedExactly(ps: seq<Patch>)
    ensures AllAsRead(ps) == FilesOf(ps) <==> AllNamed(ps)
  {
    forall i | 0 <= i < |ps| ensures AllAsRead(ps)[i] == FilesOf(ps)[i] <==> NamesKept(ps[i].file) {
      NamesKeptExactly(ps[i].file);
    }
    if AllAsRead(ps) == FilesOf(ps) {
      forall i | 0 <= i < |ps| ensures NamesKept(ps[i].file) {
        assert AllAsRead(ps)[i] == FilesOf(ps)[i];
      }
    }
  }

  // Of the files a parse can give at all, only clear and numbered ones come back.
  lemma ParsedBackIsSound(ps: seq<Patch>)
    requires PatchesRanged(ps) && AllScannable(PrintFiles(ps)) && AllNotesPrintable(ps)
    requires ParsesTo(Unlines(PrintFiles(ps)), Some(FilesOf(ps)))
    ensures AllClear(ps) && AllNumbered(ps)
  {
    LinesParse(PrintFiles(ps), Some(FilesOf(ps)));
    EveryHunkIsNumbered(Unlines(PrintFiles(ps)), Some(FilesOf(ps)));
    ParseRecordsClearLines(ps);
    ClearFilesAreFull(ps);
  }

  // Printed file diffs parse back to themselves if and only if no body line can be mistaken for a
  // path line, every hunk is numbered as parsed ones are, and the header and path lines give each
  // file's names and status.
  lemma RoundTripExactly(ps: seq<Patch>)
    requires PatchesRanged(ps) && AllScannable(PrintFiles(ps)) && AllNotesPrintable(ps)
    ensures ParsesTo(Unlines(PrintFiles(ps)), Some(FilesOf(ps))) <==> AllClear(ps) && AllNumbered(ps) && AllNamed(ps)
  {
    AllNamedExactly(ps);
    if ParsesTo(Unlines(PrintFiles(ps)), Some(FilesOf(ps))) {
      ParsedBackIsSound(ps);
    }
    if AllClear(ps) && AllNumbered(ps) {
      RoundTrip(ps, Some(FilesOf(ps)));
    }
  }

  // ---------- What a printed diff asks for ----------

  // Where the round trip holds, each file gives the one intent its status and names call for.
  lemma PrintedIntents(ps: seq<Patch>, r: Option<seq<FileDiff>>, i: nat)
    requires PatchesRanged(ps) && AllScannable(PrintFiles(ps)) && AllNotesPrintable(ps)
    requires AllClear(ps) && AllNumbered(ps) && AllNamed(ps)
    requires ParsesTo(Unlines(PrintFiles(ps)), r) && i < |ps|
    ensures r.Some? && |r.value| == |ps| && Intends(ps[i].file, IntentOf(r.value[i]))
  {
    RoundTrip(ps, r);
    AllNamedExactly(ps);
  }

  // A printed rename with kept names is read as the one move from its old name to its new one.
  lemma PrintedRenameMoves(p: Patch, r: Option<seq<FileDiff>>)
    requires PatchesRanged([p]) && AllScannable(PrintFiles([p])) && AllNotesPrintable([p])
    requires FileClear(p.file) && AllNumbered([p]) && NamesKept(p.file) && p.file.status == Renamed
    requires ParsesTo(Unlines(PrintFiles([p])), r)
    ensures r.Some? && |r.value| == 1
    ensures IntentOf(r.value[0]) == ChangeIntent(MoveFile, [p.file.oldPath], [p.file.newPath])
  {
    PrintedIntents([p], r, 0);
  }
}
