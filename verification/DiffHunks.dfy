/** What settles a parsed file's hunks, and when a diff does not parse (internal/intent/diff.go), for
    every input. */
module DiffHunks {
  import opened Wrappers
  import opened Lines
  import opened Picking
  import opened Diff
  import opened DiffStatus

  // ---------- When a diff parses ----------

  // A hunk header that is malformed, or that no file comes before.
  predicate Fails(tokens: seq<Token>, h: int) {
    && 0 <= h < |tokens| && tokens[h].HunkAt?
    && (tokens[h].header.None? || forall i :: 0 <= i < h ==> !NamesFile(tokens[i]))
  }

  predicate NamesFile(token: Token) {
    token.GitPaths? || token.OldSide? || token.NewSide?
  }

  ghost predicate FailsBefore(tokens: seq<Token>, n: int) {
    exists h :: h < n && Fails(tokens, h)
  }

  ghost predicate FileBefore(tokens: seq<Token>, n: int) {
    exists i :: 0 <= i < n && i < |tokens| && NamesFile(tokens[i])
  }

  lemma BeforeGrows(tokens: seq<Token>, n: nat)
    requires n < |tokens|
    ensures FailsBefore(tokens, n + 1) <==> FailsBefore(tokens, n) || Fails(tokens, n)
    ensures FileBefore(tokens, n + 1) <==> FileBefore(tokens, n) || NamesFile(tokens[n])
    ensures Fails(tokens, n) <==> tokens[n].HunkAt? && (tokens[n].header.None? || !FileBefore(tokens, n))
  {
  }

  lemma {:induction false} RunFailsExactly(tokens: seq<Token>, n: nat)
    requires n <= |tokens|
    ensures Run(START, tokens, n).None? <==> FailsBefore(tokens, n)
    ensures Run(START, tokens, n).Some? ==>
      (Run(START, tokens, n).value.cur.Some? <==> FileBefore(tokens, n))
      && (Run(START, tokens, n).value.hunk.Some? ==> FileBefore(tokens, n))
  {
    if n > 0 {
      RunFailsExactly(tokens, n - 1);
      BeforeGrows(tokens, n - 1);
    }
  }

  // A diff fails to parse if and only if some hunk header is malformed or comes before every file.
  lemma ParseFailsExactly(text: string, raw: seq<string>, r: Option<seq<FileDiff>>)
    requires IsSplit(text, raw) && ParsesTo(text, r)
    ensures r.None? <==> exists h :: Fails(Tokens(DropCRs(raw)), h)
  {
    var tokens := Tokens(DropCRs(raw));
    ParseUnique(text, raw, r);
    RunFailsExactly(tokens, |tokens|);
  }

  // ---------- What a hunk holds ----------

  // A hunk goes on to the next hunk header or "diff --git" line: path lines and notes do not end it.
  predicate Ends(token: Token) {
    token.GitPaths? || token.HunkAt?
  }

  function HunkEnd(tokens: seq<Token>, h: nat, n: nat): (e: nat)
    requires h < n <= |tokens|
    ensures h < e <= n
    ensures forall i :: h < i < e ==> !Ends(tokens[i])
    ensures e < n ==> Ends(tokens[e])
  {
    if n == h + 1 then n
    else
      var e := HunkEnd(tokens, h, n - 1);
      if e < n - 1 || Ends(tokens[n - 1]) then e else n
  }

  // How many hunk headers stand from a to n.
  function HunksIn(tokens: seq<Token>, a: nat, n: nat): nat
    requires a <= n <= |tokens|
  {
    if n == a then 0 else HunksIn(tokens, a, n - 1) + (if tokens[n - 1].HunkAt? then 1 else 0)
  }

  predicate SaysAt(tokens: seq<Token>, h: nat, n: nat, i: int)
    requires h < n <= |tokens|
  {
    h < i < n && tokens[i].Says?
  }

  // The kinds and texts of exactly the body lines between h and n, in order.
  ghost predicate Reads(tokens: seq<Token>, h: nat, n: nat, pos: seq<int>, lines: seq<DiffLine>)
    requires h < n <= |tokens|
  {
    && |pos| == |lines| && Ascending(pos)
    && (forall m :: 0 <= m < |pos| ==>
          SaysAt(tokens, h, n, pos[m]) && lines[m].kind == tokens[pos[m]].kind && lines[m].text == tokens[pos[m]].text)
    && (forall i :: SaysAt(tokens, h, n, i) ==> i in pos)
  }

  ghost predicate HoldsLines(tokens: seq<Token>, h: nat, n: nat, lines: seq<DiffLine>)
    requires h < n <= |tokens|
  {
    exists pos :: Reads(tokens, h, n, pos, lines)
  }

  // The ranges of its header, and the body lines up to n.
  ghost predicate HunkReads(tokens: seq<Token>, h: nat, n: nat, hunk: Hunk)
    requires h < n <= |tokens|
  {
    && tokens[h].HunkAt? && tokens[h].header.Some?
    && hunk.oldStart == tokens[h].header.value.oldStart && hunk.oldLines == tokens[h].header.value.oldLines
    && hunk.newStart == tokens[h].header.value.newStart && hunk.newLines == tokens[h].header.value.newLines
    && HoldsLines(tokens, h, n, hunk.lines)
  }

  lemma NoLines(tokens: seq<Token>, h: nat)
    requires h < |tokens|
    ensures HoldsLines(tokens, h, h + 1, [])
  {
    assert Reads(tokens, h, h + 1, [], []);
  }

  lemma {:induction false} LineOneMore(tokens: seq<Token>, h: nat, n: nat, lines: seq<DiffLine>, x: DiffLine)
    requires h < n < |tokens| && HoldsLines(tokens, h, n, lines)
    requires tokens[n].Says? && x.kind == tokens[n].kind && x.text == tokens[n].text
    ensures HoldsLines(tokens, h, n + 1, lines + [x])
  {
    var pos :| Reads(tokens, h, n, pos, lines);
    ReadsOneMore(tokens, h, n, pos, lines, x);
  }

  lemma {:induction false} ReadsOneMore(
    tokens: seq<Token>, h: nat, n: nat, pos: seq<int>, lines: seq<DiffLine>, x: DiffLine)
    requires h < n < |tokens| && Reads(tokens, h, n, pos, lines)
    requires tokens[n].Says? && x.kind == tokens[n].kind && x.text == tokens[n].text
    ensures Reads(tokens, h, n + 1, pos + [n], lines + [x])
  {
    forall i | SaysAt(tokens, h, n + 1, i) ensures i in pos + [n] {
      NotLeftOut(tokens, h, n, pos, i);
    }
    forall m | 0 <= m < |pos| ensures SaysAt(tokens, h, n, pos[m]) && pos[m] < n {
    }
  }

  lemma NotLeftOut(tokens: seq<Token>, h: nat, n: nat, pos: seq<int>, i: int)
    requires h < n < |tokens| && SaysAt(tokens, h, n + 1, i)
    requires SaysAt(tokens, h, n, i) ==> i in pos
    ensures i in pos + [n]
  {
    assert (pos + [n])[|pos|] == n;
  }

  lemma LinesStay(tokens: seq<Token>, h: nat, n: nat, lines: seq<DiffLine>)
    requires h < n < |tokens| && HoldsLines(tokens, h, n, lines) && !tokens[n].Says?
    ensures HoldsLines(tokens, h, n + 1, lines)
  {
    var pos :| Reads(tokens, h, n, pos, lines);
    forall i ensures SaysAt(tokens, h, n + 1, i) <==> SaysAt(tokens, h, n, i) {
    }
    assert Reads(tokens, h, n + 1, pos, lines);
  }

  // ---------- From the header to the end ----------

  // File k, closed or open.
  function FileAt(s: State, k: nat): Option<FileDiff> {
    if k < |s.files| then Some(s.files[k]) else if k == |s.files| then s.cur else None
  }

  predicate HunkKept(s: State, k: nat, q: nat, hunk: Hunk) {
    FileAt(s, k).Some? && q < |FileAt(s, k).value.hunks| && FileAt(s, k).value.hunks[q] == hunk
  }

  lemma HunkStays(s: State, token: Token, t: State, k: nat, q: nat, hunk: Hunk)
    requires HunkKept(s, k, q, hunk) && Step(s, token) == Some(t)
    ensures HunkKept(t, k, q, hunk)
  {
  }

  // Hunk q of file k is open and holds the lines so far.
  ghost predicate HunkOpen(tokens: seq<Token>, h: nat, n: nat, s: State, k: nat, q: nat)
    requires h < n <= |tokens|
  {
    && |s.files| == k && s.cur.Some? && |s.cur.value.hunks| == q && s.hunk.Some?
    && HunkReads(tokens, h, n, s.hunk.value)
  }

  ghost predicate HunkClosed(tokens: seq<Token>, h: nat, e: nat, s: State, k: nat, q: nat)
    requires h < e <= |tokens|
  {
    FileAt(s, k).Some? && q < |FileAt(s, k).value.hunks| && HunkReads(tokens, h, e, FileAt(s, k).value.hunks[q])
  }

  ghost predicate HunkTracks(tokens: seq<Token>, h: nat, n: nat, s: State, k: nat, q: nat)
    requires h < n <= |tokens|
  {
    var e := HunkEnd(tokens, h, n);
    if e < n then HunkClosed(tokens, h, e, s, k, q) else HunkOpen(tokens, h, n, s, k, q)
  }

  lemma OpenGoesOn(tokens: seq<Token>, h: nat, n: nat, s: State, t: State, k: nat, q: nat)
    requires h < n < |tokens| && HunkOpen(tokens, h, n, s, k, q)
    requires !Ends(tokens[n]) && Step(s, tokens[n]) == Some(t)
    ensures HunkOpen(tokens, h, n + 1, t, k, q)
  {
    var hunk := s.hunk.value;
    if tokens[n].Says? {
      LineOneMore(tokens, h, n, hunk.lines, t.hunk.value.lines[|hunk.lines|]);
      assert t.hunk.value.lines == hunk.lines + [t.hunk.value.lines[|hunk.lines|]];
    } else {
      LinesStay(tokens, h, n, hunk.lines);
    }
  }

  lemma OpenIsClosed(tokens: seq<Token>, h: nat, n: nat, s: State, t: State, k: nat, q: nat)
    requires h < n < |tokens| && HunkOpen(tokens, h, n, s, k, q)
    requires Ends(tokens[n]) && Step(s, tokens[n]) == Some(t)
    ensures HunkClosed(tokens, h, n, t, k, q)
  {
    assert HunkKept(t, k, q, s.hunk.value);
  }

  lemma HunkGoesOn(tokens: seq<Token>, h: nat, n: nat, s: State, t: State, k: nat, q: nat)
    requires h < n < |tokens| && HunkTracks(tokens, h, n, s, k, q) && Step(s, tokens[n]) == Some(t)
    ensures HunkTracks(tokens, h, n + 1, t, k, q)
  {
    var e := HunkEnd(tokens, h, n);
    if e < n {
      HunkStays(s, tokens[n], t, k, q, FileAt(s, k).value.hunks[q]);
    } else if Ends(tokens[n]) {
      OpenIsClosed(tokens, h, n, s, t, k, q);
    } else {
      OpenGoesOn(tokens, h, n, s, t, k, q);
    }
  }

  lemma {:induction false} HunkTracked(tokens: seq<Token>, h: nat, n: nat, k: nat, q: nat)
    requires h < n <= |tokens| && Run(START, tokens, n).Some?
    requires Run(START, tokens, h + 1).Some? && HunkTracks(tokens, h, h + 1, Run(START, tokens, h + 1).value, k, q)
    ensures HunkTracks(tokens, h, n, Run(START, tokens, n).value, k, q)
  {
    if n > h + 1 {
      HunkTracked(tokens, h, n - 1, k, q);
      HunkGoesOn(tokens, h, n - 1, Run(START, tokens, n - 1).value, Run(START, tokens, n).value, k, q);
    }
  }

  // ---------- Where a header puts its hunk ----------

  predicate HunkCountIs(tokens: seq<Token>, a: nat, n: nat, s: State)
    requires a <= n <= |tokens|
  {
    && s.cur.Some? && |s.files| == SectionsBefore(tokens, a)
    && |s.cur.value.hunks| + (if s.hunk.Some? then 1 else 0) == HunksIn(tokens, a, n)
  }

  lemma CountBegins(tokens: seq<Token>, a: nat)
    requires a < |tokens| && Begins(tokens, a) && Run(START, tokens, a + 1).Some?
    ensures HunkCountIs(tokens, a, a + 1, Run(START, tokens, a + 1).value)
  {
    FilesCount(tokens, a);
    RunFailsExactly(tokens, a);
    assert HunksIn(tokens, a, a) == 0;
  }

  lemma {:induction false} HunksCount(tokens: seq<Token>, a: nat, n: nat)
    requires a < n <= |tokens| && Begins(tokens, a) && OneSection(tokens, a, n) && Run(START, tokens, n).Some?
    ensures HunkCountIs(tokens, a, n, Run(START, tokens, n).value)
  {
    if n == a + 1 {
      CountBegins(tokens, a);
    } else {
      HunksCount(tokens, a, n - 1);
    }
  }

  lemma HunkBegins(tokens: seq<Token>, a: nat, h: nat)
    requires a < h < |tokens| && Begins(tokens, a) && OneSection(tokens, a, h) && tokens[h].HunkAt?
    requires Run(START, tokens, h + 1).Some?
    requires TokenFits(tokens[h])
    ensures HunkTracks(tokens, h, h + 1, Run(START, tokens, h + 1).value, SectionsBefore(tokens, a),
      HunksIn(tokens, a, h))
  {
    HunksCount(tokens, a, h);
    NoLines(tokens, h);
  }

  lemma {:induction false} RunReaches(tokens: seq<Token>, h: nat, n: nat)
    requires h <= n <= |tokens| && Run(START, tokens, n).Some?
    ensures Run(START, tokens, h).Some?
  {
    if h < n {
      RunReaches(tokens, h, n - 1);
    }
  }

  // Hunk q of file k holds what follows the header at h.
  ghost predicate HunkLanded(tokens: seq<Token>, h: nat, files: seq<FileDiff>, k: nat, q: nat)
    requires h < |tokens|
  {
    k < |files| && q < |files[k].hunks| && HunkReads(tokens, h, HunkEnd(tokens, h, |tokens|), files[k].hunks[q])
  }

  // Of every input: the header at h, in the section that begins at a, is that of the section's file,
  // after the hunks of the headers before it; its ranges are the header's, and its lines are exactly
  // the body lines up to the next header or section.
  lemma {:induction false} EveryHunkIsItsLines(text: string, raw: seq<string>, files: seq<FileDiff>, a: nat, h: nat)
    requires IsSplit(text, raw) && ParsesTo(text, Some(files)) && a < h < |raw|
    requires
      var tokens := Tokens(DropCRs(raw));
      Begins(tokens, a) && OneSection(tokens, a, h) && tokens[h].HunkAt?
    ensures
      var tokens := Tokens(DropCRs(raw));
      HunkLanded(tokens, h, files, SectionsBefore(tokens, a), HunksIn(tokens, a, h))
  {
    var tokens := Tokens(DropCRs(raw));
    ParseUnique(text, raw, Some(files));
    TokenOfFits(DropCRs(raw)[h]);
    HunkLands(tokens, a, h);
  }

  lemma {:induction false} HunkLands(tokens: seq<Token>, a: nat, h: nat)
    requires a < h < |tokens| && Begins(tokens, a) && OneSection(tokens, a, h) && tokens[h].HunkAt?
    requires TokenFits(tokens[h]) && Run(START, tokens, |tokens|).Some?
    ensures
      HunkLanded(tokens, h, FileFlushed(Run(START, tokens, |tokens|).value).files,
                 SectionsBefore(tokens, a), HunksIn(tokens, a, h))
  {
    var k, q := SectionsBefore(tokens, a), HunksIn(tokens, a, h);
    RunReaches(tokens, h + 1, |tokens|);
    HunkBegins(tokens, a, h);
    HunkTracked(tokens, h, |tokens|, k, q);
    LastHunkIsKept(tokens, h, Run(START, tokens, |tokens|).value, k, q);
  }

  lemma LastHunkIsKept(tokens: seq<Token>, h: nat, s: State, k: nat, q: nat)
    requires h < |tokens| && HunkTracks(tokens, h, |tokens|, s, k, q)
    ensures HunkLanded(tokens, h, FileFlushed(s).files, k, q)
  {
  }

  // ---------- And no other hunks ----------

  predicate FileCountIs(tokens: seq<Token>, a: nat, n: nat, s: State)
    requires a < n <= |tokens|
  {
    var k, e := SectionsBefore(tokens, a), EndBy(tokens, a, n);
    if e < n then k < |s.files| && |s.files[k].hunks| == HunksIn(tokens, a, e)
    else HunkCountIs(tokens, a, n, s)
  }

  lemma CountGoesOn(tokens: seq<Token>, a: nat, n: nat, s: State, t: State)
    requires a < n < |tokens| && FileCountIs(tokens, a, n, s) && Step(s, tokens[n]) == Some(t)
    ensures FileCountIs(tokens, a, n + 1, t)
  {
  }

  lemma {:induction false} FileCounts(tokens: seq<Token>, a: nat, n: nat)
    requires a < n <= |tokens| && Begins(tokens, a) && Run(START, tokens, n).Some?
    ensures FileCountIs(tokens, a, n, Run(START, tokens, n).value)
  {
    if n == a + 1 {
      CountBegins(tokens, a);
    } else {
      FileCounts(tokens, a, n - 1);
      CountGoesOn(tokens, a, n - 1, Run(START, tokens, n - 1).value, Run(START, tokens, n).value);
    }
  }

  // A file has one hunk for each header of its section.
  lemma EveryHeaderIsAHunk(text: string, raw: seq<string>, files: seq<FileDiff>, a: nat)
    requires IsSplit(text, raw) && ParsesTo(text, Some(files)) && a < |raw| && Begins(Tokens(DropCRs(raw)), a)
    ensures
      var tokens := Tokens(DropCRs(raw));
      var k := SectionsBefore(tokens, a);
      k < |files| && |files[k].hunks| == HunksIn(tokens, a, EndBy(tokens, a, |tokens|))
  {
    var tokens := Tokens(DropCRs(raw));
    ParseUnique(text, raw, Some(files));
    FileCounts(tokens, a, |tokens|);
  }
}
