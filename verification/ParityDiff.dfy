/** The one-file diff that the parity rehearsal prints (internal/cli/parity.go), as the diff parser
    reads it. */
module ParityDiff {
  import opened Wrappers
  import opened Text
  import opened Lines
  import opened Diff
  import opened DiffPrint

  // strings.Join.
  function Join(parts: seq<string>, separator: string): string {
    if parts == [] then ""
    else if |parts| == 1 then parts[0]
    else parts[0] + separator + Join(parts[1..], separator)
  }

  lemma {:induction false} JoinIsUnlines(lines: seq<string>)
    ensures Join(lines + [""], "\n") == Unlines(lines)
  {
    if lines != [] {
      assert (lines + [""])[1..] == lines[1..] + [""];
      JoinIsUnlines(lines[1..]);
    }
  }

  const DELETED_NOTE := "deleted file mode 100644"
  const PARITY_HEADER := "@@ -1 +0,0 @@"
  const PARITY_BODY := "-parity rehearsal"
  const PARITY_HUNK := Hunk(1, 1, 0, 0, [DiffLine(Minus, "parity rehearsal", 1)], 0, 1)

  function ParityLines(target: string): seq<string> {
    [GIT_HEADER + ("a/" + target + " b/" + target), DELETED_NOTE, OLD_PATH + ("a/" + target), NEW_PATH + DEV_NULL,
     PARITY_HEADER, PARITY_BODY]
  }

  function ParityDiff(target: string): string {
    Join(ParityLines(target) + [""], "\n")
  }

  lemma {:induction false} TrimRightShape(s: string)
    ensures TrimRight(s) <= s && forall i :: |TrimRight(s)| <= i < |s| ==> IsSpace(s[i])
  {
    if s != "" && IsSpace(s[|s| - 1]) {
      TrimRightShape(s[..|s| - 1]);
    }
  }

  lemma DropCRAfter(head: string, s: string)
    requires head != "" && head[|head| - 1] != '\r'
    ensures DropCR(head + s) == head + DropCR(s)
    ensures TrimRight(DropCR(s)) == TrimRight(s)
  {
    if s == "" {
      assert head + s == head;
    } else {
      assert (head + s)[|head + s| - 1] == s[|s| - 1];
      assert (head + s)[..|head + s| - 1] == head + s[..|s| - 1];
    }
  }

  lemma ParityOldLine(target: string)
    ensures DropCR(OLD_PATH + ("a/" + target)) == OLD_PATH + ("a/" + DropCR(target))
  {
    var head := OLD_PATH + "a/";
    assert OLD_PATH + ("a/" + target) == head + target;
    assert head + DropCR(target) == OLD_PATH + ("a/" + DropCR(target));
    assert head[|head| - 1] == '/';
    DropCRAfter(head, target);
  }

  lemma ParityOldSide(target: string)
    ensures TokenOf(DropCR(OLD_PATH + ("a/" + target))) == OldSide(TrimRight(target))
  {
    ParityOldLine(target);
    DropCRAfter("/", target);
    ClassOfHeaders("a/" + DropCR(target));
    PathReadsBack(OLD_PATH, "a/", DropCR(target));
  }

  // The header names the target whenever the path line fails to.
  lemma ParityHeader(target: string)
    ensures TokenOf(DropCR(GIT_HEADER + ("a/" + target + " b/" + target))).GitPaths?
    ensures TrimRight(target) == DEV_NULL ==>
      TokenOf(DropCR(GIT_HEADER + ("a/" + target + " b/" + target))).former == target
  {
    var head := GIT_HEADER + ("a/" + target + " b/");
    var line := GIT_HEADER + ("a/" + target + " b/" + DropCR(target));
    assert GIT_HEADER + ("a/" + target + " b/" + target) == head + target;
    assert head + DropCR(target) == line;
    assert head[|head| - 1] == '/';
    DropCRAfter(head, target);
    ClassOfHeaders("a/" + target + " b/" + DropCR(target));
    if TrimRight(target) == DEV_NULL {
      NullHasNoMark(target);
      HeaderReadsBack(target, DropCR(target));
    }
  }

  lemma NullHasNoMark(target: string)
    requires TrimRight(target) == DEV_NULL
    ensures NoMark(target)
  {
    TrimRightShape(target);
    assert 'b' !in DEV_NULL;
    forall j | 0 <= j < |target| ensures target[j] != 'b' {
      if j < |DEV_NULL| {
        assert target[j] == DEV_NULL[j];
      }
    }
  }

  lemma NoteToken()
    ensures TokenOf(DropCR(DELETED_NOTE)) == SaysNothing
  {
    var note, git, former, latter, hunk := DELETED_NOTE, GIT_HEADER, OLD_PATH, NEW_PATH, HUNK_HEADER;
    assert note == "de" + "leted file mode 100644";
    assert note[0] == 'd' && note[1] == 'e' && note[|note| - 1] == '4';
    assert git[1] == 'i' && former[0] == '-' && latter[0] == '+' && hunk[0] == '@';
  }

  lemma NullToken()
    ensures TokenOf(DropCR(NEW_PATH + DEV_NULL)) == NewSide(DEV_NULL)
  {
    var line := NEW_PATH + DEV_NULL;
    assert line[|line| - 1] == DEV_NULL[|DEV_NULL| - 1] == 'l';
    ClassOfHeaders(DEV_NULL);
    DevNullReadsBack(NEW_PATH);
  }

  lemma HunkToken()
    ensures TokenOf(DropCR(PARITY_HEADER)) == HunkAt(Some(Bare(PARITY_HUNK)))
  {
    assert Decimal.Digits(1) == "1" && Decimal.Digits(0) == "0";
    assert RangeText(1, 1) == "1" && RangeText(0, 0) == "0,0";
    assert PrintHunkHeader(PARITY_HUNK) == PARITY_HEADER;
    HunkHeaderReadsBack(PARITY_HUNK);
  }

  lemma BodyLineToken()
    ensures TokenOf(DropCR(PARITY_BODY)) == Says(Minus, "parity rehearsal")
  {
    var l := PARITY_HUNK.lines[0];
    assert PrintLine(l) == PARITY_BODY;
    assert l.text[0] == 'p' && PARITY_BODY[|PARITY_BODY| - 1] == 'l';
    BodyLineReadsBackExactly(l);
  }

  // ---------- What it parses to ----------

  function ParityTokens(header: Token, path: string): seq<Token> {
    [header, SaysNothing, OldSide(path), NewSide(DEV_NULL), HunkAt(Some(Bare(PARITY_HUNK))),
      Says(Minus, "parity rehearsal")]
  }

  lemma RunParity(former: string, latter: string, path: string)
    ensures Finish(RunAll(START, ParityTokens(GitPaths(former, latter), path))) ==
      Some([FileDiff(if path == DEV_NULL then former else path, latter, Deleted, [PARITY_HUNK])])
  {
    var tokens := ParityTokens(GitPaths(former, latter), path);
    var f := FileDiff(former, latter, Modified, []);
    var g := WithOldPath(f, path);
    var h := WithNewPath(g, DEV_NULL);
    assert Run(START, tokens, 1) == Some(START.(cur := Some(f)));
    assert Run(START, tokens, 2) == Some(START.(cur := Some(f)));
    assert Run(START, tokens, 3) == Some(START.(cur := Some(g)));
    assert Run(START, tokens, 4) == Some(START.(cur := Some(h)));
    assert Run(START, tokens, 5) == Some(State([], Some(h), Some(Bare(PARITY_HUNK)), 1, 0));
    assert Grown(Bare(PARITY_HUNK), Minus, "parity rehearsal", 1, 0) == PARITY_HUNK by {
      assert [] + [DiffLine(Minus, "parity rehearsal", 1)] == [DiffLine(Minus, "parity rehearsal", 1)];
    }
    assert Wrap(1 + 1) == 2;
    var end := State([], Some(h), Some(PARITY_HUNK), 2, 0);
    assert Run(START, tokens, 6) == Some(end);
    assert h.hunks + [PARITY_HUNK] == [PARITY_HUNK];
    assert FileFlushed(end).files == [h.(hunks := [PARITY_HUNK])];
  }

  function ParityFile(target: string): FileDiff {
    var header := TokenOf(DropCR(GIT_HEADER + ("a/" + target + " b/" + target)));
    FileDiff(if TrimRight(target) == DEV_NULL then target else TrimRight(target),
             if header.GitPaths? then header.latter else "", Deleted, [PARITY_HUNK])
  }

  lemma SixTokens(lines: seq<string>)
    requires |lines| == 6
    ensures Tokens(DropCRs(lines)) ==
      [TokenOf(DropCR(lines[0])), TokenOf(DropCR(lines[1])), TokenOf(DropCR(lines[2])),
       TokenOf(DropCR(lines[3])), TokenOf(DropCR(lines[4])), TokenOf(DropCR(lines[5]))]
  {
  }

  lemma ParityTokensOf(target: string)
    ensures var header := TokenOf(DropCR(GIT_HEADER + ("a/" + target + " b/" + target)));
      Tokens(DropCRs(ParityLines(target))) == ParityTokens(header, TrimRight(target))
  {
    SixTokens(ParityLines(target));
    NoteToken();
    NullToken();
    HunkToken();
    BodyLineToken();
    ParityOldSide(target);
  }

  lemma ParityLinesSplit(target: string)
    requires OneLine(target)
    ensures IsSplit(ParityDiff(target), ParityLines(target))
  {
    var lines := ParityLines(target);
    JoinIsUnlines(lines);
    forall i | 0 <= i < |lines| ensures OneLine(lines[i]) {
    }
  }

  // One file, deleted, whatever the target's spelling.
  lemma ParityParses(target: string, r: Option<seq<FileDiff>>)
    requires OneLine(target)
    ensures ParsesTo(ParityDiff(target), r) <==> r == Some([ParityFile(target)])
  {
    var header := TokenOf(DropCR(GIT_HEADER + ("a/" + target + " b/" + target)));
    ParityLinesSplit(target);
    ParseUnique(ParityDiff(target), ParityLines(target), r);
    ParityTokensOf(target);
    ParityHeader(target);
    RunParity(header.former, header.latter, TrimRight(target));
  }

  // ---------- No parsed path spans lines ----------

  predicate PathsOneLine(f: FileDiff) {
    OneLine(f.oldPath) && OneLine(f.newPath)
  }

  predicate TokenOneLine(token: Token) {
    match token
    case GitPaths(a, b) => OneLine(a) && OneLine(b)
    case OldSide(path) => OneLine(path)
    case NewSide(path) => OneLine(path)
    case _ => true
  }

  ghost predicate StateOneLine(s: State) {
    && (s.cur.Some? ==> PathsOneLine(s.cur.value))
    && forall i :: 0 <= i < |s.files| ==> PathsOneLine(s.files[i])
  }

  lemma {:induction false} TrimLeftKeepsOneLine(s: string)
    requires OneLine(s)
    ensures OneLine(TrimLeft(s))
  {
    if s != "" && IsSpace(s[0]) {
      TrimLeftKeepsOneLine(s[1..]);
    }
  }

  lemma {:induction false} TrimRightKeepsOneLine(s: string)
    requires OneLine(s)
    ensures OneLine(TrimRight(s))
  {
    if s != "" && IsSpace(s[|s| - 1]) {
      TrimRightKeepsOneLine(s[..|s| - 1]);
    }
  }

  lemma PathOneLine(line: string, marker: string)
    requires OneLine(line)
    ensures OneLine(PathOnLine(line, marker))
  {
    var path := TrimPrefix(line, marker);
    assert OneLine(path);
    TrimLeftKeepsOneLine(path);
    TrimRightKeepsOneLine(TrimLeft(path));
  }

  lemma GitPathsOneLine(line: string)
    requires OneLine(line)
    ensures OneLine(ParseGitDiffHeader(line).0) && OneLine(ParseGitDiffHeader(line).1)
  {
    assert OneLine(TrimPrefix(line, GIT_HEADER));
  }

  lemma TokenIsOneLine(line: string)
    requires OneLine(line)
    ensures TokenOneLine(TokenOf(line))
  {
    GitPathsOneLine(line);
    PathOneLine(line, OLD_PATH);
    PathOneLine(line, NEW_PATH);
  }

  lemma {:induction false} RunOneLine(tokens: seq<Token>, n: nat)
    requires n <= |tokens| && forall i :: 0 <= i < |tokens| ==> TokenOneLine(tokens[i])
    ensures Run(START, tokens, n).Some? ==> StateOneLine(Run(START, tokens, n).value)
  {
    if n > 0 {
      RunOneLine(tokens, n - 1);
      assert TokenOneLine(tokens[n - 1]);
    }
  }

  lemma ParsedPathsAreOneLine(text: string, files: seq<FileDiff>)
    requires ParsesTo(text, Some(files))
    ensures forall i :: 0 <= i < |files| ==> PathsOneLine(files[i])
  {
    var raw :| IsSplit(text, raw) && Some(files) == Parse(DropCRs(raw));
    var tokens := Tokens(DropCRs(raw));
    forall i | 0 <= i < |tokens| ensures TokenOneLine(tokens[i]) {
      assert OneLine(raw[i]) && OneLine(DropCR(raw[i]));
      TokenIsOneLine(DropCR(raw[i]));
    }
    RunOneLine(tokens, |tokens|);
  }

  // ---------- The target, and nothing else ----------

  predicate DeletesOnly(files: seq<FileDiff>, target: string) {
    |files| == 1 && IntentOf(files[0]) == ChangeIntent(DeleteFile, [target], [])
  }

  ghost predicate ParityDeletes(target: string) {
    exists files :: ParsesTo(ParityDiff(target), Some(files)) && DeletesOnly(files, target)
  }

  lemma ParityFileDeletes(target: string)
    ensures DeletesOnly([ParityFile(target)], target) <==> TrimRight(target) == target || TrimRight(target) == DEV_NULL
  {
  }

  lemma ManyLinesNeverNamed(target: string, files: seq<FileDiff>)
    requires !OneLine(target) && ParsesTo(ParityDiff(target), Some(files))
    ensures !DeletesOnly(files, target)
  {
    ParsedPathsAreOneLine(ParityDiff(target), files);
    if |files| == 1 {
      assert PathsOneLine(files[0]);
    }
  }

  // The rehearsal's diff deletes the target and nothing else if and only if the target is one line
  // with no trailing space, the null device with trailing space aside.
  lemma ParityDeletesExactly(target: string)
    ensures ParityDeletes(target) <==>
      OneLine(target) && (TrimRight(target) == target || TrimRight(target) == DEV_NULL)
  {
    ParityFileDeletes(target);
    if OneLine(target) {
      forall r ensures ParsesTo(ParityDiff(target), r) <==> r == Some([ParityFile(target)]) {
        ParityParses(target, r);
      }
      assert ParsesTo(ParityDiff(target), Some([ParityFile(target)]));
    } else {
      forall files | ParsesTo(ParityDiff(target), Some(files)) ensures !DeletesOnly(files, target) {
        ManyLinesNeverNamed(target, files);
      }
    }
  }
}
