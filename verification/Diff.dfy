/** The unified-diff parser (internal/intent/diff.go): a line-driven machine with one open file,
    one open hunk and two running counters. */
module Diff {
  import opened Wrappers
  import opened Text
  import opened Lines
  import Decimal

  datatype FileStatus = Added | Deleted | Modified | Renamed
  datatype LineKind = Context | Plus | Minus
  datatype DiffLine = DiffLine(kind: LineKind, text: string, lineNo: int)
  datatype Hunk = Hunk(
    oldStart: int, oldLines: int, newStart: int, newLines: int, lines: seq<DiffLine>, added: nat, removed: nat)
  datatype FileDiff = FileDiff(oldPath: string, newPath: string, status: FileStatus, hunks: seq<Hunk>)

  const DEV_NULL := "/dev/null"

  function PathOf(f: FileDiff): string {
    if f.status == Deleted then f.oldPath else f.newPath
  }

  // ---------- Machine integers ----------

  const INT64_SPAN := 0x1_0000_0000_0000_0000

  // Go's int: 64 bits, wrapping around.
  function Wrap(n: int): int {
    (n + Decimal.INT64_MAX + 1) % INT64_SPAN - Decimal.INT64_MAX - 1
  }

  lemma WrapIsIdentityInRange(n: int)
    ensures Wrap(n) == n <==> -Decimal.INT64_MAX - 1 <= n <= Decimal.INT64_MAX
  {
  }

  lemma WrapOfNext(n: int)
    ensures Wrap(Wrap(n) + 1) == Wrap(n + 1)
  {
  }

  // ---------- Lines of a diff ----------

  const GIT_HEADER := "diff --git "
  const OLD_PATH := "--- "
  const NEW_PATH := "+++ "
  const HUNK_HEADER := "@@ "

  datatype LineClass = GitHeader | OldPath | NewPath | HunkHeader | Body

  function Classify(line: string): LineClass {
    if GIT_HEADER <= line then GitHeader
    else if OLD_PATH <= line then OldPath
    else if NEW_PATH <= line then NewPath
    else if HUNK_HEADER <= line then HunkHeader
    else Body
  }

  function StripDiffPrefix(path: string): string {
    if "a/" <= path || "b/" <= path then path[2..] else path
  }

  function PathOnLine(line: string, marker: string): string {
    StripDiffPrefix(TrimSpace(TrimPrefix(line, marker)))
  }

  function ParseGitDiffHeader(line: string): (string, string) {
    var rest := TrimPrefix(line, GIT_HEADER);
    match Index(rest, " b/")
    case None => ("", "")
    case Some(i) => (TrimPrefix(rest[..i], "a/"), rest[i + 3..])
  }

  function ParseRange(field: string, want: char): Option<(int, int)> {
    if field == "" || field[0] != want then None else RangeAt(field[1..], Index(field[1..], ","))
  }

  // The start and the count, cut at the comma if there is one.
  function RangeAt(text: string, comma: Option<nat>): Option<(int, int)>
    requires comma.Some? ==> comma.value < |text|
  {
    match comma
    case None => (match Decimal.Atoi(text) case None => None case Some(s) => Some((s, 1)))
    case Some(i) =>
      match Decimal.Atoi(text[..i])
      case None => None
      case Some(s) => (match Decimal.Atoi(text[i + 1..]) case None => None case Some(n) => Some((s, n)))
  }

  function ParseHunkHeader(line: string): Option<Hunk> {
    var body := TrimPrefix(line, HUNK_HEADER);
    match Index(body, " @@")
    case None => None
    case Some(end) => HunkOfRanges(Fields(body[..end]))
  }

  function HunkOfRanges(ranges: seq<string>): Option<Hunk> {
    if |ranges| != 2 then None
    else
      match ParseRange(ranges[0], '-')
      case None => None
      case Some(o) =>
        match ParseRange(ranges[1], '+')
        case None => None
        case Some(n) => Some(Hunk(o.0, o.1, n.0, n.1, [], 0, 0))
  }

  // What one line says to the machine.
  datatype Token =
    | GitPaths(former: string, latter: string)
    | OldSide(path: string)
    | NewSide(path: string)
    | HunkAt(header: Option<Hunk>)
    | Says(kind: LineKind, text: string)
    | SaysNothing

  function BodyToken(line: string): Token {
    if line == "" then Says(Context, "")
    else if line[0] == '+' then Says(Plus, line[1..])
    else if line[0] == '-' then Says(Minus, line[1..])
    else if line[0] == ' ' then Says(Context, line[1..])
    else SaysNothing
  }

  function TokenOf(line: string): Token {
    match Classify(line)
    case GitHeader => GitPaths(ParseGitDiffHeader(line).0, ParseGitDiffHeader(line).1)
    case OldPath => OldSide(PathOnLine(line, OLD_PATH))
    case NewPath => NewSide(PathOnLine(line, NEW_PATH))
    case HunkHeader => HunkAt(ParseHunkHeader(line))
    case Body => BodyToken(line)
  }

  // ---------- The machine as a function ----------

  datatype State = State(
    files: seq<FileDiff>, cur: Option<FileDiff>, hunk: Option<Hunk>, oldLine: int, newLine: int)

  const START := State([], None, None, 0, 0)

  function HunkFlushed(s: State): State {
    if s.cur.Some? && s.hunk.Some?
    then s.(cur := Some(s.cur.value.(hunks := s.cur.value.hunks + [s.hunk.value])), hunk := None)
    else s
  }

  function FileFlushed(s: State): State {
    var t := HunkFlushed(s);
    if t.cur.Some? then t.(files := t.files + [t.cur.value], cur := None) else t
  }

  function Current(s: State): FileDiff {
    if s.cur.Some? then s.cur.value else FileDiff("", "", Modified, [])
  }

  function WithOldPath(f: FileDiff, path: string): FileDiff {
    if path == DEV_NULL then f.(status := Added) else f.(oldPath := path)
  }

  function WithNewPath(f: FileDiff, path: string): FileDiff {
    var g := if path == DEV_NULL then f.(status := Deleted) else f.(newPath := path);
    if g.oldPath != "" && g.newPath != "" && g.oldPath != g.newPath && g.status == Modified
    then g.(status := Renamed) else g
  }

  function Grown(h: Hunk, kind: LineKind, text: string, oldLine: int, newLine: int): Hunk {
    h.(lines := h.lines + [DiffLine(kind, text, if kind == Minus then oldLine else newLine)],
       added := h.added + (if kind == Plus then 1 else 0),
       removed := h.removed + (if kind == Minus then 1 else 0))
  }

  function BodyStep(s: State, kind: LineKind, text: string): State {
    if s.hunk.None? then s
    else
      s.(hunk := Some(Grown(s.hunk.value, kind, text, s.oldLine, s.newLine)),
         oldLine := if kind == Plus then s.oldLine else Wrap(s.oldLine + 1),
         newLine := if kind == Minus then s.newLine else Wrap(s.newLine + 1))
  }

  function HunkStep(s: State, header: Option<Hunk>): Option<State> {
    var t := HunkFlushed(s);
    if header.None? || t.cur.None? then None
    else Some(t.(hunk := header, oldLine := header.value.oldStart, newLine := header.value.newStart))
  }

  // None: the parse fails.
  function Step(s: State, token: Token): Option<State> {
    match token
    case GitPaths(a, b) => Some(FileFlushed(s).(cur := Some(FileDiff(a, b, Modified, []))))
    case OldSide(path) => Some(s.(cur := Some(WithOldPath(Current(s), path))))
    case NewSide(path) => Some(s.(cur := Some(WithNewPath(Current(s), path))))
    case HunkAt(header) => HunkStep(s, header)
    case Says(kind, text) => Some(BodyStep(s, kind, text))
    case SaysNothing => Some(s)
  }

  // The state after n lines.
  function Run(s: State, tokens: seq<Token>, n: nat): Option<State>
    requires n <= |tokens|
  {
    if n == 0 then Some(s)
    else
      match Run(s, tokens, n - 1)
      case None => None
      case Some(t) => Step(t, tokens[n - 1])
  }

  function Tokens(lines: seq<string>): (tokens: seq<Token>)
    ensures |tokens| == |lines| && forall i :: 0 <= i < |lines| ==> tokens[i] == TokenOf(lines[i])
  {
    seq(|lines|, i requires 0 <= i < |lines| => TokenOf(lines[i]))
  }

  function Finish(s: Option<State>): Option<seq<FileDiff>> {
    match s
    case None => None
    case Some(t) => Some(FileFlushed(t).files)
  }

  function Parse(lines: seq<string>): Option<seq<FileDiff>> {
    Finish(Run(START, Tokens(lines), |lines|))
  }

  // bufio.ScanLines: each line loses one trailing carriage return.
  function DropCR(line: string): string {
    if line != "" && line[|line| - 1] == '\r' then line[..|line| - 1] else line
  }

  function DropCRs(raw: seq<string>): (lines: seq<string>)
    ensures |lines| == |raw| && forall i :: 0 <= i < |raw| ==> lines[i] == DropCR(raw[i])
  {
    seq(|raw|, i requires 0 <= i < |raw| => DropCR(raw[i]))
  }

  ghost predicate ParsesTo(text: string, r: Option<seq<FileDiff>>) {
    exists raw :: IsSplit(text, raw) && r == Parse(DropCRs(raw))
  }

  // A text parses to one thing.
  lemma ParseUnique(text: string, raw: seq<string>, r: Option<seq<FileDiff>>)
    requires IsSplit(text, raw)
    ensures ParsesTo(text, r) <==> r == Parse(DropCRs(raw))
  {
    if ParsesTo(text, r) {
      var other :| IsSplit(text, other) && r == Parse(DropCRs(other));
      SplitUnique(text, raw, other);
    }
  }

  // ---------- The machine as it is written ----------

  class DiffParser {
    var files: seq<FileDiff>
    var cur: Option<FileDiff>
    var curHunk: Option<Hunk>
    var oldLine: int
    var newLine: int

    ghost function View(): State
      reads this
    {
      State(files, cur, curHunk, oldLine, newLine)
    }

    constructor ()
      ensures View() == START
    {
      files, cur, curHunk, oldLine, newLine := [], None, None, 0, 0;
    }

    method FlushHunk()
      modifies this
      ensures View() == HunkFlushed(old(View()))
    {
      if cur.Some? && curHunk.Some? {
        cur := Some(cur.value.(hunks := cur.value.hunks + [curHunk.value]));
        curHunk := None;
      }
    }

    method FlushFile()
      modifies this
      ensures View() == FileFlushed(old(View()))
    {
      FlushHunk();
      if cur.Some? {
        files := files + [cur.value];
        cur := None;
      }
    }

    method EnsureFile()
      modifies this
      ensures View() == old(View()).(cur := Some(Current(old(View()))))
    {
      if cur.None? {
        cur := Some(FileDiff("", "", Modified, []));
      }
    }

    method HandleOldPath(line: string)
      modifies this
      ensures Some(View()) == Step(old(View()), OldSide(PathOnLine(line, OLD_PATH)))
    {
      var path := StripDiffPrefix(TrimSpace(TrimPrefix(line, OLD_PATH)));
      EnsureFile();
      if path == DEV_NULL {
        cur := Some(cur.value.(status := Added));
      } else {
        cur := Some(cur.value.(oldPath := path));
      }
    }

    method HandleNewPath(line: string)
      modifies this
      ensures Some(View()) == Step(old(View()), NewSide(PathOnLine(line, NEW_PATH)))
    {
      var path := StripDiffPrefix(TrimSpace(TrimPrefix(line, NEW_PATH)));
      EnsureFile();
      if path == DEV_NULL {
        cur := Some(cur.value.(status := Deleted));
      } else {
        cur := Some(cur.value.(newPath := path));
      }
      var f := cur.value;
      if f.oldPath != "" && f.newPath != "" && f.oldPath != f.newPath && f.status == Modified {
        cur := Some(f.(status := Renamed));
      }
    }

    method HandleHunkHeader(line: string) returns (ok: bool)
      modifies this
      ensures (if ok then Some(View()) else None) == Step(old(View()), HunkAt(ParseHunkHeader(line)))
    {
      FlushHunk();
      var h := ParseHunkHeader(line);
      if h.None? {
        return false;
      }
      if cur.None? {
        return false;
      }
      curHunk := h;
      oldLine, newLine := h.value.oldStart, h.value.newStart;
      return true;
    }

    // The answer tells whether the line was recorded.
    method HandleBodyLine(line: string) returns (recorded: bool)
      modifies this
      ensures Some(View()) == Step(old(View()), BodyToken(line))
      ensures recorded <==> old(curHunk).Some? && BodyToken(line).Says?
    {
      if curHunk.None? {
        return false;
      }
      var h := curHunk.value;
      if |line| > 0 && line[0] == '+' {
        curHunk := Some(h.(lines := h.lines + [DiffLine(Plus, line[1..], newLine)], added := h.added + 1));
        newLine := Wrap(newLine + 1);
      } else if |line| > 0 && line[0] == '-' {
        curHunk := Some(h.(lines := h.lines + [DiffLine(Minus, line[1..], oldLine)], removed := h.removed + 1));
        oldLine := Wrap(oldLine + 1);
      } else if |line| == 0 || line[0] == ' ' {
        var text := line;
        if |text| > 0 {
          text := text[1..];
        }
        curHunk := Some(h.(lines := h.lines + [DiffLine(Context, text, newLine)]));
        oldLine := Wrap(oldLine + 1);
        newLine := Wrap(newLine + 1);
      } else {
        return false;
      }
      return true;
    }

    method HandleLine(line: string) returns (ok: bool)
      modifies this
      ensures (if ok then Some(View()) else None) == Step(old(View()), TokenOf(line))
    {
      ok := true;
      match Classify(line)
      case GitHeader =>
        FlushFile();
        var header := ParseGitDiffHeader(line);
        cur := Some(FileDiff(header.0, header.1, Modified, []));
      case OldPath =>
        HandleOldPath(line);
      case NewPath =>
        HandleNewPath(line);
      case HunkHeader =>
        ok := HandleHunkHeader(line);
      case Body =>
        var recorded := HandleBodyLine(line);
    }
  }

  lemma RunNext(s: State, tokens: seq<Token>, n: nat, t: State, u: Option<State>)
    requires n < |tokens| && Run(s, tokens, n) == Some(t) && Step(t, tokens[n]) == u
    ensures Run(s, tokens, n + 1) == u
  {
  }

  method HandleLines(p: DiffParser, raw: seq<string>) returns (ok: bool)
    modifies p
    ensures (if ok then Some(p.View()) else None) == Run(old(p.View()), Tokens(DropCRs(raw)), |raw|)
  {
    ghost var start, tokens := p.View(), Tokens(DropCRs(raw));
    var i := 0;
    while i < |raw|
      invariant 0 <= i <= |raw|
      invariant Run(start, tokens, i) == Some(p.View())
    {
      ghost var before := p.View();
      ok := p.HandleLine(DropCR(raw[i]));
      RunNext(start, tokens, i, before, if ok then Some(p.View()) else None);
      if !ok {
        FailureStays(start, tokens, i + 1);
        return;
      }
      i := i + 1;
    }
    return true;
  }

  method ParseDiff(text: string) returns (r: Option<seq<FileDiff>>)
    ensures ParsesTo(text, r)
  {
    var raw := SplitLines(text);
    var p := new DiffParser();
    var ok := HandleLines(p, raw);
    if !ok {
      return None;
    }
    p.FlushFile();
    return Some(p.files);
  }

  lemma {:induction false} FailureStays(s: State, tokens: seq<Token>, n: nat)
    requires n <= |tokens| && Run(s, tokens, n).None?
    ensures Run(s, tokens, |tokens|).None?
    decreases |tokens| - n
  {
    if n < |tokens| {
      FailureStays(s, tokens, n + 1);
    }
  }

  // ---------- Change intents ----------

  datatype Action = DeleteFile | MoveFile | ModifyFile
  datatype ChangeIntent = ChangeIntent(action: Action, paths: seq<string>, targetPaths: seq<string>)

  function IntentOf(f: FileDiff): ChangeIntent {
    match f.status
    case Deleted => ChangeIntent(DeleteFile, [f.oldPath], [])
    case Renamed => ChangeIntent(MoveFile, [f.oldPath], [f.newPath])
    case _ => ChangeIntent(ModifyFile, [f.newPath], [])
  }

  // A deletion deletes the old name, a rename moves the old name to the new one, and anything else
  // modifies the new name.
  predicate Intends(f: FileDiff, intent: ChangeIntent) {
    && (f.status == Deleted <==> intent.action == DeleteFile)
    && (f.status == Renamed <==> intent.action == MoveFile)
    && intent.paths == [if f.status == Deleted || f.status == Renamed then f.oldPath else f.newPath]
    && intent.targetPaths == if f.status == Renamed then [f.newPath] else []
  }

  method ToChangeIntents(files: seq<FileDiff>) returns (intents: seq<ChangeIntent>)
    ensures |intents| == |files| && forall i :: 0 <= i < |files| ==> intents[i] == IntentOf(files[i])
    ensures forall i :: 0 <= i < |files| ==> Intends(files[i], intents[i])
  {
    intents := [];
    var i := 0;
    while i < |files|
      invariant 0 <= i <= |files| && |intents| == i
      invariant forall k :: 0 <= k < i ==> intents[k] == IntentOf(files[k])
    {
      var f := files[i];
      match f.status {
        case Deleted =>
          intents := intents + [ChangeIntent(DeleteFile, [PathOf(f)], [])];
        case Renamed =>
          intents := intents + [ChangeIntent(MoveFile, [f.oldPath], [f.newPath])];
        case _ =>
          intents := intents + [ChangeIntent(ModifyFile, [PathOf(f)], [])];
      }
      i := i + 1;
    }
  }

  // ---------- Every hunk of every input is numbered right ----------

  function OldBefore(lines: seq<DiffLine>, k: nat): nat
    requires k <= |lines|
  {
    if k == 0 then 0 else OldBefore(lines, k - 1) + (if lines[k - 1].kind == Plus then 0 else 1)
  }

  function NewBefore(lines: seq<DiffLine>, k: nat): nat
    requires k <= |lines|
  {
    if k == 0 then 0 else NewBefore(lines, k - 1) + (if lines[k - 1].kind == Minus then 0 else 1)
  }

  function CountOf(lines: seq<DiffLine>, kind: LineKind, k: nat): nat
    requires k <= |lines|
  {
    if k == 0 then 0 else CountOf(lines, kind, k - 1) + (if lines[k - 1].kind == kind then 1 else 0)
  }

  // A line's number is where the hunk starts plus the earlier lines on its side.
  ghost predicate NumberedAt(h: Hunk, k: int) {
    0 <= k < |h.lines| ==>
      h.lines[k].lineNo ==
      Wrap(if h.lines[k].kind == Minus then h.oldStart + OldBefore(h.lines, k) else h.newStart + NewBefore(h.lines, k))
  }

  ghost predicate HunkOk(h: Hunk) {
    && h.added == CountOf(h.lines, Plus, |h.lines|)
    && h.removed == CountOf(h.lines, Minus, |h.lines|)
    && forall k :: NumberedAt(h, k)
  }

  ghost predicate HunksOk(f: FileDiff) {
    forall i :: 0 <= i < |f.hunks| ==> HunkOk(f.hunks[i])
  }

  ghost predicate FilesOk(files: seq<FileDiff>) {
    forall i :: 0 <= i < |files| ==> HunksOk(files[i])
  }

  // The counters stand at the open hunk's next line on each side.
  ghost predicate OpenOk(h: Hunk, oldLine: int, newLine: int) {
    && HunkOk(h)
    && oldLine == Wrap(h.oldStart + OldBefore(h.lines, |h.lines|))
    && newLine == Wrap(h.newStart + NewBefore(h.lines, |h.lines|))
  }

  ghost predicate StateOk(s: State) {
    && FilesOk(s.files)
    && (s.cur.Some? ==> HunksOk(s.cur.value))
    && (s.hunk.Some? ==> s.cur.Some? && OpenOk(s.hunk.value, s.oldLine, s.newLine))
  }

  lemma {:induction false} CountsExtend(lines: seq<DiffLine>, x: DiffLine, k: nat)
    requires k <= |lines|
    ensures OldBefore(lines + [x], k) == OldBefore(lines, k)
    ensures NewBefore(lines + [x], k) == NewBefore(lines, k)
    ensures CountOf(lines + [x], Plus, k) == CountOf(lines, Plus, k)
    ensures CountOf(lines + [x], Minus, k) == CountOf(lines, Minus, k)
  {
    if k > 0 {
      CountsExtend(lines, x, k - 1);
    }
  }

  lemma GrownNumbered(h: Hunk, kind: LineKind, text: string, oldLine: int, newLine: int, k: int)
    requires OpenOk(h, oldLine, newLine)
    ensures NumberedAt(Grown(h, kind, text, oldLine, newLine), k)
  {
    var n := |h.lines|;
    var x := Grown(h, kind, text, oldLine, newLine).lines[n];
    if 0 <= k <= n {
      assert NumberedAt(h, k);
      CountsExtend(h.lines, x, k);
    }
  }

  lemma GrownOk(h: Hunk, kind: LineKind, text: string, oldLine: int, newLine: int)
    requires OpenOk(h, oldLine, newLine)
    ensures OpenOk(Grown(h, kind, text, oldLine, newLine),
                   if kind == Plus then oldLine else Wrap(oldLine + 1),
                   if kind == Minus then newLine else Wrap(newLine + 1))
  {
    var n := |h.lines|;
    forall k ensures NumberedAt(Grown(h, kind, text, oldLine, newLine), k) {
      GrownNumbered(h, kind, text, oldLine, newLine, k);
    }
    CountsExtend(h.lines, Grown(h, kind, text, oldLine, newLine).lines[n], n);
    WrapOfNext(h.oldStart + OldBefore(h.lines, n));
    WrapOfNext(h.newStart + NewBefore(h.lines, n));
  }

  lemma {:induction false} NumberFits(digits: string)
    ensures Decimal.Atoi(digits).Some? ==> Wrap(Decimal.Atoi(digits).value) == Decimal.Atoi(digits).value
  {
  }

  lemma {:induction false} ParsedRangeFits(field: string, want: char)
    ensures ParseRange(field, want).Some? ==> Wrap(ParseRange(field, want).value.0) == ParseRange(field, want).value.0
  {
    if ParseRange(field, want).Some? {
      var rest := field[1..];
      match Index(rest, ",")
      case None => NumberFits(rest);
      case Some(i) => NumberFits(rest[..i]);
    }
  }

  // A header's hunk starts in range, so its counters start where it says.
  predicate TokenFits(token: Token) {
    token.HunkAt? && token.header.Some? ==>
      var h := token.header.value;
      h.lines == [] && h.added == 0 && h.removed == 0 && Wrap(h.oldStart) == h.oldStart
        && Wrap(h.newStart) == h.newStart
  }

  lemma RangesFit(ranges: seq<string>)
    ensures TokenFits(HunkAt(HunkOfRanges(ranges)))
  {
    if |ranges| == 2 {
      ParsedRangeFits(ranges[0], '-');
      ParsedRangeFits(ranges[1], '+');
    }
  }

  lemma TokenOfFits(line: string)
    ensures TokenFits(TokenOf(line))
  {
    if Classify(line) == HunkHeader {
      var body := TrimPrefix(line, HUNK_HEADER);
      var end := Index(body, " @@");
      if end.Some? {
        RangesFit(Fields(body[..end.value]));
      }
    }
  }

  lemma FlushesOk(s: State)
    requires StateOk(s)
    ensures StateOk(HunkFlushed(s)) && StateOk(FileFlushed(s)) && HunkFlushed(s).hunk.None?
  {
  }

  lemma StepOk(s: State, token: Token)
    requires StateOk(s) && TokenFits(token)
    ensures Step(s, token).Some? ==> StateOk(Step(s, token).value)
  {
    FlushesOk(s);
    if token.Says? && s.hunk.Some? {
      GrownOk(s.hunk.value, token.kind, token.text, s.oldLine, s.newLine);
    }
  }

  lemma {:induction false} RunOk(tokens: seq<Token>, n: nat)
    requires n <= |tokens| && forall i :: 0 <= i < |tokens| ==> TokenFits(tokens[i])
    ensures Run(START, tokens, n).Some? ==> StateOk(Run(START, tokens, n).value)
  {
    if n > 0 {
      RunOk(tokens, n - 1);
      if Run(START, tokens, n - 1).Some? {
        StepOk(Run(START, tokens, n - 1).value, tokens[n - 1]);
      }
    }
  }

  // Every hunk of every parsed input counts its own lines and numbers them by side.
  lemma EveryHunkIsNumbered(text: string, r: Option<seq<FileDiff>>)
    requires ParsesTo(text, r)
    ensures r.Some? ==> FilesOk(r.value)
  {
    var raw :| IsSplit(text, raw) && r == Parse(DropCRs(raw));
    var tokens := Tokens(DropCRs(raw));
    forall i | 0 <= i < |tokens| ensures TokenFits(tokens[i]) {
      TokenOfFits(DropCRs(raw)[i]);
    }
    RunOk(tokens, |tokens|);
    if r.Some? {
      FlushesOk(Run(START, tokens, |tokens|).value);
    }
  }

  // ---------- How many files a diff has ----------

  function GitHeaders(tokens: seq<Token>, n: nat): nat
    requires n <= |tokens|
  {
    if n == 0 then 0 else GitHeaders(tokens, n - 1) + (if tokens[n - 1].GitPaths? then 1 else 0)
  }

  // A path line that no "diff --git" line comes before.
  predicate PlainStart(tokens: seq<Token>, n: nat)
    requires n <= |tokens|
  {
    n > 0
    && (PlainStart(tokens, n - 1)
        || (GitHeaders(tokens, n - 1) == 0 && (tokens[n - 1].OldSide? || tokens[n - 1].NewSide?)))
  }

  function FilesSoFar(s: State): nat {
    |s.files| + (if s.cur.Some? then 1 else 0)
  }

  lemma {:induction false} FilesCount(tokens: seq<Token>, n: nat)
    requires n <= |tokens| && Run(START, tokens, n).Some?
    ensures FilesSoFar(Run(START, tokens, n).value) ==
      GitHeaders(tokens, n) + (if PlainStart(tokens, n) then 1 else 0)
    ensures Run(START, tokens, n).value.cur.Some? <==> GitHeaders(tokens, n) > 0 || PlainStart(tokens, n)
  {
    if n > 0 {
      FilesCount(tokens, n - 1);
    }
  }

  // A file for each "diff --git" line, and one more if a path line comes first: so a plain diff,
  // however many files it names, parses to at most one.
  lemma FilesOfInput(text: string, raw: seq<string>, r: Option<seq<FileDiff>>)
    requires IsSplit(text, raw) && ParsesTo(text, r) && r.Some?
    ensures
      var tokens := Tokens(DropCRs(raw));
      |r.value| == GitHeaders(tokens, |tokens|) + (if PlainStart(tokens, |tokens|) then 1 else 0)
  {
    ParseUnique(text, raw, r);
    var tokens := Tokens(DropCRs(raw));
    FilesCount(tokens, |tokens|);
  }
}
