/** What settles a parsed file's names and status (internal/intent/diff.go), for every input. */
module DiffStatus {
  import opened Wrappers
  import opened Lines
  import opened Diff

  // ---------- Sections ----------

  predicate IsPathLine(token: Token) {
    token.OldSide? || token.NewSide?
  }

  // A "diff --git" line, or the first path line if no such line comes before it.
  predicate Begins(tokens: seq<Token>, a: nat)
    requires a < |tokens|
  {
    tokens[a].GitPaths?
    || (IsPathLine(tokens[a]) && GitHeaders(tokens, a) == 0 && !PlainStart(tokens, a))
  }

  // The section that begins at a, cut off at n: up to the next "diff --git" line.
  function EndBy(tokens: seq<Token>, a: nat, n: nat): (e: nat)
    requires a < n <= |tokens|
    ensures a < e <= n
    ensures forall i :: a < i < e ==> !tokens[i].GitPaths?
    ensures e < n ==> tokens[e].GitPaths?
  {
    if n == a + 1 then n
    else
      var e := EndBy(tokens, a, n - 1);
      if e < n - 1 || tokens[n - 1].GitPaths? then e else n
  }

  // How many sections begin before n.
  function SectionsBefore(tokens: seq<Token>, n: nat): nat
    requires n <= |tokens|
  {
    GitHeaders(tokens, n) + (if PlainStart(tokens, n) then 1 else 0)
  }

  // ---------- What a section says of its file ----------

  function Settle(f: FileDiff, token: Token): FileDiff {
    match token
    case GitPaths(former, latter) => FileDiff(former, latter, Modified, [])
    case OldSide(path) => WithOldPath(f, path)
    case NewSide(path) => WithNewPath(f, path)
    case _ => f
  }

  function Settled(tokens: seq<Token>, a: nat, n: nat): FileDiff
    requires a <= n <= |tokens|
  {
    if n == a then FileDiff("", "", Modified, []) else Settle(Settled(tokens, a, n - 1), tokens[n - 1])
  }

  function WithoutHunks(f: FileDiff): FileDiff {
    f.(hunks := [])
  }

  // After n tokens the section's file is closed with what its whole section says, or still open
  // with what its tokens so far say.
  predicate FileTracks(tokens: seq<Token>, a: nat, n: nat, s: State)
    requires a < n <= |tokens|
  {
    var k, e := SectionsBefore(tokens, a), EndBy(tokens, a, n);
    if e < n then k < |s.files| && WithoutHunks(s.files[k]) == Settled(tokens, a, e)
    else s.cur.Some? && k == |s.files| && WithoutHunks(s.cur.value) == Settled(tokens, a, n)
  }

  lemma TrackingBegins(tokens: seq<Token>, a: nat)
    requires a < |tokens| && Begins(tokens, a) && Run(START, tokens, a + 1).Some?
    ensures FileTracks(tokens, a, a + 1, Run(START, tokens, a + 1).value)
  {
    FilesCount(tokens, a);
    assert Settled(tokens, a, a) == FileDiff("", "", Modified, []);
  }

  lemma TrackingStays(tokens: seq<Token>, a: nat, n: nat, s: State, t: State)
    requires a < n < |tokens| && FileTracks(tokens, a, n, s) && Step(s, tokens[n]) == Some(t)
    ensures FileTracks(tokens, a, n + 1, t)
  {
    assert Settled(tokens, a, n + 1) == Settle(Settled(tokens, a, n), tokens[n]);
  }

  lemma {:induction false} FilesTrack(tokens: seq<Token>, a: nat, n: nat)
    requires a < n <= |tokens| && Begins(tokens, a) && Run(START, tokens, n).Some?
    ensures FileTracks(tokens, a, n, Run(START, tokens, n).value)
  {
    if n == a + 1 {
      TrackingBegins(tokens, a);
    } else {
      FilesTrack(tokens, a, n - 1);
      TrackingStays(tokens, a, n - 1, Run(START, tokens, n - 1).value, Run(START, tokens, n).value);
    }
  }

  // Of every input: the k-th section begins the k-th file, and the file's names and status are
  // what that section alone says.
  lemma EveryFileIsItsSection(text: string, raw: seq<string>, files: seq<FileDiff>, a: nat)
    requires IsSplit(text, raw) && ParsesTo(text, Some(files)) && a < |raw| && Begins(Tokens(DropCRs(raw)), a)
    ensures
      var tokens := Tokens(DropCRs(raw));
      && SectionsBefore(tokens, a) < |files|
      && WithoutHunks(files[SectionsBefore(tokens, a)]) == Settled(tokens, a, EndBy(tokens, a, |tokens|))
  {
    var tokens := Tokens(DropCRs(raw));
    ParseUnique(text, raw, Some(files));
    FilesTrack(tokens, a, |tokens|);
  }

  // ---------- What settles the status ----------

  predicate IsNull(token: Token) {
    IsPathLine(token) && token.path == DEV_NULL
  }

  // The last null-device line of the section is at i.
  predicate LastNullAt(tokens: seq<Token>, a: nat, n: nat, i: int)
    requires a <= n <= |tokens|
  {
    a <= i < n && IsNull(tokens[i]) && forall j :: i < j < n ==> !IsNull(tokens[j])
  }

  ghost predicate LastNullIsNew(tokens: seq<Token>, a: nat, n: nat)
    requires a <= n <= |tokens|
  {
    exists i :: LastNullAt(tokens, a, n, i) && tokens[i].NewSide?
  }

  ghost predicate LastNullIsOld(tokens: seq<Token>, a: nat, n: nat)
    requires a <= n <= |tokens|
  {
    exists i :: LastNullAt(tokens, a, n, i) && tokens[i].OldSide?
  }

  predicate TwoNames(f: FileDiff) {
    f.oldPath != "" && f.newPath != "" && f.oldPath != f.newPath
  }

  // Some "+++" line left the file with two different names.
  predicate RenamedAt(tokens: seq<Token>, a: nat, n: nat, i: int)
    requires a <= n <= |tokens|
  {
    a <= i < n && tokens[i].NewSide? && TwoNames(Settled(tokens, a, i + 1))
  }

  ghost predicate EverRenamed(tokens: seq<Token>, a: nat, n: nat)
    requires a <= n <= |tokens|
  {
    exists i :: RenamedAt(tokens, a, n, i)
  }

  // No "diff --git" line but perhaps the first.
  predicate OneSection(tokens: seq<Token>, a: nat, n: nat)
    requires a <= n <= |tokens|
  {
    forall i :: a < i < n ==> !tokens[i].GitPaths?
  }

  lemma LastNullGrows(tokens: seq<Token>, a: nat, n: nat)
    requires a <= n < |tokens|
    ensures LastNullIsNew(tokens, a, n + 1) <==>
      if IsNull(tokens[n]) then tokens[n].NewSide? else LastNullIsNew(tokens, a, n)
    ensures LastNullIsOld(tokens, a, n + 1) <==>
      if IsNull(tokens[n]) then tokens[n].OldSide? else LastNullIsOld(tokens, a, n)
  {
    if IsNull(tokens[n]) {
      assert LastNullAt(tokens, a, n + 1, n);
    } else {
      forall i ensures LastNullAt(tokens, a, n + 1, i) <==> LastNullAt(tokens, a, n, i) {
      }
    }
  }

  lemma RenamedGrows(tokens: seq<Token>, a: nat, n: nat)
    requires a <= n < |tokens|
    ensures EverRenamed(tokens, a, n + 1) <==> EverRenamed(tokens, a, n) || RenamedAt(tokens, a, n + 1, n)
  {
    if EverRenamed(tokens, a, n + 1) {
      var i :| RenamedAt(tokens, a, n + 1, i);
      assert i == n || RenamedAt(tokens, a, n, i);
    }
    if i :| RenamedAt(tokens, a, n, i) {
      assert RenamedAt(tokens, a, n + 1, i);
    }
  }

  // One line more, of a section in which the last null-device line so far was a "+++" line, a
  // "---" line, or neither, and some "+++" line has left two names, or not.
  lemma StatusStep(f: FileDiff, token: Token, lastNew: bool, lastOld: bool, renamed: bool)
    requires !token.GitPaths? && !(lastNew && lastOld)
    requires (f.status == Deleted <==> lastNew) && (f.status == Added <==> lastOld)
    requires f.status == Renamed <==> !lastNew && !lastOld && renamed
    ensures
      var status := Settle(f, token).status;
      var isNew := if IsNull(token) then token.NewSide? else lastNew;
      var isOld := if IsNull(token) then token.OldSide? else lastOld;
      && (status == Deleted <==> isNew) && (status == Added <==> isOld)
      && (status == Renamed <==>
            !isNew && !isOld && (renamed || (token.NewSide? && TwoNames(Settle(f, token)))))
  {
  }

  // Deleted and added are what the last null-device line says; without one, a file is renamed if
  // and only if some "+++" line left it with two different names.
  ghost predicate StatusIs(tokens: seq<Token>, a: nat, n: nat, status: FileStatus)
    requires a <= n <= |tokens|
  {
    && (status == Deleted <==> LastNullIsNew(tokens, a, n))
    && (status == Added <==> LastNullIsOld(tokens, a, n))
    && (status == Renamed <==>
          !LastNullIsNew(tokens, a, n) && !LastNullIsOld(tokens, a, n) && EverRenamed(tokens, a, n))
  }

  lemma StatusGrows(tokens: seq<Token>, a: nat, n: nat, f: FileDiff)
    requires a <= n < |tokens| && f == Settled(tokens, a, n) && StatusIs(tokens, a, n, f.status)
    requires tokens[n].GitPaths? ==> n == a
    ensures StatusIs(tokens, a, n + 1, Settle(f, tokens[n]).status)
  {
    LastNullGrows(tokens, a, n);
    RenamedGrows(tokens, a, n);
    assert Settled(tokens, a, n + 1) == Settle(f, tokens[n]);
    if !tokens[n].GitPaths? {
      StatusStep(f, tokens[n], LastNullIsNew(tokens, a, n), LastNullIsOld(tokens, a, n), EverRenamed(tokens, a, n));
    }
  }

  lemma {:induction false} StatusExactly(tokens: seq<Token>, a: nat, n: nat)
    requires a <= n <= |tokens| && OneSection(tokens, a, n)
    ensures StatusIs(tokens, a, n, Settled(tokens, a, n).status)
  {
    if n > a {
      StatusExactly(tokens, a, n - 1);
      StatusGrows(tokens, a, n - 1, Settled(tokens, a, n - 1));
    }
  }

  // ---------- What settles the names ----------

  // A line that names the old side, or the new.
  predicate NamesOld(token: Token) {
    token.OldSide? && token.path != DEV_NULL
  }

  predicate NamesNew(token: Token) {
    token.NewSide? && token.path != DEV_NULL
  }

  predicate LastOldAt(tokens: seq<Token>, a: nat, n: nat, i: int)
    requires a <= n <= |tokens|
  {
    a <= i < n && NamesOld(tokens[i]) && forall j :: i < j < n ==> !NamesOld(tokens[j])
  }

  predicate LastNewAt(tokens: seq<Token>, a: nat, n: nat, i: int)
    requires a <= n <= |tokens|
  {
    a <= i < n && NamesNew(tokens[i]) && forall j :: i < j < n ==> !NamesNew(tokens[j])
  }

  // The old name is what the section's last "---" line that is not the null device says; without one,
  // what its header says; without that, nothing.
  ghost predicate OldNameIs(tokens: seq<Token>, a: nat, n: nat, name: string)
    requires a <= n <= |tokens|
  {
    || (exists i :: LastOldAt(tokens, a, n, i) && tokens[i].path == name)
    || ((forall i :: a <= i < n ==> !NamesOld(tokens[i]))
        && name == if a < n && tokens[a].GitPaths? then tokens[a].former else "")
  }

  // The new name, likewise, of the "+++" lines and the header's second name.
  ghost predicate NewNameIs(tokens: seq<Token>, a: nat, n: nat, name: string)
    requires a <= n <= |tokens|
  {
    || (exists i :: LastNewAt(tokens, a, n, i) && tokens[i].path == name)
    || ((forall i :: a <= i < n ==> !NamesNew(tokens[i]))
        && name == if a < n && tokens[a].GitPaths? then tokens[a].latter else "")
  }

  lemma OldNameGrows(tokens: seq<Token>, a: nat, n: nat, name: string)
    requires a <= n < |tokens| && OldNameIs(tokens, a, n, name) && (tokens[n].GitPaths? ==> n == a)
    ensures OldNameIs(tokens, a, n + 1,
      if NamesOld(tokens[n]) then tokens[n].path else if tokens[n].GitPaths? then tokens[n].former else name)
  {
    if NamesOld(tokens[n]) {
      assert LastOldAt(tokens, a, n + 1, n);
    } else if i :| LastOldAt(tokens, a, n, i) && tokens[i].path == name {
      assert LastOldAt(tokens, a, n + 1, i);
    }
  }

  lemma NewNameGrows(tokens: seq<Token>, a: nat, n: nat, name: string)
    requires a <= n < |tokens| && NewNameIs(tokens, a, n, name) && (tokens[n].GitPaths? ==> n == a)
    ensures NewNameIs(tokens, a, n + 1,
      if NamesNew(tokens[n]) then tokens[n].path else if tokens[n].GitPaths? then tokens[n].latter else name)
  {
    if NamesNew(tokens[n]) {
      assert LastNewAt(tokens, a, n + 1, n);
    } else if i :| LastNewAt(tokens, a, n, i) && tokens[i].path == name {
      assert LastNewAt(tokens, a, n + 1, i);
    }
  }

  lemma SettledNames(f: FileDiff, token: Token)
    ensures Settle(f, token).oldPath ==
      if NamesOld(token) then token.path else if token.GitPaths? then token.former else f.oldPath
    ensures Settle(f, token).newPath ==
      if NamesNew(token) then token.path else if token.GitPaths? then token.latter else f.newPath
  {
  }

  ghost predicate NamesAre(tokens: seq<Token>, a: nat, n: nat, f: FileDiff)
    requires a <= n <= |tokens|
  {
    OldNameIs(tokens, a, n, f.oldPath) && NewNameIs(tokens, a, n, f.newPath)
  }

  lemma NamesGrow(tokens: seq<Token>, a: nat, n: nat, f: FileDiff, g: FileDiff)
    requires a <= n < |tokens| && NamesAre(tokens, a, n, f) && (tokens[n].GitPaths? ==> n == a)
    requires g == Settle(f, tokens[n])
    ensures NamesAre(tokens, a, n + 1, g)
  {
    SettledNames(f, tokens[n]);
    OldNameGrows(tokens, a, n, f.oldPath);
    NewNameGrows(tokens, a, n, f.newPath);
  }

  lemma SettledStep(tokens: seq<Token>, a: nat, n: nat)
    requires a < n <= |tokens|
    ensures Settled(tokens, a, n) == Settle(Settled(tokens, a, n - 1), tokens[n - 1])
  {
  }

  lemma NoNames(tokens: seq<Token>, a: nat)
    requires a <= |tokens|
    ensures NamesAre(tokens, a, a, Settled(tokens, a, a))
  {
  }

  lemma {:induction false} NamesExactly(tokens: seq<Token>, a: nat, n: nat, f: FileDiff)
    requires a <= n <= |tokens| && OneSection(tokens, a, n) && f == Settled(tokens, a, n)
    ensures NamesAre(tokens, a, n, f)
  {
    if n == a {
      NoNames(tokens, a);
    } else {
      var before := Settled(tokens, a, n - 1);
      NamesExactly(tokens, a, n - 1, before);
      SettledStep(tokens, a, n);
      NamesGrow(tokens, a, n - 1, before, f);
    }
  }

  // ---------- What is reported ----------

  // Of a section: a deletion if and only if its last null-device line is a "+++" line, which deletes
  // the old name; a move if and only if it has none and some "+++" line left it with two names, which
  // moves the old name to the new; anything else modifies the new name.
  ghost predicate Reports(tokens: seq<Token>, a: nat, e: nat, intent: ChangeIntent)
    requires a <= e <= |tokens|
  {
    && (intent.action == DeleteFile <==> LastNullIsNew(tokens, a, e))
    && (intent.action == MoveFile <==>
          !LastNullIsNew(tokens, a, e) && !LastNullIsOld(tokens, a, e) && EverRenamed(tokens, a, e))
    && |intent.paths| == 1
    && (if intent.action == ModifyFile then NewNameIs(tokens, a, e, intent.paths[0])
        else OldNameIs(tokens, a, e, intent.paths[0]))
    && (if intent.action == MoveFile
        then |intent.targetPaths| == 1 && NewNameIs(tokens, a, e, intent.targetPaths[0])
        else intent.targetPaths == [])
  }

  // Of every input and every section, the intent is the one its header and path lines call for.
  lemma EveryIntentExactly(text: string, raw: seq<string>, files: seq<FileDiff>, a: nat)
    requires IsSplit(text, raw) && ParsesTo(text, Some(files)) && a < |raw| && Begins(Tokens(DropCRs(raw)), a)
    ensures
      var tokens := Tokens(DropCRs(raw));
      var k := SectionsBefore(tokens, a);
      k < |files| && Reports(tokens, a, EndBy(tokens, a, |tokens|), IntentOf(files[k]))
  {
    var tokens := Tokens(DropCRs(raw));
    var e := EndBy(tokens, a, |tokens|);
    EveryFileIsItsSection(text, raw, files, a);
    StatusExactly(tokens, a, e);
    NamesExactly(tokens, a, e, Settled(tokens, a, e));
    var f, g := files[SectionsBefore(tokens, a)], Settled(tokens, a, e);
    assert WithoutHunks(f).status == g.status && WithoutHunks(f).oldPath == g.oldPath;
    assert WithoutHunks(f).newPath == g.newPath;
    SameReport(tokens, a, e, f);
  }

  lemma SameReport(tokens: seq<Token>, a: nat, e: nat, f: FileDiff)
    requires a <= e <= |tokens| && StatusIs(tokens, a, e, f.status)
    requires NamesAre(tokens, a, e, f)
    ensures Reports(tokens, a, e, IntentOf(f))
  {
    assert Intends(f, IntentOf(f));
  }

  lemma {:induction false} HeaderAlone(tokens: seq<Token>, a: nat, n: nat)
    requires a < n <= |tokens| && tokens[a].GitPaths? && OneSection(tokens, a, n)
    requires forall i :: a < i < n ==> !IsPathLine(tokens[i])
    ensures Settled(tokens, a, n) == FileDiff(tokens[a].former, tokens[a].latter, Modified, [])
  {
    if n > a + 1 {
      HeaderAlone(tokens, a, n - 1);
    }
  }

  // So a section without path lines, which is what a pure rename or the deletion of an empty file
  // leaves, is reported as the modification of its header's second name.
  lemma HeaderAloneIsModified(text: string, raw: seq<string>, files: seq<FileDiff>, a: nat)
    requires IsSplit(text, raw) && ParsesTo(text, Some(files)) && a < |raw|
    requires Tokens(DropCRs(raw))[a].GitPaths?
    requires
      var tokens := Tokens(DropCRs(raw));
      forall i :: a < i < EndBy(tokens, a, |tokens|) ==> !IsPathLine(tokens[i])
    ensures
      var tokens := Tokens(DropCRs(raw));
      var k := SectionsBefore(tokens, a);
      k < |files| && IntentOf(files[k]) == ChangeIntent(ModifyFile, [tokens[a].latter], [])
  {
    var tokens := Tokens(DropCRs(raw));
    EveryFileIsItsSection(text, raw, files, a);
    HeaderAlone(tokens, a, EndBy(tokens, a, |tokens|));
    var f := files[SectionsBefore(tokens, a)];
    assert WithoutHunks(f).status == f.status && WithoutHunks(f).newPath == f.newPath;
  }
}
