/** Which change intents a guard applies to (internal/rules/rules.go).

    path.Match, the path glob, the ancestor test and the command glob are one argument. */
module GuardMatch {
  import opened Wrappers
  import opened PolicyLayers
  import Glob

  // `paths` are all forms of the paths the intent names, target and lexical ones after the declared.
  datatype Intent = Intent(
    action: string, command: string, packages: seq<string>, declared: seq<string>, paths: seq<string>,
    actor: string, window: string)

  // Each takes the pattern last matched against, except the ancestor test, which takes the path first.
  datatype Matching = Matching(
    path: (string, string) -> bool, ancestor: (string, string) -> bool,
    command: (string, string) -> bool, name: (string, string) -> bool)

  predicate DestroysSubtree(action: string) {
    action == "delete_file" || action == "move_file"
  }

  // ---------- What applying means ----------

  ghost predicate SomeMatches(match1: (string, string) -> bool, patterns: seq<string>, candidates: seq<string>) {
    exists c :: c in candidates && AnyMatches(match1, patterns, c)
  }

  ghost predicate SomeContains(M: Matching, patterns: seq<string>, paths: seq<string>) {
    exists p, g :: p in paths && g in patterns && M.ancestor(p, g)
  }

  // The path category: a path matches, or a destroyed directory holds what a pattern guards.
  ghost predicate Reaches(M: Matching, patterns: seq<string>, action: string, paths: seq<string>) {
    SomeMatches(M.path, patterns, paths) || (DestroysSubtree(action) && SomeContains(M, patterns, paths))
  }

  // An empty category constrains nothing.
  ghost predicate PlaceOk(M: Matching, g: Guard, action: string, paths: seq<string>) {
    && (g.paths == [] || Reaches(M, g.paths, action, paths))
    && (g.matchers.actions == [] || action in g.matchers.actions)
  }

  predicate CommandOk(M: Matching, g: Guard, command: string) {
    g.matchers.commands == [] || (command != "" && AnyMatches(M.command, g.matchers.commands, command))
  }

  ghost predicate PackagesOk(M: Matching, g: Guard, packages: seq<string>) {
    g.matchers.packages == [] || SomeMatches(M.name, g.matchers.packages, packages)
  }

  predicate ActorOk(M: Matching, g: Guard, actor: string) {
    g.matchers.actors == [] || (actor != "" && AnyMatches(M.name, g.matchers.actors, actor))
  }

  predicate WindowOk(g: Guard, window: string) {
    g.matchers.windows == [] || window in g.matchers.windows
  }

  predicate Constrained(g: Guard) {
    g.paths != [] || g.matchers != Matchers([], [], [], [], [])
  }

  // Every category the guard fills has to match, and one has to be filled.
  ghost predicate Applies(M: Matching, g: Guard, ci: Intent) {
    && Constrained(g)
    && PlaceOk(M, g, ci.action, ci.paths) && CommandOk(M, g, ci.command) && PackagesOk(M, g, ci.packages)
    && ActorOk(M, g, ci.actor) && WindowOk(g, ci.window)
  }

  // ---------- Over the guard's own lists ----------

  ghost predicate Hit(match1: (string, string) -> bool, patterns: seq<string>, name: string) {
    exists p :: p in patterns && match1(p, name)
  }

  ghost predicate SomeHit(match1: (string, string) -> bool, patterns: seq<string>, names: seq<string>) {
    exists p, n :: p in patterns && n in names && match1(p, n)
  }

  // A deleted or moved path holds something a pattern guards.
  ghost predicate Destroys(M: Matching, patterns: seq<string>, ci: Intent) {
    && (ci.action == "delete_file" || ci.action == "move_file")
    && exists p, g :: p in ci.paths && g in patterns && M.ancestor(p, g)
  }

  // A guard applies exactly when it fills a category and every one it fills matches.
  lemma AppliesExactly(M: Matching, g: Guard, ci: Intent)
    ensures Applies(M, g, ci) <==>
      && (g.paths != [] || g.matchers.commands != [] || g.matchers.packages != [] || g.matchers.actions != []
          || g.matchers.actors != [] || g.matchers.windows != [])
      && (g.paths != [] ==> SomeHit(M.path, g.paths, ci.paths) || Destroys(M, g.paths, ci))
      && (g.matchers.commands != [] ==> ci.command != "" && Hit(M.command, g.matchers.commands, ci.command))
      && (g.matchers.packages != [] ==> SomeHit(M.name, g.matchers.packages, ci.packages))
      && (g.matchers.actions != [] ==> ci.action in g.matchers.actions)
      && (g.matchers.actors != [] ==> ci.actor != "" && Hit(M.name, g.matchers.actors, ci.actor))
      && (g.matchers.windows != [] ==> ci.window in g.matchers.windows)
  {
    HitExactly(M.command, g.matchers.commands, ci.command);
    HitExactly(M.name, g.matchers.actors, ci.actor);
    SomeHitExactly(M.path, g.paths, ci.paths);
    SomeHitExactly(M.name, g.matchers.packages, ci.packages);
    assert Destroys(M, g.paths, ci) <==> DestroysSubtree(ci.action) && SomeContains(M, g.paths, ci.paths);
  }

  lemma HitExactly(match1: (string, string) -> bool, patterns: seq<string>, name: string)
    ensures Hit(match1, patterns, name) <==> AnyMatches(match1, patterns, name)
  {
  }

  lemma SomeHitExactly(match1: (string, string) -> bool, patterns: seq<string>, names: seq<string>)
    ensures SomeHit(match1, patterns, names) <==> SomeMatches(match1, patterns, names)
  {
    if c :| c in names && AnyMatches(match1, patterns, c) {
      HitExactly(match1, patterns, c);
      var p :| p in patterns && match1(p, c);
    }
    if p, n :| p in patterns && n in names && match1(p, n) {
      HitExactly(match1, patterns, n);
    }
  }

  // ---------- What a finding is labelled with ----------

  function FirstMatched(
    match1: (string, string) -> bool, patterns: seq<string>, candidates: seq<string>): Option<string>
  {
    if candidates == [] then None
    else if AnyMatches(match1, patterns, candidates[0]) then Some(candidates[0])
    else FirstMatched(match1, patterns, candidates[1..])
  }

  function FirstUnder(M: Matching, p: string, patterns: seq<string>): Option<string> {
    if patterns == [] then None
    else if M.ancestor(p, patterns[0]) then Some(p + " contains guarded path " + patterns[0])
    else FirstUnder(M, p, patterns[1..])
  }

  function FirstContained(M: Matching, patterns: seq<string>, paths: seq<string>): Option<string> {
    if paths == [] then None
    else
      match FirstUnder(M, paths[0], patterns)
      case Some(text) => Some(text)
      case None => FirstContained(M, patterns, paths[1..])
  }

  function ReachedBy(M: Matching, patterns: seq<string>, action: string, paths: seq<string>): Option<string> {
    match FirstMatched(M.path, patterns, paths)
    case Some(path) => Some(path)
    case None => if DestroysSubtree(action) then FirstContained(M, patterns, paths) else None
  }

  function PrimaryResource(ci: Intent): string {
    if ci.declared != [] then ci.declared[0]
    else if ci.command != "" then ci.command
    else if ci.packages != [] then ci.packages[0]
    else ci.actor
  }

  function Named(r: Option<string>): string {
    match r
    case Some(name) => name
    case None => ""
  }

  function FirstNonempty(a: string, b: string): string {
    if a != "" then a else b
  }

  // The first path, command or package that a filled category matched, or what the intent is about.
  function ResourceOf(M: Matching, g: Guard, ci: Intent): string {
    var path := if g.paths == [] then "" else Named(ReachedBy(M, g.paths, ci.action, ci.paths));
    var command := if g.matchers.commands == [] then "" else ci.command;
    var package := if g.matchers.packages == [] then ""
      else Named(FirstMatched(M.name, g.matchers.packages, ci.packages));
    FirstNonempty(path, FirstNonempty(command, FirstNonempty(package, PrimaryResource(ci))))
  }

  lemma {:induction false} FirstMatchedExactly(
    match1: (string, string) -> bool, patterns: seq<string>, candidates: seq<string>)
    ensures FirstMatched(match1, patterns, candidates).Some? <==> SomeMatches(match1, patterns, candidates)
    ensures FirstMatched(match1, patterns, candidates).Some? ==>
      FirstMatched(match1, patterns, candidates).value in candidates
  {
    if candidates != [] {
      FirstMatchedExactly(match1, patterns, candidates[1..]);
      assert forall c :: c in candidates <==> c == candidates[0] || c in candidates[1..];
    }
  }

  lemma {:induction false} FirstUnderExactly(M: Matching, p: string, patterns: seq<string>)
    ensures FirstUnder(M, p, patterns).Some? <==> exists g :: g in patterns && M.ancestor(p, g)
  {
    if patterns != [] {
      FirstUnderExactly(M, p, patterns[1..]);
      assert forall g :: g in patterns <==> g == patterns[0] || g in patterns[1..];
    }
  }

  lemma {:induction false} FirstContainedExactly(M: Matching, patterns: seq<string>, paths: seq<string>)
    ensures FirstContained(M, patterns, paths).Some? <==> SomeContains(M, patterns, paths)
  {
    if paths != [] {
      FirstUnderExactly(M, paths[0], patterns);
      FirstContainedExactly(M, patterns, paths[1..]);
      assert forall p :: p in paths <==> p == paths[0] || p in paths[1..];
    }
  }

  // A label is found exactly when the path category matches.
  lemma ReachedExactly(M: Matching, patterns: seq<string>, action: string, paths: seq<string>)
    ensures ReachedBy(M, patterns, action, paths).Some? <==> Reaches(M, patterns, action, paths)
  {
    FirstMatchedExactly(M.path, patterns, paths);
    FirstContainedExactly(M, patterns, paths);
  }

  // The first path a pattern matches.
  ghost predicate FirstHitAt(match1: (string, string) -> bool, patterns: seq<string>, names: seq<string>, k: int) {
    0 <= k < |names| && Hit(match1, patterns, names[k]) && forall j :: 0 <= j < k ==> !Hit(match1, patterns, names[j])
  }

  lemma {:induction false} FirstMatchedMeans(
    match1: (string, string) -> bool, patterns: seq<string>, names: seq<string>, k: int)
    requires FirstHitAt(match1, patterns, names, k)
    ensures FirstMatched(match1, patterns, names) == Some(names[k])
  {
    HitExactly(match1, patterns, names[0]);
    if k > 0 {
      assert names[1..][k - 1] == names[k] && forall j :: 0 <= j < k - 1 ==> names[1..][j] == names[j + 1];
      FirstMatchedMeans(match1, patterns, names[1..], k - 1);
    }
  }

  // A finding is labelled with the first path its paths match, else with the command, else with the
  // first package matched.
  lemma LabelExactly(M: Matching, g: Guard, ci: Intent, k: int)
    requires Applies(M, g, ci)
    ensures g.paths != [] && FirstHitAt(M.path, g.paths, ci.paths, k) && ci.paths[k] != "" ==>
      ResourceOf(M, g, ci) == ci.paths[k]
    ensures g.paths == [] && g.matchers.commands != [] ==> ResourceOf(M, g, ci) == ci.command
    ensures g.paths == [] && g.matchers.commands == [] && g.matchers.packages != [] ==>
      (FirstHitAt(M.name, g.matchers.packages, ci.packages, k) && ci.packages[k] != "" ==>
         ResourceOf(M, g, ci) == ci.packages[k])
    ensures g.paths == [] && g.matchers.commands == [] && g.matchers.packages == [] ==>
      (ci.declared != [] ==> ResourceOf(M, g, ci) == ci.declared[0])
  {
    if FirstHitAt(M.path, g.paths, ci.paths, k) {
      FirstMatchedMeans(M.path, g.paths, ci.paths, k);
    }
    if FirstHitAt(M.name, g.matchers.packages, ci.packages, k) {
      FirstMatchedMeans(M.name, g.matchers.packages, ci.packages, k);
    }
  }

  // ---------- The code's loops ----------

  method MatchAny(match1: (string, string) -> bool, patterns: seq<string>, name: string) returns (ok: bool)
    ensures ok <==> AnyMatches(match1, patterns, name)
  {
    for i := 0 to |patterns|
      invariant forall j :: 0 <= j < i ==> !match1(patterns[j], name)
    {
      if match1(patterns[i], name) {
        return true;
      }
    }
    return false;
  }

  method FirstMatch(match1: (string, string) -> bool, patterns: seq<string>, candidates: seq<string>)
    returns (found: Option<string>)
    ensures found == FirstMatched(match1, patterns, candidates)
  {
    for i := 0 to |candidates|
      invariant FirstMatched(match1, patterns, candidates) == FirstMatched(match1, patterns, candidates[i..])
    {
      var hit := MatchAny(match1, patterns, candidates[i]);
      if hit {
        return Some(candidates[i]);
      }
      assert candidates[i..][1..] == candidates[i + 1..];
    }
    return None;
  }

  method FirstGuardedUnder(M: Matching, p: string, patterns: seq<string>) returns (found: Option<string>)
    ensures found == FirstUnder(M, p, patterns)
  {
    for j := 0 to |patterns|
      invariant FirstUnder(M, p, patterns) == FirstUnder(M, p, patterns[j..])
    {
      if M.ancestor(p, patterns[j]) {
        return Some(p + " contains guarded path " + patterns[j]);
      }
      assert patterns[j..][1..] == patterns[j + 1..];
    }
    return None;
  }

  method ContainsString(values: seq<string>, target: string) returns (ok: bool)
    ensures ok <==> target in values
  {
    for i := 0 to |values|
      invariant target !in values[..i]
    {
      if values[i] == target {
        return true;
      }
    }
    assert values[..|values|] == values;
    return false;
  }

  method MatchGuardPaths(M: Matching, patterns: seq<string>, ci: Intent) returns (found: Option<string>)
    ensures found == ReachedBy(M, patterns, ci.action, ci.paths)
    ensures found.Some? <==> Reaches(M, patterns, ci.action, ci.paths)
  {
    ReachedExactly(M, patterns, ci.action, ci.paths);
    found := FirstMatch(M.path, patterns, ci.paths);
    if found.Some? || !DestroysSubtree(ci.action) {
      return;
    }
    for i := 0 to |ci.paths|
      invariant FirstContained(M, patterns, ci.paths) == FirstContained(M, patterns, ci.paths[i..])
    {
      found := FirstGuardedUnder(M, ci.paths[i], patterns);
      if found.Some? {
        return;
      }
      assert ci.paths[i..][1..] == ci.paths[i + 1..];
    }
    return None;
  }

  method GuardMatches(M: Matching, g: Guard, ci: Intent) returns (matched: bool, resource: string)
    ensures matched <==> Applies(M, g, ci)
    ensures matched ==> resource == ResourceOf(M, g, ci)
  {
    matched, resource := false, "";
    if |g.paths| > 0 {
      var found := MatchGuardPaths(M, g.paths, ci);
      if found.None? { return; }
      matched, resource := true, found.value;
    }
    if |g.matchers.commands| > 0 {
      matched := ci.command != "";
      if matched { matched := MatchAny(M.command, g.matchers.commands, ci.command); }
      if !matched { return; }
      if resource == "" { resource := ci.command; }
    }
    if |g.matchers.packages| > 0 {
      FirstMatchedExactly(M.name, g.matchers.packages, ci.packages);
      var found := FirstMatch(M.name, g.matchers.packages, ci.packages);
      matched := found.Some?;
      if !matched { return; }
      if resource == "" { resource := found.value; }
    }
    if |g.matchers.actions| > 0 {
      matched := ContainsString(g.matchers.actions, ci.action);
      if !matched { return; }
    }
    if |g.matchers.actors| > 0 {
      matched := ci.actor != "";
      if matched { matched := MatchAny(M.name, g.matchers.actors, ci.actor); }
      if !matched { return; }
    }
    if |g.matchers.windows| > 0 {
      matched := ContainsString(g.matchers.windows, ci.window);
      if !matched { return; }
    }
    if resource == "" {
      resource := PrimaryResource(ci);
    }
  }

  // ---------- What one guard covers of another ----------

  // c applies to every intent e applies to.
  ghost predicate Covers(M: Matching, e: Guard, c: Guard) {
    forall ci :: Applies(M, e, ci) ==> Applies(M, c, ci)
  }

  ghost predicate PlacesKept(M: Matching, e: Guard, c: Guard) {
    forall action, paths :: PlaceOk(M, e, action, paths) ==> PlaceOk(M, c, action, paths)
  }

  ghost predicate CommandsKept(M: Matching, e: Guard, c: Guard) {
    forall s :: CommandOk(M, e, s) ==> CommandOk(M, c, s)
  }

  ghost predicate PackagesKept(M: Matching, e: Guard, c: Guard) {
    forall s :: PackagesOk(M, e, s) ==> PackagesOk(M, c, s)
  }

  ghost predicate ActorsKept(M: Matching, e: Guard, c: Guard) {
    forall s :: ActorOk(M, e, s) ==> ActorOk(M, c, s)
  }

  ghost predicate WindowsKept(e: Guard, c: Guard) {
    forall s :: WindowOk(e, s) ==> WindowOk(c, s)
  }

  // Categories are independent: one guard covers another exactly when it does so category by
  // category and still fills one.
  lemma CoversByCategory(M: Matching, e: Guard, c: Guard, ci: Intent)
    requires Applies(M, e, ci)
    ensures Covers(M, e, c) <==>
      && Constrained(c) && PlacesKept(M, e, c) && CommandsKept(M, e, c) && PackagesKept(M, e, c)
      && ActorsKept(M, e, c) && WindowsKept(e, c)
  {
    if Covers(M, e, c) {
      assert Applies(M, c, ci);
      forall action, paths | PlaceOk(M, e, action, paths) ensures PlaceOk(M, c, action, paths) {
        assert Applies(M, e, ci.(action := action, paths := paths));
      }
      forall s | CommandOk(M, e, s) ensures CommandOk(M, c, s) {
        assert Applies(M, e, ci.(command := s));
      }
      forall s | PackagesOk(M, e, s) ensures PackagesOk(M, c, s) {
        assert Applies(M, e, ci.(packages := s));
      }
      forall s | ActorOk(M, e, s) ensures ActorOk(M, c, s) {
        assert Applies(M, e, ci.(actor := s));
      }
      forall s | WindowOk(e, s) ensures WindowOk(c, s) {
        assert Applies(M, e, ci.(window := s));
      }
    }
  }

  // The window category keeps everything exactly when it is dropped, or filled before and extended.
  lemma WindowsKeptExactly(e: Guard, c: Guard)
    ensures WindowsKept(e, c) <==>
      c.matchers.windows == [] || (e.matchers.windows != [] && Superset(c.matchers.windows, e.matchers.windows))
  {
    var other := Unlisted(c.matchers.windows);
    if e.matchers.windows == [] && c.matchers.windows != [] {
      assert WindowOk(e, other) && !WindowOk(c, other);
    }
    if WindowsKept(e, c) && c.matchers.windows != [] {
      forall s | s in e.matchers.windows ensures s in c.matchers.windows {
        assert WindowOk(e, s);
      }
    }
  }

  // A string longer than every listed one.
  lemma {:induction false} Unlisted(list: seq<string>) returns (s: string)
    ensures forall i :: 0 <= i < |list| ==> |list[i]| < |s|
    ensures s !in list
  {
    if list == [] {
      s := "";
    } else {
      var t := Unlisted(list[1..]);
      s := t + list[0] + "x";
      forall i | 0 <= i < |list| ensures |list[i]| < |s| {
        if i > 0 { assert list[i] == list[1..][i - 1]; }
      }
    }
  }

  // A guard that gains patterns where it had none stops applying to intents that name no path.
  lemma PlacesKeptExactly(M: Matching, e: Guard, c: Guard, ci: Intent)
    requires Tightens(e, c) && e.matchers.actions == c.matchers.actions && PlaceOk(M, e, ci.action, ci.paths)
    ensures PlacesKept(M, e, c) <==> e.paths != [] || c.paths == []
  {
    if e.paths == [] && c.paths != [] {
      assert PlaceOk(M, e, ci.action, []) && !PlaceOk(M, c, ci.action, []);
    } else {
      forall action, paths | PlaceOk(M, e, action, paths) ensures PlaceOk(M, c, action, paths) {
        if e.paths != [] { MorePatternsReach(M, e.paths, c.paths, action, paths); }
      }
    }
  }

  lemma MorePatternsReach(M: Matching, few: seq<string>, many: seq<string>, action: string, paths: seq<string>)
    requires Superset(many, few) && Reaches(M, few, action, paths)
    ensures Reaches(M, many, action, paths)
  {
    if SomeMatches(M.path, few, paths) {
      var p :| p in paths && AnyMatches(M.path, few, p);
      var i :| 0 <= i < |few| && M.path(few[i], p);
      assert few[i] in many;
      var j :| 0 <= j < |many| && many[j] == few[i];
      assert AnyMatches(M.path, many, p);
    }
  }

  // With the other categories left alone, a tightening guard covers the one it replaces if and only
  // if it does not give patterns to a guard that had none.
  lemma SameMatchersCoverExactly(M: Matching, e: Guard, c: Guard, ci: Intent)
    requires Tightens(e, c) && e.matchers == c.matchers && Applies(M, e, ci)
    ensures Covers(M, e, c) <==> e.paths != [] || c.paths == []
  {
    CoversByCategory(M, e, c, ci);
    PlacesKeptExactly(M, e, c, ci);
    if e.paths != [] { assert e.paths[0] in c.paths; }
  }

  ghost predicate GlobPaths(match1: Glob.SegmentMatch, home: string, path: (string, string) -> bool) {
    forall p, n :: path(p, n) <==> Glob.PathMatches(match1, home, p, n)
  }

  // Of the path glob: nonempty patterns match every path there is if and only if one of them is "**"
  // and nothing else, once or several times over.
  lemma EveryPathExactly(
    match1: Glob.SegmentMatch, home: string, path: (string, string) -> bool, patterns: seq<string>)
    requires GlobPaths(match1, home, path) && "" !in patterns
    ensures (forall name :: AnyMatches(path, patterns, name)) <==>
      exists i :: 0 <= i < |patterns| && Glob.IsCatchAll(home, patterns[i])
  {
    if forall name :: AnyMatches(path, patterns, name) {
      assert AnyMatches(path, patterns, "");
      var i :| 0 <= i < |patterns| && path(patterns[i], "");
      Glob.MatchesEmptyExactly(match1, home, patterns[i]);
    }
    if i :| 0 <= i < |patterns| && Glob.IsCatchAll(home, patterns[i]) {
      forall name ensures AnyMatches(path, patterns, name) {
        Glob.CatchAllMatches(match1, home, patterns[i], name);
      }
    }
  }

  // So a tightening guard still matches every path the old one matched if and only if the old one
  // had patterns, the new one has none, or one of the new ones is such a catch-all.
  lemma PathsKeptByGlobExactly(
    match1: Glob.SegmentMatch, home: string, path: (string, string) -> bool, e: Guard, c: Guard)
    requires GlobPaths(match1, home, path) && "" !in c.paths && Tightens(e, c)
    ensures (forall name :: MatchesPath(path, e, name) ==> MatchesPath(path, c, name)) <==>
      e.paths != [] || c.paths == [] || exists i :: 0 <= i < |c.paths| && Glob.IsCatchAll(home, c.paths[i])
  {
    PathsKeptExactly(path, e, c);
    EveryPathExactly(match1, home, path, c.paths);
  }

  // A change that names a path is never lost to a catch-all: where nothing but paths is added, the
  // guard still applies to it.
  lemma CatchAllKeepsNamedPaths(
    M: Matching, match1: Glob.SegmentMatch, home: string, e: Guard, c: Guard, ci: Intent, i: nat)
    requires GlobPaths(match1, home, M.path)
    requires i < |c.paths| && Glob.IsCatchAll(home, c.paths[i])
    requires e.matchers == c.matchers && ci.paths != [] && Applies(M, e, ci)
    ensures Applies(M, c, ci)
  {
    Glob.CatchAllMatches(match1, home, c.paths[i], ci.paths[0]);
    assert M.path(c.paths[i], ci.paths[0]);
    assert AnyMatches(M.path, c.paths, ci.paths[0]) && ci.paths[0] in ci.paths;
  }

  // A change that names none is lost all the same: a guard on commands that gains the pattern "**"
  // tightens, and no longer applies to a command without paths.
  lemma CatchAllLosesUnnamedPaths(M: Matching, e: Guard, c: Guard, ci: Intent)
    requires e.paths == [] && c == e.(paths := ["**"]) && Applies(M, e, ci) && ci.paths == []
    ensures Tightens(e, c) && !Applies(M, c, ci)
  {
  }
}
