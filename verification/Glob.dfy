/** Doublestar path globs and the ancestor test (internal/globmatch/globmatch.go).

    path.Match on one segment, path.Clean and the home directory are foreign: a function of
    (pattern, segment), a function of a path, and a string. */
module Glob {
  type SegmentMatch = (string, string) -> bool

  // What path.Match does on a pattern with no metacharacter and no escape: equality.
  predicate Literal(p: string) {
    forall i :: 0 <= i < |p| ==> p[i] != '*' && p[i] != '?' && p[i] != '[' && p[i] != '\\'
  }

  lemma StarsAreNotLiteral(p: string)
    requires Literal(p)
    ensures p != "**"
  {
    assert p != [] && p[0] == '*' ==> false;
  }

  ghost predicate LiteralsMatchThemselves(match1: SegmentMatch) {
    forall p, s :: Literal(p) ==> (match1(p, s) <==> p == s)
  }

  // ---------- matchSegments ----------

  predicate MatchSegments(match1: SegmentMatch, pat: seq<string>, name: seq<string>)
    decreases |pat| + |name|
  {
    if pat == [] then name == []
    else if pat[0] == "**" then
      MatchSegments(match1, pat[1..], name) || (name != [] && MatchSegments(match1, pat, name[1..]))
    else
      name != [] && match1(pat[0], name[0]) && MatchSegments(match1, pat[1..], name[1..])
  }

  // An assignment gives each pattern segment a run of name segments: any run for "**", and
  // one matching segment for anything else.
  ghost predicate Assigns(match1: SegmentMatch, pat: seq<string>, runs: seq<seq<string>>) {
    |runs| == |pat| &&
    forall i :: 0 <= i < |pat| ==> AssignsAt(match1, pat[i], runs[i])
  }

  predicate AssignsAt(match1: SegmentMatch, p: string, run: seq<string>) {
    p == "**" || (|run| == 1 && match1(p, run[0]))
  }

  function Joined(runs: seq<seq<string>>): seq<string> {
    if runs == [] then [] else runs[0] + Joined(runs[1..])
  }

  lemma {:induction false} MatchGivesAssignment(match1: SegmentMatch, pat: seq<string>, name: seq<string>)
    returns (runs: seq<seq<string>>)
    requires MatchSegments(match1, pat, name)
    ensures Assigns(match1, pat, runs) && Joined(runs) == name
    decreases |pat| + |name|
  {
    if pat == [] {
      runs := [];
    } else if pat[0] == "**" {
      if MatchSegments(match1, pat[1..], name) {
        var rest := MatchGivesAssignment(match1, pat[1..], name);
        runs := [[]] + rest;
        assert runs[1..] == rest;
      } else {
        var rest := MatchGivesAssignment(match1, pat, name[1..]);
        runs := [[name[0]] + rest[0]] + rest[1..];
        assert runs[1..] == rest[1..];
        assert Joined(runs) == [name[0]] + Joined(rest);
      }
    } else {
      var rest := MatchGivesAssignment(match1, pat[1..], name[1..]);
      runs := [[name[0]]] + rest;
      assert runs[1..] == rest;
    }
  }

  lemma {:induction false} AssignmentGivesMatch(match1: SegmentMatch, pat: seq<string>, runs: seq<seq<string>>)
    requires Assigns(match1, pat, runs)
    ensures MatchSegments(match1, pat, Joined(runs))
    decreases |pat| + |Joined(runs)|
  {
    if pat != [] {
      var name := Joined(runs);
      assert AssignsAt(match1, pat[0], runs[0]);
      if pat[0] == "**" && runs[0] != [] {
        var shorter := [runs[0][1..]] + runs[1..];
        assert shorter[1..] == runs[1..];
        assert Joined(shorter) == name[1..];
        AssignmentGivesMatch(match1, pat, shorter);
      } else {
        AssignmentGivesMatch(match1, pat[1..], runs[1..]);
        if pat[0] == "**" {
          assert name == Joined(runs[1..]);
        } else {
          assert name[1..] == Joined(runs[1..]);
        }
      }
    }
  }

  // The matcher holds exactly when each "**" can be given a run of zero or more segments and
  // every other pattern segment one matching segment.
  lemma MatchSegmentsExactly(match1: SegmentMatch, pat: seq<string>, name: seq<string>)
    ensures MatchSegments(match1, pat, name) <==> exists runs :: Assigns(match1, pat, runs) && Joined(runs) == name
  {
    if MatchSegments(match1, pat, name) {
      var runs := MatchGivesAssignment(match1, pat, name);
    }
    if runs :| Assigns(match1, pat, runs) && Joined(runs) == name {
      AssignmentGivesMatch(match1, pat, runs);
    }
  }

  // ---------- Segments ----------

  // Segments joined by '/'.
  function JoinSlash(segs: seq<string>): string
    requires segs != []
  {
    if |segs| == 1 then segs[0] else segs[0] + "/" + JoinSlash(segs[1..])
  }

  predicate NoSlash(s: string) {
    '/' !in s
  }

  // The segments of a path: none for the empty path, otherwise what '/' separates.
  ghost predicate IsSegments(s: string, segs: seq<string>) {
    if s == "" then segs == []
    else segs != [] && (forall i :: 0 <= i < |segs| ==> NoSlash(segs[i])) && JoinSlash(segs) == s
  }

  lemma {:induction false} JoinSlashSnoc(segs: seq<string>, last: string)
    requires segs != []
    ensures JoinSlash(segs + [last]) == JoinSlash(segs) + "/" + last
  {
    var longer := segs + [last];
    assert longer[1..] == segs[1..] + [last];
    if |segs| == 1 {
      assert JoinSlash([last]) == last;
      assert longer[1..] == [last];
    } else {
      JoinSlashSnoc(segs[1..], last);
      var tail := JoinSlash(segs[1..]);
      assert segs[0] + "/" + (tail + "/" + last) == (segs[0] + "/" + tail) + "/" + last;
    }
  }

  // What the loop of SplitSegments has: the segments cut off so far, each with its slash, are s[..start].
  ghost predicate CutSoFar(s: string, segs: seq<string>, start: nat)
    requires start <= |s|
  {
    && (forall k :: 0 <= k < |segs| ==> NoSlash(segs[k]))
    && (if segs == [] then start == 0 else JoinSlash(segs) + "/" == s[..start])
  }

  lemma CutOneMore(s: string, segs: seq<string>, start: nat, i: nat)
    requires start <= i < |s| && s[i] == '/' && NoSlash(s[start..i]) && CutSoFar(s, segs, start)
    ensures CutSoFar(s, segs + [s[start..i]], i + 1)
  {
    var seg := s[start..i];
    assert s[..i + 1] == s[..start] + seg + "/";
    if segs == [] {
      assert s[..i + 1] == seg + "/";
      assert [] + [seg] == [seg];
    } else {
      JoinSlashSnoc(segs, seg);
    }
  }

  lemma CutTheLast(s: string, segs: seq<string>, start: nat)
    requires s != "" && start <= |s| && NoSlash(s[start..]) && CutSoFar(s, segs, start)
    ensures IsSegments(s, segs + [s[start..]])
  {
    var last := s[start..];
    assert s == s[..start] + last;
    if segs == [] {
      assert s == last;
      assert [] + [last] == [last];
    } else {
      JoinSlashSnoc(segs, last);
    }
  }

  method SplitSegments(s: string) returns (segs: seq<string>)
    ensures IsSegments(s, segs)
  {
    if |s| == 0 {
      return [];
    }
    segs := [];
    var start, i := 0, 0;
    while i < |s|
      invariant 0 <= start <= i <= |s|
      invariant NoSlash(s[start..i])
      invariant CutSoFar(s, segs, start)
    {
      if s[i] == '/' {
        CutOneMore(s, segs, start, i);
        segs := segs + [s[start..i]];
        start := i + 1;
      } else {
        assert s[start..i + 1] == s[start..i] + [s[i]];
      }
      i := i + 1;
    }
    assert s[start..i] == s[start..];
    CutTheLast(s, segs, start);
    segs := segs + [s[start..]];
  }

  // Every path has its segments.
  lemma {:induction false} SegmentsExist(s: string, start: nat) returns (segs: seq<string>)
    requires start <= |s| && NoSlash(s[..start])
    ensures IsSegments(s, segs)
    decreases |s|, |s| - start
  {
    if s == "" {
      segs := [];
    } else if start == |s| {
      assert s[..start] == s;
      segs := [s];
    } else if s[start] != '/' {
      assert s[..start + 1] == s[..start] + [s[start]];
      segs := SegmentsExist(s, start + 1);
    } else {
      var rest := s[start + 1..];
      var more := [""];
      if rest != "" { more := SegmentsExist(rest, 0); }
      segs := [s[..start]] + more;
      assert segs[1..] == more && JoinSlash(more) == rest;
      assert s == s[..start] + "/" + rest;
    }
  }

  lemma FirstSlash(a: string, u: string, b: string, v: string)
    requires NoSlash(a) && NoSlash(b) && a + "/" + u == b + "/" + v
    ensures a == b && u == v
  {
    var x, y := a + "/" + u, b + "/" + v;
    assert x[|a|] == '/' && y[|b|] == '/';
    assert forall k :: 0 <= k < |a| ==> x[k] == a[k];
    assert forall k :: 0 <= k < |b| ==> y[k] == b[k];
    assert x[..|a|] == a && y[..|b|] == b;
    assert x[|a| + 1..] == u && y[|b| + 1..] == v;
  }

  lemma {:induction false} JoinSlashInjective(a: seq<string>, b: seq<string>)
    requires a != [] && b != [] && JoinSlash(a) == JoinSlash(b)
    requires (forall i :: 0 <= i < |a| ==> NoSlash(a[i])) && (forall i :: 0 <= i < |b| ==> NoSlash(b[i]))
    ensures a == b
  {
    if |a| > 1 { LongJoinHasSlash(a); }
    if |b| > 1 { LongJoinHasSlash(b); }
    if |a| > 1 && |b| > 1 {
      FirstSlash(a[0], JoinSlash(a[1..]), b[0], JoinSlash(b[1..]));
      JoinSlashInjective(a[1..], b[1..]);
      assert a == [a[0]] + a[1..] && b == [b[0]] + b[1..];
    }
  }

  lemma LongJoinHasSlash(segs: seq<string>)
    requires |segs| > 1
    ensures '/' in JoinSlash(segs)
  {
    assert JoinSlash(segs)[|segs[0]|] == '/';
  }

  lemma SegmentsUnique(s: string, a: seq<string>, b: seq<string>)
    requires IsSegments(s, a) && IsSegments(s, b)
    ensures a == b
  {
    if s != "" {
      JoinSlashInjective(a, b);
    }
  }

  // ---------- MatchPath and IsAncestor ----------

  function ExpandHome(home: string, p: string): string {
    if home != "" && "~/" <= p then home + p[1..] else p
  }

  ghost predicate PathMatches(match1: SegmentMatch, home: string, pattern: string, name: string) {
    exists ps, ns :: IsSegments(ExpandHome(home, pattern), ps) && IsSegments(ExpandHome(home, name), ns)
      && MatchSegments(match1, ps, ns)
  }

  method MatchPath(match1: SegmentMatch, home: string, pattern: string, name: string) returns (ok: bool)
    ensures ok <==> PathMatches(match1, home, pattern, name)
  {
    var ps := SplitSegments(ExpandHome(home, pattern));
    var ns := SplitSegments(ExpandHome(home, name));
    ok := MatchSegments(match1, ps, ns);
    forall ps2, ns2 | IsSegments(ExpandHome(home, pattern), ps2) && IsSegments(ExpandHome(home, name), ns2)
      ensures ps2 == ps && ns2 == ns
    {
      SegmentsUnique(ExpandHome(home, pattern), ps, ps2);
      SegmentsUnique(ExpandHome(home, name), ns, ns2);
    }
  }

  // A leading "~/" is the home directory, on the pattern's side and on the name's. Every other
  // spelling stands for itself.
  lemma TildeIsHome(match1: SegmentMatch, home: string, rest: string, other: string)
    requires home != "" && !("~/" <= home)
    ensures PathMatches(match1, home, "~/" + rest, other) <==> PathMatches(match1, home, home + "/" + rest, other)
    ensures PathMatches(match1, home, other, "~/" + rest) <==> PathMatches(match1, home, other, home + "/" + rest)
  {
    TildeExactly(home, rest);
  }

  // The two spellings mean one path unless the home directory itself begins with "~/".
  lemma TildeExactly(home: string, rest: string)
    requires home != ""
    ensures ExpandHome(home, "~/" + rest) == ExpandHome(home, home + "/" + rest) <==> !("~/" <= home)
    ensures ExpandHome(home, "~/" + rest) == home + "/" + rest
  {
    var short, long := "~/" + rest, home + "/" + rest;
    assert short[1..] == "/" + rest;
    assert home + short[1..] == long;
    if "~/" <= long {
      assert long[0] == '~' && long[1] == '/';
      assert |home| > 1 ==> home[0] == '~' && home[1] == '/';
      if |home| == 1 {
        assert home == "~" && long == short;
      }
    }
  }

  lemma OthersStand(match1: SegmentMatch, home: string, pattern: string, name: string)
    requires home == "" || (!("~/" <= pattern) && !("~/" <= name))
    ensures PathMatches(match1, home, pattern, name) <==>
      exists ps, ns :: IsSegments(pattern, ps) && IsSegments(name, ns) && MatchSegments(match1, ps, ns)
  {
  }

  predicate OnlyStars(pat: seq<string>) {
    forall i :: 0 <= i < |pat| ==> pat[i] == "**"
  }

  lemma {:induction false} OnlyStarsMatchNothing(match1: SegmentMatch, pat: seq<string>)
    ensures MatchSegments(match1, pat, []) <==> OnlyStars(pat)
  {
    if pat != [] {
      OnlyStarsMatchNothing(match1, pat[1..]);
      assert OnlyStars(pat) <==> pat[0] == "**" && OnlyStars(pat[1..]) by {
        forall i | 0 <= i < |pat| ensures i > 0 ==> pat[i] == pat[1..][i - 1] {
        }
      }
    }
  }

  lemma {:induction false} StarsTakeAll(match1: SegmentMatch, pat: seq<string>, name: seq<string>)
    requires pat != [] && OnlyStars(pat)
    ensures MatchSegments(match1, pat, name)
    decreases |name|
  {
    if name == [] {
      OnlyStarsMatchNothing(match1, pat);
    } else {
      StarsTakeAll(match1, pat, name[1..]);
    }
  }

  // A pattern of one or more "**" and nothing else.
  ghost predicate IsCatchAll(home: string, pattern: string) {
    exists segs :: segs != [] && IsSegments(ExpandHome(home, pattern), segs) && OnlyStars(segs)
  }

  // It matches every path, and among nonempty patterns it alone matches the empty one.
  lemma CatchAllMatches(match1: SegmentMatch, home: string, pattern: string, name: string)
    requires IsCatchAll(home, pattern)
    ensures PathMatches(match1, home, pattern, name)
  {
    var segs :| segs != [] && IsSegments(ExpandHome(home, pattern), segs) && OnlyStars(segs);
    var ns := SegmentsExist(ExpandHome(home, name), 0);
    StarsTakeAll(match1, segs, ns);
  }

  lemma MatchesEmptyExactly(match1: SegmentMatch, home: string, pattern: string)
    requires pattern != ""
    ensures PathMatches(match1, home, pattern, "") <==> IsCatchAll(home, pattern)
  {
    assert ExpandHome(home, "") == "" && ExpandHome(home, pattern) != "";
    if PathMatches(match1, home, pattern, "") {
      var ps, ns :| IsSegments(ExpandHome(home, pattern), ps) && IsSegments("", ns) && MatchSegments(match1, ps, ns);
      OnlyStarsMatchNothing(match1, ps);
    }
    if IsCatchAll(home, pattern) {
      CatchAllMatches(match1, home, pattern, "");
    }
  }

  lemma DoublestarIsCatchAll(home: string)
    ensures IsCatchAll(home, "**")
  {
    assert JoinSlash(["**"]) == "**" && NoSlash("**");
    assert !("~/" <= "**") by { assert "**"[0] != '~'; }
    assert IsSegments(ExpandHome(home, "**"), ["**"]);
    assert OnlyStars(["**"]);
  }

  predicate IsWildcard(s: string) {
    s == "**" || exists i :: 0 <= i < |s| && (s[i] == '*' || s[i] == '?' || s[i] == '[')
  }

  // n segments before the first wildcard segment, or all of them.
  ghost predicate IsLiteralPrefix(segs: seq<string>, n: nat, hasWildcard: bool) {
    && n <= |segs| && (forall i :: 0 <= i < n ==> !IsWildcard(segs[i]))
    && (if hasWildcard then n < |segs| && IsWildcard(segs[n]) else n == |segs|)
  }

  method LiteralPrefix(segs: seq<string>) returns (lit: seq<string>, hasWildcard: bool)
    ensures lit <= segs && IsLiteralPrefix(segs, |lit|, hasWildcard)
  {
    var i := 0;
    while i < |segs|
      invariant 0 <= i <= |segs|
      invariant forall j :: 0 <= j < i ==> !IsWildcard(segs[j])
    {
      if IsWildcard(segs[i]) {
        return segs[..i], true;
      }
      i := i + 1;
    }
    return segs, false;
  }

  // p's segments lead to g's literal prefix, strictly when g is all literal.
  ghost predicate AncestorOf(p: seq<string>, g: seq<string>) {
    p != [] && exists n: nat, w :: IsLiteralPrefix(g, n, w) && |p| <= n && p == g[..|p|] && (|p| < n || w)
  }

  // The path is nonempty, properly begins the pattern, and holds no metacharacter.
  lemma AncestorOfExactly(p: seq<string>, g: seq<string>)
    ensures AncestorOf(p, g) <==>
      p != [] && p < g && forall i :: 0 <= i < |p| ==> '*' !in p[i] && '?' !in p[i] && '[' !in p[i]
  {
    assert forall i :: 0 <= i < |p| ==> (IsWildcard(p[i]) <==> '*' in p[i] || '?' in p[i] || '[' in p[i]) by {
      forall i | 0 <= i < |p| ensures IsWildcard(p[i]) <==> '*' in p[i] || '?' in p[i] || '[' in p[i] {
        WildcardExactly(p[i]);
      }
    }
    if AncestorOf(p, g) {
      var n: nat, w :| IsLiteralPrefix(g, n, w) && |p| <= n && p == g[..|p|] && (|p| < n || w);
      assert forall i :: 0 <= i < |p| ==> p[i] == g[i];
    }
    if p != [] && p < g && forall i :: 0 <= i < |p| ==> !IsWildcard(p[i]) {
      var n, w := LiteralPrefixExists(g, |p|);
      assert p == g[..|p|];
    }
  }

  lemma WildcardExactly(s: string)
    ensures IsWildcard(s) <==> '*' in s || '?' in s || '[' in s
  {
    assert "**"[0] == '*';
  }

  lemma {:induction false} LiteralPrefixExists(g: seq<string>, from: nat) returns (n: nat, w: bool)
    requires from <= |g| && forall i :: 0 <= i < from ==> !IsWildcard(g[i])
    ensures IsLiteralPrefix(g, n, w) && from <= n
    decreases |g| - from
  {
    if from == |g| {
      n, w := from, false;
    } else if IsWildcard(g[from]) {
      n, w := from, true;
    } else {
      n, w := LiteralPrefixExists(g, from + 1);
    }
  }

  function CleanPath(clean: string -> string, home: string, p: string): string {
    if p == "" then "" else clean(ExpandHome(home, p))
  }

  ghost predicate PathIsAncestor(clean: string -> string, home: string, p: string, g: string) {
    exists ps, gs :: IsSegments(CleanPath(clean, home, p), ps) && IsSegments(CleanPath(clean, home, g), gs)
      && AncestorOf(ps, gs)
  }

  method IsAncestor(clean: string -> string, home: string, intentPath: string, guardPattern: string) returns (ok: bool)
    ensures ok <==> PathIsAncestor(clean, home, intentPath, guardPattern)
  {
    var pathSegs := SplitSegments(CleanPath(clean, home, intentPath));
    var guardSegs := SplitSegments(CleanPath(clean, home, guardPattern));
    forall p, g | IsSegments(CleanPath(clean, home, intentPath), p)
      && IsSegments(CleanPath(clean, home, guardPattern), g)
      ensures p == pathSegs && g == guardSegs
    {
      SegmentsUnique(CleanPath(clean, home, intentPath), p, pathSegs);
      SegmentsUnique(CleanPath(clean, home, guardPattern), g, guardSegs);
    }
    var lit, hasWildcard := LiteralPrefix(guardSegs);
    forall n: nat, w | IsLiteralPrefix(guardSegs, n, w) ensures n == |lit| && w == hasWildcard {
      LiteralPrefixUnique(guardSegs, n, w, |lit|, hasWildcard);
    }
    if |pathSegs| == 0 || |pathSegs| > |lit| {
      return false;
    }
    var i := 0;
    while i < |pathSegs|
      invariant 0 <= i <= |pathSegs|
      invariant pathSegs[..i] == lit[..i]
    {
      if pathSegs[i] != lit[i] {
        assert guardSegs[..|pathSegs|][i] == lit[i];
        return false;
      }
      i := i + 1;
    }
    assert pathSegs == guardSegs[..|pathSegs|];
    return |pathSegs| < |lit| || hasWildcard;
  }

  lemma LiteralPrefixUnique(segs: seq<string>, n: nat, w: bool, m: nat, v: bool)
    requires IsLiteralPrefix(segs, n, w) && IsLiteralPrefix(segs, m, v)
    ensures n == m && w == v
  {
  }

  // ---------- Soundness of the ancestor test ----------

  predicate NoBackslash(segs: seq<string>) {
    forall i :: 0 <= i < |segs| ==> '\\' !in segs[i]
  }

  // Where the pattern is literal, every name it matches reads the same.
  lemma {:induction false} LiteralHeadIsKept(match1: SegmentMatch, pat: seq<string>, name: seq<string>, n: nat)
    requires LiteralsMatchThemselves(match1) && NoBackslash(pat) && MatchSegments(match1, pat, name)
    requires n <= |pat| && forall i :: 0 <= i < n ==> !IsWildcard(pat[i])
    ensures n <= |name| && name[..n] == pat[..n]
    ensures n == |pat| ==> name == pat
    decreases n
  {
    if n > 0 {
      assert !IsWildcard(pat[0]) && Literal(pat[0]);
      LiteralHeadIsKept(match1, pat[1..], name[1..], n - 1);
      assert pat[..n] == [pat[0]] + pat[1..][..n - 1];
      assert name[..n] == [name[0]] + name[1..][..n - 1];
      assert pat == [pat[0]] + pat[1..] && name == [name[0]] + name[1..];
    }
  }

  // If p is judged an ancestor of g, then p's segments begin the segments of every name g
  // matches, and properly so when g has no wildcard segment.
  lemma AncestorIsSound(match1: SegmentMatch, p: seq<string>, g: seq<string>, name: seq<string>)
    requires LiteralsMatchThemselves(match1) && NoBackslash(g)
    requires AncestorOf(p, g) && MatchSegments(match1, g, name)
    ensures p <= name
    ensures (forall i :: 0 <= i < |g| ==> !IsWildcard(g[i])) ==> p < name
  {
    var n: nat, w :| IsLiteralPrefix(g, n, w) && |p| <= n && p == g[..|p|] && (|p| < n || w);
    LiteralHeadIsKept(match1, g, name, n);
    assert name[..|p|] == name[..n][..|p|] == g[..n][..|p|];
  }

  // ---------- Exactly when every matched name starts with the path ----------

  predicate SlashFree(segs: seq<string>) {
    forall i :: 0 <= i < |segs| ==> NoSlash(segs[i])
  }

  // The segments of some path: a single empty segment is none.
  predicate IsName(segs: seq<string>) {
    SlashFree(segs) && segs != [""]
  }

  lemma NamesExactly(segs: seq<string>)
    ensures IsName(segs) <==> exists s :: IsSegments(s, segs)
  {
    if IsName(segs) {
      if segs == [] {
        assert IsSegments("", segs);
      } else {
        if |segs| > 1 { LongJoinHasSlash(segs); }
        assert IsSegments(JoinSlash(segs), segs);
      }
    }
  }

  // Pattern segment i can only match the path's segment i.
  ghost predicate ForcesAt(match1: SegmentMatch, p: seq<string>, g: seq<string>, i: int)
    requires 0 <= i < |p| && i < |g|
  {
    g[i] != "**" && forall t :: NoSlash(t) && match1(g[i], t) ==> t == p[i]
  }

  ghost predicate Forces(match1: SegmentMatch, p: seq<string>, g: seq<string>) {
    |p| <= |g| && forall i :: 0 <= i < |p| ==> ForcesAt(match1, p, g, i)
  }

  lemma ForcesTail(match1: SegmentMatch, p: seq<string>, g: seq<string>)
    requires p != [] && g != []
    ensures Forces(match1, p, g) <==> ForcesAt(match1, p, g, 0) && Forces(match1, p[1..], g[1..])
  {
    if Forces(match1, p, g) {
      forall i | 0 <= i < |p[1..]| ensures ForcesAt(match1, p[1..], g[1..], i) {
        assert ForcesAt(match1, p, g, i + 1);
      }
    }
    if ForcesAt(match1, p, g, 0) && Forces(match1, p[1..], g[1..]) {
      forall i | 0 <= i < |p| ensures ForcesAt(match1, p, g, i) {
        if i > 0 { assert ForcesAt(match1, p[1..], g[1..], i - 1); }
      }
    }
  }

  lemma {:induction false} ForcedPrefix(match1: SegmentMatch, p: seq<string>, g: seq<string>, name: seq<string>)
    requires Forces(match1, p, g) && MatchSegments(match1, g, name) && SlashFree(name)
    ensures p <= name
    decreases |p|
  {
    if p != [] {
      ForcesTail(match1, p, g);
      ForcedPrefix(match1, p[1..], g[1..], name[1..]);
      assert p == [p[0]] + p[1..] && name == [name[0]] + name[1..];
    }
  }

  lemma PrefixTail(p: seq<string>, name: seq<string>)
    requires p != [] && name != []
    ensures p <= name ==> p[1..] <= name[1..]
  {
  }

  // A pattern that forces less matches some segments that start otherwise.
  lemma {:induction false} Escapes(match1: SegmentMatch, p: seq<string>, g: seq<string>, w: seq<string>)
    returns (name: seq<string>)
    requires !Forces(match1, p, g) && MatchSegments(match1, g, w) && SlashFree(w)
    ensures MatchSegments(match1, g, name) && SlashFree(name) && |name| >= |w| && !(p <= name)
    decreases |p|
  {
    if g == [] {
      name := w;
    } else if g[0] == "**" {
      name := [if p[0] == "x" then "y" else "x"] + w;
      assert name[1..] == w;
    } else if t :| NoSlash(t) && match1(g[0], t) && t != p[0] {
      name := [t] + w[1..];
      assert name[1..] == w[1..];
    } else {
      ForcesTail(match1, p, g);
      var rest := Escapes(match1, p[1..], g[1..], w[1..]);
      name := [w[0]] + rest;
      assert name[1..] == rest;
      PrefixTail(p, name);
    }
  }

  lemma {:induction false} NoStarsSameLength(match1: SegmentMatch, g: seq<string>, w: seq<string>)
    requires "**" !in g && MatchSegments(match1, g, w)
    ensures |w| == |g|
  {
    if g != [] {
      NoStarsSameLength(match1, g[1..], w[1..]);
    }
  }

  lemma {:induction false} StarsTakeOneMore(match1: SegmentMatch, g: seq<string>, w: seq<string>)
    returns (v: seq<string>)
    requires "**" in g && MatchSegments(match1, g, w) && SlashFree(w)
    ensures MatchSegments(match1, g, v) && SlashFree(v) && |v| == |w| + 1
    decreases |g|
  {
    if g[0] == "**" {
      v := ["x"] + w;
      assert v[1..] == w;
    } else {
      var rest := StarsTakeOneMore(match1, g[1..], w[1..]);
      v := [w[0]] + rest;
      assert v[1..] == rest;
    }
  }

  // A pattern of several segments that matches a name matches a name of several segments.
  lemma LongName(match1: SegmentMatch, g: seq<string>, w: seq<string>) returns (v: seq<string>)
    requires |g| > 1 && MatchSegments(match1, g, w) && SlashFree(w)
    ensures MatchSegments(match1, g, v) && SlashFree(v) && |v| > 1
  {
    v := w;
    if "**" in g {
      v := StarsTakeOneMore(match1, g, v);
      v := StarsTakeOneMore(match1, g, v);
    } else {
      NoStarsSameLength(match1, g, w);
    }
  }

  // Every name the pattern matches starts with p.
  ghost predicate AllBeneath(match1: SegmentMatch, p: seq<string>, g: seq<string>) {
    forall name :: IsName(name) && MatchSegments(match1, g, name) ==> p <= name
  }

  lemma PrefixForcedExactly(match1: SegmentMatch, p: seq<string>, g: seq<string>, w: seq<string>)
    requires |g| > 1 && IsName(w) && MatchSegments(match1, g, w)
    ensures AllBeneath(match1, p, g) <==> Forces(match1, p, g)
  {
    if Forces(match1, p, g) {
      forall name | IsName(name) && MatchSegments(match1, g, name) ensures p <= name {
        ForcedPrefix(match1, p, g, name);
      }
    } else {
      var v := LongName(match1, g, w);
      var name := Escapes(match1, p, g, v);
      assert IsName(name);
    }
  }

  // A segment that, read as a pattern, matches no segment but itself.
  ghost predicate OnlyItself(match1: SegmentMatch, s: string) {
    forall t :: NoSlash(t) && match1(s, t) ==> t == s
  }

  // For a pattern that matches something: the test's answer holds of every name the pattern matches
  // if and only if each of the path's segments, read as a pattern, matches nothing but itself.
  lemma AncestorSoundExactly(match1: SegmentMatch, p: seq<string>, g: seq<string>, w: seq<string>)
    requires AncestorOf(p, g) && IsName(w) && MatchSegments(match1, g, w)
    ensures AllBeneath(match1, p, g) <==> forall i :: 0 <= i < |p| ==> OnlyItself(match1, p[i])
  {
    var n: nat, wild :| IsLiteralPrefix(g, n, wild) && |p| <= n && p == g[..|p|] && (|p| < n || wild);
    forall i | 0 <= i < |p| ensures ForcesAt(match1, p, g, i) <==> OnlyItself(match1, p[i]) {
      assert p[i] == g[..|p|][i] && !IsWildcard(g[i]);
    }
    PrefixForcedExactly(match1, p, g, w);
  }

  // A pattern whose own segments force p matches only names that start with p, and properly so when
  // it has more segments and no "**" among them.
  lemma AncestorPathIsSound(
    match1: SegmentMatch, home: string, p: seq<string>, g: string, name: string,
    gSegs: seq<string>, nameSegs: seq<string>)
    requires IsSegments(ExpandHome(home, g), gSegs) && IsSegments(ExpandHome(home, name), nameSegs)
    requires Forces(match1, p, gSegs) && PathMatches(match1, home, g, name)
    ensures p <= nameSegs
    ensures "**" !in gSegs && |p| < |gSegs| ==> p < nameSegs
  {
    var ps, ns :|
      IsSegments(ExpandHome(home, g), ps) && IsSegments(ExpandHome(home, name), ns) && MatchSegments(match1, ps, ns);
    SegmentsUnique(ExpandHome(home, g), ps, gSegs);
    SegmentsUnique(ExpandHome(home, name), ns, nameSegs);
    ForcedPrefix(match1, p, gSegs, nameSegs);
    if "**" !in gSegs { NoStarsSameLength(match1, gSegs, nameSegs); }
  }

  // The test cleans the guard pattern and the matcher does not. So for a pattern as it is written,
  // the answer is right if and only if the pattern's own segments force the cleaned path's. The test
  // says yes to no pattern of a single segment, which cleaning leaves one.
  lemma AncestorPathExactly(
    match1: SegmentMatch, clean: string -> string, home: string, p: string, g: string,
    pSegs: seq<string>, gSegs: seq<string>, w: seq<string>)
    requires PathIsAncestor(clean, home, p, g)
    requires IsSegments(CleanPath(clean, home, p), pSegs) && IsSegments(ExpandHome(home, g), gSegs)
    requires |gSegs| > 1 && IsName(w) && MatchSegments(match1, gSegs, w)
    ensures AllBeneath(match1, pSegs, gSegs) <==> Forces(match1, pSegs, gSegs)
  {
    PrefixForcedExactly(match1, pSegs, gSegs, w);
  }

  // So where the pattern's leading segments hold no metacharacter, the answer is right if and only
  // if the pattern as it is written starts with the cleaned path.
  lemma LiteralPatternExactly(
    match1: SegmentMatch, clean: string -> string, home: string, p: string, g: string,
    pSegs: seq<string>, gSegs: seq<string>, w: seq<string>)
    requires LiteralsMatchThemselves(match1) && PathIsAncestor(clean, home, p, g)
    requires IsSegments(CleanPath(clean, home, p), pSegs) && IsSegments(ExpandHome(home, g), gSegs)
    requires |gSegs| > 1 && IsName(w) && MatchSegments(match1, gSegs, w)
    requires forall i :: 0 <= i < |pSegs| && i < |gSegs| ==> Literal(gSegs[i])
    ensures AllBeneath(match1, pSegs, gSegs) <==> pSegs <= gSegs
  {
    PrefixForcedExactly(match1, pSegs, gSegs, w);
    if |pSegs| <= |gSegs| {
      forall i | 0 <= i < |pSegs| ensures ForcesAt(match1, pSegs, gSegs, i) <==> gSegs[i] == pSegs[i] {
        assert Literal(gSegs[i]) && match1(gSegs[i], gSegs[i]);
        StarsAreNotLiteral(gSegs[i]);
      }
    }
  }

  // One way to fail: the test reads `\\x` as a literal segment, while path.Match reads an escaped x.
  lemma BackslashIsUnsound(match1: SegmentMatch)
    requires match1("\\x", "x") && match1("*", "y")
    ensures AncestorOf(["\\x"], ["\\x", "*"]) && MatchSegments(match1, ["\\x", "*"], ["x", "y"])
    ensures !(["\\x"] <= ["x", "y"])
  {
    var g := ["\\x", "*"];
    assert IsWildcard("*") by { assert "*"[0] == '*'; }
    assert !IsWildcard("\\x");
    assert IsLiteralPrefix(g, 1, true);
    assert ["\\x"] == g[..1];
    assert g[1..] == ["*"] && ["x", "y"][1..] == ["y"] && ["*"][1..] == [] && ["y"][1..] == [];
    assert MatchSegments(match1, ["*"], ["y"]);
    assert "\\x" != "x";
  }

  lemma ThreeSegments(a: string, b: string, c: string)
    requires NoSlash(a) && NoSlash(b) && NoSlash(c)
    ensures IsSegments(a + "/" + (b + "/" + c), [a, b, c])
  {
    assert [a, b, c][1..] == [b, c] && [b, c][1..] == [c];
    assert JoinSlash([c]) == c;
    assert JoinSlash([b, c]) == b + "/" + c;
    assert (a + "/" + (b + "/" + c))[|a|] == '/';
  }

  lemma MoreSegments(a: string, s: string, segs: seq<string>)
    requires NoSlash(a) && s != "" && IsSegments(s, segs)
    ensures IsSegments(a + "/" + s, [a] + segs)
  {
    assert ([a] + segs)[1..] == segs;
    assert (a + "/" + s)[|a|] == '/';
  }

  // Another: the guard pattern `/a//b/**` is cleaned for the test, which then judges it beneath
  // `/a/b`, and not for the matcher, whose names start otherwise.
  lemma UncleanPatternIsUnsound(match1: SegmentMatch, clean: string -> string)
    requires LiteralsMatchThemselves(match1)
    requires clean("/a/b") == "/a/b" && clean("/a//b/**") == "/a/b/**"
    ensures PathIsAncestor(clean, "", "/a/b", "/a//b/**")
    ensures PathMatches(match1, "", "/a//b/**", "/a//b/c")
    ensures IsSegments("/a/b", ["", "a", "b"]) && IsSegments("/a//b/c", ["", "a", "", "b", "c"])
    ensures !(["", "a", "b"] <= ["", "a", "", "b", "c"])
  {
    UncleanSegments();
    UncleanIsJudgedBeneath(clean);
    MatchesUnclean(match1);
    assert ["", "a", "", "b", "c"][2] == "" && ["", "a", "b"][2] == "b";
  }

  lemma UncleanSegments()
    ensures IsSegments("/a/b", ["", "a", "b"]) && IsSegments("/a/b/**", ["", "a", "b", "**"])
    ensures IsSegments("/a//b/**", ["", "a", "", "b", "**"]) && IsSegments("/a//b/c", ["", "a", "", "b", "c"])
  {
    ThreeSegments("", "a", "b");
    assert "" + "/" + ("a" + "/" + "b") == "/a/b";
    ThreeSegments("a", "b", "**");
    MoreSegments("", "a/b/**", ["a", "b", "**"]);
    assert "a" + "/" + ("b" + "/" + "**") == "a/b/**" && "" + "/" + "a/b/**" == "/a/b/**";
    assert [""] + ["a", "b", "**"] == ["", "a", "b", "**"];
    UncleanTail("**");
    UncleanTail("c");
    assert "/a//b/" + "**" == "/a//b/**" && "/a//b/" + "c" == "/a//b/c";
  }

  lemma UncleanTail(last: string)
    requires NoSlash(last)
    ensures IsSegments("/a//b/" + last, ["", "a", "", "b", last])
  {
    ThreeSegments("", "b", last);
    var s := "" + "/" + ("b" + "/" + last);
    MoreSegments("a", s, ["", "b", last]);
    MoreSegments("", "a" + "/" + s, ["a"] + ["", "b", last]);
    assert "" + "/" + ("a" + "/" + s) == "/a//b/" + last;
    assert [""] + (["a"] + ["", "b", last]) == ["", "a", "", "b", last];
  }

  lemma UncleanIsJudgedBeneath(clean: string -> string)
    requires clean("/a/b") == "/a/b" && clean("/a//b/**") == "/a/b/**"
    ensures PathIsAncestor(clean, "", "/a/b", "/a//b/**")
  {
    UncleanSegments();
    var p, g := ["", "a", "b"], ["", "a", "b", "**"];
    assert !IsWildcard("") && !IsWildcard("a") && !IsWildcard("b") && IsWildcard("**");
    assert IsLiteralPrefix(g, 3, true);
    assert p == g[..3];
    assert AncestorOf(p, g);
  }

  lemma MatchesUnclean(match1: SegmentMatch)
    requires LiteralsMatchThemselves(match1)
    ensures PathMatches(match1, "", "/a//b/**", "/a//b/c")
  {
    UncleanSegments();
    UncleanNameMatches(match1, ["", "a", "", "b"], "c");
    assert ["", "a", "", "b"] + ["**"] == ["", "a", "", "b", "**"];
    assert ["", "a", "", "b"] + ["c"] == ["", "a", "", "b", "c"];
  }

  lemma {:induction false} UncleanNameMatches(match1: SegmentMatch, head: seq<string>, last: string)
    requires LiteralsMatchThemselves(match1) && forall i :: 0 <= i < |head| ==> Literal(head[i])
    ensures MatchSegments(match1, head + ["**"], head + [last])
  {
    var g, name := head + ["**"], head + [last];
    if head == [] {
      assert g[1..] == [] && name[1..] == [];
      assert MatchSegments(match1, g, name[1..]);
    } else {
      assert g[1..] == head[1..] + ["**"] && name[1..] == head[1..] + [last];
      UncleanNameMatches(match1, head[1..], last);
      assert Literal(head[0]);
      StarsAreNotLiteral(head[0]);
    }
  }
}
