/** Names of context files inside a bundle, and when two paths share one
    (internal/bundle/export.go, tarSafeName). */
module TarNames {
  function SlashesFolded(s: string): string {
    if s == "" then "" else (if s[0] == '/' then "__" else [s[0]]) + SlashesFolded(s[1..])
  }

  function TarSafeName(clean: string -> string, path: string): string {
    var p := clean(path);
    SlashesFolded(if p != "" && p[0] == '/' then p[1..] else p)
  }

  // ---------- Collisions ----------

  // Every relative path shares its member name with its rooted twin.
  lemma RootedTwinCollides(clean: string -> string, p: string)
    requires p != "" && p[0] != '/' && clean(p) == p && clean("/" + p) == "/" + p
    ensures p != "/" + p && TarSafeName(clean, p) == TarSafeName(clean, "/" + p)
  {
    assert ("/" + p)[1..] == p;
    assert |"/" + p| == |p| + 1;
  }

  lemma {:induction false} FoldedConcat(a: string, b: string)
    ensures SlashesFolded(a + b) == SlashesFolded(a) + SlashesFolded(b)
  {
    if a == "" {
      assert a + b == b;
    } else {
      assert (a + b)[0] == a[0] && (a + b)[1..] == a[1..] + b;
      FoldedConcat(a[1..], b);
    }
  }

  lemma FoldedSlash()
    ensures SlashesFolded("/") == SlashesFolded("__")
  {
    assert "/"[1..] == "" && "__"[1..] == "_" && "_"[1..] == "";
    assert SlashesFolded("_") == "_";
  }

  lemma FoldedAround(a: string, middle: string, b: string)
    ensures SlashesFolded(a + middle + b) == SlashesFolded(a) + SlashesFolded(middle) + SlashesFolded(b)
  {
    FoldedConcat(a + middle, b);
    FoldedConcat(a, middle);
  }

  // A slash meets the two underscores it is folded into, wherever both stand.
  lemma WrittenOutCollides(clean: string -> string, a: string, b: string)
    requires a != "" && a[0] != '/'
    requires clean(a + "/" + b) == a + "/" + b && clean(a + "__" + b) == a + "__" + b
    ensures TarSafeName(clean, a + "/" + b) == TarSafeName(clean, a + "__" + b)
  {
    FoldedAround(a, "/", b);
    FoldedAround(a, "__", b);
    FoldedSlash();
    assert (a + "/" + b)[0] == a[0] && (a + "__" + b)[0] == a[0];
  }

  // ---------- Paths with a name of their own ----------

  // No two underscores in a row, and none beside a slash: a folded slash cannot be mistaken.
  predicate Plain(s: string) {
    forall i :: 0 <= i < |s| - 1 ==> UnderscoreApart(s, i)
  }

  predicate UnderscoreApart(s: string, i: nat)
    requires i + 1 < |s|
  {
    (s[i] == '_' ==> s[i + 1] != '_' && s[i + 1] != '/') && (s[i] == '/' ==> s[i + 1] != '_')
  }

  lemma PlainTail(s: string)
    requires Plain(s) && s != ""
    ensures Plain(s[1..])
  {
    forall i: nat | i + 1 < |s[1..]| ensures UnderscoreApart(s[1..], i) {
      assert UnderscoreApart(s, i + 1);
    }
  }

  predicate StartsFolded(f: string) {
    |f| >= 2 && f[0] == '_' && f[1] == '_'
  }

  lemma FoldedStart(s: string)
    requires Plain(s) && s != ""
    ensures SlashesFolded(s) != ""
    ensures s[0] == '/' <==> StartsFolded(SlashesFolded(s))
    ensures s[0] != '/' ==> SlashesFolded(s)[0] == s[0]
  {
    var rest := SlashesFolded(s[1..]);
    if s[0] != '/' {
      assert SlashesFolded(s) == [s[0]] + rest;
      if |s| > 1 {
        assert UnderscoreApart(s, 0);
        assert rest[0] == if s[1] == '/' then '_' else s[1];
      }
    }
  }

  lemma FoldedTail(s: string)
    requires s != ""
    ensures SlashesFolded(s[1..]) == SlashesFolded(s)[if s[0] == '/' then 2 else 1..]
  {
  }

  lemma {:induction false} FoldedInjective(s: string, t: string)
    requires Plain(s) && Plain(t) && SlashesFolded(s) == SlashesFolded(t)
    ensures s == t
  {
    if s != "" { FoldedStart(s); }
    if t != "" { FoldedStart(t); }
    if s != "" && t != "" {
      assert s[0] == t[0];
      FoldedTail(s);
      FoldedTail(t);
      PlainTail(s);
      PlainTail(t);
      FoldedInjective(s[1..], t[1..]);
      assert s == [s[0]] + s[1..] && t == [t[0]] + t[1..];
    }
  }

  predicate PlainRelative(clean: string -> string, path: string) {
    var p := clean(path);
    Plain(p) && (p == "" || p[0] != '/')
  }

  lemma PlainPathsApart(clean: string -> string, p: string, q: string)
    requires PlainRelative(clean, p) && PlainRelative(clean, q)
    ensures TarSafeName(clean, p) == TarSafeName(clean, q) <==> clean(p) == clean(q)
  {
    if TarSafeName(clean, p) == TarSafeName(clean, q) {
      FoldedInjective(clean(p), clean(q));
    }
  }
}
