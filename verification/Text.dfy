/** The string functions of Go's standard library that the model needs. */
module Text {
  import opened Wrappers

  // unicode.IsSpace.
  predicate IsSpace(c: char) {
    var n := c as int;
    9 <= n <= 13 || n == 0x20 || n == 0x85 || n == 0xA0 || n == 0x1680 || 0x2000 <= n <= 0x200A
    || n == 0x2028 || n == 0x2029 || n == 0x202F || n == 0x205F || n == 0x3000
  }

  function TrimLeft(s: string): string {
    if s != "" && IsSpace(s[0]) then TrimLeft(s[1..]) else s
  }

  function TrimRight(s: string): string {
    if s != "" && IsSpace(s[|s| - 1]) then TrimRight(s[..|s| - 1]) else s
  }

  function TrimSpace(s: string): string {
    TrimRight(TrimLeft(s))
  }

  // Nothing to trim.
  predicate Trimmed(s: string) {
    s == "" || (!IsSpace(s[0]) && !IsSpace(s[|s| - 1]))
  }

  lemma TrimSpaceOfTrimmed(s: string)
    requires Trimmed(s)
    ensures TrimSpace(s) == s
  {
  }

  // Trimming stops at the last character of head.
  lemma {:induction false} TrimRightAfter(head: string, s: string)
    requires head != "" && !IsSpace(head[|head| - 1])
    ensures TrimRight(head + s) == head + TrimRight(s)
  {
    if s == "" {
      assert head + s == head;
    } else if IsSpace(s[|s| - 1]) {
      assert (head + s)[..|head + s| - 1] == head + s[..|s| - 1];
      TrimRightAfter(head, s[..|s| - 1]);
    }
  }

  function TrimPrefix(s: string, prefix: string): string {
    if prefix <= s then s[|prefix|..] else s
  }

  // strings.Index: where sub first occurs.
  function Index(s: string, sub: string): (r: Option<nat>)
    ensures r.Some? ==> r.value + |sub| <= |s|
  {
    if sub <= s then Some(0)
    else if s == "" then None
    else match Index(s[1..], sub) case Some(i) => Some(i + 1) case None => None
  }

  ghost predicate OccursAt(s: string, sub: string, i: nat) {
    i <= |s| && sub <= s[i..]
  }

  lemma {:induction false} IndexIsFirst(s: string, sub: string, i: nat)
    requires OccursAt(s, sub, i) && forall j :: 0 <= j < i ==> !OccursAt(s, sub, j)
    ensures Index(s, sub) == Some(i)
  {
    assert s[0..] == s;
    if i > 0 {
      assert !OccursAt(s, sub, 0);
      assert s[1..][i - 1..] == s[i..];
      forall j | 0 <= j < i - 1 ensures !OccursAt(s[1..], sub, j) {
        assert s[1..][j..] == s[j + 1..];
        assert !OccursAt(s, sub, j + 1);
      }
      IndexIsFirst(s[1..], sub, i - 1);
    }
  }

  // An occurrence bounds the index.
  lemma {:induction false} IndexAtMost(s: string, sub: string, i: nat)
    requires OccursAt(s, sub, i)
    ensures Index(s, sub).Some? && Index(s, sub).value <= i
  {
    assert s[0..] == s;
    if i > 0 && !(sub <= s) {
      assert s[1..][i - 1..] == s[i..];
      IndexAtMost(s[1..], sub, i - 1);
    }
  }

  lemma DiffersAt(s: string, sub: string, i: nat, k: nat)
    requires i + k < |s| && k < |sub| && s[i + k] != sub[k]
    ensures !OccursAt(s, sub, i)
  {
    assert s[i..][k] == s[i + k];
  }

  lemma {:induction false} IndexOccurs(s: string, sub: string)
    ensures Index(s, sub).Some? ==> OccursAt(s, sub, Index(s, sub).value)
  {
    if sub <= s {
      assert s[0..] == s;
    } else if s != "" {
      IndexOccurs(s[1..], sub);
      if Index(s[1..], sub).Some? {
        assert s[1..][Index(s[1..], sub).value..] == s[Index(s, sub).value..];
      }
    }
  }

  // strings.Fields: the maximal runs of non-space characters.
  function Fields(s: string): seq<string>
    decreases |s|
  {
    if s == "" then []
    else if IsSpace(s[0]) then Fields(s[1..])
    else
      var n := FieldLength(s);
      [s[..n]] + Fields(s[n..])
  }

  function FieldLength(s: string): (n: nat)
    ensures n <= |s| && (s != "" && !IsSpace(s[0]) ==> n > 0)
  {
    if s == "" || IsSpace(s[0]) then 0 else 1 + FieldLength(s[1..])
  }

  predicate NoSpace(s: string) {
    forall i :: 0 <= i < |s| ==> !IsSpace(s[i])
  }

  lemma {:induction false} FieldLengthOf(a: string, rest: string)
    requires NoSpace(a) && (rest == "" || IsSpace(rest[0]))
    ensures FieldLength(a + rest) == |a|
  {
    if a != "" {
      assert (a + rest)[1..] == a[1..] + rest;
      FieldLengthOf(a[1..], rest);
    } else {
      assert a + rest == rest;
    }
  }

  lemma {:induction false} FieldFirst(a: string, rest: string)
    requires NoSpace(a) && a != "" && (rest == "" || IsSpace(rest[0]))
    ensures Fields(a + rest) == [a] + Fields(rest)
  {
    var s := a + rest;
    FieldLengthOf(a, rest);
    assert s[0] == a[0] && s[..|a|] == a && s[|a|..] == rest;
  }

  lemma {:induction false} TwoFields(a: string, b: string)
    requires NoSpace(a) && NoSpace(b) && a != "" && b != ""
    ensures Fields(a + " " + b) == [a, b]
  {
    var rest := " " + b;
    assert a + " " + b == a + rest;
    FieldFirst(a, rest);
    assert rest[1..] == b;
    assert Fields(rest) == Fields(b);
    assert b == b + "";
    FieldFirst(b, "");
  }
}
