/** Text as newline-terminated lines (internal/bundle/verify.go splitLines). */
module Lines {
  // Bytes are written as characters.
  type Bytes = string

  predicate OneLine(s: Bytes) {
    '\n' !in s
  }

  function Unlines(lines: seq<Bytes>): Bytes {
    if lines == [] then "" else lines[0] + "\n" + Unlines(lines[1..])
  }

  // Cutting data at its newlines; a last line without one still counts, unless it is empty.
  ghost predicate IsSplit(data: Bytes, lines: seq<Bytes>) {
    && (forall i :: 0 <= i < |lines| ==> OneLine(lines[i]))
    && (Unlines(lines) == data || (lines != [] && lines[|lines| - 1] != "" && Unlines(lines) == data + "\n"))
  }

  lemma {:induction false} UnlinesAppend(a: seq<Bytes>, x: Bytes)
    ensures Unlines(a + [x]) == Unlines(a) + x + "\n"
  {
    if a == [] {
      assert (a + [x])[1..] == [];
    } else {
      UnlinesAppend(a[1..], x);
      assert (a + [x])[1..] == a[1..] + [x];
    }
  }

  lemma FirstNewline(x: Bytes, u: Bytes, y: Bytes, v: Bytes)
    requires OneLine(x) && OneLine(y) && x + "\n" + u == y + "\n" + v
    ensures x == y && u == v
  {
    var a, b := x + "\n" + u, y + "\n" + v;
    assert a[|x|] == '\n' && b[|y|] == '\n';
    assert forall k :: 0 <= k < |x| ==> a[k] == x[k];
    assert forall k :: 0 <= k < |y| ==> b[k] == y[k];
    assert a[..|x|] == x && b[..|y|] == y;
    assert a[|x| + 1..] == u && b[|y| + 1..] == v;
  }

  lemma {:induction false} UnlinesInjective(a: seq<Bytes>, b: seq<Bytes>)
    requires forall i :: 0 <= i < |a| ==> OneLine(a[i])
    requires forall i :: 0 <= i < |b| ==> OneLine(b[i])
    requires Unlines(a) == Unlines(b)
    ensures a == b
  {
    if a != [] && b != [] {
      FirstNewline(a[0], Unlines(a[1..]), b[0], Unlines(b[1..]));
      UnlinesInjective(a[1..], b[1..]);
      assert a == [a[0]] + a[1..] && b == [b[0]] + b[1..];
    }
  }

  // Printed lines split back into themselves.
  lemma {:induction false} SplitOfUnlines(printed: seq<Bytes>, lines: seq<Bytes>)
    requires forall i :: 0 <= i < |printed| ==> OneLine(printed[i])
    requires IsSplit(Unlines(printed), lines)
    ensures lines == printed
  {
    if Unlines(lines) == Unlines(printed) {
      UnlinesInjective(lines, printed);
    } else {
      UnlinesAppend(printed, "");
      var longer := printed + [""];
      assert Unlines(printed) + "" == Unlines(printed);
      UnlinesInjective(lines, longer);
    }
  }

  // A split determines its lines.
  lemma SplitUnique(data: Bytes, a: seq<Bytes>, b: seq<Bytes>)
    requires IsSplit(data, a) && IsSplit(data, b)
    ensures a == b
  {
    if Unlines(a) == data {
      SplitOfUnlines(a, b);
    } else if Unlines(b) == data {
      SplitOfUnlines(b, a);
    } else {
      UnlinesInjective(a, b);
    }
  }

  method SplitLines(data: Bytes) returns (lines: seq<Bytes>)
    ensures IsSplit(data, lines)
  {
    lines := [];
    var start, i := 0, 0;
    while i < |data|
      invariant 0 <= start <= i <= |data|
      invariant Unlines(lines) == data[..start]
      invariant OneLine(data[start..i])
      invariant forall k :: 0 <= k < |lines| ==> OneLine(lines[k])
    {
      if data[i] == '\n' {
        UnlinesAppend(lines, data[start..i]);
        assert data[..i] == data[..start] + data[start..i] && data[..i + 1] == data[..i] + "\n";
        lines := lines + [data[start..i]];
        start := i + 1;
      } else {
        assert data[start..i + 1] == data[start..i] + [data[i]];
      }
      i := i + 1;
    }
    assert data[start..i] == data[start..];
    assert data == data[..start] + data[start..];
    if start < |data| {
      UnlinesAppend(lines, data[start..]);
      lines := lines + [data[start..]];
    }
  }

  // The first n parts, one after another.
  function Flatten<T>(parts: seq<seq<T>>, n: nat): seq<T>
    requires n <= |parts|
  {
    if n == 0 then [] else Flatten(parts, n - 1) + parts[n - 1]
  }
}
