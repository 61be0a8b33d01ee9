/** The bounded tail of a command's output (internal/command/command.go, tailBuffer). */
module TailBuffer {
  // The last min(limit, |s|) elements.
  function Tail<T>(s: seq<T>, limit: nat): (r: seq<T>)
    ensures |r| == if |s| < limit then |s| else limit
  {
    if |s| <= limit then s else s[|s| - limit..]
  }

  // Cutting before and after more input arrives is cutting once, after it.
  lemma TailOfTail<T>(a: seq<T>, b: seq<T>, limit: nat)
    ensures Tail(Tail(a, limit) + b, limit) == Tail(a + b, limit)
  {
    var cut := Tail(a, limit);
    assert a[|a| - |cut|..] == cut;
    assert (a + b)[|a| - |cut|..] == cut + b;
  }

  class Buffer<T(==)> {
    const limit: nat
    // The running digest is represented by the input it has absorbed.
    const sum: seq<T> -> string
    var buf: seq<T>
    var digest: seq<T>
    var truncated: bool

    // Exactly the tail of everything written, and marked as cut exactly when it is.
    ghost predicate Valid()
      reads this
    {
      buf == Tail(digest, limit) && (truncated <==> |digest| > limit)
    }

    constructor (limit: nat, sum: seq<T> -> string)
      ensures Valid() && digest == [] && this.limit == limit && this.sum == sum
    {
      this.limit := limit;
      this.sum := sum;
      buf, digest, truncated := [], [], false;
    }

    method Write(p: seq<T>) returns (n: nat)
      requires Valid()
      modifies this
      ensures Valid() && digest == old(digest) + p && n == |p|
    {
      TailOfTail(digest, p, limit);
      digest := digest + p;
      if |p| >= limit {
        if |p| > limit || |buf| > 0 {
          truncated := true;
        }
        assert Tail(old(digest) + p, limit) == p[|p| - limit..];
        buf := p[|p| - limit..];
        return |p|;
      }
      if |buf| + |p| > limit {
        truncated := true;
      }
      buf := buf + p;
      if |buf| > limit {
        buf := buf[|buf| - limit..];
      }
      return |p|;
    }

    method Bytes() returns (r: seq<T>)
      requires Valid()
      ensures r == Tail(digest, limit)
    {
      r := buf;
    }

    method Truncated() returns (r: bool)
      requires Valid()
      ensures r <==> |digest| > limit
    {
      r := truncated;
    }

    method Digest() returns (r: string)
      requires Valid()
      ensures r == sum(digest)
    {
      r := sum(digest);
    }
  }

  function Joined<T>(chunks: seq<seq<T>>): seq<T> {
    if chunks == [] then [] else chunks[0] + Joined(chunks[1..])
  }

  // What is held after any sequence of writes depends on the bytes alone, not on how they were
  // cut into writes.
  function Fed<T>(held: seq<T>, chunks: seq<seq<T>>, limit: nat): seq<T>
    decreases |chunks|
  {
    if chunks == [] then held else Fed(Tail(held + chunks[0], limit), chunks[1..], limit)
  }

  lemma {:induction false} FedIsTailOfJoined<T>(before: seq<T>, chunks: seq<seq<T>>, limit: nat)
    ensures Fed(Tail(before, limit), chunks, limit) == Tail(before + Joined(chunks), limit)
    decreases |chunks|
  {
    if chunks == [] {
      assert before + Joined(chunks) == before;
    } else {
      var first, rest := chunks[0], chunks[1..];
      assert before + Joined(chunks) == (before + first) + Joined(rest);
      assert Tail(Tail(before, limit) + first, limit) == Tail(before + first, limit)
        by { TailOfTail(before, first, limit); }
      FedIsTailOfJoined(before + first, rest, limit);
    }
  }

  lemma {:induction false} JoinedSnoc<T>(chunks: seq<seq<T>>, n: nat)
    requires n < |chunks|
    ensures Joined(chunks[..n + 1]) == Joined(chunks[..n]) + chunks[n]
  {
    if n == 0 {
      assert chunks[..1][1..] == [];
    } else {
      assert chunks[..n + 1][1..] == chunks[1..][..n] && chunks[..n][1..] == chunks[1..][..n - 1];
      JoinedSnoc(chunks[1..], n - 1);
    }
  }

  // What a command's result holds once its output was copied in whatever chunks: the tail, whether it
  // was cut, and the digest of all of it, the part that was cut off included.
  method Capture<T(==)>(limit: nat, sum: seq<T> -> string, chunks: seq<seq<T>>)
    returns (output: seq<T>, outputDigest: string, truncated: bool)
    ensures output == Tail(Joined(chunks), limit)
    ensures outputDigest == sum(Joined(chunks))
    ensures truncated <==> |Joined(chunks)| > limit
  {
    var buffer := new Buffer<T>(limit, sum);
    for i := 0 to |chunks|
      invariant fresh(buffer) && buffer.Valid() && buffer.limit == limit && buffer.sum == sum
      invariant buffer.digest == Joined(chunks[..i])
    {
      JoinedSnoc(chunks, i);
      var n := buffer.Write(chunks[i]);
    }
    assert chunks[..|chunks|] == chunks;
    output := buffer.Bytes();
    outputDigest := buffer.Digest();
    truncated := buffer.Truncated();
  }
}
