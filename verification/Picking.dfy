/** What a filtering loop keeps: the elements at the flagged positions, each once and in order. */
module Picking {
  predicate Flagged(flags: seq<bool>, i: int) {
    0 <= i < |flags| && flags[i]
  }

  predicate Ascending(pos: seq<int>) {
    forall m, n :: 0 <= m < n < |pos| ==> pos[m] < pos[n]
  }

  // The flagged positions, ascending.
  ghost predicate Lists(pos: seq<int>, flags: seq<bool>) {
    && Ascending(pos)
    && (forall m :: 0 <= m < |pos| ==> Flagged(flags, pos[m]))
    && (forall i :: Flagged(flags, i) ==> i in pos)
  }

  // Elements of s stand at those positions.
  predicate StandAt<T(==)>(s: seq<T>, pos: seq<int>, out: seq<T>) {
    |out| == |pos| && forall m :: 0 <= m < |pos| ==> 0 <= pos[m] < |s| && out[m] == s[pos[m]]
  }

  ghost predicate Picks<T>(s: seq<T>, flags: seq<bool>, out: seq<T>) {
    |flags| == |s| && exists pos :: Lists(pos, flags) && StandAt(s, pos, out)
  }

  lemma PicksNone<T>()
    ensures Picks<T>([], [], [])
  {
    assert Lists([], []) && StandAt<T>([], [], []);
  }

  lemma PicksAll<T>(s: seq<T>, flags: seq<bool>)
    requires |flags| == |s| && forall i :: 0 <= i < |flags| ==> flags[i]
    ensures Picks(s, flags, s)
  {
    var pos := seq(|s|, i => i);
    forall i | Flagged(flags, i) ensures i in pos {
      assert pos[i] == i;
    }
    assert Lists(pos, flags) && StandAt(s, pos, s);
  }

  function Extended(pos: seq<int>, n: int, flag: bool): seq<int> {
    if flag then pos + [n] else pos
  }

  lemma ListsOneMore(pos: seq<int>, flags: seq<bool>, flag: bool)
    requires Lists(pos, flags)
    ensures Lists(Extended(pos, |flags|, flag), flags + [flag])
  {
    var more, all := Extended(pos, |flags|, flag), flags + [flag];
    forall i | Flagged(all, i) ensures i in more {
      if i < |flags| {
        assert Flagged(flags, i) && i in pos;
      } else {
        assert more[|pos|] == i;
      }
    }
    forall m | 0 <= m < |more| ensures Flagged(all, more[m]) {
      assert m < |pos| ==> Flagged(flags, pos[m]);
    }
  }

  lemma PicksOneMore<T>(s: seq<T>, flags: seq<bool>, out: seq<T>, x: T, flag: bool)
    requires Picks(s, flags, out)
    ensures Picks(s + [x], flags + [flag], if flag then out + [x] else out)
  {
    var pos :| Lists(pos, flags) && StandAt(s, pos, out);
    ListsOneMore(pos, flags, flag);
    StandOneMore(s, pos, out, x, flag);
  }

  lemma StandOneMore<T>(s: seq<T>, pos: seq<int>, out: seq<T>, x: T, flag: bool)
    requires StandAt(s, pos, out)
    ensures StandAt(s + [x], Extended(pos, |s|, flag), if flag then out + [x] else out)
  {
  }

  lemma LastIsLast(pos: seq<int>, flags: seq<bool>)
    requires Lists(pos, flags) && flags != [] && flags[|flags| - 1]
    ensures pos != [] && pos[|pos| - 1] == |flags| - 1
  {
    var n := |flags| - 1;
    assert Flagged(flags, n);
    var m :| 0 <= m < |pos| && pos[m] == n;
    assert Flagged(flags, pos[|pos| - 1]);
  }

  // Without the last position, the rest.
  function Shortened(pos: seq<int>, flag: bool): seq<int> {
    if flag && pos != [] then pos[..|pos| - 1] else pos
  }

  lemma ListsInit(pos: seq<int>, flags: seq<bool>)
    requires Lists(pos, flags) && flags != []
    ensures
      var n := |flags| - 1;
      Lists(Shortened(pos, flags[n]), flags[..n]) && pos == Extended(Shortened(pos, flags[n]), n, flags[n])
  {
    var n := |flags| - 1;
    var short, init := flags[..n], Shortened(pos, flags[n]);
    if flags[n] { LastIsLast(pos, flags); }
    forall m | 0 <= m < |init| ensures Flagged(short, init[m]) {
      assert Flagged(flags, pos[m]);
    }
    forall i | Flagged(short, i) ensures i in init {
      assert Flagged(flags, i);
      var m :| 0 <= m < |pos| && pos[m] == i;
      assert m < |init| && init[m] == i;
    }
  }

  lemma NothingListed(pos: seq<int>)
    requires Lists(pos, [])
    ensures pos == []
  {
    assert |pos| > 0 ==> Flagged([], pos[0]);
  }

  lemma {:induction false} ListsUnique(a: seq<int>, b: seq<int>, flags: seq<bool>)
    requires Lists(a, flags) && Lists(b, flags)
    ensures a == b
    decreases |flags|
  {
    if flags == [] {
      NothingListed(a);
      NothingListed(b);
    } else {
      var n := |flags| - 1;
      ListsInit(a, flags);
      ListsInit(b, flags);
      ListsUnique(Shortened(a, flags[n]), Shortened(b, flags[n]), flags[..n]);
    }
  }

  // The flags decide what is kept.
  lemma PicksUnique<T>(s: seq<T>, flags: seq<bool>, a: seq<T>, b: seq<T>)
    requires Picks(s, flags, a) && Picks(s, flags, b)
    ensures a == b
  {
    var p :| Lists(p, flags) && StandAt(s, p, a);
    var q :| Lists(q, flags) && StandAt(s, q, b);
    ListsUnique(p, q, flags);
  }
}
