/** Edit distance and the suggestion list built on it (internal/cli/explain.go, levenshtein and
    closestIDs). Strings are sequences of runes. */
module EditDistance {
  import opened Sorting

  // ---------- What the distance is: the fewest single-character edits ----------

  // One character inserted, deleted or replaced, anywhere.
  datatype Edit = InsertAt(p: nat, c: char) | DeleteAt(p: nat) | ReplaceAt(p: nat, c: char)

  predicate Applies(e: Edit, a: string) {
    e.p < |a| || (e.InsertAt? && e.p == |a|)
  }

  function Edited(e: Edit, a: string): string
    requires Applies(e, a)
  {
    match e
    case InsertAt(p, c) => a[..p] + [c] + a[p..]
    case DeleteAt(p) => a[..p] + a[p + 1..]
    case ReplaceAt(p, c) => a[..p] + [c] + a[p + 1..]
  }

  // The edits, made one after another, turn a into b.
  predicate Edits(es: seq<Edit>, a: string, b: string)
    decreases |es|
  {
    if es == [] then a == b
    else Applies(es[0], a) && Edits(es[1..], Edited(es[0], a), b)
  }

  // d edits suffice, and no sequence of edits is shorter.
  ghost predicate IsEditDistance(a: string, b: string, d: int) {
    && (exists es :: Edits(es, a, b) && |es| == d)
    && (forall es :: Edits(es, a, b) ==> d <= |es|)
  }

  // ---------- The recurrence the table is filled by ----------

  function Min3(a: int, b: int, c: int): int {
    if a <= b && a <= c then a else if b <= c then b else c
  }

  function Init(s: string): string
    requires s != ""
  {
    s[..|s| - 1]
  }

  function Last(s: string): char
    requires s != ""
  {
    s[|s| - 1]
  }

  function Dist(a: string, b: string): int
    decreases |a| + |b|
  {
    if a == "" then |b|
    else if b == "" then |a|
    else Min3(Dist(Init(a), b) + 1, Dist(a, Init(b)) + 1,
              Dist(Init(a), Init(b)) + (if Last(a) == Last(b) then 0 else 1))
  }

  // ---------- Alignments: edit scripts applied left to right ----------

  datatype Op = Keep | Substitute(c: char) | Delete | Insert(c: char)

  datatype Script = Empty | Then(rest: Script, op: Op)

  // The script turns a into b.
  predicate Turns(s: Script, a: string, b: string) {
    match s
    case Empty => a == "" && b == ""
    case Then(rest, Keep) => a != "" && b != "" && Last(a) == Last(b) && Turns(rest, Init(a), Init(b))
    case Then(rest, Substitute(c)) => a != "" && b != "" && Last(b) == c && Turns(rest, Init(a), Init(b))
    case Then(rest, Delete) => a != "" && Turns(rest, Init(a), b)
    case Then(rest, Insert(c)) => b != "" && Last(b) == c && Turns(rest, a, Init(b))
  }

  function Cost(s: Script): nat {
    match s
    case Empty => 0
    case Then(rest, op) => Cost(rest) + (if op.Keep? then 0 else 1)
  }

  lemma {:induction false} DistBounds(a: string, b: string)
    ensures |a| - |b| <= Dist(a, b) && |b| - |a| <= Dist(a, b)
    ensures Dist(a, b) <= if |a| < |b| then |b| else |a|
    decreases |a| + |b|
  {
    if a != "" && b != "" {
      DistBounds(Init(a), b);
      DistBounds(a, Init(b));
      DistBounds(Init(a), Init(b));
    }
  }

  lemma {:induction false} NoScriptBeatsDist(s: Script, a: string, b: string)
    requires Turns(s, a, b)
    ensures Dist(a, b) <= Cost(s)
  {
    match s {
      case Empty =>
      case Then(rest, op) =>
        match op {
          case Keep => NoScriptBeatsDist(rest, Init(a), Init(b));
          case Substitute(_) => NoScriptBeatsDist(rest, Init(a), Init(b));
          case Delete => NoScriptBeatsDist(rest, Init(a), b);
          case Insert(_) => NoScriptBeatsDist(rest, a, Init(b));
        }
    }
  }

  lemma {:induction false} ScriptOfCostDist(a: string, b: string) returns (s: Script)
    ensures Turns(s, a, b) && Cost(s) == Dist(a, b)
    decreases |a| + |b|
  {
    if a == "" && b == "" {
      s := Empty;
    } else if b == "" || (a != "" && Dist(a, b) == Dist(Init(a), b) + 1) {
      s := ScriptOfCostDist(Init(a), b);
      s := Then(s, Delete);
    } else if a == "" || Dist(a, b) == Dist(a, Init(b)) + 1 {
      s := ScriptOfCostDist(a, Init(b));
      s := Then(s, Insert(Last(b)));
    } else {
      s := ScriptOfCostDist(Init(a), Init(b));
      s := Then(s, if Last(a) == Last(b) then Keep else Substitute(Last(b)));
    }
  }

  // The optimum over scripts is attained, and nothing is cheaper.
  lemma DistIsCheapestScript(a: string, b: string)
    ensures exists s :: Turns(s, a, b) && Cost(s) == Dist(a, b)
    ensures forall s :: Turns(s, a, b) ==> Dist(a, b) <= Cost(s)
  {
    var s := ScriptOfCostDist(a, b);
    forall t | Turns(t, a, b) ensures Dist(a, b) <= Cost(t) {
      NoScriptBeatsDist(t, a, b);
    }
  }

  // ---------- A metric ----------

  lemma {:induction false} DistZero(a: string, b: string)
    ensures Dist(a, b) == 0 <==> a == b
    decreases |a| + |b|
  {
    DistBounds(a, b);
    if a != "" && b != "" {
      DistBounds(Init(a), b);
      DistBounds(a, Init(b));
      DistZero(Init(a), Init(b));
      DistBounds(Init(a), Init(b));
      assert a == Init(a) + [Last(a)] && b == Init(b) + [Last(b)];
    }
  }

  lemma {:induction false} DistSymmetric(a: string, b: string)
    ensures Dist(a, b) == Dist(b, a)
    decreases |a| + |b|
  {
    if a != "" && b != "" {
      DistSymmetric(Init(a), b);
      DistSymmetric(a, Init(b));
      DistSymmetric(Init(a), Init(b));
    }
  }

  // Two scripts in a row are one script that costs no more.
  lemma {:induction false} Compose(s: Script, t: Script, a: string, b: string, c: string) returns (u: Script)
    requires Turns(s, a, b) && Turns(t, b, c)
    ensures Turns(u, a, c) && Cost(u) <= Cost(s) + Cost(t)
    decreases s, t
  {
    match (s, t) {
      case (_, Then(rest, Insert(x))) =>
        u := Compose(s, rest, a, b, Init(c));
        u := Then(u, Insert(x));
      case (Then(rest, Delete), _) =>
        u := Compose(rest, t, Init(a), b, c);
        u := Then(u, Delete);
      case (Empty, _) =>
        u := Empty;
      case (Then(first, Insert(_)), Then(second, Delete)) =>
        u := Compose(first, second, a, Init(b), c);
      case (Then(first, Insert(x)), Then(second, op)) =>
        u := Compose(first, second, a, Init(b), Init(c));
        u := Then(u, Insert(Last(c)));
      case (Then(first, _), Then(second, Delete)) =>
        u := Compose(first, second, Init(a), Init(b), c);
        u := Then(u, Delete);
      case (Then(first, Keep), Then(second, op)) =>
        u := Compose(first, second, Init(a), Init(b), Init(c));
        u := Then(u, op);
      case (Then(first, Substitute(_)), Then(second, _)) =>
        u := Compose(first, second, Init(a), Init(b), Init(c));
        u := Then(u, Substitute(Last(c)));
    }
  }

  lemma DistTriangle(a: string, b: string, c: string)
    ensures Dist(a, c) <= Dist(a, b) + Dist(b, c)
  {
    var s := ScriptOfCostDist(a, b);
    var t := ScriptOfCostDist(b, c);
    var u := Compose(s, t, a, b, c);
    NoScriptBeatsDist(u, a, c);
  }

  // ---------- Edits in any order, at any place ----------

  lemma DistSnoc(a: string, b: string, x: char)
    ensures Dist(a + [x], b + [x]) <= Dist(a, b)
    ensures Dist(a + [x], b) <= Dist(a, b) + 1
    ensures Dist(a, b + [x]) <= Dist(a, b) + 1
  {
    assert Init(a + [x]) == a && Init(b + [x]) == b;
    DistBounds(a, b);
  }

  lemma DistReplaceLast(a: string, x: char, y: char)
    ensures Dist(a + [x], a + [y]) <= 1
  {
    assert Init(a + [x]) == a && Init(a + [y]) == a;
    DistZero(a, a);
  }

  lemma {:induction false} AppendLast(a: string, v: string)
    requires v != ""
    ensures a + v == (a + Init(v)) + [Last(v)]
  {
  }

  lemma {:induction false} DistSuffix(a: string, b: string, v: string)
    ensures Dist(a + v, b + v) <= Dist(a, b)
    decreases |v|
  {
    if v == "" {
      assert a + v == a && b + v == b;
    } else {
      var i, x := Init(v), Last(v);
      DistSuffix(a, b, i);
      DistSnoc(a + i, b + i, x);
      AppendLast(a, v);
      AppendLast(b, v);
    }
  }

  lemma InsertIsCheap(u: string, c: char, v: string)
    ensures Dist(u + v, u + [c] + v) <= 1 && Dist(u + [c] + v, u + v) <= 1
  {
    DistZero(u, u);
    DistSnoc(u, u, c);
    DistSuffix(u, u + [c], v);
    DistSuffix(u + [c], u, v);
  }

  lemma ReplaceIsCheap(u: string, c: char, d: char, v: string)
    ensures Dist(u + [c] + v, u + [d] + v) <= 1
  {
    DistReplaceLast(u, c, d);
    DistSuffix(u + [c], u + [d], v);
  }

  lemma OneEditIsCheap(e: Edit, a: string)
    requires Applies(e, a)
    ensures Dist(a, Edited(e, a)) <= 1
  {
    var u := a[..e.p];
    match e {
      case InsertAt(p, c) =>
        assert a == u + a[p..];
        InsertIsCheap(u, c, a[p..]);
      case DeleteAt(p) =>
        assert a == u + [a[p]] + a[p + 1..];
        InsertIsCheap(u, a[p], a[p + 1..]);
      case ReplaceAt(p, c) =>
        assert a == u + [a[p]] + a[p + 1..];
        ReplaceIsCheap(u, a[p], c, a[p + 1..]);
    }
  }

  lemma {:induction false} NoEditsBeatDist(es: seq<Edit>, a: string, b: string)
    requires Edits(es, a, b)
    ensures Dist(a, b) <= |es|
    decreases |es|
  {
    if es == [] {
      DistZero(a, b);
    } else {
      var next := Edited(es[0], a);
      OneEditIsCheap(es[0], a);
      NoEditsBeatDist(es[1..], next, b);
      DistTriangle(a, next, b);
    }
  }

  lemma {:induction false} EditsThen(es: seq<Edit>, e: Edit, a: string, b: string)
    requires Edits(es, a, b) && Applies(e, b)
    ensures Edits(es + [e], a, Edited(e, b))
    decreases |es|
  {
    if es == [] {
      assert (es + [e])[1..] == [];
    } else {
      EditsThen(es[1..], e, Edited(es[0], a), b);
      assert (es + [e])[1..] == es[1..] + [e];
    }
  }

  lemma EditedSnoc(e: Edit, a: string, x: char)
    requires Applies(e, a)
    ensures Applies(e, a + [x]) && Edited(e, a + [x]) == Edited(e, a) + [x]
  {
    var longer := a + [x];
    assert longer[..e.p] == a[..e.p];
    if e.InsertAt? {
      assert longer[e.p..] == a[e.p..] + [x];
    } else {
      assert longer[e.p + 1..] == a[e.p + 1..] + [x];
    }
  }

  // Edits do not mind a character waiting at the end.
  lemma {:induction false} EditsSnoc(es: seq<Edit>, a: string, b: string, x: char)
    requires Edits(es, a, b)
    ensures Edits(es, a + [x], b + [x])
    decreases |es|
  {
    if es != [] {
      EditedSnoc(es[0], a, x);
      EditsSnoc(es[1..], Edited(es[0], a), b, x);
    }
  }

  lemma {:induction false} ThenInsert(es: seq<Edit>, a: string, b: string)
    requires b != "" && Edits(es, a, Init(b))
    ensures Edits(es + [InsertAt(|b| - 1, Last(b))], a, b)
  {
    var e := InsertAt(|b| - 1, Last(b));
    assert Edited(e, Init(b)) == b;
    EditsThen(es, e, a, Init(b));
  }

  lemma {:induction false} DeleteFirst(es: seq<Edit>, a: string, b: string)
    requires a != "" && Edits(es, Init(a), b)
    ensures Edits([DeleteAt(|a| - 1)] + es, a, b)
  {
    assert Edited(DeleteAt(|a| - 1), a) == Init(a);
    assert ([DeleteAt(|a| - 1)] + es)[1..] == es;
  }

  lemma {:induction false} KeepLast(es: seq<Edit>, a: string, b: string)
    requires a != "" && b != "" && Last(a) == Last(b) && Edits(es, Init(a), Init(b))
    ensures Edits(es, a, b)
  {
    assert a == Init(a) + [Last(a)] && b == Init(b) + [Last(a)];
    EditsSnoc(es, Init(a), Init(b), Last(a));
  }

  lemma {:induction false} ThenReplace(es: seq<Edit>, a: string, b: string)
    requires a != "" && b != "" && Edits(es, Init(a), Init(b))
    ensures Edits(es + [ReplaceAt(|b| - 1, Last(b))], a, b)
  {
    assert a == Init(a) + [Last(a)];
    var before := Init(b) + [Last(a)];
    var e := ReplaceAt(|b| - 1, Last(b));
    assert Edited(e, before) == b;
    EditsSnoc(es, Init(a), Init(b), Last(a));
    EditsThen(es, e, a, before);
  }

  // A script, read from its end, is as many edits as it costs.
  lemma {:induction false} EditsOfScript(s: Script, a: string, b: string) returns (es: seq<Edit>)
    requires Turns(s, a, b)
    ensures Edits(es, a, b) && |es| == Cost(s)
    decreases s
  {
    match s {
      case Empty =>
        es := [];
      case Then(rest, Insert(c)) =>
        es := EditsOfScript(rest, a, Init(b));
        ThenInsert(es, a, b);
        es := es + [InsertAt(|b| - 1, Last(b))];
      case Then(rest, Delete) =>
        es := EditsOfScript(rest, Init(a), b);
        DeleteFirst(es, a, b);
        es := [DeleteAt(|a| - 1)] + es;
      case Then(rest, Keep) =>
        es := EditsOfScript(rest, Init(a), Init(b));
        KeepLast(es, a, b);
      case Then(rest, Substitute(c)) =>
        es := EditsOfScript(rest, Init(a), Init(b));
        ThenReplace(es, a, b);
        es := es + [ReplaceAt(|b| - 1, Last(b))];
    }
  }

  // The recurrence computes the fewest edits, whatever their order and place.
  lemma DistIsEditDistance(a: string, b: string)
    ensures IsEditDistance(a, b, Dist(a, b))
  {
    var s := ScriptOfCostDist(a, b);
    var es := EditsOfScript(s, a, b);
    forall other | Edits(other, a, b) ensures Dist(a, b) <= |other| {
      NoEditsBeatDist(other, a, b);
    }
  }

  lemma EditDistanceUnique(a: string, b: string, d: int)
    ensures IsEditDistance(a, b, d) <==> d == Dist(a, b)
  {
    DistIsEditDistance(a, b);
  }

  // ---------- The table ----------

  // The recurrence on prefix lengths, cell by cell.
  function Cell(a: string, b: string, i: nat, j: nat): int
    requires i <= |a| && j <= |b|
  {
    if i == 0 then j
    else if j == 0 then i
    else Min3(Cell(a, b, i - 1, j) + 1, Cell(a, b, i, j - 1) + 1,
              Cell(a, b, i - 1, j - 1) + (if a[i - 1] == b[j - 1] then 0 else 1))
  }

  lemma {:induction false} PrefixInit(s: string, i: nat)
    requires 0 < i <= |s|
    ensures s[..i] != "" && Init(s[..i]) == s[..i - 1] && Last(s[..i]) == s[i - 1]
  {
  }

  lemma {:induction false} DistStep(a: string, b: string, c: string, d: string, x: char, y: char)
    requires a != "" && b != "" && Init(a) == c && Init(b) == d && Last(a) == x && Last(b) == y
    ensures Dist(a, b) == Min3(Dist(c, b) + 1, Dist(a, d) + 1, Dist(c, d) + (if x == y then 0 else 1))
  {
  }

  lemma {:induction false} CellStep(a: string, b: string, i: nat, j: nat, up: int, left: int, diagonal: int)
    requires 0 < i <= |a| && 0 < j <= |b|
    requires Cell(a, b, i - 1, j) == up && Cell(a, b, i, j - 1) == left && Cell(a, b, i - 1, j - 1) == diagonal
    ensures Cell(a, b, i, j) == Min3(up + 1, left + 1, diagonal + (if a[i - 1] == b[j - 1] then 0 else 1))
  {
  }

  lemma {:induction false} CellIsDist(a: string, b: string, i: nat, j: nat)
    requires i <= |a| && j <= |b|
    ensures Cell(a, b, i, j) == Dist(a[..i], b[..j])
  {
    if i > 0 && j > 0 {
      CellIsDist(a, b, i - 1, j);
      CellIsDist(a, b, i, j - 1);
      CellIsDist(a, b, i - 1, j - 1);
      CellIsDistNext(a, b, i, j);
    }
  }

  lemma {:induction false} CellIsDistNext(a: string, b: string, i: nat, j: nat)
    requires 0 < i <= |a| && 0 < j <= |b|
    requires Cell(a, b, i - 1, j) == Dist(a[..i - 1], b[..j])
    requires Cell(a, b, i, j - 1) == Dist(a[..i], b[..j - 1])
    requires Cell(a, b, i - 1, j - 1) == Dist(a[..i - 1], b[..j - 1])
    ensures Cell(a, b, i, j) == Dist(a[..i], b[..j])
  {
    PrefixInit(a, i);
    PrefixInit(b, j);
    DistStep(a[..i], b[..j], a[..i - 1], b[..j - 1], a[i - 1], b[j - 1]);
    CellStep(a, b, i, j, Dist(a[..i - 1], b[..j]), Dist(a[..i], b[..j - 1]), Dist(a[..i - 1], b[..j - 1]));
  }

  method Levenshtein(a: string, b: string) returns (d: int)
    ensures d == Dist(a, b)
    ensures IsEditDistance(a, b, d)
  {
    var la, lb := |a|, |b|;
    var dp := new int[la + 1, lb + 1];
    var i := 0;
    while i <= la
      invariant 0 <= i <= la + 1
      invariant forall x :: 0 <= x < i ==> dp[x, 0] == x
    {
      dp[i, 0] := i;
      i := i + 1;
    }
    var j := 0;
    while j <= lb
      invariant 0 <= j <= lb + 1
      invariant forall x :: 0 <= x <= la ==> dp[x, 0] == x
      invariant forall y :: 0 <= y < j ==> dp[0, y] == y
    {
      dp[0, j] := j;
      j := j + 1;
    }
    i := 1;
    while i <= la
      invariant 1 <= i <= la + 1
      invariant forall x :: 0 <= x <= la ==> dp[x, 0] == x
      invariant forall x, y {:trigger dp[x, y]} :: 0 <= x < i && 0 <= y <= lb ==> dp[x, y] == Cell(a, b, x, y)
    {
      j := 1;
      while j <= lb
        invariant 1 <= j <= lb + 1
        invariant forall x :: 0 <= x <= la ==> dp[x, 0] == x
        invariant forall x, y {:trigger dp[x, y]} :: 0 <= x < i && 0 <= y <= lb ==> dp[x, y] == Cell(a, b, x, y)
        invariant forall y {:trigger dp[i, y]} :: 0 <= y < j ==> dp[i, y] == Cell(a, b, i, y)
      {
        var cost := 1;
        if a[i - 1] == b[j - 1] {
          cost := 0;
        }
        var del := dp[i - 1, j] + 1;
        var ins := dp[i, j - 1] + 1;
        var sub := dp[i - 1, j - 1] + cost;
        dp[i, j] := Min3(del, ins, sub);
        j := j + 1;
      }
      i := i + 1;
    }
    d := dp[la, lb];
    CellIsDist(a, b, la, lb);
    assert a[..la] == a && b[..lb] == b;
    DistIsEditDistance(a, b);
  }

  // ---------- Suggestions ----------

  datatype Scored = Scored(id: string, dist: int)

  predicate Nearer(x: Scored, y: Scored) {
    if x.dist != y.dist then x.dist < y.dist else StringLess(x.id, y.id)
  }

  lemma NearerIsTotal()
    ensures StrictWeakOrder(Nearer) && Antisymmetric(Nearer)
  {
    forall x, y
      ensures !Nearer(x, x) && (!Nearer(x, y) && !Nearer(y, x) ==> x == y)
      ensures !(Nearer(x, y) && Nearer(y, x))
    {
      StringLessTotal(x.id, x.id);
      StringLessTotal(x.id, y.id);
    }
    forall x, y, z | Nearer(x, y) && Nearer(y, z) ensures Nearer(x, z) {
      if x.dist == y.dist == z.dist { StringLessTransitive(x.id, y.id, z.id); }
    }
  }

  function ScoreOf(id: string, candidate: string): Scored {
    Scored(candidate, Dist(id, candidate))
  }

  function Scores(id: string, candidates: seq<string>): seq<Scored> {
    seq(|candidates|, i requires 0 <= i < |candidates| => ScoreOf(id, candidates[i]))
  }

  predicate Precedes(id: string, x: string, y: string) {
    Nearer(ScoreOf(id, x), ScoreOf(id, y))
  }

  ghost predicate InOrder(id: string, ids: seq<string>) {
    forall i, j :: 0 <= i < j < |ids| ==> !Precedes(id, ids[j], ids[i])
  }

  // The first `max` candidates in (distance, id) order: with the omitted ones behind them they
  // are all the candidates, and no later one precedes an earlier one.
  ghost predicate Closest(id: string, candidates: seq<string>, max: nat, out: seq<string>) {
    && |out| == (if |candidates| < max then |candidates| else max)
    && exists omitted :: multiset(out + omitted) == multiset(candidates) && InOrder(id, out + omitted)
  }

  function IdOf(s: Scored): string {
    s.id
  }

  method SortScores(id: string, candidates: seq<string>, scored: seq<Scored>) returns (sorted: seq<Scored>)
    requires scored == Scores(id, candidates)
    ensures SortOf(Nearer, scored, sorted) && |sorted| == |candidates|
  {
    NearerIsTotal();
    sorted := SortSlice(Nearer, scored);
    SameLength(sorted, scored);
  }

  method Score(id: string, candidate: string) returns (scored: Scored)
    ensures scored == ScoreOf(id, candidate)
  {
    var d := Levenshtein(id, candidate);
    return Scored(candidate, d);
  }

  method ScoreAll(id: string, candidates: seq<string>) returns (scored: seq<Scored>)
    ensures scored == Scores(id, candidates)
  {
    scored := [];
    for i := 0 to |candidates|
      invariant |scored| == i && forall k :: 0 <= k < i ==> scored[k] == ScoreOf(id, candidates[k])
    {
      var next := Score(id, candidates[i]);
      scored := scored + [next];
    }
  }

  method IdsOf(sorted: seq<Scored>) returns (out: seq<string>)
    ensures out == Map(IdOf, sorted)
  {
    ghost var ids := Map(IdOf, sorted);
    out := [];
    for i := 0 to |sorted|
      invariant out == ids[..i]
    {
      out := out + [IdOf(sorted[i])];
    }
  }

  method ClosestIDs(id: string, candidates: seq<string>, max: nat) returns (out: seq<string>)
    ensures Closest(id, candidates, max, out)
  {
    var scored := ScoreAll(id, candidates);
    var sorted := SortScores(id, candidates, scored);
    CutIsClosest(id, candidates, max, sorted);
    if |sorted| > max {
      sorted := sorted[..max];
    }
    out := IdsOf(sorted);
  }

  lemma CutIsClosest(id: string, candidates: seq<string>, max: nat, sorted: seq<Scored>)
    requires SortOf(Nearer, Scores(id, candidates), sorted) && |sorted| == |candidates|
    ensures Closest(id, candidates, max, Map(IdOf, if |sorted| > max then sorted[..max] else sorted))
  {
    var n := if |candidates| < max then |candidates| else max;
    var ids := Map(IdOf, sorted);
    MapKeepsMultiset(IdOf, sorted, Scores(id, candidates));
    assert Map(IdOf, Scores(id, candidates)) == candidates;
    SortedIdsInOrder(id, candidates, sorted);
    assert ids[..n] + ids[n..] == ids;
    assert Map(IdOf, if |sorted| > max then sorted[..max] else sorted) == ids[..n];
  }

  lemma SortedIdsInOrder(id: string, candidates: seq<string>, sorted: seq<Scored>)
    requires SortOf(Nearer, Scores(id, candidates), sorted)
    ensures InOrder(id, Map(IdOf, sorted))
  {
    var ids := Map(IdOf, sorted);
    SortedAreScores(id, candidates, sorted);
    forall i, j | 0 <= i < j < |ids| ensures !Precedes(id, ids[j], ids[i]) {
      assert !Nearer(sorted[j], sorted[i]);
      assert ids[i] == sorted[i].id && ids[j] == sorted[j].id;
    }
  }

  // Candidate ids may repeat, but the suggestions are one list: the order leaves no tie.
  lemma ClosestUnique(id: string, candidates: seq<string>, max: nat, out: seq<string>, other: seq<string>)
    requires Closest(id, candidates, max, out) && Closest(id, candidates, max, other)
    ensures out == other
  {
    var a :| multiset(out + a) == multiset(candidates) && InOrder(id, out + a);
    var b :| multiset(other + b) == multiset(candidates) && InOrder(id, other + b);
    var less := (x, y) => Precedes(id, x, y);
    forall x, y | !less(x, y) && !less(y, x) ensures x == y { StringLessTotal(x, y); }
    SortUnique(less, out + a, other + b);
    assert out == (out + a)[..|out|] && other == (other + b)[..|other|];
  }

  // One suggestion may stand before another: its distance is less, or equal and its id not later.
  ghost predicate MayPrecede(id: string, x: string, y: string) {
    Dist(id, x) < Dist(id, y) || (Dist(id, x) == Dist(id, y) && forall n :: !PartsAt(y, x, n))
  }

  // As many as asked for, in that order; and no candidate left out belongs before one that is not.
  lemma ClosestMeans(id: string, candidates: seq<string>, max: nat, out: seq<string>) returns (omitted: seq<string>)
    requires Closest(id, candidates, max, out)
    ensures |out| <= max && (|out| < max ==> omitted == [])
    ensures multiset(out) + multiset(omitted) == multiset(candidates)
    ensures forall i, j :: 0 <= i < j < |out| ==> MayPrecede(id, out[i], out[j])
    ensures forall i, j :: 0 <= i < |out| && 0 <= j < |omitted| ==> MayPrecede(id, out[i], omitted[j])
  {
    omitted :| multiset(out + omitted) == multiset(candidates) && InOrder(id, out + omitted);
    SameLength(out + omitted, candidates);
    var all := out + omitted;
    forall i, j | 0 <= i < j < |all| ensures MayPrecede(id, all[i], all[j]) {
      assert !Precedes(id, all[j], all[i]);
      StringLessExactly(all[j], all[i]);
    }
    forall i, j | 0 <= i < |out| && 0 <= j < |omitted| ensures MayPrecede(id, out[i], omitted[j]) {
      assert all[i] == out[i] && all[|out| + j] == omitted[j];
    }
    forall i, j | 0 <= i < j < |out| ensures MayPrecede(id, out[i], out[j]) {
      assert all[i] == out[i] && all[j] == out[j];
    }
  }

  lemma SortedAreScores(id: string, candidates: seq<string>, sorted: seq<Scored>)
    requires multiset(sorted) == multiset(Scores(id, candidates))
    ensures forall k :: 0 <= k < |sorted| ==> sorted[k] == ScoreOf(id, sorted[k].id)
  {
    forall k | 0 <= k < |sorted| ensures sorted[k] == ScoreOf(id, sorted[k].id) {
      assert sorted[k] in multiset(sorted);
      assert sorted[k] in Scores(id, candidates);
    }
  }
}
