/** The merge of policy files, file by file (internal/policy/layers.go, Merge): which guards the files
    contribute, and what becomes of them. */
module PolicyFiles {
  import opened Wrappers
  import opened Picking
  import opened PolicyLayers

  datatype MergeError = NoPaths

  datatype Policy = Policy(guards: seq<Guard>, commands: seq<string>, findings: seq<Finding>)

  // The coverage commands of all files, in order.
  function AllCommands(layers: seq<Layer>): seq<string> {
    if layers == [] then [] else AllCommands(layers[..|layers| - 1]) + layers[|layers| - 1].commands
  }

  // ---------- What the files contribute ----------

  function GuardTotal(layers: seq<Layer>): nat {
    if layers == [] then 0 else GuardTotal(layers[..|layers| - 1]) + |layers[|layers| - 1].guards|
  }

  // g is the k-th guard of the i-th file, under the scope that results from the file's and its own.
  predicate ScopedAt(effective: (string, string) -> string, layers: seq<Layer>, i: int, k: int, g: Guard) {
    && 0 <= i < |layers| && 0 <= k < |layers[i].guards|
    && g == layers[i].guards[k].(scope := effective(layers[i].scope, layers[i].guards[k].scope))
  }

  predicate DeclaredAt(layers: seq<Layer>, i: int, k: int, id: string) {
    0 <= i < |layers| && 0 <= k < |layers[i].guards| && layers[i].guards[k].id == id
  }

  // Earlier file, or earlier in the same file.
  predicate Before(i: int, k: int, j: int, m: int) {
    i < j || (i == j && k < m)
  }

  lemma {:induction false} DeclCount(effective: (string, string) -> string, layers: seq<Layer>)
    ensures |AllDecls(effective, layers)| == GuardTotal(layers)
  {
    if layers != [] {
      DeclCount(effective, layers[..|layers| - 1]);
    }
  }

  // The declarations of all files are their guards, file by file and guard by guard.
  lemma {:induction false} DeclAt(effective: (string, string) -> string, layers: seq<Layer>, i: nat, k: nat)
    requires i < |layers| && k < |layers[i].guards|
    ensures
      var n, decls := GuardTotal(layers[..i]) + k, AllDecls(effective, layers);
      n < |decls| && decls[n].file == layers[i].path && ScopedAt(effective, layers, i, k, decls[n].guard)
    decreases |layers|
  {
    var last := |layers| - 1;
    DeclCount(effective, layers[..last]);
    if i < last {
      DeclAt(effective, layers[..last], i, k);
      assert layers[..last][..i] == layers[..i];
    }
  }

  // Where the n-th guard of all stands.
  function PlaceOf(layers: seq<Layer>, n: nat): (at: (int, int))
    requires n < GuardTotal(layers)
    ensures 0 <= at.0 < |layers| && 0 <= at.1 < |layers[at.0].guards|
    ensures n == GuardTotal(layers[..at.0]) + at.1
    decreases |layers|
  {
    var last := |layers| - 1;
    if n < GuardTotal(layers[..last]) then
      var at := PlaceOf(layers[..last], n);
      assert layers[..last][..at.0] == layers[..at.0];
      at
    else (last, n - GuardTotal(layers[..last]))
  }

  lemma {:induction false} TotalGrows(layers: seq<Layer>, i: nat, j: nat)
    requires i < j <= |layers|
    ensures GuardTotal(layers[..i]) + |layers[i].guards| <= GuardTotal(layers[..j])
  {
    assert layers[..j][..j - 1] == layers[..j - 1];
    if i < j - 1 {
      TotalGrows(layers, i, j - 1);
    }
  }

  // ---------- What a merge answers, file by file ----------

  predicate HasId(guards: seq<Guard>, id: string) {
    exists s :: 0 <= s < |guards| && guards[s].id == id
  }

  // Guard k of file i has the id of guard m of file j, and gives nothing of it up.
  predicate SameId(layers: seq<Layer>, i: int, k: int, j: int, m: int) {
    IsGuard(layers, i, k) && IsGuard(layers, j, m) && layers[i].guards[k].id == layers[j].guards[m].id
  }

  predicate IsGuard(layers: seq<Layer>, i: int, k: int) {
    0 <= i < |layers| && 0 <= k < |layers[i].guards|
  }

  ghost predicate TightensTaken(layers: seq<Layer>, taken: set<(int, int)>, i: int, k: int) {
    forall j, m :: (j, m) in taken && Before(j, m, i, k) && SameId(layers, j, m, i, k) ==>
      Tightens(layers[j].guards[m], layers[i].guards[k])
  }

  // The guards taken: those that tighten every taken one of their id before them.
  ghost predicate AreTaken(layers: seq<Layer>, taken: set<(int, int)>) {
    forall i, k :: (i, k) in taken <==> IsGuard(layers, i, k) && TightensTaken(layers, taken, i, k)
  }

  ghost predicate LastTaken(layers: seq<Layer>, taken: set<(int, int)>, i: int, k: int) {
    && (i, k) in taken
    && forall j, m :: (j, m) in taken && SameId(layers, j, m, i, k) ==> !Before(i, k, j, m)
  }

  // Each merged guard is the last one taken of its id, under its effective scope.
  ghost predicate GuardsAreLast(
    effective: (string, string) -> string, layers: seq<Layer>, taken: set<(int, int)>, guards: seq<Guard>)
  {
    forall s :: 0 <= s < |guards| ==> IsLast(effective, layers, taken, guards[s])
  }

  ghost predicate IsLast(
    effective: (string, string) -> string, layers: seq<Layer>, taken: set<(int, int)>, g: Guard)
  {
    exists i, k :: ScopedAt(effective, layers, i, k, g) && LastTaken(layers, taken, i, k)
  }

  predicate Ordered(pos: seq<(int, int)>) {
    forall m, n :: 0 <= m < n < |pos| ==> Before(pos[m].0, pos[m].1, pos[n].0, pos[n].1)
  }

  predicate FindingAt(layers: seq<Layer>, at: (int, int), f: Finding) {
    IsGuard(layers, at.0, at.1) && f == Finding(layers[at.0].guards[at.1].id, layers[at.0].path)
  }

  // One finding for each guard not taken, in order: its id and its file.
  ghost predicate FindingsAre(
    layers: seq<Layer>, taken: set<(int, int)>, pos: seq<(int, int)>, findings: seq<Finding>)
  {
    && |pos| == |findings| && Ordered(pos)
    && (forall m :: 0 <= m < |pos| ==> pos[m] !in taken && FindingAt(layers, pos[m], findings[m]))
    && (forall i, k :: IsGuard(layers, i, k) && (i, k) !in taken ==> (i, k) in pos)
  }

  // The ids are exactly the declared ones, each once.
  ghost predicate IdsAreDeclared(layers: seq<Layer>, guards: seq<Guard>) {
    && (forall id :: HasId(guards, id) <==> IsDeclared(layers, id))
    && (forall s, t :: 0 <= s < t < |guards| ==> guards[s].id != guards[t].id)
  }

  ghost predicate IsDeclared(layers: seq<Layer>, id: string) {
    exists i, k :: DeclaredAt(layers, i, k, id)
  }

  // The commands are those of all files, each once.
  ghost predicate CommandsAreAll(layers: seq<Layer>, commands: seq<string>) {
    NoRepeats(commands) && forall c :: c in commands <==> InSomeLayer(layers, c)
  }

  ghost predicate MergesInto(effective: (string, string) -> string, layers: seq<Layer>, p: Policy) {
    && IdsAreDeclared(layers, p.guards) && CommandsAreAll(layers, p.commands)
    && exists taken, pos :: AreTaken(layers, taken)
         && GuardsAreLast(effective, layers, taken, p.guards) && FindingsAre(layers, taken, pos, p.findings)
  }

  predicate InSomeLayer(layers: seq<Layer>, c: string) {
    exists i :: 0 <= i < |layers| && c in layers[i].commands
  }

  lemma {:induction false} CommandsOfAll(layers: seq<Layer>, c: string)
    ensures c in AllCommands(layers) <==> InSomeLayer(layers, c)
  {
    if layers != [] {
      var n := |layers| - 1;
      CommandsOfAll(layers[..n], c);
      if i :| 0 <= i < |layers| && c in layers[i].commands {
        assert i == n || layers[..n][i] == layers[i];
      }
      if i :| 0 <= i < n && c in layers[..n][i].commands {
        assert c in layers[i].commands;
      }
    }
  }

  // Where the n-th declaration of all stands.
  lemma DeclIs(effective: (string, string) -> string, layers: seq<Layer>, n: nat) returns (i: nat, k: nat)
    requires n < |AllDecls(effective, layers)|
    ensures i < |layers| && k < |layers[i].guards| && n == GuardTotal(layers[..i]) + k
    ensures AllDecls(effective, layers)[n].file == layers[i].path
    ensures ScopedAt(effective, layers, i, k, AllDecls(effective, layers)[n].guard)
  {
    DeclCount(effective, layers);
    var at := PlaceOf(layers, n);
    i, k := at.0, at.1;
    DeclAt(effective, layers, i, k);
  }

  lemma DeclaredExactly(effective: (string, string) -> string, layers: seq<Layer>, decls: seq<Decl>, id: string)
    requires decls == AllDecls(effective, layers)
    ensures IsDeclared(layers, id) <==> exists n :: 0 <= n < |decls| && decls[n].guard.id == id
  {
    if n :| 0 <= n < |decls| && decls[n].guard.id == id {
      var i, k := DeclIs(effective, layers, n);
      assert DeclaredAt(layers, i, k, id);
    }
    if i, k :| DeclaredAt(layers, i, k, id) {
      DeclAt(effective, layers, i, k);
    }
  }

  lemma HasIdExactly(m: Merged, id: string)
    requires Consistent(m)
    ensures HasId(m.guards, id) <==> id in m.idx
  {
    if s :| 0 <= s < |m.guards| && m.guards[s].id == id {
      assert SlotOk(m, s);
    }
    if id in m.idx {
      assert IdOk(m, id);
    }
  }

  lemma MergedIds(effective: (string, string) -> string, layers: seq<Layer>, m: Merged)
    requires m == MergeAll(EMPTY, AllDecls(effective, layers))
    ensures IdsAreDeclared(layers, m.guards)
  {
    var decls := AllDecls(effective, layers);
    AfterConsistent(EMPTY, decls, |decls|);
    IdsAreTheDeclaredOnes(decls, |decls|);
    forall id ensures HasId(m.guards, id) <==> IsDeclared(layers, id) {
      HasIdExactly(m, id);
      DeclaredExactly(effective, layers, decls, id);
    }
    forall s, t | 0 <= s < t < |m.guards| ensures m.guards[s].id != m.guards[t].id {
      assert SlotOk(m, s) && SlotOk(m, t);
    }
  }

  // The place of a declaration among all follows the files.
  lemma PlacesFollow(layers: seq<Layer>, i: nat, k: nat, j: nat, m: nat)
    requires i < |layers| && k < |layers[i].guards| && j < |layers| && m < |layers[j].guards|
    ensures Before(i, k, j, m) <==> GuardTotal(layers[..i]) + k < GuardTotal(layers[..j]) + m
  {
    if i < j { TotalGrows(layers, i, j); }
    if j < i { TotalGrows(layers, j, i); }
  }

  // ---------- From the list of declarations to the files ----------

  // And the number of a place.
  function NumberOf(layers: seq<Layer>, i: int, k: int): nat
    requires IsGuard(layers, i, k)
  {
    GuardTotal(layers[..i]) + k
  }

  lemma NumberInRange(layers: seq<Layer>, i: int, k: int)
    requires IsGuard(layers, i, k)
    ensures NumberOf(layers, i, k) < GuardTotal(layers) && PlaceOf(layers, NumberOf(layers, i, k)) == (i, k)
  {
    assert layers[..|layers|] == layers;
    TotalGrows(layers, i, |layers|);
    var at := PlaceOf(layers, NumberOf(layers, i, k));
    PlacesFollow(layers, i, k, at.0, at.1);
    PlacesFollow(layers, at.0, at.1, i, k);
  }

  ghost function TakenPlaces(layers: seq<Layer>, decls: seq<Decl>): set<(int, int)>
    requires |decls| == GuardTotal(layers)
  {
    set n: nat | n < |decls| && Accepted(decls, n) :: PlaceOf(layers, n)
  }

  lemma TakenExactly(layers: seq<Layer>, decls: seq<Decl>, i: int, k: int)
    requires |decls| == GuardTotal(layers)
    ensures (i, k) in TakenPlaces(layers, decls) <==>
      IsGuard(layers, i, k) && Accepted(decls, NumberOf(layers, i, k))
  {
    if IsGuard(layers, i, k) {
      NumberInRange(layers, i, k);
    }
  }

  lemma DeclNumbered(effective: (string, string) -> string, layers: seq<Layer>, i: int, k: int)
    requires IsGuard(layers, i, k)
    ensures
      var n, decls := NumberOf(layers, i, k), AllDecls(effective, layers);
      n < |decls| == GuardTotal(layers) && decls[n].file == layers[i].path
      && ScopedAt(effective, layers, i, k, decls[n].guard)
  {
    DeclCount(effective, layers);
    DeclAt(effective, layers, i, k);
  }

  // Declaration j stands against declaration n exactly when the guards do.
  lemma LoosensAt(effective: (string, string) -> string, layers: seq<Layer>, i: int, k: int, j: int, m: int)
    requires IsGuard(layers, i, k) && IsGuard(layers, j, m)
    ensures
      var decls, a, b := AllDecls(effective, layers), NumberOf(layers, j, m), NumberOf(layers, i, k);
      && |decls| == GuardTotal(layers) && a < |decls| && b < |decls|
      && (a < b <==> Before(j, m, i, k))
      && (Loosens(decls, a, b) <==>
            && Accepted(decls, a) && SameId(layers, j, m, i, k)
            && !Tightens(layers[j].guards[m], layers[i].guards[k]))
  {
    DeclNumbered(effective, layers, i, k);
    DeclNumbered(effective, layers, j, m);
    PlacesFollow(layers, j, m, i, k);
  }

  lemma {:induction false} RefusedLoosens(
    effective: (string, string) -> string, layers: seq<Layer>, taken: set<(int, int)>, i: int, k: int, a: nat)
    requires |AllDecls(effective, layers)| == GuardTotal(layers)
    requires taken == TakenPlaces(layers, AllDecls(effective, layers)) && IsGuard(layers, i, k)
    requires a < NumberOf(layers, i, k) < GuardTotal(layers)
    requires Loosens(AllDecls(effective, layers), a, NumberOf(layers, i, k))
    ensures !TightensTaken(layers, taken, i, k)
  {
    var at := PlaceOf(layers, a);
    LoosensAt(effective, layers, i, k, at.0, at.1);
    TakenExactly(layers, AllDecls(effective, layers), at.0, at.1);
    NotTightened(layers, taken, i, k, at.0, at.1);
  }

  lemma NotTightened(layers: seq<Layer>, taken: set<(int, int)>, i: int, k: int, j: int, m: int)
    requires (j, m) in taken && Before(j, m, i, k) && SameId(layers, j, m, i, k)
    requires !Tightens(layers[j].guards[m], layers[i].guards[k])
    ensures !TightensTaken(layers, taken, i, k)
  {
  }

  lemma {:induction false} LoosensRefuses(
    effective: (string, string) -> string, layers: seq<Layer>, taken: set<(int, int)>, i: int, k: int)
    requires |AllDecls(effective, layers)| == GuardTotal(layers)
    requires taken == TakenPlaces(layers, AllDecls(effective, layers)) && IsGuard(layers, i, k)
    requires !TightensTaken(layers, taken, i, k)
    ensures
      var decls, n := AllDecls(effective, layers), NumberOf(layers, i, k);
      n < |decls| && exists a: nat :: a < n && Loosens(decls, a, n)
  {
    var j, m :| (j, m) in taken && Before(j, m, i, k) && SameId(layers, j, m, i, k)
      && !Tightens(layers[j].guards[m], layers[i].guards[k]);
    TakenExactly(layers, AllDecls(effective, layers), j, m);
    LoosensAt(effective, layers, i, k, j, m);
    assert Loosens(AllDecls(effective, layers), NumberOf(layers, j, m), NumberOf(layers, i, k));
  }

  lemma {:induction false} TakenTightens(
    effective: (string, string) -> string, layers: seq<Layer>, taken: set<(int, int)>, i: int, k: int)
    requires |AllDecls(effective, layers)| == GuardTotal(layers)
    requires taken == TakenPlaces(layers, AllDecls(effective, layers)) && IsGuard(layers, i, k)
    ensures Accepted(AllDecls(effective, layers), NumberOf(layers, i, k)) <==> TightensTaken(layers, taken, i, k)
  {
    var decls, n := AllDecls(effective, layers), NumberOf(layers, i, k);
    NumberInRange(layers, i, k);
    RefusedByHistory(decls, n);
    if a: nat :| a < n && Loosens(decls, a, n) {
      RefusedLoosens(effective, layers, taken, i, k, a);
    }
    if !TightensTaken(layers, taken, i, k) {
      LoosensRefuses(effective, layers, taken, i, k);
    }
  }

  lemma MergedTaken(effective: (string, string) -> string, layers: seq<Layer>)
    requires |AllDecls(effective, layers)| == GuardTotal(layers)
    ensures AreTaken(layers, TakenPlaces(layers, AllDecls(effective, layers)))
  {
    var decls := AllDecls(effective, layers);
    var taken := TakenPlaces(layers, decls);
    forall i, k ensures (i, k) in taken <==> IsGuard(layers, i, k) && TightensTaken(layers, taken, i, k) {
      TakenExactly(layers, decls, i, k);
      if IsGuard(layers, i, k) {
        TakenTightens(effective, layers, taken, i, k);
      }
    }
  }

  // A merged guard is the last accepted declaration of its id.
  lemma {:induction false} FinalIsLast(decls: seq<Decl>, m: Merged, s: nat) returns (n: nat)
    requires m == MergeAll(EMPTY, decls) && s < |m.guards|
    ensures LastAccepted(decls, n) && m.guards[s] == decls[n].guard
  {
    var j := FinalIsDeclared(decls, |decls|, s);
    n := LastAcceptedExists(decls, j);
    LastAcceptedStands(decls, n, |decls|);
    AfterConsistent(EMPTY, decls, |decls|);
    ConsistentIsDistinct(m, s, m.idx[decls[n].guard.id]);
  }

  lemma {:induction false} MergedIsLast(effective: (string, string) -> string, layers: seq<Layer>, m: Merged, s: nat)
    requires m == MergeAll(EMPTY, AllDecls(effective, layers)) && s < |m.guards|
    requires |AllDecls(effective, layers)| == GuardTotal(layers)
    ensures IsLast(effective, layers, TakenPlaces(layers, AllDecls(effective, layers)), m.guards[s])
  {
    var n := FinalIsLast(AllDecls(effective, layers), m, s);
    var at := PlaceOf(layers, n);
    LastIsLastTaken(effective, layers, AllDecls(effective, layers), at.0, at.1);
  }

  lemma {:induction false} LastIsLastTaken(
    effective: (string, string) -> string, layers: seq<Layer>, decls: seq<Decl>, i: int, k: int)
    requires decls == AllDecls(effective, layers) && |decls| == GuardTotal(layers)
    requires IsGuard(layers, i, k) && LastAccepted(decls, NumberOf(layers, i, k))
    ensures LastTaken(layers, TakenPlaces(layers, decls), i, k)
    ensures ScopedAt(effective, layers, i, k, decls[NumberOf(layers, i, k)].guard)
  {
    var taken := TakenPlaces(layers, decls);
    DeclNumbered(effective, layers, i, k);
    TakenExactly(layers, decls, i, k);
    forall j, m | (j, m) in taken && SameId(layers, j, m, i, k) ensures !Before(i, k, j, m) {
      TakenExactly(layers, decls, j, m);
      DeclNumbered(effective, layers, j, m);
      PlacesFollow(layers, i, k, j, m);
    }
  }

  lemma MergedLast(effective: (string, string) -> string, layers: seq<Layer>, m: Merged)
    requires m == MergeAll(EMPTY, AllDecls(effective, layers)) && |AllDecls(effective, layers)| == GuardTotal(layers)
    ensures GuardsAreLast(effective, layers, TakenPlaces(layers, AllDecls(effective, layers)), m.guards)
  {
    forall s | 0 <= s < |m.guards|
      ensures IsLast(effective, layers, TakenPlaces(layers, AllDecls(effective, layers)), m.guards[s])
    {
      MergedIsLast(effective, layers, m, s);
    }
  }

  // The refused among the first n declarations, in order.
  ghost predicate RefusedAre(decls: seq<Decl>, n: nat, pos: seq<int>, findings: seq<Finding>) {
    && n <= |decls| && |pos| == |findings| && Ascending(pos)
    && (forall m :: 0 <= m < |pos| ==> RefusedAt(decls, n, pos[m]) && findings[m] == FindingOf(decls[pos[m]]))
    && (forall i :: RefusedAt(decls, n, i) ==> i in pos)
  }

  predicate RefusedAt(decls: seq<Decl>, n: nat, i: int) {
    0 <= i < n && i < |decls| && !Accepted(decls, i)
  }

  function FindingOf(d: Decl): Finding {
    Finding(d.guard.id, d.file)
  }

  lemma RefusedOneMore(decls: seq<Decl>, n: nat, pos: seq<int>, findings: seq<Finding>)
    requires n < |decls| && RefusedAre(decls, n, pos, findings)
    ensures Accepted(decls, n) ==> RefusedAre(decls, n + 1, pos, findings)
    ensures !Accepted(decls, n) ==> RefusedAre(decls, n + 1, pos + [n], findings + [FindingOf(decls[n])])
  {
    forall i | RefusedAt(decls, n + 1, i) ensures if Accepted(decls, n) then i in pos else i in pos + [n] {
      assert i < n ==> RefusedAt(decls, n, i);
      assert (pos + [n])[|pos|] == n;
    }
    forall m | 0 <= m < |pos| ensures RefusedAt(decls, n, pos[m]) && RefusedAt(decls, n + 1, pos[m]) {
    }
  }

  lemma {:induction false} RefusedInOrder(decls: seq<Decl>, n: nat) returns (pos: seq<int>)
    requires n <= |decls|
    ensures RefusedAre(decls, n, pos, After(EMPTY, decls, n).findings)
  {
    if n == 0 {
      pos := [];
    } else {
      pos := RefusedInOrder(decls, n - 1);
      RefusedOneMore(decls, n - 1, pos, After(EMPTY, decls, n - 1).findings);
      if !Accepted(decls, n - 1) {
        pos := pos + [n - 1];
      }
    }
  }

  function PlacesOf(layers: seq<Layer>, pos: seq<int>): (at: seq<(int, int)>)
    requires forall m :: 0 <= m < |pos| ==> 0 <= pos[m] < GuardTotal(layers)
    ensures |at| == |pos| && forall m :: 0 <= m < |pos| ==> at[m] == PlaceOf(layers, pos[m])
  {
    seq(|pos|, m requires 0 <= m < |pos| => PlaceOf(layers, pos[m]))
  }

  lemma {:induction false} MergedFindings(effective: (string, string) -> string, layers: seq<Layer>, m: Merged)
    returns (at: seq<(int, int)>)
    requires m == MergeAll(EMPTY, AllDecls(effective, layers)) && |AllDecls(effective, layers)| == GuardTotal(layers)
    ensures FindingsAre(layers, TakenPlaces(layers, AllDecls(effective, layers)), at, m.findings)
  {
    var decls := AllDecls(effective, layers);
    var pos := RefusedInOrder(decls, |decls|);
    at := PlacesOf(layers, pos);
    PlacesOrdered(layers, pos);
    forall n | 0 <= n < |at|
      ensures at[n] !in TakenPlaces(layers, decls) && FindingAt(layers, at[n], m.findings[n])
    {
      assert RefusedAt(decls, |decls|, pos[n]);
      TakenExactly(layers, decls, at[n].0, at[n].1);
      DeclNumbered(effective, layers, at[n].0, at[n].1);
    }
    forall i, k | IsGuard(layers, i, k) && (i, k) !in TakenPlaces(layers, decls) ensures (i, k) in at {
      TakenExactly(layers, decls, i, k);
      NumberInRange(layers, i, k);
      assert RefusedAt(decls, |decls|, NumberOf(layers, i, k));
      var n :| 0 <= n < |pos| && pos[n] == NumberOf(layers, i, k);
      assert at[n] == (i, k);
    }
  }

  lemma PlacesOrdered(layers: seq<Layer>, pos: seq<int>)
    requires Ascending(pos) && forall m :: 0 <= m < |pos| ==> 0 <= pos[m] < GuardTotal(layers)
    ensures Ordered(PlacesOf(layers, pos))
  {
    var at := PlacesOf(layers, pos);
    forall m, n | 0 <= m < n < |at| ensures Before(at[m].0, at[m].1, at[n].0, at[n].1) {
      PlacesFollow(layers, at[m].0, at[m].1, at[n].0, at[n].1);
    }
  }

  lemma MergedCommands(layers: seq<Layer>)
    ensures CommandsAreAll(layers, Distinct(AllCommands(layers)))
  {
    DistinctIsPlain(AllCommands(layers));
    forall c ensures c in Distinct(AllCommands(layers)) <==> InSomeLayer(layers, c) {
      CommandsOfAll(layers, c);
    }
  }

  lemma MergeMeans(effective: (string, string) -> string, layers: seq<Layer>, m: Merged)
    requires m == MergeAll(EMPTY, AllDecls(effective, layers))
    ensures MergesInto(effective, layers, Policy(m.guards, Distinct(AllCommands(layers)), m.findings))
  {
    DeclCount(effective, layers);
    MergedIds(effective, layers, m);
    MergedTaken(effective, layers);
    MergedLast(effective, layers, m);
    var pos := MergedFindings(effective, layers, m);
    MergedCommands(layers);
  }

  // The files decide what is taken.
  lemma TakenUnique(layers: seq<Layer>, a: set<(int, int)>, b: set<(int, int)>)
    requires AreTaken(layers, a) && AreTaken(layers, b)
    ensures a == b
  {
    forall x ensures x in a <==> x in b {
      var i, k := x.0, x.1;
      assert x == (i, k);
      assert (i, k) in a ==> IsGuard(layers, i, k);
      assert (i, k) in b ==> IsGuard(layers, i, k);
      if IsGuard(layers, i, k) { SameTaken(layers, a, b, i, k); }
    }
  }

  lemma {:induction false} SameTaken(layers: seq<Layer>, a: set<(int, int)>, b: set<(int, int)>, i: int, k: int)
    requires AreTaken(layers, a) && AreTaken(layers, b) && IsGuard(layers, i, k)
    ensures (i, k) in a <==> (i, k) in b
    decreases NumberOf(layers, i, k)
  {
    forall j, m | Before(j, m, i, k) && SameId(layers, j, m, i, k) ensures (j, m) in a <==> (j, m) in b {
      PlacesFollow(layers, j, m, i, k);
      SameTaken(layers, a, b, j, m);
    }
    assert TightensTaken(layers, a, i, k) <==> TightensTaken(layers, b, i, k);
  }

  // One file is taken as loaded, with no merge step; the merge proper starts at two.
  method Merge(effective: (string, string) -> string, layers: seq<Layer>) returns (r: Result<Policy, MergeError>)
    ensures layers == [] <==> r == Err(NoPaths)
    ensures |layers| == 1 ==> r == Ok(Policy(layers[0].guards, layers[0].commands, []))
    ensures |layers| > 1 ==>
      var m := MergeAll(EMPTY, AllDecls(effective, layers));
      r == Ok(Policy(m.guards, Distinct(AllCommands(layers)), m.findings))
    ensures |layers| > 1 ==> r.Ok? && MergesInto(effective, layers, r.value)
  {
    if |layers| == 0 {
      return Err(NoPaths);
    }
    if |layers| == 1 {
      return Ok(Policy(layers[0].guards, layers[0].commands, []));
    }
    var m := new MergeState(effective);
    var i := 0;
    while i < |layers|
      invariant 0 <= i <= |layers| && m.Valid() && fresh(m) && m.effective == effective
      invariant m.Contents() == MergeAll(EMPTY, AllDecls(effective, layers[..i]))
      invariant m.coverageCommands == Distinct(AllCommands(layers[..i]))
    {
      assert layers[..i + 1][..i] == layers[..i];
      MergeAllAppend(AllDecls(effective, layers[..i]), DeclsOf(effective, layers[i]));
      DistinctAppend(AllCommands(layers[..i]), layers[i].commands);
      m.MergeGuards(layers[i]);
      i := i + 1;
    }
    assert layers[..|layers|] == layers;
    MergeMeans(effective, layers, m.Contents());
    return Ok(Policy(m.guards, m.coverageCommands, m.findings));
  }
}
