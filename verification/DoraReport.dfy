/** How unrecovered lifelines are reported (internal/dora/dora.go, displayID and the end of
    lifelineMTTR): names a reader knows, sorted. */
module DoraReport {
  import opened Wrappers
  import opened Text
  import opened Sorting
  import opened LedgerEntry
  import opened Dora
  import opened DoraOrder

  // "proof:x" reads "x (proof)": the id cut at its first colon.
  function DisplayID(id: string): string {
    match Index(id, ":")
    case Some(i) => id[i + 1..] + " (" + id[..i] + ")"
    case None => id
  }

  lemma DisplayOf(kind: string, name: string)
    requires ':' !in kind
    ensures DisplayID(kind + ":" + name) == name + " (" + kind + ")"
  {
    var id := kind + ":" + name;
    assert id[|kind|..] == ":" + name;
    forall j: nat | j < |kind| ensures !OccursAt(id, ":", j) {
      assert id[j] == kind[j];
      DiffersAt(id, ":", j, 0);
    }
    IndexIsFirst(id, ":", |kind|);
    assert id[..|kind|] == kind && id[|kind| + 1..] == name;
  }

  // A guard and a proof of one name, or two names, never read alike.
  lemma DisplayedApart(kind: string, name: string, otherKind: string, otherName: string)
    requires kind == "guard" || kind == "proof"
    requires otherKind == "guard" || otherKind == "proof"
    requires DisplayID(kind + ":" + name) == DisplayID(otherKind + ":" + otherName)
    ensures kind == otherKind && name == otherName
  {
    DisplayOf(kind, name);
    DisplayOf(otherKind, otherName);
    var s, t := name + " (" + kind + ")", otherName + " (" + otherKind + ")";
    assert s[|s| - 2] == kind[4] && t[|t| - 2] == otherKind[4];
    assert kind[4] == (if kind == "guard" then 'd' else 'f');
    assert otherKind[4] == (if otherKind == "guard" then 'd' else 'f');
    assert s[..|s| - 8] == name && t[..|t| - 8] == otherName;
  }

  ghost predicate Lists(ids: set<string>, order: seq<string>) {
    multiset(order) == multiset(ids)
  }

  // The display names of the ids, in ascending order.
  ghost predicate IsReport(ids: set<string>, names: seq<string>) {
    exists order :: Lists(ids, order) && SortOf(StringLess, Map(DisplayID, order), names)
  }

  lemma StringLessIsTotal()
    ensures StrictWeakOrder(StringLess) && Antisymmetric(StringLess)
  {
    forall x, y
      ensures !StringLess(x, x) && (!StringLess(x, y) && !StringLess(y, x) ==> x == y)
      ensures !(StringLess(x, y) && StringLess(y, x))
    {
      StringLessTotal(x, x);
      StringLessTotal(x, y);
    }
    forall x, y, z | StringLess(x, y) && StringLess(y, z) ensures StringLess(x, z) {
      StringLessTransitive(x, y, z);
    }
  }

  // The set walked in whatever order gives one report.
  lemma ReportUnique(ids: set<string>, names: seq<string>, others: seq<string>)
    requires IsReport(ids, names) && IsReport(ids, others)
    ensures names == others
  {
    var a :| Lists(ids, a) && SortOf(StringLess, Map(DisplayID, a), names);
    var b :| Lists(ids, b) && SortOf(StringLess, Map(DisplayID, b), others);
    MapKeepsMultiset(DisplayID, a, b);
    StringLessIsTotal();
    SortUnique(StringLess, names, others);
  }

  method Report(ids: set<string>) returns (names: seq<string>)
    ensures IsReport(ids, names)
  {
    var rest := ids;
    names := [];
    ghost var order: seq<string> := [];
    while rest != {}
      invariant rest <= ids && multiset(order) == multiset(ids - rest)
      invariant names == Map(DisplayID, order)
      decreases |rest|
    {
      var id :| id in rest;
      assert ids - (rest - {id}) == (ids - rest) + {id};
      names := names + [DisplayID(id)];
      order := order + [id];
      rest := rest - {id};
    }
    assert ids - rest == ids;
    StringLessIsTotal();
    names := SortSlice(StringLess, names);
  }

  // What lifelineMTTR returns: the median and the sorted names of what never recovered.
  ghost predicate IsLifelineReport(es: seq<Entry>, from: Time, to: Time, mttr: Option<int>, names: seq<string>) {
    exists unrecovered :: IsMTTR(SignalsOf(es, |es|), from, to, mttr, unrecovered) && IsReport(unrecovered, names)
  }

  method LifelineReport(es: seq<Entry>, from: Time, to: Time) returns (mttr: Option<int>, names: seq<string>)
    ensures IsLifelineReport(es, from, to, mttr, names)
  {
    var unrecovered;
    mttr, unrecovered := LifelineMTTR(es, from, to);
    names := Report(unrecovered);
  }

  // Without a conflict a ledger has one report.
  lemma OneReport(
    es: seq<Entry>, from: Time, to: Time,
    mttrA: Option<int>, namesA: seq<string>, mttrB: Option<int>, namesB: seq<string>)
    requires NoConflict(SignalsOf(es, |es|))
    requires IsLifelineReport(es, from, to, mttrA, namesA) && IsLifelineReport(es, from, to, mttrB, namesB)
    ensures mttrA == mttrB && namesA == namesB
  {
    var signals := SignalsOf(es, |es|);
    var a :| IsMTTR(signals, from, to, mttrA, a) && IsReport(a, namesA);
    var b :| IsMTTR(signals, from, to, mttrB, b) && IsReport(b, namesB);
    OneAnswer(signals, from, to, mttrA, a, mttrB, b);
    ReportUnique(a, namesA, namesB);
  }
}
