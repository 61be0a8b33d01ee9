/** Proposing recovery budgets from drill telemetry (internal/drill/calibrate.go).
    Scaling and the 95 percent rank use exact rationals where the source uses floats. */
module Calibrate {
  import opened Wrappers
  import opened Ranks
  import opened Picking
  import opened Sorting
  import opened Floats
  import opened LedgerEntry
  import Decimal

  const MILLISECOND := 1000000
  const SECOND := 1000 * MILLISECOND
  const MINUTE := 60 * SECOND
  const HOUR := 60 * MINUTE
  const RTO_FLOOR := 30 * SECOND
  const RPO_FLOOR := 6 * HOUR
  const RPO_MARGIN: real := 1.5
  const DEFAULT_MIN_RUNS := 3
  const DEFAULT_MARGIN: real := 4.0

  // ---------- Samples ----------

  predicate IsVerifiedRun(e: Entry) {
    e.entryType == DrillEntry && e.payload.drill.Some?
    && e.payload.drill.value.mode == "drill" && e.payload.drill.value.verified
  }

  function RtoOf(e: Entry, proof: string): seq<int> {
    if IsVerifiedRun(e) && e.payload.drill.value.proofId == proof then [e.payload.drill.value.rtoMs] else []
  }

  function RpoOf(e: Entry, proof: string): seq<int> {
    if IsVerifiedRun(e) && e.payload.drill.value.proofId == proof && e.payload.drill.value.rpoMs.Some?
    then [e.payload.drill.value.rpoMs.value] else []
  }

  // The times of the first n entries' verified runs for one proof, in ledger order.
  function RtoSamples(es: seq<Entry>, n: nat, proof: string): seq<int>
    requires n <= |es|
  {
    if n == 0 then [] else RtoSamples(es, n - 1, proof) + RtoOf(es[n - 1], proof)
  }

  function RpoSamples(es: seq<Entry>, n: nat, proof: string): seq<int>
    requires n <= |es|
  {
    if n == 0 then [] else RpoSamples(es, n - 1, proof) + RpoOf(es[n - 1], proof)
  }

  function Lookup(m: map<string, seq<int>>, key: string): seq<int> {
    if key in m then m[key] else []
  }

  function Append(m: map<string, seq<int>>, key: string, x: int): map<string, seq<int>> {
    m[key := Lookup(m, key) + [x]]
  }

  // What one entry adds to each of the two tables.
  function WithRto(m: map<string, seq<int>>, e: Entry): map<string, seq<int>> {
    if IsVerifiedRun(e) then Append(m, e.payload.drill.value.proofId, e.payload.drill.value.rtoMs) else m
  }

  function WithRpo(m: map<string, seq<int>>, e: Entry): map<string, seq<int>> {
    if IsVerifiedRun(e) && e.payload.drill.value.rpoMs.Some?
    then Append(m, e.payload.drill.value.proofId, e.payload.drill.value.rpoMs.value) else m
  }

  // The two tables after the first n entries.
  function RtoTable(es: seq<Entry>, n: nat): map<string, seq<int>>
    requires n <= |es|
  {
    if n == 0 then map[] else WithRto(RtoTable(es, n - 1), es[n - 1])
  }

  function RpoTable(es: seq<Entry>, n: nat): map<string, seq<int>>
    requires n <= |es|
  {
    if n == 0 then map[] else WithRpo(RpoTable(es, n - 1), es[n - 1])
  }

  lemma WithOneLooksUp(m: map<string, seq<int>>, e: Entry, proof: string)
    ensures Lookup(WithRto(m, e), proof) == Lookup(m, proof) + RtoOf(e, proof)
    ensures Lookup(WithRpo(m, e), proof) == Lookup(m, proof) + RpoOf(e, proof)
  {
  }

  lemma {:induction false} TablesHoldTheSamples(es: seq<Entry>, n: nat, proof: string)
    requires n <= |es|
    ensures Lookup(RtoTable(es, n), proof) == RtoSamples(es, n, proof)
    ensures Lookup(RpoTable(es, n), proof) == RpoSamples(es, n, proof)
  {
    if n > 0 {
      TablesHoldTheSamples(es, n - 1, proof);
      WithOneLooksUp(RtoTable(es, n - 1), es[n - 1], proof);
      WithOneLooksUp(RpoTable(es, n - 1), es[n - 1], proof);
    }
  }

  // Entry i is a successful recovery drill of the proof.
  predicate RunAt(es: seq<Entry>, i: int, proof: string) {
    && 0 <= i < |es| && es[i].entryType == DrillEntry && es[i].payload.drill.Some?
    && es[i].payload.drill.value.proofId == proof && es[i].payload.drill.value.mode == "drill"
    && es[i].payload.drill.value.verified
  }

  // One that measured what it lost.
  predicate LossAt(es: seq<Entry>, i: int, proof: string) {
    RunAt(es, i, proof) && es[i].payload.drill.value.rpoMs.Some?
  }

  // The recovery times of exactly those runs, in ledger order.
  ghost predicate RtoRead(es: seq<Entry>, proof: string, pos: seq<int>, out: seq<int>) {
    && Ascending(pos) && |pos| == |out|
    && (forall m :: 0 <= m < |pos| ==> RunAt(es, pos[m], proof) && out[m] == es[pos[m]].payload.drill.value.rtoMs)
    && (forall i :: RunAt(es, i, proof) ==> i in pos)
  }

  // And the data losses of those of them that measured one.
  ghost predicate RpoRead(es: seq<Entry>, proof: string, pos: seq<int>, out: seq<int>) {
    && Ascending(pos) && |pos| == |out|
    && (forall m :: 0 <= m < |pos| ==>
          LossAt(es, pos[m], proof) && out[m] == es[pos[m]].payload.drill.value.rpoMs.value)
    && (forall i :: LossAt(es, i, proof) ==> i in pos)
  }

  ghost predicate RtoExactly(es: seq<Entry>, proof: string, out: seq<int>) {
    exists pos :: RtoRead(es, proof, pos, out)
  }

  ghost predicate RpoExactly(es: seq<Entry>, proof: string, out: seq<int>) {
    exists pos :: RpoRead(es, proof, pos, out)
  }

  lemma RtoOneMore(es: seq<Entry>, e: Entry, proof: string, pos: seq<int>, out: seq<int>)
    requires RtoRead(es, proof, pos, out)
    ensures RtoRead(es + [e], proof, if RtoOf(e, proof) != [] then pos + [|es|] else pos, out + RtoOf(e, proof))
  {
    var at := if RtoOf(e, proof) != [] then pos + [|es|] else pos;
    forall i | RunAt(es + [e], i, proof) ensures i in at {
      assert i < |es| ==> RunAt(es, i, proof);
      assert i == |es| ==> at[|pos|] == i;
    }
    forall m | 0 <= m < |pos| ensures RunAt(es + [e], pos[m], proof) {
      assert RunAt(es, pos[m], proof);
    }
  }

  lemma RpoOneMore(es: seq<Entry>, e: Entry, proof: string, pos: seq<int>, out: seq<int>)
    requires RpoRead(es, proof, pos, out)
    ensures RpoRead(es + [e], proof, if RpoOf(e, proof) != [] then pos + [|es|] else pos, out + RpoOf(e, proof))
  {
    var at := if RpoOf(e, proof) != [] then pos + [|es|] else pos;
    forall i | LossAt(es + [e], i, proof) ensures i in at {
      assert i < |es| ==> LossAt(es, i, proof);
      assert i == |es| ==> at[|pos|] == i;
    }
    forall m | 0 <= m < |pos| ensures LossAt(es + [e], pos[m], proof) {
      assert LossAt(es, pos[m], proof);
    }
  }

  lemma RtoNone(es: seq<Entry>, proof: string)
    requires es == []
    ensures RtoExactly(es, proof, [])
  {
    assert RtoRead(es, proof, [], []);
  }

  lemma {:induction false} RtoSamplesExactly(es: seq<Entry>, n: nat, proof: string)
    requires n <= |es|
    ensures RtoExactly(es[..n], proof, RtoSamples(es, n, proof))
  {
    if n == 0 {
      RtoNone(es[..0], proof);
    } else {
      RtoSamplesExactly(es, n - 1, proof);
      RtoStep(es, n, proof);
    }
  }

  lemma {:induction false} RtoStep(es: seq<Entry>, n: nat, proof: string)
    requires 0 < n <= |es| && RtoExactly(es[..n - 1], proof, RtoSamples(es, n - 1, proof))
    ensures RtoExactly(es[..n], proof, RtoSamples(es, n, proof))
  {
    RtoExactlyOneMore(es[..n - 1], es[n - 1], proof, RtoSamples(es, n - 1, proof));
    assert es[..n] == es[..n - 1] + [es[n - 1]];
  }

  lemma RtoExactlyOneMore(es: seq<Entry>, e: Entry, proof: string, out: seq<int>)
    requires RtoExactly(es, proof, out)
    ensures RtoExactly(es + [e], proof, out + RtoOf(e, proof))
  {
    var pos :| RtoRead(es, proof, pos, out);
    RtoOneMore(es, e, proof, pos, out);
  }

  lemma RpoNone(es: seq<Entry>, proof: string)
    requires es == []
    ensures RpoExactly(es, proof, [])
  {
    assert RpoRead(es, proof, [], []);
  }

  lemma {:induction false} RpoSamplesExactly(es: seq<Entry>, n: nat, proof: string)
    requires n <= |es|
    ensures RpoExactly(es[..n], proof, RpoSamples(es, n, proof))
  {
    if n == 0 {
      RpoNone(es[..0], proof);
    } else {
      RpoSamplesExactly(es, n - 1, proof);
      RpoStep(es, n, proof);
    }
  }

  lemma {:induction false} RpoStep(es: seq<Entry>, n: nat, proof: string)
    requires 0 < n <= |es| && RpoExactly(es[..n - 1], proof, RpoSamples(es, n - 1, proof))
    ensures RpoExactly(es[..n], proof, RpoSamples(es, n, proof))
  {
    RpoExactlyOneMore(es[..n - 1], es[n - 1], proof, RpoSamples(es, n - 1, proof));
    assert es[..n] == es[..n - 1] + [es[n - 1]];
  }

  lemma RpoExactlyOneMore(es: seq<Entry>, e: Entry, proof: string, out: seq<int>)
    requires RpoExactly(es, proof, out)
    ensures RpoExactly(es + [e], proof, out + RpoOf(e, proof))
  {
    var pos :| RpoRead(es, proof, pos, out);
    RpoOneMore(es, e, proof, pos, out);
  }

  method CollectCalibrateSamples(es: seq<Entry>) returns (rto: map<string, seq<int>>, rpo: map<string, seq<int>>)
    ensures forall proof :: RtoExactly(es, proof, Lookup(rto, proof)) && RpoExactly(es, proof, Lookup(rpo, proof))
  {
    rto, rpo := CollectTables(es);
    forall proof ensures RtoExactly(es, proof, Lookup(rto, proof)) && RpoExactly(es, proof, Lookup(rpo, proof)) {
      TablesHoldTheSamples(es, |es|, proof);
      RtoSamplesExactly(es, |es|, proof);
      RpoSamplesExactly(es, |es|, proof);
      assert es[..|es|] == es;
    }
  }

  method CollectTables(es: seq<Entry>) returns (rto: map<string, seq<int>>, rpo: map<string, seq<int>>)
    ensures rto == RtoTable(es, |es|) && rpo == RpoTable(es, |es|)
  {
    rto, rpo := map[], map[];
    var i := 0;
    while i < |es|
      invariant 0 <= i <= |es|
      invariant rto == RtoTable(es, i) && rpo == RpoTable(es, i)
    {
      var e := es[i];
      i := i + 1;
      if e.entryType != DrillEntry || e.payload.drill.None? {
        continue;
      }
      var p := e.payload.drill.value;
      if p.mode != "drill" || !p.verified {
        continue;
      }
      rto := Append(rto, p.proofId, p.rtoMs);
      if p.rpoMs.Some? {
        rpo := Append(rpo, p.proofId, p.rpoMs.value);
      }
    }
  }

  // ---------- The 95th percentile ----------

  // ceil(0.95 n)
  function Rank95(n: nat): nat {
    (19 * n + 19) / 20
  }

  // The float64 nearest to 0.95, a little below it, times n.
  function Times95(n: nat): real {
    n as real * 4278419646001971.0 / 4503599627370496.0
  }

  // Far more samples than any memory holds.
  const MANY := 70368744177664 // 2^46

  function FloatRank95(round: Rounding, n: nat): int {
    Ceil(round(Times95(n)))
  }

  // The rank computed in float64 is the rank meant, though 0.95 has no float64 and products round.
  lemma FloatRankIsRank(round: Rounding, n: nat)
    requires Rounds(round) && n <= MANY
    ensures FloatRank95(round, n) == Rank95(n)
  {
    var q, r := 19 * n / 20, 19 * n % 20;
    NearlyNineteenTwentieths(n, q, r);
    if r == 0 {
      RoundsBetween(round, Times95(n), 32 * q - 1, 32 * q);
      CeilIs(round(Times95(n)), q);
    } else {
      RoundsBetween(round, Times95(n), 32 * q + 1, 32 * (q + 1));
      CeilIs(round(Times95(n)), q + 1);
    }
  }

  lemma NearlyNineteenTwentieths(n: nat, q: nat, r: nat)
    requires n <= MANY && 20 * q + r == 19 * n && r < 20
    ensures r == 0 ==> Part(32 * q - 1) <= Times95(n) <= Part(32 * q)
    ensures r > 0 ==> Part(32 * q + 1) <= Times95(n) <= Part(32 * (q + 1))
  {
    var x := n as real;
    assert 20.0 * q as real + r as real == 19.0 * x;
    assert x <= 70368744177664.0;
    assert Times95(n) <= 0.95 * x && 0.95 * x - Times95(n) <= 0.01;
  }

  // p is the least value that at least 95% of the samples do not exceed, and it is a sample.
  ghost predicate IsP95(samples: seq<int>, p: int) {
    && p in samples
    && 20 * CountAtMost(samples, p) >= 19 * |samples|
    && 20 * CountAtMost(samples, p - 1) < 19 * |samples|
  }

  lemma RankedIsP95(samples: seq<int>, sorted: seq<int>)
    requires samples != [] && SortOf(IntLess, samples, sorted)
    ensures |sorted| == |samples| && 1 <= Rank95(|samples|) <= |samples|
    ensures IsP95(samples, sorted[Rank95(|samples|) - 1])
  {
    SameLength(sorted, samples);
    var n := |samples|;
    var r := Rank95(n);
    var p := sorted[r - 1];
    forall i, j | 0 <= i <= j < n ensures sorted[i] <= sorted[j] {
      assert i == j || !IntLess(sorted[j], sorted[i]);
    }
    CountSurvivesSort(samples, sorted, p);
    CountSurvivesSort(samples, sorted, p - 1);
    AllTrue(Map(AtMost(p), sorted), r);
    AllFalse(Map(AtMost(p - 1), sorted), r - 1);
    assert p in multiset(sorted);
    assert p in multiset(samples);
  }

  // Fewer than 20 samples: the 95th percentile is the largest.
  lemma SmallSampleIsMax(samples: seq<int>, p: int)
    requires 0 < |samples| < 20 && IsP95(samples, p)
    ensures forall s :: s in samples ==> s <= p
  {
    CountWithin(samples, p, p);
    forall k | 0 <= k < |samples| ensures samples[k] <= p {
      if samples[k] > p {
        SomeAbove(samples, p, k);
      }
    }
  }

  lemma SomeAbove(samples: seq<int>, p: int, k: nat)
    requires k < |samples| && samples[k] > p
    ensures CountAtMost(samples, p) < |samples|
  {
    var bs := Map(AtMost(p), samples);
    assert bs == bs[..k] + [bs[k]] + bs[k + 1..];
    AllFalse(bs[..k], k);
    AllFalse(bs[k + 1..], |bs| - k - 1);
  }

  method Percentile95(round: Rounding, samples: seq<int>) returns (p: int)
    requires Rounds(round)
    ensures samples == [] ==> p == 0
    ensures 0 < |samples| <= MANY ==> IsP95(samples, p)
  {
    if |samples| == 0 {
      return 0;
    }
    var sorted := SortSlice(IntLess, samples);
    RankedIsP95(samples, sorted);
    var n := |sorted|;
    var rank := FloatRank95(round, n);
    if n <= MANY {
      FloatRankIsRank(round, n);
    }
    if rank < 1 {
      rank := 1;
    }
    if rank > n {
      rank := n;
    }
    return sorted[rank - 1];
  }

  // ---------- Scaling and rounding ----------

  // Conversion of a real to an integer: toward zero.
  function Truncate(x: real): int {
    if x >= 0.0 then x.Floor else -((-x).Floor)
  }

  // The duration becomes a float64, and so does the product.
  function ScaleDuration(round: Rounding, d: int, factor: real): int {
    Truncate(round(round(d as real) * factor))
  }

  function MaxDuration(a: int, b: int): int {
    if a > b then a else b
  }

  function FriendlyStep(d: int): int {
    if d > 5 * MINUTE then MINUTE else 30 * SECOND
  }

  function RoundUp(d: int, step: int): int
    requires step > 0
  {
    if d <= 0 then 0 else if d % step != 0 then d + step - d % step else d
  }

  function RoundUpFriendlyRTO(d: int): int {
    RoundUp(d, FriendlyStep(d))
  }

  function RoundUpToHour(d: int): int {
    RoundUp(d, HOUR)
  }

  // The least multiple of the step that is at or above d, and not negative.
  lemma RoundUpIsLeastMultiple(d: int, step: int, k: int)
    requires step > 0
    ensures RoundUp(d, step) % step == 0 && 0 <= RoundUp(d, step) && d <= RoundUp(d, step)
    ensures 0 <= k && d <= k * step ==> RoundUp(d, step) <= k * step
  {
    if d > 0 {
      var q := d / step;
      assert d == q * step + d % step;
      if d % step != 0 {
        assert RoundUp(d, step) == (q + 1) * step;
        MultipleOf(q + 1, step);
        if k <= q { SmallerMultiple(k, q, step); } else { SmallerMultiple(q + 1, k, step); }
      }
    } else if k >= 0 {
      SmallerMultiple(0, k, step);
    }
  }

  lemma MultipleOf(q: int, step: int)
    requires step > 0
    ensures (q * step) % step == 0
  {
    var k, r := (q * step) / step, (q * step) % step;
    assert (q - k) * step == r;
    if q > k { SmallerMultiple(1, q - k, step); }
    if q < k { SmallerMultiple(q - k, -1, step); }
  }

  lemma SmallerMultiple(a: int, b: int, step: int)
    requires a <= b && step > 0
    ensures a * step <= b * step
  {
  }

  const INT64_LIMIT := 9223372036854775808 // 2^63

  lemma RoundingLoses(round: Rounding, x: real)
    requires Rounds(round) && 1.0 <= x <= INT64_LIMIT as real
    ensures round(x) >= x - 1024.0
  {
    assert Sliver(x) <= 1024.0;
  }

  // Scaling by at least one takes off less than a millisecond, rounding included.
  lemma ScaleAlmostGrows(round: Rounding, d: int, factor: real)
    requires Rounds(round) && MILLISECOND <= d < INT64_LIMIT && factor >= 1.0
    ensures ScaleDuration(round, d, factor) > d - MILLISECOND
  {
    var x := d as real;
    RoundingLoses(round, x);
    var y := round(x);
    var z := y * factor;
    assert 1000000.0 <= x && x - 1024.0 <= y;
    assert x - 1024.0 <= INT64_LIMIT as real;
    GrowsBy(y, factor, z);
    assert x - 1024.0 <= z;
    RoundedStaysAbove(round, z, x - 1024.0);
    FloorAbove(round(z), d - 2048);
  }

  lemma FloorAbove(x: real, n: int)
    requires x >= n as real
    ensures x.Floor >= n
  {
  }

  lemma GrowsBy(y: real, factor: real, z: real)
    requires y >= 0.0 && factor >= 1.0 && z == y * factor
    ensures z >= y
  {
    assert y * (factor - 1.0) >= 0.0;
    assert y * factor == y + y * (factor - 1.0);
  }

  lemma RoundedStaysAbove(round: Rounding, z: real, low: real)
    requires Rounds(round) && 1.0 <= low <= z && low <= INT64_LIMIT as real
    ensures round(z) >= low - 1024.0
  {
    RoundingLoses(round, low);
    assert round(low) <= round(z);
  }

  predicate Near(n: int, x: real) {
    x - 2052.0 < n as real < x + 2052.0
  }

  // Scaling is off by less than 2052 nanoseconds, in float64 and for every duration there is.
  lemma ScaleIsClose(round: Rounding, d: int, factor: real)
    requires Rounds(round) && AddsLittle(round)
    requires 0 <= d < INT64_LIMIT && factor > 0.0 && d as real * factor <= INT64_LIMIT as real
    ensures Near(ScaleDuration(round, d, factor), d as real * factor)
  {
    var x := d as real;
    var y := round(x);
    assert Part(0) == 0.0;
    assert Rounded(x, y);
    SliverScales(x, y, factor);
    TruncateNear(round, y * factor, x * factor);
  }

  lemma {:induction false} TruncateNear(round: Rounding, z: real, target: real)
    requires Rounds(round) && AddsLittle(round) && z >= 0.0 && target <= INT64_LIMIT as real
    requires target - 1024.0 <= z <= target + 1024.0
    ensures Near(Truncate(round(z)), target)
  {
    RoundsNear(round, z);
  }

  predicate Rounded(x: real, y: real) {
    x - Sliver(x) <= y <= x + Sliver(x)
  }

  lemma SliverScales(x: real, y: real, factor: real)
    requires factor > 0.0 && x >= 0.0 && Rounded(x, y) && x * factor <= INT64_LIMIT as real
    ensures x * factor - 1024.0 <= y * factor <= x * factor + 1024.0 && y * factor >= 0.0
  {
    var low, high := x - Sliver(x), x + Sliver(x);
    assert Sliver(x) * factor == Sliver(x * factor);
    Times(low, y, factor);
    Times(y, high, factor);
    Times(0.0, low, factor);
    assert low * factor == x * factor - Sliver(x) * factor;
    assert high * factor == x * factor + Sliver(x) * factor;
  }

  lemma Times(a: real, b: real, factor: real)
    requires a <= b && factor > 0.0
    ensures a * factor <= b * factor
  {
  }

  lemma RoundsNear(round: Rounding, z: real)
    requires Rounds(round) && AddsLittle(round) && 0.0 <= z <= INT64_LIMIT as real + 1024.0
    ensures z - 1026.0 < round(z) < z + 1026.0 && round(z) >= 0.0
  {
    assert Part(0) == 0.0 && Part(32) == 1.0;
    assert round(Part(0)) == 0.0 && round(Part(32)) == 1.0;
    assert 0.0 <= round(z);
    if z < 1.0 {
      assert round(z) <= 1.0;
    } else {
      assert Sliver(z) <= 1025.0;
    }
  }

  // ---------- One proposal ----------

  function ProposeRTO(round: Rounding, p95Ms: int, margin: real): int {
    RoundUpFriendlyRTO(MaxDuration(ScaleDuration(round, p95Ms * MILLISECOND, margin), RTO_FLOOR))
  }

  function ProposeRPO(round: Rounding, p95Ms: int): int {
    var d := p95Ms * MILLISECOND;
    RoundUpToHour(MaxDuration(ScaleDuration(round, d, RPO_MARGIN), d + RPO_FLOOR))
  }

  datatype Proposal = Proposal(runCount: nat, p95: int, budget: int, degenerate: bool)
  datatype Outcome = Skip(runs: nat, needed: int) | Proposed(rto: Proposal, rpo: Option<Proposal>)

  datatype Options = Options(minRuns: int, margin: real)

  function Resolved(o: Options): Options {
    Options(
      if o.minRuns <= 0 then DEFAULT_MIN_RUNS else o.minRuns,
      if o.margin <= 0.0 then DEFAULT_MARGIN else o.margin)
  }

  // At least 95% of the samples fit the budget, and all of them when there are fewer than 20.
  ghost predicate MetByEvidence(samplesMs: seq<int>, budget: int) {
    && 20 * CountAtMost(samplesMs, budget / MILLISECOND) >= 19 * |samplesMs|
    && (|samplesMs| < 20 ==> forall s :: s in samplesMs ==> s * MILLISECOND <= budget)
  }

  lemma BudgetAboveP95IsMet(samples: seq<int>, p: int, budget: int)
    requires samples != [] && IsP95(samples, p) && p * MILLISECOND <= budget
    ensures MetByEvidence(samples, budget)
  {
    CountWithin(samples, p, budget / MILLISECOND);
    if |samples| < 20 {
      SmallSampleIsMax(samples, p);
    }
  }

  // Whatever rounding takes off, rounding up to whole steps gives back.
  lemma StepsCoverMilliseconds(wanted: int, p95Ms: int, step: int)
    requires step > 0 && step % MILLISECOND == 0 && p95Ms * MILLISECOND - MILLISECOND < wanted
    ensures p95Ms * MILLISECOND <= RoundUp(wanted, step) || wanted <= 0
  {
    if wanted > 0 {
      RoundUpIsLeastMultiple(wanted, step, 0);
      var k, m := RoundUp(wanted, step) / step, step / MILLISECOND;
      assert RoundUp(wanted, step) == k * step && step == m * MILLISECOND;
      assert RoundUp(wanted, step) == (k * m) * MILLISECOND;
    }
  }

  // With a margin of at least one the proposal is never below the percentile, in float64 and for
  // every duration there is.
  lemma RTOCoversP95(round: Rounding, p95Ms: int, margin: real)
    requires Rounds(round) && margin >= 1.0 && p95Ms * MILLISECOND < INT64_LIMIT
    ensures p95Ms * MILLISECOND <= ProposeRTO(round, p95Ms, margin)
    ensures ProposeRTO(round, p95Ms, margin) >= RTO_FLOOR
  {
    var d := p95Ms * MILLISECOND;
    if p95Ms >= 1 { ScaleAlmostGrows(round, d, margin); }
    var wanted := MaxDuration(ScaleDuration(round, d, margin), RTO_FLOOR);
    RoundUpIsLeastMultiple(wanted, FriendlyStep(wanted), 0);
    StepsCoverMilliseconds(wanted, p95Ms, FriendlyStep(wanted));
  }

  function Larger(x: real, y: real): real {
    if x > y then x else y
  }

  // A whole number of steps, less than a step and a millisecond above the target, or as little as a
  // millisecond below it.
  predicate Tight(budget: int, target: real, step: int) {
    && step > 0 && budget % step == 0
    && target - 1000000.0 < budget as real < target + step as real + 1000000.0
  }

  // The proposal is the scaled percentile or half a minute, whichever is more, in steps of 30 seconds
  // up to 5 minutes and of a minute above.
  lemma RTOIsTight(round: Rounding, p95Ms: int, margin: real)
    requires Rounds(round) && AddsLittle(round)
    requires p95Ms >= 0 && p95Ms * 1000000 < INT64_LIMIT && margin > 0.0
    requires (p95Ms * 1000000) as real * margin <= INT64_LIMIT as real
    ensures TightRTO(ProposeRTO(round, p95Ms, margin), (p95Ms * 1000000) as real * margin)
  {
    ScaleIsClose(round, p95Ms * 1000000, margin);
    TightScaled(round, p95Ms, margin, (p95Ms * 1000000) as real * margin);
  }

  lemma TightScaled(round: Rounding, p95Ms: int, margin: real, x: real)
    requires Near(ScaleDuration(round, p95Ms * 1000000, margin), x)
    ensures TightRTO(ProposeRTO(round, p95Ms, margin), x)
  {
    TightAboveFloor(ScaleDuration(round, p95Ms * 1000000, margin), x);
  }

  predicate TightRTO(budget: int, x: real) {
    Tight(budget, Larger(x, 30000000000.0), if budget > 300000000000 then 60000000000 else 30000000000)
  }

  lemma TightAboveFloor(scaled: int, x: real)
    requires Near(scaled, x)
    ensures TightRTO(RoundUpFriendlyRTO(MaxDuration(scaled, RTO_FLOOR)), x)
  {
    FriendlyIsTight(MaxDuration(scaled, RTO_FLOOR), Larger(x, 30000000000.0));
  }

  lemma FriendlyIsTight(wanted: int, target: real)
    requires wanted > 0 && Near(wanted, target)
    ensures
      var budget := RoundUpFriendlyRTO(wanted);
      Tight(budget, target, if budget > 300000000000 then 60000000000 else 30000000000)
  {
    var step := FriendlyStep(wanted);
    RoundUpIsTight(wanted, target, step);
    RoundUpIsLeastMultiple(wanted, step, 10);
    assert wanted <= 5 * MINUTE ==> RoundUp(wanted, step) <= 5 * MINUTE;
  }

  lemma RoundUpIsTight(wanted: int, target: real, step: int)
    requires wanted > 0 && step > 0 && Near(wanted, target)
    ensures Tight(RoundUp(wanted, step), target, step)
  {
    RoundUpIsLeastMultiple(wanted, step, 0);
    assert wanted <= RoundUp(wanted, step) < wanted + step;
  }

  // In whole hours: half as much again, or six hours more.
  lemma RPOIsTight(round: Rounding, p95Ms: int)
    requires Rounds(round) && AddsLittle(round) && p95Ms >= 0 && 2 * (p95Ms * 1000000) < INT64_LIMIT
    ensures
      var d := p95Ms * 1000000;
      Tight(ProposeRPO(round, p95Ms), Larger(d as real * 1.5, d as real + 21600000000000.0), 3600000000000)
  {
    var d := p95Ms * MILLISECOND;
    ScaleIsClose(round, d, RPO_MARGIN);
    var wanted := MaxDuration(ScaleDuration(round, d, RPO_MARGIN), d + RPO_FLOOR);
    RoundUpIsTight(wanted, Larger(d as real * 1.5, d as real + 21600000000000.0), HOUR);
  }

  lemma RPOCoversP95(round: Rounding, p95Ms: int)
    ensures p95Ms * MILLISECOND <= ProposeRPO(round, p95Ms)
  {
    var d := p95Ms * MILLISECOND;
    RoundUpIsLeastMultiple(MaxDuration(ScaleDuration(round, d, RPO_MARGIN), d + RPO_FLOOR), HOUR, 0);
  }

  // What is said of one kind of samples when they are enough.
  ghost predicate Proposes(samples: seq<int>, p: int, budget: int, r: Proposal) {
    && r.runCount == |samples| && (r.degenerate <==> |samples| < 20)
    && IsP95(samples, p) && r.p95 == p * MILLISECOND && r.budget == budget
  }

  ghost predicate Calibrates(
    round: Rounding, rtoMs: seq<int>, rpoMs: seq<int>, minRuns: int, margin: real, r: Outcome)
  {
    && (r.Skip? <==> |rtoMs| < minRuns)
    && (r.Skip? ==> r.runs == |rtoMs| && r.needed == minRuns)
    && (r.Proposed? ==> (r.rpo.Some? <==> |rpoMs| >= minRuns))
    && (r.Proposed? && |rtoMs| <= MANY ==>
          && (exists p :: Proposes(rtoMs, p, ProposeRTO(round, p, margin), r.rto))
          && (margin >= 1.0 && r.rto.p95 < INT64_LIMIT ==> MetByEvidence(rtoMs, r.rto.budget)))
    && (r.Proposed? && r.rpo.Some? && |rpoMs| <= MANY ==>
          && (exists p :: Proposes(rpoMs, p, ProposeRPO(round, p), r.rpo.value))
          && MetByEvidence(rpoMs, r.rpo.value.budget))
  }

  method CalibrateOne(round: Rounding, rtoMs: seq<int>, rpoMs: seq<int>, options: Options) returns (r: Outcome)
    requires Rounds(round) && options == Resolved(options)
    ensures Calibrates(round, rtoMs, rpoMs, options.minRuns, options.margin, r)
  {
    if |rtoMs| < options.minRuns {
      return Skip(|rtoMs|, options.minRuns);
    }
    var p := Percentile95(round, rtoMs);
    var budget := ProposeRTO(round, p, options.margin);
    if |rtoMs| <= MANY && options.margin >= 1.0 && p * MILLISECOND < INT64_LIMIT {
      RTOCoversP95(round, p, options.margin);
      BudgetAboveP95IsMet(rtoMs, p, budget);
    }
    var rto := Proposal(|rtoMs|, p * MILLISECOND, budget, |rtoMs| < 20);
    assert |rtoMs| <= MANY ==> Proposes(rtoMs, p, budget, rto);
    var rpo: Option<Proposal> := None;
    if |rpoMs| >= options.minRuns {
      var q := Percentile95(round, rpoMs);
      var other := Proposal(|rpoMs|, q * MILLISECOND, ProposeRPO(round, q), |rpoMs| < 20);
      if |rpoMs| <= MANY {
        RPOCoversP95(round, q);
        BudgetAboveP95IsMet(rpoMs, q, ProposeRPO(round, q));
        assert Proposes(rpoMs, q, ProposeRPO(round, q), other);
      }
      rpo := Some(other);
    }
    return Proposed(rto, rpo);
  }

  // What the ledger's runs of one proof come to: at least three of them, and four times the
  // percentile, unless told otherwise.
  ghost predicate CalibratedFrom(round: Rounding, es: seq<Entry>, proof: string, o: Options, r: Outcome) {
    exists rtoMs, rpoMs :: RtoExactly(es, proof, rtoMs) && RpoExactly(es, proof, rpoMs)
      && Calibrates(round, rtoMs, rpoMs, if o.minRuns > 0 then o.minRuns else 3,
                    if o.margin > 0.0 then o.margin else 4.0, r)
  }

  method Calibrate(round: Rounding, proofs: seq<string>, es: seq<Entry>, o: Options) returns (results: seq<Outcome>)
    requires Rounds(round)
    ensures |results| == |proofs|
    ensures forall k :: 0 <= k < |proofs| ==> CalibratedFrom(round, es, proofs[k], o, results[k])
  {
    var options := Resolved(o);
    var rto, rpo := CollectCalibrateSamples(es);
    results := [];
    var k := 0;
    while k < |proofs|
      invariant 0 <= k <= |proofs| && |results| == k
      invariant forall j :: 0 <= j < k ==> CalibratedFrom(round, es, proofs[j], o, results[j])
    {
      var r := CalibrateOne(round, Lookup(rto, proofs[k]), Lookup(rpo, proofs[k]), options);
      assert CalibratedFrom(round, es, proofs[k], o, r);
      results := results + [r];
      k := k + 1;
    }
  }

  // ---------- A margin below one guarantees nothing ----------

  // Arithmetic without rounding.
  function Exact(x: real): real {
    x
  }

  lemma ScaleBelow(d: int, margin: real, slack: int)
    requires d >= 0 && 0.0 < margin < 1.0 && slack >= 0
    requires d as real * (1.0 - margin) >= slack as real
    ensures ScaleDuration(Exact, d, margin) <= d - slack
  {
    assert d as real * margin == d as real - d as real * (1.0 - margin);
    assert d as real * margin <= (d - slack) as real;
  }

  // A run long enough that the margin takes two minutes off it.
  lemma LongRun(margin: real) returns (s: nat)
    requires 0.0 < margin < 1.0
    ensures s > 0 && (s * MILLISECOND) as real * (1.0 - margin) >= (2 * MINUTE) as real
  {
    var gap := 1.0 - margin;
    s := ((2 * MINUTE) as real / gap).Floor + 1;
    assert s as real * gap >= (2 * MINUTE) as real;
    assert s * MILLISECOND >= s;
    assert (s * MILLISECOND) as real * gap >= s as real * gap;
  }

  lemma ShortMarginMisses(margin: real, s: nat)
    requires 0.0 < margin < 1.0 && s > 0
    requires (s * MILLISECOND) as real * (1.0 - margin) >= (2 * MINUTE) as real
    ensures IsP95([s], s) && !MetByEvidence([s], ProposeRTO(Exact, s, margin))
  {
    var d := s * MILLISECOND;
    assert d as real * (1.0 - margin) <= d as real;
    ScaleBelow(d, margin, 2 * MINUTE);
    var wanted := MaxDuration(ScaleDuration(Exact, d, margin), RTO_FLOOR);
    assert wanted <= d - MINUTE - 1;
    assert RoundUpFriendlyRTO(wanted) < d;
    CountSnoc([], s, s);
    CountSnoc([], s, s - 1);
    assert [] + [s] == [s];
    assert s in [s];
  }

  lemma ExactGrows(d: int, factor: real)
    requires d >= 0 && factor >= 1.0
    ensures ScaleDuration(Exact, d, factor) >= d
  {
    GrowsBy(d as real, factor, d as real * factor);
    assert (d as real * factor).Floor >= d;
  }

  lemma ExactCovers(p95Ms: int, margin: real)
    requires margin >= 1.0
    ensures p95Ms * MILLISECOND <= ProposeRTO(Exact, p95Ms, margin)
  {
    var d := p95Ms * MILLISECOND;
    if d >= 0 { ExactGrows(d, margin); }
    var wanted := MaxDuration(ScaleDuration(Exact, d, margin), RTO_FLOOR);
    RoundUpIsLeastMultiple(wanted, FriendlyStep(wanted), 0);
  }

  // Without rounding and overflow, the proposed budget is met by every possible evidence if and only
  // if the margin is at least one.
  lemma MarginExactly(margin: real)
    requires margin > 0.0
    ensures margin >= 1.0 <==>
      forall samples, p :: samples != [] && IsP95(samples, p) ==> MetByEvidence(samples, ProposeRTO(Exact, p, margin))
  {
    if margin >= 1.0 {
      forall samples, p | samples != [] && IsP95(samples, p)
        ensures MetByEvidence(samples, ProposeRTO(Exact, p, margin))
      {
        ExactCovers(p, margin);
        BudgetAboveP95IsMet(samples, p, ProposeRTO(Exact, p, margin));
      }
    } else {
      var s := LongRun(margin);
      ShortMarginMisses(margin, s);
    }
  }

  // ---------- What is printed ----------

  function FormatCalibratedRTO(d: int): string
    requires d >= 0
  {
    if d < 5 * MINUTE then Decimal.Digits(d / SECOND) + "s" else Decimal.Digits(d / MINUTE) + "m"
  }

  function FormatCalibratedRPO(d: int): string
    requires d >= 0
  {
    Decimal.Digits(d / HOUR) + "h"
  }

  // What a numeral with a unit denotes.
  function Denotes(text: string): Option<int> {
    if text == "" || !Decimal.AllDigits(text[..|text| - 1]) then None
    else
      var n := Decimal.Value(text[..|text| - 1]);
      match text[|text| - 1]
      case 's' => Some(n * SECOND)
      case 'm' => Some(n * MINUTE)
      case 'h' => Some(n * HOUR)
      case _ => None
  }

  lemma DenotesNumeral(n: nat, unit: string)
    requires unit == "s" || unit == "m" || unit == "h"
    ensures Denotes(Decimal.Digits(n) + unit) ==
      Some(n * (if unit == "s" then SECOND else if unit == "m" then MINUTE else HOUR))
  {
    var text := Decimal.Digits(n) + unit;
    assert text[..|text| - 1] == Decimal.Digits(n);
    Decimal.ValueOfDigits(n);
  }

  // The printed RTO denotes exactly the proposed budget, whichever unit it is printed in.
  lemma PrintedRTOIsExact(round: Rounding, p95Ms: int, margin: real)
    ensures ProposeRTO(round, p95Ms, margin) >= 0
    ensures Denotes(FormatCalibratedRTO(ProposeRTO(round, p95Ms, margin))) == Some(ProposeRTO(round, p95Ms, margin))
  {
    var wanted := MaxDuration(ScaleDuration(round, p95Ms * MILLISECOND, margin), RTO_FLOOR);
    var d := ProposeRTO(round, p95Ms, margin);
    FriendlyIsWhole(wanted);
    if d < 5 * MINUTE {
      DenotesNumeral(d / SECOND, "s");
      WholeUnits(d, SECOND);
    } else {
      DenotesNumeral(d / MINUTE, "m");
      WholeUnits(d, MINUTE);
    }
  }

  lemma WholeUnits(d: int, unit: int)
    requires unit > 0 && d % unit == 0
    ensures d / unit * unit == d
  {
  }

  lemma WholeSeconds(d: int, seconds: int)
    requires (seconds == 30 || seconds == 60) && d % (seconds * SECOND) == 0
    ensures d % SECOND == 0
  {
    var q := d / (seconds * SECOND);
    if seconds == 30 {
      assert d == 30 * q * SECOND;
      MultipleOf(30 * q, SECOND);
    } else {
      assert d == 60 * q * SECOND;
      MultipleOf(60 * q, SECOND);
    }
  }

  lemma FriendlyIsWhole(wanted: int)
    requires wanted > 0
    ensures var d := RoundUpFriendlyRTO(wanted);
      d > 0 && d % SECOND == 0 && (d >= 5 * MINUTE ==> d % MINUTE == 0)
  {
    var d := RoundUpFriendlyRTO(wanted);
    if wanted > 5 * MINUTE {
      RoundUpIsLeastMultiple(wanted, MINUTE, 0);
      WholeSeconds(d, 60);
    } else {
      RoundUpIsLeastMultiple(wanted, 30 * SECOND, 10);
      WholeSeconds(d, 30);
    }
  }

  lemma PrintedRPOIsExact(round: Rounding, p95Ms: int)
    ensures ProposeRPO(round, p95Ms) >= 0
    ensures Denotes(FormatCalibratedRPO(ProposeRPO(round, p95Ms))) == Some(ProposeRPO(round, p95Ms))
  {
    var d := p95Ms * MILLISECOND;
    RoundUpIsLeastMultiple(MaxDuration(ScaleDuration(round, d, RPO_MARGIN), d + RPO_FLOOR), HOUR, 0);
    DenotesNumeral(ProposeRPO(round, p95Ms) / HOUR, "h");
    WholeUnits(ProposeRPO(round, p95Ms), HOUR);
  }
}
