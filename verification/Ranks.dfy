/** How many values of a list lie at or below a bound: the measure behind percentiles and medians. */
module Ranks {
  import opened Sorting

  function AtMost(bound: int): int -> bool {
    x => x <= bound
  }

  // How many samples are at or below the bound.
  function CountAtMost(samples: seq<int>, bound: int): nat {
    multiset(Map(AtMost(bound), samples))[true]
  }

  lemma {:induction false} AllTrue(bs: seq<bool>, r: nat)
    requires r <= |bs| && forall i :: 0 <= i < r ==> bs[i]
    ensures multiset(bs)[true] >= r
  {
    if r > 0 {
      var init := bs[..|bs| - 1];
      var last := bs[|bs| - 1];
      assert bs == init + [last];
      AllTrue(init, if r == |bs| then r - 1 else r);
    }
  }

  lemma {:induction false} AllFalse(bs: seq<bool>, r: nat)
    requires r <= |bs| && forall i :: r <= i < |bs| ==> !bs[i]
    ensures multiset(bs)[true] <= r
  {
    if bs != [] {
      var init := bs[..|bs| - 1];
      var last := bs[|bs| - 1];
      assert bs == init + [last];
      AllFalse(init, if r == |bs| then r - 1 else r);
    }
  }

  lemma CountSurvivesSort(a: seq<int>, b: seq<int>, bound: int)
    requires multiset(a) == multiset(b)
    ensures CountAtMost(a, bound) == CountAtMost(b, bound)
  {
    MapKeepsMultiset(AtMost(bound), a, b);
  }

  lemma CountWithin(samples: seq<int>, lower: int, upper: int)
    requires lower <= upper
    ensures CountAtMost(samples, lower) <= CountAtMost(samples, upper) <= |samples|
  {
    CountMonotone(samples, lower, upper);
    AllFalse(Map(AtMost(upper), samples), |samples|);
  }

  lemma {:induction false} CountMonotone(samples: seq<int>, lower: int, upper: int)
    requires lower <= upper
    ensures CountAtMost(samples, lower) <= CountAtMost(samples, upper)
  {
    if samples != [] {
      var init, last := samples[..|samples| - 1], samples[|samples| - 1];
      CountMonotone(init, lower, upper);
      CountSnoc(init, last, lower);
      CountSnoc(init, last, upper);
      assert samples == init + [last];
    }
  }

  lemma CountSnoc(samples: seq<int>, x: int, bound: int)
    ensures CountAtMost(samples + [x], bound) == CountAtMost(samples, bound) + (if x <= bound then 1 else 0)
  {
    assert Map(AtMost(bound), samples + [x]) == Map(AtMost(bound), samples) + [x <= bound];
  }

  predicate IntLess(a: int, b: int) {
    a < b
  }

  lemma {:induction false} SortedIsAscending(s: seq<int>, i: nat, j: nat)
    requires SortedBy(IntLess, s) && i <= j < |s|
    ensures s[i] <= s[j]
  {
    if i < j {
      assert !IntLess(s[j], s[i]);
    }
  }

  // Half the values lie on either side, counting the middle itself.
  ghost predicate IsMedian(values: seq<int>, m: int) {
    && 2 * CountAtMost(values, m) >= |values|
    && 2 * CountAtMost(values, m - 1) <= |values|
  }

  // Go's integer division: toward zero.
  function Half(x: int): int {
    if x >= 0 then x / 2 else -((-x) / 2)
  }

  function Middle(sorted: seq<int>): int
    requires sorted != []
  {
    var n := |sorted|;
    if n % 2 == 1 then sorted[n / 2] else Half(sorted[n / 2 - 1] + sorted[n / 2])
  }

  lemma MiddleBetween(sorted: seq<int>)
    requires sorted != [] && SortedBy(IntLess, sorted)
    ensures sorted[(|sorted| - 1) / 2] <= Middle(sorted) <= sorted[|sorted| / 2]
    ensures sorted[0] <= Middle(sorted) <= sorted[|sorted| - 1]
  {
    var n := |sorted|;
    var low, high := (n - 1) / 2, n / 2;
    SortedIsAscending(sorted, 0, low);
    SortedIsAscending(sorted, low, high);
    SortedIsAscending(sorted, high, n - 1);
  }

  // At least k + 1 values are at or below a bound that the k-th smallest is.
  lemma RankBelow(sorted: seq<int>, k: nat, bound: int)
    requires SortedBy(IntLess, sorted) && k < |sorted| && sorted[k] <= bound
    ensures CountAtMost(sorted, bound) >= k + 1
  {
    forall i | 0 <= i <= k ensures sorted[i] <= bound {
      SortedIsAscending(sorted, i, k);
    }
    AllTrue(Map(AtMost(bound), sorted), k + 1);
  }

  lemma RankAbove(sorted: seq<int>, k: nat, bound: int)
    requires SortedBy(IntLess, sorted) && k < |sorted| && sorted[k] > bound
    ensures CountAtMost(sorted, bound) <= k
  {
    forall i | k <= i < |sorted| ensures sorted[i] > bound {
      SortedIsAscending(sorted, k, i);
    }
    AllFalse(Map(AtMost(bound), sorted), k);
  }

  lemma MiddleOfSorted(sorted: seq<int>)
    requires sorted != [] && SortedBy(IntLess, sorted)
    ensures IsMedian(sorted, Middle(sorted))
  {
    MiddleBetween(sorted);
    RankBelow(sorted, (|sorted| - 1) / 2, Middle(sorted));
    RankAbove(sorted, |sorted| / 2, Middle(sorted) - 1);
  }

  lemma MedianSurvivesSort(values: seq<int>, sorted: seq<int>, m: int)
    requires multiset(values) == multiset(sorted) && IsMedian(sorted, m)
    ensures IsMedian(values, m)
  {
    SameLength(sorted, values);
    CountSurvivesSort(values, sorted, m);
    CountSurvivesSort(values, sorted, m - 1);
  }

  lemma StillAmong(values: seq<int>, sorted: seq<int>, k: nat)
    requires multiset(sorted) == multiset(values) && k < |sorted|
    ensures sorted[k] in values
  {
    assert sorted[k] in multiset(sorted);
    assert sorted[k] in multiset(values);
  }

  lemma MiddleIsWithin(values: seq<int>, sorted: seq<int>)
    requires sorted != [] && SortOf(IntLess, values, sorted)
    ensures WithinValues(values, Middle(sorted))
  {
    MiddleBetween(sorted);
    StillAmong(values, sorted, 0);
    StillAmong(values, sorted, |sorted| - 1);
  }

  // Between the extremes.
  ghost predicate WithinValues(values: seq<int>, m: int) {
    exists low, high :: low in values && high in values && low <= m <= high
  }

  // The middle of every ascending arrangement, so a value that depends on no order of the input.
  ghost predicate IsMiddle(values: seq<int>, m: int) {
    forall sorted :: sorted != [] && SortOf(IntLess, values, sorted) ==> m == Middle(sorted)
  }

  lemma MiddleUnique(values: seq<int>, sorted: seq<int>)
    requires sorted != [] && SortOf(IntLess, values, sorted)
    ensures IsMiddle(values, Middle(sorted))
  {
    forall other | other != [] && SortOf(IntLess, values, other) ensures Middle(other) == Middle(sorted) {
      SortUnique(IntLess, sorted, other);
    }
  }

  method MedianDuration(values: seq<int>) returns (m: int)
    requires values != []
    ensures IsMedian(values, m) && WithinValues(values, m) && IsMiddle(values, m)
  {
    var sorted := SortSlice(IntLess, values);
    SameLength(sorted, values);
    MiddleOfSorted(sorted);
    MedianSurvivesSort(values, sorted, Middle(sorted));
    MiddleIsWithin(values, sorted);
    MiddleUnique(values, sorted);
    m := TakeMiddle(sorted);
  }

  method TakeMiddle(sorted: seq<int>) returns (m: int)
    requires sorted != []
    ensures m == Middle(sorted)
  {
    var n := |sorted|;
    if n % 2 == 1 {
      return sorted[n / 2];
    }
    return Half(sorted[n / 2 - 1] + sorted[n / 2]);
  }
}
