/** What the model needs of float64 arithmetic: how a real is rounded. */
module Floats {
  type Rounding = real -> real

  const TWO_53 := 9007199254740992 // 2^53

  // Thirty-seconds.
  function Part(n: int): real {
    n as real / 32.0
  }

  // One part in 2^53.
  function Sliver(x: real): real {
    x / 9007199254740992.0
  }

  // Rounding to the nearest float64 keeps the order, keeps the numbers that have a representation,
  // of which these are some, and loses at most one part in 2^53 of the rest.
  ghost predicate Rounds(round: Rounding) {
    && (forall x, y :: x <= y ==> round(x) <= round(y))
    && (forall n: int :: -TWO_53 <= n <= TWO_53 ==> round(Part(n)) == Part(n))
    && (forall x :: x >= 1.0 ==> round(x) >= x - Sliver(x))
  }

  // Nor does it add more.
  ghost predicate AddsLittle(round: Rounding) {
    forall x :: x >= 1.0 ==> round(x) <= x + Sliver(x)
  }

  // math.Ceil.
  function Ceil(x: real): int {
    -((-x).Floor)
  }

  lemma CeilIs(x: real, n: int)
    requires (n - 1) as real < x <= n as real
    ensures Ceil(x) == n
  {
  }

  // Between two representable numbers the result stays between them.
  lemma RoundsBetween(round: Rounding, x: real, low: int, high: int)
    requires Rounds(round) && -TWO_53 <= low <= high <= TWO_53
    requires Part(low) <= x <= Part(high)
    ensures Part(low) <= round(x) <= Part(high)
  {
    assert round(Part(low)) <= round(x) <= round(Part(high));
  }
}
