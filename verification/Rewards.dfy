/** Block rewards: the per-block reward and the total mined so far. */
module Rewards {

  function Pow2(n: nat): (p: nat)
    ensures p > 0
  {
    if n == 0 then 1 else 2 * Pow2(n - 1)
  }

  function Max(a: int, b: int): int {
    if a < b then b else a
  }

  /** `maxHalvings` is the whole part of the logarithm of `initial / minimum` in base two. */
  datatype Settings = Settings(blocksPerHalving: nat, initial: nat, minimum: nat, maxHalvings: nat) {
    ghost predicate Valid() {
      && blocksPerHalving > 0 && 0 < minimum <= initial
      && minimum * Pow2(maxHalvings) <= initial < minimum * Pow2(maxHalvings + 1)
    }
  }

  function Halvings(s: Settings, height: int): nat
    requires s.blocksPerHalving > 0
  {
    Max(0, (height - 1) / s.blocksPerHalving)
  }

  /** The reward of a block, with the shortcut past the last halving. */
  function TokensIssuedPerBlock(s: Settings, height: int): int
    requires s.blocksPerHalving > 0
  {
    var n := Halvings(s, height);
    if n > s.maxHalvings then s.minimum else Max(s.initial / Pow2(n), s.minimum)
  }

  /** The reward after `n` halvings, without the shortcut. */
  function Tier(s: Settings, n: nat): int {
    Max(s.initial / Pow2(n), s.minimum)
  }

  ghost function SumIssued(s: Settings, height: nat): int
    requires s.blocksPerHalving > 0
  {
    if height == 0 then 0 else SumIssued(s, height - 1) + TokensIssuedPerBlock(s, height)
  }

  // ----- powers and divisions -----

  lemma {:induction false} Pow2Grows(n: nat, m: nat)
    requires n <= m
    ensures Pow2(n) <= Pow2(m)
  {
    if n < m {
      Pow2Grows(n, m - 1);
    }
  }

  lemma QuotientIs(a: int, b: int, q: int)
    requires b > 0 && q * b <= a < q * b + b
    ensures a / b == q
  {
    var d := a / b - q;
    if d > 0 {
      assert (a / b) * b == q * b + d * b;
      assert d * b >= b by { MulAtLeast(d, b); }
    } else if d < 0 {
      assert (a / b) * b == q * b - (-d) * b;
      assert (-d) * b >= b by { MulAtLeast(-d, b); }
    }
  }

  lemma MulAtLeast(d: int, b: int)
    requires d >= 1 && b >= 0
    ensures d * b >= b
  {
  }

  lemma HalfOfQuotient(a: nat, b: nat)
    requires b > 0
    ensures (a / b) / 2 == a / (2 * b)
  {
    var q := (a / b) / 2;
    var r, odd := a % b, (a / b) % 2;
    assert a == b * (2 * q + odd) + r;
    assert b * (2 * q + odd) == q * (2 * b) + odd * b;
    assert odd * b <= b by {
      if odd == 0 { assert odd * b == 0; } else { assert odd * b == b; }
    }
    assert odd * b >= 0;
    QuotientIs(a, 2 * b, q);
  }

  lemma Cancel(x: int, y: int, b: int)
    requires b > 0 && x * b < y * b
    ensures x < y
  {
    assert (y - x) * b > 0;
  }

  lemma SmallQuotient(a: nat, b: nat, m: nat)
    requires b > 0 && a < m * b
    ensures a / b < m
  {
    Cancel(a / b, m, b);
  }

  lemma LargeQuotient(a: nat, b: nat, c: nat)
    requires 0 < b <= c
    ensures a / c <= a / b
  {
    var q := a / c;
    MulMonotone(q, b, c);
    assert (a / b + 1) * b == (a / b) * b + b;
    Cancel(q, a / b + 1, b);
  }

  lemma MulMonotone(q: nat, b: nat, c: nat)
    requires b <= c
    ensures q * b <= q * c
  {
  }

  // ----- the shortcut and the repeated halving -----

  /** Past the maximum number of halvings the division is below the minimum anyway. */
  lemma ShortcutChangesNothing(s: Settings, height: int)
    requires s.Valid()
    ensures TokensIssuedPerBlock(s, height) == Tier(s, Halvings(s, height))
  {
    var n := Halvings(s, height);
    if n > s.maxHalvings {
      Pow2Grows(s.maxHalvings + 1, n);
      MulMonotone(s.minimum, Pow2(s.maxHalvings + 1), Pow2(n));
      SmallQuotient(s.initial, Pow2(n), s.minimum);
    }
  }

  /** Halving with a floor at each step agrees with one division by a power of two. */
  lemma TierStep(s: Settings, n: nat)
    requires s.Valid()
    ensures Tier(s, n + 1) == Max(Tier(s, n) / 2, s.minimum)
  {
    HalfOfQuotient(s.initial, Pow2(n));
    LargeQuotient(s.initial, Pow2(n), Pow2(n + 1));
  }

  lemma HalvingsAt(s: Settings, n: nat, j: nat)
    requires s.blocksPerHalving > 0 && 1 <= j <= s.blocksPerHalving
    ensures Halvings(s, n * s.blocksPerHalving + j) == n
  {
    QuotientIs(n * s.blocksPerHalving + j - 1, s.blocksPerHalving, n);
  }

  /** Within one halving period the total grows by the same amount per block. */
  lemma {:induction false} SumWithin(s: Settings, n: nat, j: nat)
    requires s.Valid() && j <= s.blocksPerHalving
    ensures SumIssued(s, n * s.blocksPerHalving + j) == SumIssued(s, n * s.blocksPerHalving) + j * Tier(s, n)
    decreases j
  {
    if j > 0 {
      SumWithin(s, n, j - 1);
      HalvingsAt(s, n, j);
      ShortcutChangesNothing(s, n * s.blocksPerHalving + j);
      assert j * Tier(s, n) == (j - 1) * Tier(s, n) + Tier(s, n);
    }
  }

  /** The total mined at a height is the sum of the rewards of all blocks up to it. */
  method MinedTokens(s: Settings, height: nat) returns (mined: int)
    requires s.Valid()
    ensures mined == SumIssued(s, height)
  {
    var halvings := Halvings(s, height);
    var blocksInThisHalving := height - halvings * s.blocksPerHalving;
    var tokensPerBlock := s.initial as int;
    mined := 0;
    var i := 0;
    while i < halvings
      invariant 0 <= i <= halvings && mined == SumIssued(s, i * s.blocksPerHalving) && tokensPerBlock == Tier(s, i)
    {
      mined := mined + s.blocksPerHalving * tokensPerBlock;
      SumWithin(s, i, s.blocksPerHalving);
      assert (i + 1) * s.blocksPerHalving == i * s.blocksPerHalving + s.blocksPerHalving;
      TierStep(s, i);
      tokensPerBlock := tokensPerBlock / 2;
      tokensPerBlock := Max(tokensPerBlock, s.minimum);
      i := i + 1;
    }
    LastPeriod(s, height);
    mined := mined + blocksInThisHalving * tokensPerBlock;
    SumWithin(s, halvings, blocksInThisHalving);
  }

  lemma LastPeriod(s: Settings, height: nat)
    requires s.blocksPerHalving > 0
    ensures 0 <= height - Halvings(s, height) * s.blocksPerHalving <= s.blocksPerHalving
  {
    if height > 0 {
      var q := (height - 1) / s.blocksPerHalving;
      assert height - 1 == q * s.blocksPerHalving + (height - 1) % s.blocksPerHalving;
    } else {
      QuotientIs(-1, s.blocksPerHalving, -1);
    }
  }
}
