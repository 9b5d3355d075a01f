/** The node runtime's currency-to-vote handler: how a `u128` balance is
    scaled down to a `u64` vote weight for elections, and how a vote weight is
    scaled back up to a balance.

    Both directions scale by a factor derived from the total issuance of the
    balances module. That issuance is read from chain state by the runtime; here
    it is the explicit parameter `totalIssuance`. */
module CurrencyToVote {
  import opened Primitives

  /** `factor()`: how many balance units one vote stands for — the total
      issuance divided by `u64::MAX`, but never below one. */
  function Factor(totalIssuance: U128): (r: U128)
    ensures r >= 1
    ensures r == 1 <==> totalIssuance < 2 * U64_MAX
    ensures totalIssuance >= U64_MAX ==> r * U64_MAX <= totalIssuance < (r + 1) * U64_MAX
  {
    var q := totalIssuance / U64_MAX;
    if q >= 1 then q else 1
  }

  /** `Convert<u128, u64>::convert(x)`: `(x / factor()) as u64`. The cast
      keeps the low 64 bits of the quotient; it does not saturate. */
  function ToVote(totalIssuance: U128, x: U128): (r: U64)
    ensures x / Factor(totalIssuance) < U64_LIMIT ==>
      r * Factor(totalIssuance) <= x < (r + 1) * Factor(totalIssuance)
    ensures (x / Factor(totalIssuance) - r) % U64_LIMIT == 0
  {
    AsU64(x / Factor(totalIssuance))
  }

  /** `Convert<u128, u128>::convert(x)`: `x * factor()`. The product must fit
      in `u128`. */
  function FromVote(totalIssuance: U128, x: U128): (r: U128)
    requires x * Factor(totalIssuance) < U128_LIMIT
    ensures r % Factor(totalIssuance) == 0
    ensures r / Factor(totalIssuance) == x
  {
    DivOfMultiple(x, Factor(totalIssuance));
    x * Factor(totalIssuance)
  }

  /** While the issuance stays below twice `u64::MAX` the factor is one:
      widening is the identity, and so is narrowing of any balance that fits in `u64`. */
  lemma UnitFactorIsIdentity(totalIssuance: U128, x: U128)
    requires totalIssuance < 2 * U64_MAX
    ensures Factor(totalIssuance) == 1
    ensures FromVote(totalIssuance, x) == x
    ensures x <= U64_MAX ==> ToVote(totalIssuance, x) == x
  {
  }

  /** Narrowing then widening loses less than one factor's worth of balance,
      and never adds any — provided the quotient fits in `u64`. */
  lemma NarrowThenWiden(totalIssuance: U128, x: U128)
    requires x / Factor(totalIssuance) < U64_LIMIT
    ensures ToVote(totalIssuance, x) * Factor(totalIssuance) < U128_LIMIT
    ensures FromVote(totalIssuance, ToVote(totalIssuance, x)) <= x
    ensures x - FromVote(totalIssuance, ToVote(totalIssuance, x)) < Factor(totalIssuance)
  {
  }

  /** Every vote weight widens without overflowing `u128`, since the factor
      never exceeds 2^64 + 1; widening it and narrowing it again gives the
      vote weight back. */
  lemma WidenThenNarrow(totalIssuance: U128, v: U64)
    ensures v * Factor(totalIssuance) < U128_LIMIT
            && ToVote(totalIssuance, FromVote(totalIssuance, v)) == v
  {
    FactorAtMost(totalIssuance);
    MulMonotone(Factor(totalIssuance), U64_LIMIT + 1, v);
    assert v * (U64_LIMIT + 1) < U128_LIMIT;
  }

  /** The factor never exceeds 2^64 + 1, the factor of the largest `u128` issuance. */
  lemma FactorAtMost(totalIssuance: U128)
    ensures Factor(totalIssuance) <= U64_LIMIT + 1
  {
    DivMonotone(totalIssuance, U128_LIMIT - 1, U64_MAX);
    assert (U128_LIMIT - 1) / U64_MAX == U64_LIMIT + 1;
  }

  /** While the quotient fits in `u64`, a larger balance never converts to fewer votes. */
  lemma ToVoteMonotoneWhenFits(totalIssuance: U128, x: U128, y: U128)
    requires x <= y
    requires y / Factor(totalIssuance) < U64_LIMIT
    ensures ToVote(totalIssuance, x) <= ToVote(totalIssuance, y)
  {
    DivMonotone(x, y, Factor(totalIssuance));
  }

  /** With a total issuance of 2^64 the factor is one, so a balance of 2^64 —
      the whole issuance — converts to no votes at all, while a balance one
      unit smaller converts to `u64::MAX` votes. */
  lemma ToVoteTruncatesWholeIssuance()
    ensures Factor(U64_LIMIT) == 1
    ensures ToVote(U64_LIMIT, U64_LIMIT) == 0
    ensures ToVote(U64_LIMIT, U64_LIMIT - 1) == U64_MAX
  {
  }

  /** The narrowing conversion with the quotient capped at `u64::MAX` instead
      of cut to its low 64 bits. */
  function ToVoteSaturating(totalIssuance: U128, x: U128): (r: U64)
    ensures r * Factor(totalIssuance) <= x
    ensures r < U64_MAX ==> x < (r + 1) * Factor(totalIssuance)
    ensures x / Factor(totalIssuance) < U64_LIMIT ==> r == ToVote(totalIssuance, x)
  {
    var f := Factor(totalIssuance);
    var q := x / f;
    DivBounds(x, f);
    if q < U64_LIMIT then q
    else
      MulMonotone(U64_MAX, q, f);
      U64_MAX
  }

  /** The saturating conversion never gives a larger balance fewer votes. */
  lemma ToVoteSaturatingMonotone(totalIssuance: U128, x: U128, y: U128)
    requires x <= y
    ensures ToVoteSaturating(totalIssuance, x) <= ToVoteSaturating(totalIssuance, y)
  {
    DivMonotone(x, y, Factor(totalIssuance));
  }
}
