/** Paper profit and loss: what a settled bet pays at the price it was locked at. */
module Pnl {

  datatype Side = BuyYes | BuyNo

  datatype Outcome = Outcome(payoutCents: int, pnlCents: int, won: bool)

  const ONE := 10000 // 100% in basis points

  /** Rounding of the exact quotient: the nearest integer, halves upward. */
  function RoundHalfUp(n: int, d: int): (r: int)
    requires d > 0
    ensures -d < 2 * (d * r - n) <= d
  {
    (2 * n + d) / (2 * d)
  }

  function Clamp(priceBp: int): (p: int)
    ensures 1 <= p <= 9999
    ensures 1 <= priceBp <= 9999 ==> p == priceBp
  {
    if priceBp < 1 then 1 else if priceBp > 9999 then 9999 else priceBp
  }

  function ComputePnl(side: Side, stakeCents: int, lockedPriceBp: int, resolvedYes: bool): Outcome {
    var won := if side.BuyYes? then resolvedYes else !resolvedYes;
    if !won then Outcome(0, -stakeCents, won)
    else
      var payout := RoundHalfUp(stakeCents * ONE, Clamp(lockedPriceBp));
      Outcome(payout, payout - stakeCents, won)
  }

  /** Expected profit times 10000, when the bought side comes true with the probability it was priced at. */
  function ExpectedTimesOne(side: Side, stakeCents: int, priceBp: int): int {
    var right := ComputePnl(side, stakeCents, priceBp, side.BuyYes?).pnlCents;
    var wrong := ComputePnl(side, stakeCents, priceBp, side.BuyNo?).pnlCents;
    priceBp * right + (ONE - priceBp) * wrong
  }

  lemma {:induction false} MulStep(a: int, x: int, y: int)
    requires a > 0 && x < y
    ensures a * x + a <= a * y
  {
    var gap := y - x - 1;
    MulMono(0, a, gap + 1);
    assert a * (x + (gap + 1)) == a * x + a * (gap + 1);
  }

  lemma {:induction false} MulMono(a: int, b: int, z: nat)
    requires a <= b && z >= 1
    ensures a * z - a <= b * z - b
  {
    assert (b - a) * (z - 1) >= 0;
    assert (b - a) * (z - 1) == (b * z - b) - (a * z - a);
  }

  lemma {:induction false} RoundUnique(n: int, d: int, r: int)
    requires d > 0 && -d < 2 * (d * r - n) <= d
    ensures r == RoundHalfUp(n, d)
  {
    hide RoundHalfUp;
    var q := RoundHalfUp(n, d);
    if r < q {
      MulStep(d, r, q);
    } else if q < r {
      MulStep(d, q, r);
    }
  }

  lemma {:induction false} RoundMonotone(n: int, m: int, d: int)
    requires d > 0 && n <= m
    ensures RoundHalfUp(n, d) <= RoundHalfUp(m, d)
  {
    hide RoundHalfUp;
    if RoundHalfUp(m, d) < RoundHalfUp(n, d) {
      MulStep(d, RoundHalfUp(m, d), RoundHalfUp(n, d));
    }
  }

  lemma {:induction false} RoundNonneg(n: nat, d: int)
    requires d > 0
    ensures RoundHalfUp(n, d) >= 0
  {
    hide RoundHalfUp;
    if RoundHalfUp(n, d) < 0 {
      MulStep(d, RoundHalfUp(n, d), 0);
    }
  }

  lemma {:induction false} RoundAntitone(n: nat, d: int, e: int)
    requires 0 < d <= e
    ensures RoundHalfUp(n, e) <= RoundHalfUp(n, d)
  {
    hide RoundHalfUp;
    var q, r := RoundHalfUp(n, d), RoundHalfUp(n, e);
    RoundNonneg(n, d);
    if q < r {
      MulStep(d, q, r);
      MulMono(d, e, r);
    }
  }

  /** The payout on a win is the fair one, off by at most half a unit of the price. */
  lemma {:induction false} FairOdds(side: Side, stakeCents: int, priceBp: int, resolvedYes: bool)
    requires ComputePnl(side, stakeCents, priceBp, resolvedYes).won
    ensures var p := Clamp(priceBp);
            var payout := ComputePnl(side, stakeCents, priceBp, resolvedYes).payoutCents;
            -p < 2 * (p * payout - ONE * stakeCents) <= p
  {}

  /** Bought at the market's own probability, either side is worth nothing on average, to half a cent. */
  lemma {:induction false} FairBet(side: Side, stakeCents: int, priceBp: int)
    requires 1 <= priceBp <= 9999
    ensures -priceBp < 2 * ExpectedTimesOne(side, stakeCents, priceBp) <= priceBp
    ensures -ONE < 2 * ExpectedTimesOne(side, stakeCents, priceBp) < ONE
  {
    var payout := ComputePnl(side, stakeCents, priceBp, side.BuyYes?).payoutCents;
    FairOdds(side, stakeCents, priceBp, side.BuyYes?);
    assert ExpectedTimesOne(side, stakeCents, priceBp) == priceBp * payout - ONE * stakeCents by {
      assert priceBp * (payout - stakeCents) == priceBp * payout - priceBp * stakeCents;
      assert (ONE - priceBp) * (-stakeCents) == priceBp * stakeCents - ONE * stakeCents;
    }
  }

  /** Profit is the payout less the stake on both branches, and a win never loses money. */
  lemma {:induction false} PnlOfPayout(side: Side, stakeCents: nat, priceBp: int, resolvedYes: bool)
    ensures var o := ComputePnl(side, stakeCents, priceBp, resolvedYes);
            && o.payoutCents == o.pnlCents + stakeCents
            && o.payoutCents >= 0
            && (o.won ==> o.pnlCents >= 0)
  {
    hide RoundHalfUp;
    var o := ComputePnl(side, stakeCents, priceBp, resolvedYes);
    if o.won {
      RoundNonneg(stakeCents * ONE, Clamp(priceBp));
      var p := Clamp(priceBp);
      RoundAntitone(stakeCents * ONE, p, ONE);
      RoundUnique(stakeCents * ONE, ONE, stakeCents);
    }
  }

  /** A larger stake never pays less, a dearer side never pays more. */
  lemma {:induction false} PayoutMonotone(side: Side, s: nat, t: nat, p: int, q: int, resolvedYes: bool)
    requires s <= t && p <= q
    ensures ComputePnl(side, s, q, resolvedYes).payoutCents <= ComputePnl(side, t, p, resolvedYes).payoutCents
  {
    hide RoundHalfUp;
    var a, b := Clamp(p), Clamp(q);
    RoundMonotone(s * ONE, t * ONE, a);
    RoundAntitone(s * ONE, a, b);
  }
}
