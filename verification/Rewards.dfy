/**
  Reward distribution: the scheduled tokens of a period are split into three pools, each pool is paid out per share, and
  the rest is reported as unallocated. Amounts are exact apart from the roundings written in the code.
*/
module Rewards {
  import opened Rounding
  import opened Sums
  import opened DcBones

  const U64: nat := 0x1_0000_0000_0000_0000
  const REWARDS_PER_DAY: real := 32500000000.0 / 366.0 * 1000000.0
  const SECONDS_PER_DAY: real := 86400.0

  datatype Pool = Beacon | Witness | DcTransfer

  datatype RewardShares = RewardShares(beacons: real, witnesses: real, dcs: real)

  datatype Gateway = Gateway(key: nat, shares: RewardShares)

  function Of(s: RewardShares, p: Pool): real {
    match p
    case Beacon => s.beacons
    case Witness => s.witnesses
    case DcTransfer => s.dcs
  }

  // ---------------------------------------------------------------- pools

  function TokensByDuration(tokens: real, seconds: nat): real {
    RoundDp(tokens / SECONDS_PER_DAY * seconds as real, TEN_15)
  }

  function PocTokens(seconds: nat, remainder: real): (real, real) {
    (TokensByDuration(REWARDS_PER_DAY * 0.06, seconds) + remainder * 0.20,
     TokensByDuration(REWARDS_PER_DAY * 0.24, seconds) + remainder * 0.80)
  }

  function DcTokens(seconds: nat): real {
    TokensByDuration(REWARDS_PER_DAY * 0.50, seconds)
  }

  /** The total that is reserved for proof of coverage and data transfer. */
  function Scheduled(seconds: nat): real {
    var poc := PocTokens(seconds, 0.0);
    poc.0 + poc.1 + DcTokens(seconds)
  }

  function Normalize(used: real, total: real): (real, real) {
    if used <= total then (total - used, used) else (0.0, total)
  }

  /** The three pools, from the number of bones that the data transfer is worth. */
  function Pools(seconds: nat, used: real): RewardShares {
    var (unused, capped) := Normalize(used, DcTokens(seconds));
    var (beacons, witnesses) := PocTokens(seconds, unused);
    RewardShares(beacons, witnesses, capped)
  }

  lemma TokensNonNegative(tokens: real, seconds: nat)
    requires 0.0 <= tokens
    ensures 0.0 <= TokensByDuration(tokens, seconds)
  {
    assert 0.0 <= tokens / SECONDS_PER_DAY;
    assert 0.0 <= tokens / SECONDS_PER_DAY * seconds as real;
    RoundDpMonotone(0.0, tokens / SECONDS_PER_DAY * seconds as real, TEN_15);
    RoundDpOfWhole(0, 1000000000000000);
  }

  /** Whatever the data transfer is worth, the three pools add up to the schedule. */
  lemma PoolsAddUp(seconds: nat, used: real)
    requires 0.0 <= used
    ensures var p := Pools(seconds, used);
            p.beacons + p.witnesses + p.dcs == Scheduled(seconds) && NonNegative(p)
  {
    TokensNonNegative(REWARDS_PER_DAY * 0.06, seconds);
    TokensNonNegative(REWARDS_PER_DAY * 0.24, seconds);
    TokensNonNegative(REWARDS_PER_DAY * 0.50, seconds);
  }

  /** The schedule is 80% of the daily rewards, by the second and up to rounding, and data transfer has half of them. */
  lemma ScheduleIsProRata(seconds: nat)
    ensures var day := REWARDS_PER_DAY / SECONDS_PER_DAY * seconds as real;
            && -0.000000000000002 < Scheduled(seconds) - day * 0.80 < 0.000000000000002
            && -0.000000000000001 < DcTokens(seconds) - day * 0.50 < 0.000000000000001
  {
    ProRata(0.06, seconds);
    ProRata(0.24, seconds);
    ProRata(0.50, seconds);
  }

  lemma ProRata(percent: real, seconds: nat)
    ensures var day := REWARDS_PER_DAY / SECONDS_PER_DAY * seconds as real;
            -0.0000000000000005 <= TokensByDuration(REWARDS_PER_DAY * percent, seconds) - day * percent <= 0.0000000000000005
  {
    var exact := REWARDS_PER_DAY * percent / SECONDS_PER_DAY * seconds as real;
    SwapFactors(REWARDS_PER_DAY, percent, SECONDS_PER_DAY, seconds as real);
    RoundingError(exact);
  }

  lemma SwapFactors(a: real, b: real, c: real, d: real)
    requires 0.0 < c
    ensures a * b / c * d == a / c * d * b
  {}

  lemma RoundingError(x: real)
    ensures -0.0000000000000005 <= RoundDp(x, TEN_15) - x <= 0.0000000000000005
  {}

  /** Witnesses share four times what beaconers share, up to rounding, also of what data transfer leaves over. */
  lemma WitnessPoolIsFourfold(seconds: nat, used: real)
    ensures var p := Pools(seconds, used);
            -0.000000000000003 < p.witnesses - 4.0 * p.beacons < 0.000000000000003
  {
    ProRata(0.06, seconds);
    ProRata(0.24, seconds);
  }

  /** Data transfer is paid what it is worth, up to its half of the rewards. */
  lemma DcPoolIsCapped(seconds: nat, used: real)
    ensures var p := Pools(seconds, used);
            p.dcs <= used && p.dcs <= DcTokens(seconds) && (p.dcs == used || p.dcs == DcTokens(seconds))
  {}

  // ---------------------------------------------------------------- amounts

  function Trunc(x: real): int {
    if x >= 0.0 then x.Floor else -(-x).Floor
  }

  function ToU64OrZero(n: int): nat {
    if 0 <= n < U64 then n else 0
  }

  function RewardsPerShare(total: real, shares: real): real {
    if shares > 0.0 then RoundDp(total / shares, TEN_15) else 0.0
  }

  function ComputeRewards(rate: real, shares: real): nat {
    ToU64OrZero(Trunc(rate * shares))
  }

  predicate NonNegative(s: RewardShares) {
    0.0 <= s.beacons && 0.0 <= s.witnesses && 0.0 <= s.dcs
  }

  predicate AllNonNegative(gs: seq<Gateway>) {
    forall i :: 0 <= i < |gs| ==> NonNegative(gs[i].shares)
  }

  function SharesIn(gs: seq<Gateway>, p: Pool): (xs: seq<real>)
    ensures |xs| == |gs| && forall i :: 0 <= i < |gs| ==> xs[i] == Of(gs[i].shares, p)
  {
    seq(|gs|, i requires 0 <= i < |gs| => Of(gs[i].shares, p))
  }

  function PoolShares(gs: seq<Gateway>, p: Pool): real {
    Sum(SharesIn(gs, p))
  }

  /** What is due to each gateway, before rounding. */
  function Due(xs: seq<real>, rate: real): (due: seq<real>)
    ensures |due| == |xs| && forall i :: 0 <= i < |xs| ==> due[i] == rate * xs[i]
  {
    seq(|xs|, i requires 0 <= i < |xs| => rate * xs[i])
  }

  /** What is paid to each gateway: whole bones, and nothing when the amount does not fit. */
  function Paid(due: seq<real>): (ns: seq<nat>)
    ensures |ns| == |due| && forall i :: 0 <= i < |due| ==> ns[i] == ToU64OrZero(Trunc(due[i]))
  {
    seq(|due|, i requires 0 <= i < |due| => ToU64OrZero(Trunc(due[i])))
  }

  function PoolAmount(gs: seq<Gateway>, p: Pool, rate: real): nat {
    NatSum(Paid(Due(SharesIn(gs, p), rate)))
  }

  // ---------------------------------------------------------------- rounding amounts down

  lemma TruncBounds(x: real)
    requires 0.0 <= x
    ensures ToU64OrZero(Trunc(x)) as real <= x
    ensures x < U64 as real ==> x < ToU64OrZero(Trunc(x)) as real + 1.0
  {}

  predicate NoneNegative(xs: seq<real>) {
    forall i :: 0 <= i < |xs| ==> 0.0 <= xs[i]
  }

  /** Rounding down never pays more than what is due and, when that fits, loses less than one bone per gateway. */
  lemma PaidBounds(due: seq<real>)
    requires NoneNegative(due)
    ensures NatSum(Paid(due)) as real <= Sum(due)
    ensures due != [] && Sum(due) < U64 as real ==> Sum(due) < NatSum(Paid(due)) as real + |due| as real
  {
    forall i | 0 <= i < |due| ensures Paid(due)[i] as real <= due[i] { TruncBounds(due[i]); }
    SumOfWhole(due, Paid(due));
    SumNonNegative(due);
    if due != [] && Sum(due) < U64 as real {
      forall i | 0 <= i < |due| ensures due[i] < Paid(due)[i] as real + 1.0 { TruncBounds(due[i]); }
      SumOfWholeLoses(due, Paid(due));
    }
  }

  lemma ProductNonNegative(a: real, b: real)
    requires 0.0 <= a && 0.0 <= b
    ensures 0.0 <= a * b
  {}

  lemma DueTotal(xs: seq<real>, rate: real)
    requires NoneNegative(xs) && 0.0 <= rate
    ensures NoneNegative(Due(xs, rate)) && Sum(Due(xs, rate)) == Sum(xs) * rate
  {
    var due := Due(xs, rate);
    forall i | 0 <= i < |xs| ensures 0.0 <= due[i] && due[i] == Mul(xs[i], rate) { ProductNonNegative(rate, xs[i]); }
    SumScales(xs, due, rate);
  }

  lemma ProductMonotone(a: real, b: real, c: real)
    requires 0.0 <= a && b <= c
    ensures b * a <= c * a
  {}

  // ---------------------------------------------------------------- rounding the rate

  /** Half a unit of the fifteenth place for every share. */
  function RateError(shares: real): real {
    shares * 0.0000000000000005
  }

  lemma ErrorOfRate(rate: real, exact: real, shares: real, total: real)
    requires 0.0 < shares && exact * shares == total && -0.0000000000000005 <= rate - exact <= 0.0000000000000005
    ensures shares * rate <= total + RateError(shares) && total <= shares * rate + RateError(shares)
  {
    var d, e := rate - exact, exact - rate;
    assert shares * rate == total + d * shares;
    assert total == shares * rate + e * shares;
    ProductMonotone(shares, d, 0.0000000000000005);
    ProductMonotone(shares, e, 0.0000000000000005);
  }

  /** The rate times all shares is the pool, up to the rounding of the rate. */
  lemma RateIsClose(total: real, shares: real)
    requires 0.0 < shares
    ensures shares * RewardsPerShare(total, shares) <= total + RateError(shares)
    ensures total <= shares * RewardsPerShare(total, shares) + RateError(shares)
  {
    assert total / shares * shares == total;
    ErrorOfRate(RoundDp(total / shares, TEN_15), total / shares, shares, total);
  }

  lemma RateNonNegative(total: real, shares: real)
    requires 0.0 <= total
    ensures 0.0 <= RewardsPerShare(total, shares)
  {
    if shares > 0.0 {
      DivideMonotone(0.0, total, shares);
      RoundDpMonotone(0.0, total / shares, TEN_15);
      RoundDpOfWhole(0, 1000000000000000);
    }
  }

  /** What is due from one pool is the pool, up to the rounding of the rate. */
  lemma PoolIsDue(xs: seq<real>, total: real)
    requires 0.0 <= total && NoneNegative(xs)
    ensures var due := Due(xs, RewardsPerShare(total, Sum(xs)));
            && NoneNegative(due)
            && Sum(due) <= total + RateError(Sum(xs))
            && (0.0 < Sum(xs) ==> total <= Sum(due) + RateError(Sum(xs)))
  {
    SumNonNegative(xs);
    RateNonNegative(total, Sum(xs));
    if 0.0 < Sum(xs) {
      RateIsClose(total, Sum(xs));
    } else {
      assert RewardsPerShare(total, Sum(xs)) == 0.0;
    }
    DueAtRate(xs, total, RewardsPerShare(total, Sum(xs)), Sum(xs));
  }

  lemma DueAtRate(xs: seq<real>, total: real, rate: real, shares: real)
    requires 0.0 <= total && NoneNegative(xs) && 0.0 <= rate && shares == Sum(xs)
    requires if 0.0 < shares then shares * rate <= total + RateError(shares) && total <= shares * rate + RateError(shares)
             else shares == 0.0
    ensures NoneNegative(Due(xs, rate)) && Sum(Due(xs, rate)) <= total + RateError(shares)
    ensures 0.0 < shares ==> total <= Sum(Due(xs, rate)) + RateError(shares)
  {
    DueTotal(xs, rate);
  }

  /** What one pool pays out at most, and, when it has shares and fits, at least. */
  lemma PoolPays(xs: seq<real>, total: real)
    requires 0.0 <= total && NoneNegative(xs)
    ensures var paid := NatSum(Paid(Due(xs, RewardsPerShare(total, Sum(xs))))) as real;
            && paid <= total + RateError(Sum(xs))
            && (0.0 < Sum(xs) && total + RateError(Sum(xs)) < U64 as real ==>
                  total < paid + RateError(Sum(xs)) + |xs| as real)
  {
    PoolIsDue(xs, total);
    PaidBounds(Due(xs, RewardsPerShare(total, Sum(xs))));
  }

  // ---------------------------------------------------------------- one reward period

  datatype GatewayReward = GatewayReward(key: nat, beacon: nat, poc: nat, dc: nat)

  function Total(r: GatewayReward): nat {
    r.dc + r.beacon + r.poc
  }

  /** The pools of a period and what they pay per share. */
  function PoolsOf(gs: seq<Gateway>, seconds: nat, price: real): RewardShares
    requires 0.0 < price
  {
    Pools(seconds, DcToBones(PoolShares(gs, DcTransfer), price))
  }

  function Rates(gs: seq<Gateway>, pools: RewardShares): RewardShares {
    RewardShares(RewardsPerShare(pools.beacons, PoolShares(gs, Beacon)),
                 RewardsPerShare(pools.witnesses, PoolShares(gs, Witness)),
                 RewardsPerShare(pools.dcs, PoolShares(gs, DcTransfer)))
  }

  function RewardOf(g: Gateway, rates: RewardShares): GatewayReward {
    GatewayReward(g.key,
                  ComputeRewards(rates.beacons, g.shares.beacons),
                  ComputeRewards(rates.witnesses, g.shares.witnesses),
                  ComputeRewards(rates.dcs, g.shares.dcs))
  }

  /** What is paid from all three pools. */
  function Allocated(gs: seq<Gateway>, rates: RewardShares): nat {
    PoolAmount(gs, Beacon, rates.beacons) + PoolAmount(gs, Witness, rates.witnesses) + PoolAmount(gs, DcTransfer, rates.dcs)
  }

  function RewardTotals(rs: seq<GatewayReward>): nat {
    if rs == [] then 0 else RewardTotals(rs[..|rs| - 1]) + Total(rs[|rs| - 1])
  }

  lemma PaidPrefix(xs: seq<real>, n: nat, rate: real)
    requires n < |xs|
    ensures Paid(Due(xs, rate))[..n] == Paid(Due(xs[..n], rate)) && Paid(Due(xs, rate))[n] == ComputeRewards(rate, xs[n])
  {
    forall i | 0 <= i < n ensures Due(xs, rate)[i] == Due(xs[..n], rate)[i] { assert xs[..n][i] == xs[i]; }
    assert Due(xs, rate)[n] == rate * xs[n];
  }

  lemma PoolAmountNext(gs: seq<Gateway>, n: nat, p: Pool, rate: real)
    requires n < |gs|
    ensures PoolAmount(gs[..n + 1], p, rate) == PoolAmount(gs[..n], p, rate) + ComputeRewards(rate, Of(gs[n].shares, p))
  {
    var xs := SharesIn(gs[..n + 1], p);
    assert xs[..n] == SharesIn(gs[..n], p);
    PaidPrefix(xs, n, rate);
  }

  lemma AllocatedNext(gs: seq<Gateway>, n: nat, rates: RewardShares)
    requires n < |gs|
    ensures Allocated(gs[..n + 1], rates) == Allocated(gs[..n], rates) + Total(RewardOf(gs[n], rates))
  {
    PoolAmountNext(gs, n, Beacon, rates.beacons);
    PoolAmountNext(gs, n, Witness, rates.witnesses);
    PoolAmountNext(gs, n, DcTransfer, rates.dcs);
  }

  /** The rewards that are written: those of more than zero, in order. */
  function Written(gs: seq<Gateway>, rates: RewardShares): seq<GatewayReward> {
    if gs == [] then []
    else
      var n := |gs| - 1;
      var r := RewardOf(gs[n], rates);
      if 0 < Total(r) then Written(gs[..n], rates) + [r] else Written(gs[..n], rates)
  }

  /** Nothing that is paid is left unwritten. */
  lemma {:induction false} WrittenIsAllocated(gs: seq<Gateway>, rates: RewardShares)
    ensures RewardTotals(Written(gs, rates)) == Allocated(gs, rates)
    decreases |gs|
  {
    if gs != [] {
      var n := |gs| - 1;
      WrittenIsAllocated(gs[..n], rates);
      AllocatedNext(gs, n, rates);
      assert gs[..n + 1] == gs;
      WrittenNext(Written(gs[..n], rates), RewardOf(gs[n], rates));
    }
  }

  function AmountOf(r: GatewayReward, p: Pool): nat {
    match p
    case Beacon => r.beacon
    case Witness => r.poc
    case DcTransfer => r.dc
  }

  function PoolTotal(rs: seq<GatewayReward>, p: Pool): nat {
    if rs == [] then 0 else PoolTotal(rs[..|rs| - 1], p) + AmountOf(rs[|rs| - 1], p)
  }

  lemma PoolTotalNext(rs: seq<GatewayReward>, r: GatewayReward, p: Pool)
    ensures PoolTotal(rs + [r], p) == PoolTotal(rs, p) + AmountOf(r, p)
  {
    assert (rs + [r])[..|rs|] == rs;
  }

  lemma AmountOfReward(g: Gateway, rates: RewardShares, p: Pool)
    ensures AmountOf(RewardOf(g, rates), p) == ComputeRewards(Of(rates, p), Of(g.shares, p))
  {}

  /** Each pool pays its own shares: the written amounts of a kind are what that pool pays. */
  lemma {:induction false} WrittenPerPool(gs: seq<Gateway>, rates: RewardShares, p: Pool)
    ensures PoolTotal(Written(gs, rates), p) == PoolAmount(gs, p, Of(rates, p))
    decreases |gs|
  {
    if gs != [] {
      var n := |gs| - 1;
      WrittenPerPool(gs[..n], rates, p);
      AmountOfReward(gs[n], rates, p);
      PoolAmountNext(gs, n, p, Of(rates, p));
      assert gs[..n + 1] == gs;
      PoolTotalNext(Written(gs[..n], rates), RewardOf(gs[n], rates), p);
    }
  }

  lemma WrittenNext(rs: seq<GatewayReward>, r: GatewayReward)
    ensures RewardTotals(rs + [r]) == RewardTotals(rs) + Total(r)
  {
    assert (rs + [r])[..|rs|] == rs;
  }

  /** The allocation loop of `reward_poc_and_dc`: rewards of zero are not written. */
  method PayGateways(gs: seq<Gateway>, rates: RewardShares) returns (written: seq<GatewayReward>, paidOut: nat)
    ensures written == Written(gs, rates) && paidOut == RewardTotals(written)
  {
    written, paidOut := [], 0;
    var i := 0;
    while i < |gs|
      invariant i <= |gs| && written == Written(gs[..i], rates) && paidOut == RewardTotals(written)
    {
      var r := RewardOf(gs[i], rates);
      assert gs[..i + 1][..i] == gs[..i];
      if 0 < r.beacon || 0 < r.poc || 0 < r.dc {
        WrittenNext(written, r);
        written, paidOut := written + [r], paidOut + Total(r);
      }
      i := i + 1;
    }
    assert gs[..i] == gs;
  }

  /** `reward_poc_and_dc`: what is not paid to gateways is unallocated. */
  method RewardPocAndDc(gs: seq<Gateway>, seconds: nat, price: real)
    returns (written: seq<GatewayReward>, paidOut: nat, unallocated: nat)
    requires 0.0 < price
    ensures paidOut == Allocated(gs, Rates(gs, PoolsOf(gs, seconds, price))) == RewardTotals(written)
    ensures unallocated == ToU64OrZero(Trunc(Scheduled(seconds) - paidOut as real))
  {
    var rates := Rates(gs, PoolsOf(gs, seconds, price));
    WrittenIsAllocated(gs, rates);
    written, paidOut := PayGateways(gs, rates);
    unallocated := ToU64OrZero(Trunc(Scheduled(seconds) - paidOut as real));
  }

  // ---------------------------------------------------------------- conservation

  function AllShares(gs: seq<Gateway>): real {
    PoolShares(gs, Beacon) + PoolShares(gs, Witness) + PoolShares(gs, DcTransfer)
  }

  lemma SharesNonNegative(gs: seq<Gateway>, p: Pool)
    requires AllNonNegative(gs)
    ensures NoneNegative(SharesIn(gs, p)) && 0.0 <= PoolShares(gs, p)
  {
    forall i | 0 <= i < |gs| ensures 0.0 <= SharesIn(gs, p)[i] { assert NonNegative(gs[i].shares); }
    SumNonNegative(SharesIn(gs, p));
  }

  lemma BonesNonNegative(dc: real, price: real)
    requires 0.0 <= dc && 0.0 < price
    ensures 0.0 <= DcToBones(dc, price)
  {
    DivideMonotone(0.0, dc * DC_USD_PRICE, PriceOfBone(price));
  }

  lemma PoolsOfAddUp(gs: seq<Gateway>, seconds: nat, price: real)
    requires 0.0 < price && AllNonNegative(gs)
    ensures var p := PoolsOf(gs, seconds, price);
            p.beacons + p.witnesses + p.dcs == Scheduled(seconds) && NonNegative(p)
  {
    SharesNonNegative(gs, DcTransfer);
    BonesNonNegative(PoolShares(gs, DcTransfer), price);
    PoolsAddUp(seconds, DcToBones(PoolShares(gs, DcTransfer), price));
  }

  /** What gateways are paid from one pool. */
  lemma PoolAmountBounds(gs: seq<Gateway>, p: Pool, total: real)
    requires AllNonNegative(gs) && 0.0 <= total
    ensures var paid, e := PoolAmount(gs, p, RewardsPerShare(total, PoolShares(gs, p))) as real, RateError(PoolShares(gs, p));
            && 0.0 <= e && paid <= total + e
            && (0.0 < PoolShares(gs, p) && total + e < U64 as real ==> total < paid + e + |gs| as real)
  {
    SharesNonNegative(gs, p);
    PoolPays(SharesIn(gs, p), total);
  }

  /** Gateways are never paid more than the schedule, up to the rounding of the rates. When all pools have shares, they
      are paid all of it but less than three bones per gateway. */
  lemma RewardsMeetTheSchedule(gs: seq<Gateway>, seconds: nat, price: real)
    requires 0.0 < price && AllNonNegative(gs)
    ensures var paid, due := Allocated(gs, Rates(gs, PoolsOf(gs, seconds, price))) as real, Scheduled(seconds);
            var e := RateError(AllShares(gs));
            && paid <= due + e
            && (due + e < U64 as real && (forall p: Pool :: 0.0 < PoolShares(gs, p)) ==>
                  due - e - 3.0 * |gs| as real < paid)
  {
    var pools := PoolsOf(gs, seconds, price);
    PoolsOfAddUp(gs, seconds, price);
    PoolAmountBounds(gs, Beacon, pools.beacons);
    PoolAmountBounds(gs, Witness, pools.witnesses);
    PoolAmountBounds(gs, DcTransfer, pools.dcs);
    ErrorsAddUp(gs);
  }

  lemma ErrorsAddUp(gs: seq<Gateway>)
    ensures RateError(AllShares(gs))
         == RateError(PoolShares(gs, Beacon)) + RateError(PoolShares(gs, Witness)) + RateError(PoolShares(gs, DcTransfer))
  {}

  /** Together with what is reported as unallocated, the schedule is met to within one bone, unless more than the
      schedule was paid: then nothing is unallocated. */
  lemma UnallocatedCompletes(paidOut: nat, seconds: nat)
    requires Scheduled(seconds) < U64 as real
    ensures var rest := ToU64OrZero(Trunc(Scheduled(seconds) - paidOut as real));
            if paidOut as real <= Scheduled(seconds)
            then Scheduled(seconds) - 1.0 < (paidOut + rest) as real <= Scheduled(seconds)
            else rest == 0
  {
    var x := Scheduled(seconds) - paidOut as real;
    if 0.0 <= x { TruncBounds(x); }
  }

  /** The operational fund is paid in full: what is left of it is less than one bone. */
  lemma OperationalFundIsSpent(seconds: nat)
    requires TokensByDuration(REWARDS_PER_DAY * 0.07, seconds) < U64 as real
    ensures var total := TokensByDuration(REWARDS_PER_DAY * 0.07, seconds);
            ToU64OrZero(Trunc(total - ToU64OrZero(Trunc(total)) as real)) == 0
  {
    var total := TokensByDuration(REWARDS_PER_DAY * 0.07, seconds);
    TokensNonNegative(REWARDS_PER_DAY * 0.07, seconds);
    TruncBounds(total);
  }
}
