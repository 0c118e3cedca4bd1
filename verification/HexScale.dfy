/**
  The scale of a hotspot and its conservation: under every cell of a used resolution, the scales of all hotspots add up
  to no more than the clipped count of that cell.
*/
module HexScale {
  import opened Rounding
  import opened HexDensity
  import opened Sums

  const FINEST_SCALING_RES := 13

  predicate Positive(m: HexMap) {
    forall x <- m :: m[x] >= 1
  }

  /** The clipped to unclipped ratio of every cell that is in both maps. */
  function Ratios(u: HexMap, c: HexMap): map<Cell, real>
    requires Positive(u)
  {
    map x | x in u && x in c :: c[x] as real / u[x] as real
  }

  function Factor(ratios: map<Cell, real>, hex: Cell, r: nat): real {
    match Parent(hex, r)
    case Some(x) => if x in ratios then ratios[x] else 1.0
    case None => 1.0
  }

  /** The product of the factors from resolution 13 to `k`; with `k` 4 it is the scale before rounding. */
  function Scale(ratios: map<Cell, real>, hex: Cell, k: nat): real
    decreases FINEST_SCALING_RES + 1 - k
  {
    if FINEST_SCALING_RES < k then 1.0 else Mul(Scale(ratios, hex, k + 1), Factor(ratios, hex, k))
  }

  method FactorAt(u: HexMap, c: HexMap, hex: Cell, res: nat) returns (factor: real)
    requires Positive(u)
    ensures factor == Factor(Ratios(u, c), hex, res)
  {
    factor := 1.0;
    var parent := Parent(hex, res);
    if parent.Some? && parent.value in u && parent.value in c {
      factor := c[parent.value] as real / u[parent.value] as real;
    }
  }

  /** The fold over the scaling resolutions, from 13 to the coarsest one. */
  method HexScaleOf(u: HexMap, c: HexMap, hex: Cell, coarsest: nat) returns (scale: real)
    requires Positive(u) && coarsest <= FINEST_SCALING_RES
    ensures scale == Scale(Ratios(u, c), hex, coarsest)
  {
    scale := 1.0;
    var res := FINEST_SCALING_RES;
    while coarsest <= res
      invariant coarsest - 1 <= res <= FINEST_SCALING_RES
      invariant scale == Scale(Ratios(u, c), hex, res + 1)
    {
      var factor := FactorAt(u, c, hex, res);
      scale := Mul(scale, factor);
      res := res - 1;
    }
  }

  /** `compute_hex_density_map` */
  method ComputeHexDensityMap(asserted: seq<Cell>, u: HexMap, c: HexMap) returns (scales: map<Cell, real>)
    requires Positive(u)
    ensures scales.Keys == ToSet(asserted)
    ensures forall hex <- scales :: scales[hex] == RoundDp(Scale(Ratios(u, c), hex, TOP_RES), TEN_4)
  {
    scales := map[];
    var i := 0;
    while i < |asserted|
      invariant i <= |asserted| && scales.Keys == ToSet(asserted[..i])
      invariant forall hex <- scales :: scales[hex] == RoundDp(Scale(Ratios(u, c), hex, TOP_RES), TEN_4)
    {
      var scale := HexScaleOf(u, c, asserted[i], TOP_RES);
      ToSetNext(asserted, i);
      scales := scales[asserted[i] := RoundDp(scale, TEN_4)];
      i := i + 1;
    }
    assert asserted[..i] == asserted;
  }

  // ---------------------------------------------------------------- counts are positive

  ghost predicate PositiveFrom(m: HexMap, r: nat) {
    forall z <- m | r <= Res(z) :: m[z] >= 1
  }

  lemma LevelPositive(s: set<Cell>, u: HexMap, c: HexMap, r: nat, disk: Disk)
    requires Base(s) && r < MAX_RES && ReducedAt(s, u, c, r, disk)
    requires PositiveFrom(u, r + 1) && PositiveFrom(c, r + 1)
    ensures PositiveFrom(u, r) && PositiveFrom(c, r)
  {
    forall x <- Above(s, r) ensures u[x] >= 1 && c[x] >= 1 {
      var y :| y in s && x == At(y, r);
      ParentsCompose(y, r + 1, r);
      TotalPositive(Children(Above(s, r + 1), x, r), c, At(y, r + 1));
      LimitBounds(r, OccupiedCount(u, disk(x), Config(r).target));
    }
  }

  lemma {:induction false} LevelsPositive(s: set<Cell>, u: HexMap, c: HexMap, r: nat, disk: Disk)
    requires Base(s) && r < MAX_RES && LevelsReduced(s, u, c, r, disk)
    requires PositiveFrom(u, MAX_RES) && PositiveFrom(c, MAX_RES)
    ensures PositiveFrom(u, r + 1) && PositiveFrom(c, r + 1)
    decreases MAX_RES - r
  {
    if r + 1 < MAX_RES {
      LevelsPositive(s, u, c, r + 1, disk);
      LevelPositive(s, u, c, r + 1, disk);
    }
  }

  lemma CountsArePositive(asserted: seq<Cell>, u: HexMap, c: HexMap, disk: Disk)
    requires Reduced(asserted, u, c, disk)
    ensures Positive(u) && Positive(c)
  {
    forall z <- u | MAX_RES <= Res(z) ensures u[z] >= 1 { CountedIsPositive(asserted, z); }
    forall z <- c | MAX_RES <= Res(z) ensures c[z] >= 1 { CountedIsPositive(asserted, z); }
    LevelsPositive(Bases(asserted), u, c, TOP_RES - 1, disk);
  }

  /** Clipping never raises a count, and at the used resolutions it keeps it within the configured maximum. */
  lemma ClippedIsSmaller(asserted: seq<Cell>, u: HexMap, c: HexMap, disk: Disk, x: Cell)
    requires Reduced(asserted, u, c, disk) && x in u && x in c
    ensures c[x] <= u[x]
    ensures Res(x) < MAX_RES ==> c[x] <= Config(Res(x)).max
    ensures MAX_RES <= Res(x) ==> c[x] == u[x]
  {
    if Res(x) < MAX_RES {
      assert ReducedAt(Bases(asserted), u, c, Res(x), disk);
      LimitBounds(Res(x), OccupiedCount(u, disk(x), Config(Res(x)).target));
    }
  }

  lemma RatioBounds(a: nat, b: nat)
    requires 1 <= a <= b
    ensures 0.0 < a as real / b as real <= 1.0
  {}

  ghost predicate InUnit(ratios: map<Cell, real>) {
    forall x <- ratios :: 0.0 < ratios[x] <= 1.0
  }

  lemma RatiosInUnit(asserted: seq<Cell>, u: HexMap, c: HexMap, disk: Disk)
    requires Reduced(asserted, u, c, disk) && Positive(u) && Positive(c)
    ensures InUnit(Ratios(u, c))
  {
    forall x | x in u && x in c ensures 0.0 < c[x] as real / u[x] as real <= 1.0 {
      ClippedIsSmaller(asserted, u, c, disk, x);
      RatioBounds(c[x], u[x]);
    }
  }

  lemma ProductBounds(a: real, b: real)
    requires 0.0 < a <= 1.0 && 0.0 < b <= 1.0
    ensures 0.0 < Mul(a, b) <= a
  {}

  lemma {:induction false} ScaleInUnit(ratios: map<Cell, real>, hex: Cell, k: nat)
    requires InUnit(ratios)
    ensures 0.0 < Scale(ratios, hex, k) <= 1.0
    ensures Scale(ratios, hex, k) <= Scale(ratios, hex, k + 1)
    decreases FINEST_SCALING_RES + 1 - k
  {
    if k <= FINEST_SCALING_RES {
      ScaleInUnit(ratios, hex, k + 1);
      ProductBounds(Scale(ratios, hex, k + 1), Factor(ratios, hex, k));
    }
  }

  /** Every partial scale lies above zero and within one, and shrinks with every further resolution. */
  lemma {:induction false} ScaleShrinks(ratios: map<Cell, real>, hex: Cell, k: nat, r: nat)
    requires InUnit(ratios) && k <= r
    ensures 0.0 < Scale(ratios, hex, k) <= Scale(ratios, hex, r) <= 1.0
    decreases r - k
  {
    ScaleInUnit(ratios, hex, k);
    if k < r { ScaleShrinks(ratios, hex, k + 1, r); }
  }

  // ---------------------------------------------------------------- conservation

  predicate UnderOne(hex: Cell, ys: set<Cell>, r: nat) {
    r <= Res(hex) && At(hex, r) in ys
  }

  function Term(hex: Cell, ys: set<Cell>, r: nat, ratios: map<Cell, real>, k: nat): real {
    if UnderOne(hex, ys, r) then Scale(ratios, hex, k) else 0.0
  }

  function Terms(asserted: seq<Cell>, ys: set<Cell>, r: nat, ratios: map<Cell, real>, k: nat): (ts: seq<real>)
    ensures |ts| == |asserted| && forall i :: 0 <= i < |asserted| ==> ts[i] == Term(asserted[i], ys, r, ratios, k)
  {
    seq(|asserted|, i requires 0 <= i < |asserted| => Term(asserted[i], ys, r, ratios, k))
  }

  /** The partial scales, down to resolution `k`, of all hotspots whose cell of resolution `r` is among `ys`. */
  function Weight(asserted: seq<Cell>, ys: set<Cell>, r: nat, ratios: map<Cell, real>, k: nat): real {
    Sum(Terms(asserted, ys, r, ratios, k))
  }

  lemma WeightOfNone(asserted: seq<Cell>, r: nat, ratios: map<Cell, real>, k: nat)
    ensures Weight(asserted, {}, r, ratios, k) == 0.0
  {
    var ts := Terms(asserted, {}, r, ratios, k);
    assert forall i :: 0 <= i < |ts| ==> ts[i] == Mul(ts[i], 0.0);
    SumScales(ts, ts, 0.0);
  }

  lemma WeightSplit(asserted: seq<Cell>, ys: set<Cell>, y: Cell, r: nat, ratios: map<Cell, real>, k: nat)
    requires y in ys
    ensures Weight(asserted, ys, r, ratios, k) == Weight(asserted, {y}, r, ratios, k) + Weight(asserted, ys - {y}, r, ratios, k)
  {
    SumAdds(Terms(asserted, ys, r, ratios, k), Terms(asserted, {y}, r, ratios, k), Terms(asserted, ys - {y}, r, ratios, k));
  }

  /** If the weight of every single cell is its clipped count, the weight of a set of cells is their total. */
  lemma {:induction false} WeightTotal(asserted: seq<Cell>, ys: set<Cell>, r: nat, ratios: map<Cell, real>, c: HexMap, k: nat)
    requires ys <= c.Keys && forall y <- ys :: Weight(asserted, {y}, r, ratios, k) == c[y] as real
    ensures Weight(asserted, ys, r, ratios, k) == Total(ys, c) as real
    decreases |ys|
  {
    if ys == {} {
      WeightOfNone(asserted, r, ratios, k);
    } else {
      var y :| y in ys;
      WeightSplit(asserted, ys, y, r, ratios, k);
      WeightTotal(asserted, ys - {y}, r, ratios, c, k);
      TotalPick(ys, c, y);
    }
  }

  /** The hotspots under a cell are the hotspots under its children. */
  lemma WeightRegroup(asserted: seq<Cell>, ys: set<Cell>, x: Cell, r: nat, ratios: map<Cell, real>, k: nat)
    requires r < MAX_RES && FineEnough(asserted)
    requires (forall y <- ys :: Res(y) == r + 1) && forall i :: 0 <= i < |asserted| ==> At(asserted[i], r + 1) in ys
    ensures Weight(asserted, {x}, r, ratios, k) == Weight(asserted, Children(ys, x, r), r + 1, ratios, k)
  {
    forall i | 0 <= i < |asserted|
      ensures UnderOne(asserted[i], {x}, r) <==> UnderOne(asserted[i], Children(ys, x, r), r + 1)
    {
      ParentsCompose(asserted[i], r + 1, r);
    }
    assert Terms(asserted, {x}, r, ratios, k) == Terms(asserted, Children(ys, x, r), r + 1, ratios, k);
  }

  lemma TermScales(hex: Cell, x: Cell, r: nat, ratios: map<Cell, real>)
    requires r <= MAX_RES <= Res(hex) && x in ratios
    ensures Term(hex, {x}, r, ratios, r) == Mul(Term(hex, {x}, r, ratios, r + 1), ratios[x])
  {}

  /** One more resolution scales the weight of a cell by the ratio of that cell. */
  lemma WeightScales(asserted: seq<Cell>, x: Cell, r: nat, ratios: map<Cell, real>)
    requires r <= MAX_RES && FineEnough(asserted) && x in ratios
    ensures Weight(asserted, {x}, r, ratios, r) == Mul(Weight(asserted, {x}, r, ratios, r + 1), ratios[x])
  {
    var ys, xs := Terms(asserted, {x}, r, ratios, r), Terms(asserted, {x}, r, ratios, r + 1);
    forall i | 0 <= i < |asserted| ensures ys[i] == Mul(xs[i], ratios[x]) { TermScales(asserted[i], x, r, ratios); }
    SumScales(xs, ys, ratios[x]);
  }

  lemma RatioOfEqual(a: nat)
    requires 1 <= a
    ensures a as real / a as real == 1.0
  {}

  lemma NoFactor(asserted: seq<Cell>, u: HexMap, c: HexMap, disk: Disk, hex: Cell, r: nat)
    requires Reduced(asserted, u, c, disk) && Positive(u) && MAX_RES <= r
    ensures Factor(Ratios(u, c), hex, r) == 1.0
  {
    if r <= Res(hex) && At(hex, r) in u && At(hex, r) in c {
      ClippedIsSmaller(asserted, u, c, disk, At(hex, r));
      RatioOfEqual(u[At(hex, r)]);
    }
  }

  /** Resolutions 11 to 13 do not scale. */
  lemma BaseScale(asserted: seq<Cell>, u: HexMap, c: HexMap, disk: Disk, hex: Cell)
    requires Reduced(asserted, u, c, disk) && Positive(u)
    ensures Scale(Ratios(u, c), hex, MAX_RES) == 1.0
  {
    NoFactor(asserted, u, c, disk, hex, 11);
    NoFactor(asserted, u, c, disk, hex, 12);
    NoFactor(asserted, u, c, disk, hex, 13);
    UnitScale(Ratios(u, c), hex);
  }

  lemma UnitScale(ratios: map<Cell, real>, hex: Cell)
    requires Factor(ratios, hex, 11) == Factor(ratios, hex, 12) == Factor(ratios, hex, 13) == 1.0
    ensures Scale(ratios, hex, MAX_RES) == 1.0
  {
    assert Scale(ratios, hex, 14) == 1.0;
    assert Scale(ratios, hex, 13) == 1.0;
    assert Scale(ratios, hex, 12) == 1.0;
  }

  lemma {:induction false} CountIsSum(asserted: seq<Cell>, x: Cell, ts: seq<real>)
    requires FineEnough(asserted) && |ts| == |asserted|
    requires forall i :: 0 <= i < |ts| ==> ts[i] == if At(asserted[i], MAX_RES) == x then 1.0 else 0.0
    ensures Sum(ts) == Count(asserted, x) as real
    decreases |ts|
  {
    if ts != [] {
      var n := |ts| - 1;
      CountIsSum(asserted[..n], x, ts[..n]);
    }
  }

  lemma BaseWeight(asserted: seq<Cell>, u: HexMap, c: HexMap, disk: Disk, x: Cell)
    requires Reduced(asserted, u, c, disk) && Positive(u)
    ensures Weight(asserted, {x}, MAX_RES, Ratios(u, c), MAX_RES) == Count(asserted, x) as real
  {
    var ts := Terms(asserted, {x}, MAX_RES, Ratios(u, c), MAX_RES);
    forall i | 0 <= i < |ts| ensures ts[i] == if At(asserted[i], MAX_RES) == x then 1.0 else 0.0 {
      BaseScale(asserted, u, c, disk, asserted[i]);
    }
    CountIsSum(asserted, x, ts);
  }

  lemma Cancel(w: real, w': real, ratio: real, a: nat, b: nat)
    requires 1 <= b && w == Mul(w', ratio) && w' == b as real && ratio == a as real / b as real
    ensures w == a as real
  {}

  ghost predicate LevelConserved(asserted: seq<Cell>, s: set<Cell>, ratios: map<Cell, real>, c: HexMap, r: nat)
    requires Base(s) && r <= MAX_RES
  {
    Above(s, r) <= c.Keys && forall x <- Above(s, r) :: Weight(asserted, {x}, r, ratios, r) == c[x] as real
  }

  lemma BasesAre(asserted: seq<Cell>, r: nat)
    requires FineEnough(asserted) && r <= MAX_RES
    ensures Base(Bases(asserted)) && forall i :: 0 <= i < |asserted| ==> At(asserted[i], r) in Above(Bases(asserted), r)
  {
    forall i | 0 <= i < |asserted| ensures At(asserted[i], r) in Above(Bases(asserted), r) {
      ParentsCompose(asserted[i], MAX_RES, r);
      assert At(asserted[i], MAX_RES) in Bases(asserted);
    }
  }

  /** Before its own resolution is applied, the weight of a cell is the total of its children's clipped counts. */
  lemma ChildrenWeight(asserted: seq<Cell>, level: set<Cell>, ratios: map<Cell, real>, c: HexMap, r: nat, x: Cell)
    requires FineEnough(asserted) && r < MAX_RES && level <= c.Keys && (forall y <- level :: Res(y) == r + 1)
    requires forall i :: 0 <= i < |asserted| ==> At(asserted[i], r + 1) in level
    requires forall y <- level :: Weight(asserted, {y}, r + 1, ratios, r + 1) == c[y] as real
    ensures Weight(asserted, {x}, r, ratios, r + 1) == Total(Children(level, x, r), c) as real
  {
    WeightRegroup(asserted, level, x, r, ratios, r + 1);
    WeightTotal(asserted, Children(level, x, r), r + 1, ratios, c, r + 1);
  }

  lemma WeightAfterClip(asserted: seq<Cell>, ratios: map<Cell, real>, r: nat, x: Cell, clipped: nat, unclipped: nat)
    requires FineEnough(asserted) && r < MAX_RES && x in ratios && 1 <= unclipped
    requires Weight(asserted, {x}, r, ratios, r + 1) == unclipped as real
    requires ratios[x] == clipped as real / unclipped as real
    ensures Weight(asserted, {x}, r, ratios, r) == clipped as real
  {
    WeightScales(asserted, x, r, ratios);
    Cancel(Weight(asserted, {x}, r, ratios, r), Weight(asserted, {x}, r, ratios, r + 1), ratios[x], clipped, unclipped);
  }

  lemma CellConserved(asserted: seq<Cell>, level: set<Cell>, ratios: map<Cell, real>, c: HexMap, r: nat, x: Cell,
                      clipped: nat, unclipped: nat)
    requires FineEnough(asserted) && r < MAX_RES && level <= c.Keys && (forall y <- level :: Res(y) == r + 1)
    requires forall i :: 0 <= i < |asserted| ==> At(asserted[i], r + 1) in level
    requires forall y <- level :: Weight(asserted, {y}, r + 1, ratios, r + 1) == c[y] as real
    requires 1 <= unclipped == Total(Children(level, x, r), c)
    requires x in ratios && ratios[x] == clipped as real / unclipped as real
    ensures Weight(asserted, {x}, r, ratios, r) == clipped as real
  {
    ChildrenWeight(asserted, level, ratios, c, r, x);
    WeightAfterClip(asserted, ratios, r, x, clipped, unclipped);
  }

  lemma BaseConserved(asserted: seq<Cell>, u: HexMap, c: HexMap, disk: Disk)
    requires Reduced(asserted, u, c, disk) && Positive(u)
    ensures LevelConserved(asserted, Bases(asserted), Ratios(u, c), c, MAX_RES)
  {
    AboveRes(Bases(asserted), MAX_RES);
    forall x <- Bases(asserted) ensures x in c && Weight(asserted, {x}, MAX_RES, Ratios(u, c), MAX_RES) == c[x] as real {
      BaseWeight(asserted, u, c, disk, x);
    }
  }

  lemma NextConserved(asserted: seq<Cell>, u: HexMap, c: HexMap, disk: Disk, r: nat)
    requires FineEnough(asserted) && Base(Bases(asserted)) && Positive(u) && r < MAX_RES
    requires ReducedAt(Bases(asserted), u, c, r, disk)
    requires LevelConserved(asserted, Bases(asserted), Ratios(u, c), c, r + 1)
    ensures LevelConserved(asserted, Bases(asserted), Ratios(u, c), c, r)
  {
    BasesAre(asserted, r + 1);
    LevelFrom(asserted, Above(Bases(asserted), r + 1), Above(Bases(asserted), r), u, c, r);
  }

  lemma LevelFrom(asserted: seq<Cell>, level: set<Cell>, xs: set<Cell>, u: HexMap, c: HexMap, r: nat)
    requires FineEnough(asserted) && r < MAX_RES && level <= c.Keys && (forall y <- level :: Res(y) == r + 1) && Positive(u)
    requires forall i :: 0 <= i < |asserted| ==> At(asserted[i], r + 1) in level
    requires forall y <- level :: Weight(asserted, {y}, r + 1, Ratios(u, c), r + 1) == c[y] as real
    requires forall x <- xs :: x in u && x in c && u[x] == Total(Children(level, x, r), c)
    ensures forall x <- xs :: Weight(asserted, {x}, r, Ratios(u, c), r) == c[x] as real
  {
    forall x <- xs ensures Weight(asserted, {x}, r, Ratios(u, c), r) == c[x] as real {
      CellConserved(asserted, level, Ratios(u, c), c, r, x, c[x], u[x]);
    }
  }

  /** The scales down to a resolution, of the hotspots under a cell of that resolution, add up to its clipped count. */
  lemma {:induction false} LevelsConserved(asserted: seq<Cell>, u: HexMap, c: HexMap, disk: Disk, r: nat)
    requires Reduced(asserted, u, c, disk) && Positive(u) && TOP_RES <= r <= MAX_RES
    ensures LevelConserved(asserted, Bases(asserted), Ratios(u, c), c, r)
    decreases MAX_RES - r
  {
    if r == MAX_RES {
      BaseConserved(asserted, u, c, disk);
    } else {
      LevelsConserved(asserted, u, c, disk, r + 1);
      NextConserved(asserted, u, c, disk, r);
    }
  }

  lemma WeightShrinks(asserted: seq<Cell>, ys: set<Cell>, r: nat, ratios: map<Cell, real>, k: nat, k': nat)
    requires InUnit(ratios) && k <= k'
    ensures Weight(asserted, ys, r, ratios, k) <= Weight(asserted, ys, r, ratios, k')
  {
    var xs, ys' := Terms(asserted, ys, r, ratios, k), Terms(asserted, ys, r, ratios, k');
    forall i | 0 <= i < |asserted| ensures xs[i] <= ys'[i] { ScaleShrinks(ratios, asserted[i], k, k'); }
    SumMonotone(xs, ys');
  }

  /** For every cell of a used resolution, the unrounded scales of all hotspots under it add up to at most its clipped
      count, which is at most the configured maximum. */
  lemma DensityConservation(asserted: seq<Cell>, u: HexMap, c: HexMap, disk: Disk, r: nat, x: Cell)
    requires Reduced(asserted, u, c, disk) && TOP_RES <= r < MAX_RES && x in Above(Bases(asserted), r)
    ensures Positive(u) && x in c && c[x] <= Config(r).max
    ensures Weight(asserted, {x}, r, Ratios(u, c), TOP_RES) <= c[x] as real
    ensures r == TOP_RES ==> Weight(asserted, {x}, r, Ratios(u, c), TOP_RES) == c[x] as real
  {
    CountsArePositive(asserted, u, c, disk);
    RatiosInUnit(asserted, u, c, disk);
    LevelsConserved(asserted, u, c, disk, r);
    WeightShrinks(asserted, {x}, r, Ratios(u, c), TOP_RES, r);
    AboveRes(Bases(asserted), r);
    assert ReducedAt(Bases(asserted), u, c, r, disk);
    ClippedIsSmaller(asserted, u, c, disk, x);
  }

  /** The scale of every hotspot lies above zero and within one; the stored one is rounded by at most 0.00005. */
  lemma ScalesInUnit(asserted: seq<Cell>, u: HexMap, c: HexMap, disk: Disk, hex: Cell)
    requires Reduced(asserted, u, c, disk)
    ensures Positive(u) && 0.0 < Scale(Ratios(u, c), hex, TOP_RES) <= 1.0
    ensures 0.0 <= RoundDp(Scale(Ratios(u, c), hex, TOP_RES), TEN_4) <= 1.0
  {
    CountsArePositive(asserted, u, c, disk);
    RatiosInUnit(asserted, u, c, disk);
    ScaleShrinks(Ratios(u, c), hex, TOP_RES, TOP_RES);
    RoundDpMonotone(0.0, Scale(Ratios(u, c), hex, TOP_RES), TEN_4);
    RoundDpMonotone(Scale(Ratios(u, c), hex, TOP_RES), 1.0, TEN_4);
    RoundDpOfWhole(0, 10000);
    RoundDpOfWhole(1, 10000);
  }
}
