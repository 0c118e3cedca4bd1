/**
  Data credits and IoT bones: converting a whole number of data credits to bones and back.
*/
module DcBones {
  import opened Rounding

  const DC_USD_PRICE: real := 0.00001

  /** Prices are given per token with six decimals; a token has a million bones. */
  function PriceOfBone(price: real): real {
    price / 1000000.0 / 1000000.0
  }

  function DcToBones(dc: real, price: real): real
    requires price > 0.0
  {
    CeilDp(dc * DC_USD_PRICE / PriceOfBone(price), TEN_15)
  }

  function BonesToDc(bones: real, price: real): int {
    (bones * PriceOfBone(price) / DC_USD_PRICE).Floor
  }

  function Worth(bones: real, priceOfBone: real): real {
    bones * priceOfBone
  }

  lemma Covering(bones: real, exact: real, q: real, usd: real)
    requires 0.0 < q && exact <= bones < exact + 1.0 / TEN_15 && exact == usd / q
    ensures usd <= Worth(bones, q) < usd + q / TEN_15
  {
    var d, e := bones - exact, exact + 1.0 / TEN_15 - bones;
    assert exact * q == usd;
    assert 0.0 <= d * q && 0.0 < e * q;
    assert d * q == bones * q - usd;
    assert e * q == usd + q / TEN_15 - bones * q;
  }

  /** The bones are worth at least the data credits, and less than one unit of the fifteenth place more. */
  lemma BonesCoverDc(dc: real, price: real)
    requires 0.0 < price
    ensures var q := PriceOfBone(price);
            dc * DC_USD_PRICE <= Worth(DcToBones(dc, price), q) < dc * DC_USD_PRICE + q / TEN_15
  {
    Covering(DcToBones(dc, price), dc * DC_USD_PRICE / PriceOfBone(price), PriceOfBone(price), dc * DC_USD_PRICE);
  }

  /** The price above which one unit of the fifteenth place of a bone is worth more than one data credit. */
  const PRICE_LIMIT: real := 10000000000000000000000.0

  /** The data credits that one unit of the fifteenth place of a bone is worth. */
  function UnitWorth(price: real): real {
    price / PRICE_LIMIT
  }

  lemma UnitsOfDc(x: real, price: real, y: real)
    requires price > 0.0 && y == x * DC_USD_PRICE / PriceOfBone(price) * TEN_15
    ensures y * UnitWorth(price) == x
  {
    var q, t := PriceOfBone(price), x * DC_USD_PRICE / PriceOfBone(price);
    assert t * q == x * DC_USD_PRICE;
    assert t * q == t * price / 1000000000000.0;
    assert y * UnitWorth(price) == t * price * (TEN_15 / PRICE_LIMIT);
  }

  lemma WorthOfUnits(n: int, price: real)
    ensures n as real / TEN_15 * PriceOfBone(price) / DC_USD_PRICE == n as real * UnitWorth(price)
  {}

  /** There and back: the units are rounded up, and what they are worth is rounded down. */
  lemma ThereAndBack(x: real, price: real) returns (y: real)
    requires price > 0.0
    ensures y * UnitWorth(price) == x
    ensures BonesToDc(DcToBones(x, price), price) == (Ceil(y) as real * UnitWorth(price)).Floor
  {
    y := x * DC_USD_PRICE / PriceOfBone(price) * TEN_15;
    UnitsOfDc(x, price, y);
    WorthOfUnits(Ceil(y), price);
  }

  lemma FloorOfProduct(c: real, y: real, k: real, z: real, x: int)
    requires 0.0 < k <= 1.0 && y <= c < y + 1.0 && y * k == z && z == x as real
    ensures (c * k).Floor == x
  {
    var d := c - y;
    assert c * k == z + d * k;
    ProductBelow(d, k);
    FloorIs(c * k, x);
  }

  lemma ProductBelow(d: real, k: real)
    requires 0.0 <= d < 1.0 && 0.0 < k <= 1.0
    ensures 0.0 <= d * k < 1.0
  {}

  /** Up to the limit, no data credit is lost or gained. */
  lemma RoundTrip(x: nat, price: real)
    requires 0.0 < price <= PRICE_LIMIT
    ensures BonesToDc(DcToBones(x as real, price), price) == x
  {
    var y := ThereAndBack(x as real, price);
    WorthOfOne(price);
    FloorOfProduct(Ceil(y) as real, y, UnitWorth(price), x as real, x);
  }

  lemma WorthOfOne(price: real)
    requires 0.0 < price <= PRICE_LIMIT
    ensures 0.0 < UnitWorth(price) <= 1.0
  {}

  lemma FloorIs(w: real, x: int)
    requires x as real <= w < x as real + 1.0
    ensures w.Floor == x
  {}

  lemma FloorAtLeast(w: real, x: int)
    requires x as real <= w
    ensures x <= w.Floor
  {}

  lemma SmallerFactor(a: real, b: real, k: real)
    requires 0.0 < k && a * k < b * k
    ensures a < b
  {}

  lemma NotLarger(a: real, b: real, k: real)
    requires 0.0 < k && a * k <= b * k
    ensures a <= b
  {}

  lemma ProductPositive(d: real, e: real)
    requires 0.0 <= d && 0.0 <= e
    ensures 0.0 <= d * e && (0.0 < d && 0.0 < e ==> 0.0 < d * e)
  {}

  lemma Expand(d: real, e: real, a: real, b: real, k: real)
    requires d == a - b && e == k - 1.0
    ensures d * e == a * k - a - b * k + b
  {}

  lemma GrowsApart(a: real, b: real, k: real)
    requires b <= a && 1.0 < k
    ensures a - b <= a * k - b * k && (b < a ==> a - b < a * k - b * k)
  {
    var d, e := a - b, k - 1.0;
    ProductPositive(d, e);
    Expand(d, e, a, b, k);
  }

  lemma OneMore(w: real, v: real, k: real)
    requires w == v + 1.0
    ensures w * k == v * k + k
  {}

  /** The amount that one more unit would be worth is reached after 1 / (k - 1) units. */
  lemma Threshold(k: real) returns (v: real)
    requires 1.0 < k
    ensures 0.0 < v && v * k == v + 1.0
  {
    v := 1.0 / (k - 1.0);
    assert v * (k - 1.0) == 1.0;
  }

  /** From the threshold on, `z` units that are worth `k` each are worth at least one more than `z`. */
  lemma ExtraCredit(z: real, k: real, v: real)
    requires 1.0 < k && v * k == v + 1.0 && v <= z < v + 1.0
    ensures z * k - k < z && z + 1.0 <= z * k
  {
    var w := v + 1.0;
    GrowsApart(z, v, k);
    GrowsApart(w, z, k);
    OneMore(w, v, k);
  }

  lemma CeilOf(y: real, x: int)
    requires x as real - 1.0 < y <= x as real
    ensures Ceil(y) == x
  {}

  lemma CeilIsWhole(y: real, k: real, z: real, x: int)
    requires 1.0 < k && z == x as real && y * k == z && z * k - k < z && z + 1.0 <= z * k
    ensures Ceil(y) == x
  {
    var w := z - 1.0;
    OneMore(z, w, k);
    SmallerFactor(w, y, k);
    NotLarger(y, z, k);
    CeilOf(y, x);
  }

  lemma FloorOfMore(c: real, k: real, z: real, x: int)
    requires c == z && z == x as real && z + 1.0 <= z * k
    ensures x < (c * k).Floor
  {
    FloorAtLeast(c * k, x + 1);
  }

  /** What a whole number of data credits comes back as. */
  function Returned(dc: nat, price: real): int
    requires 0.0 < price
  {
    BonesToDc(DcToBones(dc as real, price), price)
  }

  /** Above the limit, some whole amount comes back larger. */
  lemma RoundTripFails(price: real) returns (x: nat)
    requires PRICE_LIMIT < price
    ensures Returned(x, price) > x
  {
    var k := UnitWorth(price);
    var v := Threshold(k);
    x := Ceil(v);
    var y := ThereAndBack(x as real, price);
    MoreComesBack(y, k, v, x);
  }

  lemma MoreComesBack(y: real, k: real, v: real, x: nat)
    requires 1.0 < k && v * k == v + 1.0 && x == Ceil(v) && y * k == x as real
    ensures x < (Ceil(y) as real * k).Floor
  {
    var z := x as real;
    ExtraCredit(z, k, v);
    CeilIsWhole(y, k, z, x);
    FloorOfMore(Ceil(y) as real, k, z, x);
  }

  /** Data credits survive the conversion to bones and back, for every whole amount, exactly up to the price limit. */
  lemma RoundTripIff(price: real)
    requires 0.0 < price
    ensures (forall x: nat :: Returned(x, price) == x) <==> price <= PRICE_LIMIT
  {
    if price <= PRICE_LIMIT {
      forall x: nat ensures Returned(x, price) == x { RoundTrip(x, price); }
    } else {
      var x := RoundTripFails(price);
    }
  }
}
