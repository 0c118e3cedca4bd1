/**
  Aggregation of the saved shares of a period into one entry per gateway. No share is lost or counted twice, whatever the
  order in which the entries are visited afterwards.
*/
module ShareAggregation {
  import opened Rewards

  datatype ShareRow =
    | PocRow(key: nat, isBeacon: bool, hexScale: real, rewardUnit: real)
    | DcRow(key: nat, numDcs: real)

  type Shares = map<nat, RewardShares>

  /** What a row is worth in a pool. */
  function Worth(row: ShareRow, p: Pool): real {
    match row
    case PocRow(_, isBeacon, scale, unit) => if (if isBeacon then p.Beacon? else p.Witness?) then scale * unit else 0.0
    case DcRow(_, dcs) => if p.DcTransfer? then dcs else 0.0
  }

  function Credit(s: RewardShares, row: ShareRow): RewardShares {
    match row
    case PocRow(_, true, scale, unit) => s.(beacons := s.beacons + scale * unit)
    case PocRow(_, false, scale, unit) => s.(witnesses := s.witnesses + scale * unit)
    case DcRow(_, dcs) => s.(dcs := s.dcs + dcs)
  }

  lemma CreditAddsWorth(s: RewardShares, row: ShareRow, p: Pool)
    ensures Of(Credit(s, row), p) == Of(s, p) + Worth(row, p)
  {}

  const NONE := RewardShares(0.0, 0.0, 0.0)

  function Entry(m: Shares, key: nat): RewardShares {
    if key in m then m[key] else NONE
  }

  function Add(m: Shares, row: ShareRow): Shares {
    m[row.key := Credit(Entry(m, row.key), row)]
  }

  function Aggregated(rows: seq<ShareRow>): Shares {
    if rows == [] then map[] else Add(Aggregated(rows[..|rows| - 1]), rows[|rows| - 1])
  }

  method Aggregate(rows: seq<ShareRow>) returns (m: Shares)
    ensures m == Aggregated(rows)
  {
    m := map[];
    var i := 0;
    while i < |rows|
      invariant i <= |rows| && m == Aggregated(rows[..i])
    {
      assert rows[..i + 1][..i] == rows[..i];
      m := Add(m, rows[i]);
      i := i + 1;
    }
    assert rows[..i] == rows;
  }

  // ---------------------------------------------------------------- totals

  ghost function MapTotal(keys: set<nat>, m: Shares, p: Pool): real
    decreases |keys|
  {
    if keys == {} then 0.0
    else
      var k :| k in keys;
      Of(Entry(m, k), p) + MapTotal(keys - {k}, m, p)
  }

  lemma {:induction false} MapTotalPick(keys: set<nat>, m: Shares, p: Pool, k: nat)
    requires k in keys
    ensures MapTotal(keys, m, p) == Of(Entry(m, k), p) + MapTotal(keys - {k}, m, p)
    decreases |keys|
  {
    var j :| j in keys && MapTotal(keys, m, p) == Of(Entry(m, j), p) + MapTotal(keys - {j}, m, p);
    if j != k {
      MapTotalPick(keys - {j}, m, p, k);
      MapTotalPick(keys - {k}, m, p, j);
      assert keys - {j} - {k} == keys - {k} - {j};
    }
  }

  lemma {:induction false} MapTotalSame(keys: set<nat>, m: Shares, m': Shares, p: Pool)
    requires forall k <- keys :: Entry(m, k) == Entry(m', k)
    ensures MapTotal(keys, m, p) == MapTotal(keys, m', p)
    decreases |keys|
  {
    if keys != {} {
      var k :| k in keys;
      MapTotalPick(keys, m, p, k);
      MapTotalPick(keys, m', p, k);
      MapTotalSame(keys - {k}, m, m', p);
    }
  }

  lemma AddConserves(m: Shares, row: ShareRow, p: Pool)
    ensures MapTotal(Add(m, row).Keys, Add(m, row), p) == MapTotal(m.Keys, m, p) + Worth(row, p)
  {
    var m', k := Add(m, row), row.key;
    assert m'.Keys - {k} == m.Keys - {k};
    MapTotalPick(m'.Keys, m', p, k);
    MapTotalSame(m.Keys - {k}, m, m', p);
    CreditAddsWorth(Entry(m, k), row, p);
    assert Of(NONE, p) == 0.0;
    if k in m { MapTotalPick(m.Keys, m, p, k); } else { assert m.Keys - {k} == m.Keys; }
  }

  function TotalWorth(rows: seq<ShareRow>, p: Pool): real {
    if rows == [] then 0.0 else TotalWorth(rows[..|rows| - 1], p) + Worth(rows[|rows| - 1], p)
  }

  lemma {:induction false} AggregateConserves(rows: seq<ShareRow>, p: Pool)
    ensures MapTotal(Aggregated(rows).Keys, Aggregated(rows), p) == TotalWorth(rows, p)
    decreases |rows|
  {
    if rows != [] {
      var n := |rows| - 1;
      AggregateConserves(rows[..n], p);
      AddConserves(Aggregated(rows[..n]), rows[n], p);
    }
  }

  /** The gateways are the entries of the map, in some order. */
  ghost predicate Enumerates(gs: seq<Gateway>, keys: set<nat>, m: Shares) {
    && (forall i, j :: 0 <= i < j < |gs| ==> gs[i].key != gs[j].key)
    && (forall i :: 0 <= i < |gs| ==> Entry(m, gs[i].key) == gs[i].shares)
    && keys == KeysOf(gs)
  }

  function KeysOf(gs: seq<Gateway>): set<nat> {
    if gs == [] then {} else KeysOf(gs[..|gs| - 1]) + {gs[|gs| - 1].key}
  }

  lemma {:induction false} KeysOfAll(gs: seq<Gateway>, k: nat)
    ensures k in KeysOf(gs) <==> exists i :: 0 <= i < |gs| && gs[i].key == k
    decreases |gs|
  {
    if gs != [] {
      var n := |gs| - 1;
      KeysOfAll(gs[..n], k);
      if i :| 0 <= i < n && gs[..n][i].key == k { assert gs[i].key == k; }
      if i :| 0 <= i < n && gs[i].key == k { assert gs[..n][i].key == k; }
    }
  }

  lemma EnumeratesRest(gs: seq<Gateway>, keys: set<nat>, m: Shares)
    requires Enumerates(gs, keys, m) && gs != []
    ensures Enumerates(gs[..|gs| - 1], keys - {gs[|gs| - 1].key}, m)
  {
    var n := |gs| - 1;
    KeysOfAll(gs[..n], gs[n].key);
    assert KeysOf(gs) - {gs[n].key} == KeysOf(gs[..n]);
  }

  lemma PoolSharesNext(gs: seq<Gateway>, p: Pool)
    requires gs != []
    ensures PoolShares(gs, p) == PoolShares(gs[..|gs| - 1], p) + Of(gs[|gs| - 1].shares, p)
  {
    assert SharesIn(gs, p)[..|gs| - 1] == SharesIn(gs[..|gs| - 1], p);
  }

  lemma {:induction false} EnumeratedTotal(gs: seq<Gateway>, keys: set<nat>, m: Shares, p: Pool)
    requires Enumerates(gs, keys, m)
    ensures PoolShares(gs, p) == MapTotal(keys, m, p)
    decreases |gs|
  {
    if gs != [] {
      var n := |gs| - 1;
      EnumeratesRest(gs, keys, m);
      EnumeratedTotal(gs[..n], keys - {gs[n].key}, m, p);
      MapTotalPick(keys, m, p, gs[n].key);
      PoolSharesNext(gs, p);
    }
  }

  /** The shares that a pool pays for are the worth of the saved rows, in whatever order the gateways are visited. */
  lemma SharesAreConserved(rows: seq<ShareRow>, gs: seq<Gateway>, p: Pool)
    requires Enumerates(gs, Aggregated(rows).Keys, Aggregated(rows))
    ensures PoolShares(gs, p) == TotalWorth(rows, p)
  {
    EnumeratedTotal(gs, Aggregated(rows).Keys, Aggregated(rows), p);
    AggregateConserves(rows, p);
  }
}
