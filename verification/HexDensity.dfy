/**
  Hex density: counts of hotspots per cell are rolled up from resolution 11 to 4 and clipped at every resolution; the
  scale of a hotspot is the product of the clipped to unclipped ratios of the cells above it.

  A cell is a base cell and a list of digits, one per resolution, so that parents compose. The ring of a cell is any
  set of cells of the same resolution.
*/
module HexDensity {
  import opened Wrappers

  datatype Cell = Cell(base: nat, digits: seq<nat>)

  type HexMap = map<Cell, nat>

  type Disk = Cell -> set<Cell>

  function Res(c: Cell): nat {
    |c.digits|
  }

  function At(c: Cell, res: nat): Cell
    requires res <= Res(c)
  {
    Cell(c.base, c.digits[..res])
  }

  function Parent(c: Cell, res: nat): Option<Cell> {
    if res <= Res(c) then Some(At(c, res)) else None
  }

  lemma ParentsCompose(c: Cell, r: nat, q: nat)
    requires q <= r <= Res(c)
    ensures At(At(c, r), q) == At(c, q) && Res(At(c, r)) == r
  {}

  ghost predicate SameRes(disk: Disk) {
    forall c: Cell, z: Cell :: z in disk(c) ==> Res(z) == Res(c)
  }

  const MAX_RES := 11
  const TOP_RES := 4

  datatype HexResConfig = HexResConfig(neighbors: nat, target: nat, max: nat)

  function Config(res: nat): HexResConfig {
    match res
    case 4 => HexResConfig(2, 500, 1000)
    case 5 => HexResConfig(4, 100, 200)
    case 6 => HexResConfig(4, 25, 50)
    case 7 => HexResConfig(4, 5, 10)
    case _ => HexResConfig(2, 1, 1)
  }

  function Min(a: nat, b: nat): nat {
    if a <= b then a else b
  }

  function Limit(res: nat, occupied: nat): nat {
    var config := Config(res);
    var diff := if occupied < config.neighbors then 0 else occupied - config.neighbors;
    Min(config.max, config.target * (diff + 1))
  }

  lemma LimitBounds(res: nat, occupied: nat)
    ensures 1 <= Config(res).target <= Limit(res, occupied) <= Config(res).max
  {}

  /** The cells of a ring whose population reaches the target. */
  function OccupiedCount(m: HexMap, ring: set<Cell>, target: nat): nat {
    |set z | z in ring && z in m && m[z] >= target|
  }

  /** The count a cell is clipped to, from the counts `u` of all cells of its resolution. */
  function ClippedCount(u: HexMap, x: Cell, res: nat, disk: Disk): nat
    requires x in u
  {
    Min(Limit(res, OccupiedCount(u, disk(x), Config(res).target)), u[x])
  }

  // ---------------------------------------------------------------- sums over sets of cells

  ghost function Total(s: set<Cell>, m: HexMap): nat
    requires s <= m.Keys
    decreases |s|
  {
    if s == {} then 0
    else
      var y :| y in s;
      m[y] + Total(s - {y}, m)
  }

  lemma {:induction false} TotalPick(s: set<Cell>, m: HexMap, y: Cell)
    requires s <= m.Keys && y in s
    ensures Total(s, m) == m[y] + Total(s - {y}, m)
    decreases |s|
  {
    var z :| z in s && Total(s, m) == m[z] + Total(s - {z}, m);
    if z != y {
      TotalPick(s - {z}, m, y);
      TotalPick(s - {y}, m, z);
      assert s - {z} - {y} == s - {y} - {z};
    }
  }

  lemma {:induction false} TotalSame(s: set<Cell>, m: HexMap, m': HexMap)
    requires s <= m.Keys && s <= m'.Keys && forall y <- s :: m[y] == m'[y]
    ensures Total(s, m) == Total(s, m')
    decreases |s|
  {
    if s != {} {
      var y :| y in s;
      TotalPick(s, m, y);
      TotalPick(s, m', y);
      TotalSame(s - {y}, m, m');
    }
  }

  lemma TotalPositive(s: set<Cell>, m: HexMap, y: Cell)
    requires s <= m.Keys && y in s && m[y] >= 1
    ensures Total(s, m) >= 1
  {
    TotalPick(s, m, y);
  }

  // ---------------------------------------------------------------- levels

  /** The cells of resolution `res` above the cells `s`. */
  function Above(s: set<Cell>, res: nat): set<Cell>
    requires forall y <- s :: res <= Res(y)
  {
    set y | y in s :: At(y, res)
  }

  /** The cells of `s` whose parent is `x`. */
  function Children(s: set<Cell>, x: Cell, res: nat): set<Cell>
    requires forall y <- s :: res <= Res(y)
  {
    set y | y in s && At(y, res) == x
  }

  lemma AboveAbove(s: set<Cell>, r: nat)
    requires forall y <- s :: r + 1 <= Res(y)
    ensures (forall y <- Above(s, r + 1) :: Res(y) == r + 1) && Above(Above(s, r + 1), r) == Above(s, r)
  {
    forall y <- s ensures At(At(y, r + 1), r) == At(y, r) && At(y, r + 1) in Above(s, r + 1) { ParentsCompose(y, r + 1, r); }
  }

  // ---------------------------------------------------------------- one level of the reduction

  function ToSet(s: seq<Cell>): set<Cell> {
    set y | y in s
  }

  predicate Distinct(s: seq<Cell>) {
    forall i, j :: 0 <= i < j < |s| ==> s[i] != s[j]
  }

  function Unique(s: seq<Cell>): (r: seq<Cell>)
    ensures ToSet(r) == ToSet(s) && Distinct(r)
  {
    if s == [] then []
    else
      var n := |s| - 1;
      var r := Unique(s[..n]);
      assert s == s[..n] + [s[n]] && ToSet(s) == ToSet(s[..n]) + {s[n]};
      assert s[n] in r <==> s[n] in ToSet(r);
      if s[n] in r then r else r + [s[n]]
  }

  function Bump(m: HexMap, x: Cell, n: nat): HexMap {
    m[x := if x in m then m[x] + n else n]
  }

  predicate NoneAt(m: HexMap, res: nat) {
    forall z <- m :: Res(z) != res
  }

  /** Only entries of resolution `res` are new, one for each cell of `xs`. */
  ghost predicate Extends(m: HexMap, m': HexMap, xs: set<Cell>) {
    m'.Keys == m.Keys + xs && forall z <- m | z !in xs :: m'[z] == m[z]
  }

  /** Both maps hold, for every cell above `ys`, the total of the clipped counts of its children. */
  ghost predicate RolledUp(u': HexMap, c': HexMap, c: HexMap, ys: set<Cell>, res: nat)
    requires (forall y <- ys :: res <= Res(y)) && ys <= c.Keys
  {
    forall x <- Above(ys, res) ::
      && x in u' && x in c'
      && u'[x] == c'[x] == Total(Children(ys, x, res), c)
  }

  lemma ChildrenNext(ys: set<Cell>, y: Cell, x: Cell, res: nat, c: HexMap)
    requires (forall z <- ys + {y} :: res <= Res(z)) && y !in ys && ys + {y} <= c.Keys
    ensures Total(Children(ys + {y}, x, res), c)
         == if At(y, res) == x then Total(Children(ys, x, res), c) + c[y] else Total(Children(ys, x, res), c)
  {
    if At(y, res) == x {
      TotalPick(Children(ys + {y}, x, res), c, y);
      assert Children(ys + {y}, x, res) - {y} == Children(ys, x, res);
    } else {
      assert Children(ys + {y}, x, res) == Children(ys, x, res);
    }
  }

  lemma NoChildren(ys: set<Cell>, x: Cell, res: nat, c: HexMap)
    requires (forall z <- ys :: res <= Res(z)) && ys <= c.Keys && x !in Above(ys, res)
    ensures Total(Children(ys, x, res), c) == 0
  {
    assert Children(ys, x, res) == {};
  }

  lemma RolledUpNext(u': HexMap, c': HexMap, c: HexMap, ys: set<Cell>, y: Cell, res: nat)
    requires (forall z <- ys + {y} :: Res(z) == res + 1) && y !in ys && ys + {y} <= c.Keys
    requires RolledUp(u', c', c, ys, res)
    requires At(y, res) !in Above(ys, res) ==> At(y, res) !in u' && At(y, res) !in c'
    ensures RolledUp(Bump(u', At(y, res), c[y]), Bump(c', At(y, res), c[y]), c, ys + {y}, res)
  {
    forall x <- Above(ys + {y}, res)
      ensures var u'', c'' := Bump(u', At(y, res), c[y]), Bump(c', At(y, res), c[y]);
              x in u'' && x in c'' && u''[x] == c''[x] == Total(Children(ys + {y}, x, res), c)
    {
      ChildrenNext(ys, y, x, res, c);
      if x !in Above(ys, res) { NoChildren(ys, x, res, c); }
    }
  }

  lemma AboveNext(ys: set<Cell>, y: Cell, res: nat)
    requires forall z <- ys + {y} :: res <= Res(z)
    ensures Above(ys + {y}, res) == Above(ys, res) + {At(y, res)}
  {}

  /** The state of the roll-up when the cells `ys` are done. */
  ghost predicate RollUpState(u: HexMap, c: HexMap, u': HexMap, c': HexMap, parents: seq<Cell>, ys: set<Cell>, res: nat) {
    && (forall y <- ys :: Res(y) == res + 1) && ys <= c.Keys && NoneAt(u, res) && NoneAt(c, res)
    && ToSet(parents) == Above(ys, res)
    && RolledUp(u', c', c, ys, res)
    && Extends(u, u', Above(ys, res)) && Extends(c, c', Above(ys, res))
  }

  lemma ExtendsNext(m: HexMap, m': HexMap, xs: set<Cell>, x: Cell, n: nat, res: nat)
    requires Extends(m, m', xs) && NoneAt(m, res) && Res(x) == res
    ensures Extends(m, Bump(m', x, n), xs + {x})
    ensures x !in xs ==> x !in m'
  {}

  lemma RollUpNext(u: HexMap, c: HexMap, u': HexMap, c': HexMap, parents: seq<Cell>, ys: set<Cell>, y: Cell, res: nat)
    requires RollUpState(u, c, u', c', parents, ys, res) && y !in ys && Res(y) == res + 1 && y in c
    ensures y in c' && c'[y] == c[y]
    ensures RollUpState(u, c, Bump(u', At(y, res), c[y]), Bump(c', At(y, res), c[y]), parents + [At(y, res)], ys + {y}, res)
  {
    var xs, x := Above(ys, res), At(y, res);
    ExtendsNext(u, u', xs, x, c[y], res);
    ExtendsNext(c, c', xs, x, c[y], res);
    RolledUpNext(u', c', c, ys, y, res);
    AboveNext(ys, y, res);
    assert y !in xs;
    assert ToSet(parents + [x]) == ToSet(parents) + {x};
  }

  lemma ToSetNext(s: seq<Cell>, i: nat)
    requires i < |s|
    ensures ToSet(s[..i + 1]) == ToSet(s[..i]) + {s[i]}
    ensures Distinct(s) ==> s[i] !in ToSet(s[..i])
  {}

  /** The roll-up loop over the cells of one resolution, in the order given. */
  method RollUp(u: HexMap, c: HexMap, cells: seq<Cell>, res: nat) returns (u': HexMap, c': HexMap, parents: seq<Cell>)
    requires Distinct(cells) && NoneAt(u, res) && NoneAt(c, res)
    requires forall k :: 0 <= k < |cells| ==> cells[k] in c && Res(cells[k]) == res + 1
    ensures RollUpState(u, c, u', c', parents, ToSet(cells), res)
  {
    u', c', parents := u, c, [];
    var i := 0;
    assert ToSet(cells[..0]) == {};
    while i < |cells|
      invariant i <= |cells|
      invariant RollUpState(u, c, u', c', parents, ToSet(cells[..i]), res)
    {
      var cell := cells[i];
      ToSetNext(cells, i);
      RollUpNext(u, c, u', c', parents, ToSet(cells[..i]), cell, res);
      var parent := At(cell, res);
      var count := if cell in c' then c'[cell] else 0;
      u', c', parents := Bump(u', parent, count), Bump(c', parent, count), parents + [parent];
      i := i + 1;
    }
    assert cells[..i] == cells;
  }

  // ---------------------------------------------------------------- clipping

  /** Clipping a neighbour does not change whether it counts as occupied. */
  lemma OccupancySurvivesClipping(u: HexMap, c: HexMap, ring: set<Cell>, target: nat)
    requires forall z <- ring :: z in u <==> z in c
    requires forall z <- ring | z in u :: c[z] == u[z] || Min(target, u[z]) <= c[z] <= u[z]
    ensures OccupiedCount(c, ring, target) == OccupiedCount(u, ring, target)
  {
    assert (set z | z in ring && z in c && c[z] >= target) == (set z | z in ring && z in u && u[z] >= target);
  }

  /** The cells `done` are clipped, the others of the level still hold their rolled-up counts. */
  ghost predicate ClipState(u: HexMap, c: HexMap, c': HexMap, xs: set<Cell>, done: set<Cell>, res: nat, disk: Disk) {
    && done <= xs <= u.Keys && c'.Keys == c.Keys
    && (forall z <- u :: Res(z) == res ==> z in xs)
    && (forall z <- c :: Res(z) == res <==> z in xs)
    && (forall x <- xs :: x in c' && c'[x] == if x in done then ClippedCount(u, x, res, disk) else u[x])
    && (forall z <- c | z !in xs :: c'[z] == c[z])
  }

  lemma ClipNext(u: HexMap, c: HexMap, c': HexMap, xs: set<Cell>, done: set<Cell>, x: Cell, res: nat, disk: Disk)
    requires ClipState(u, c, c', xs, done, res, disk) && x in xs && SameRes(disk)
    ensures Min(Limit(res, OccupiedCount(c', disk(x), Config(res).target)), u[x]) == ClippedCount(u, x, res, disk)
    ensures ClipState(u, c, c'[x := ClippedCount(u, x, res, disk)], xs, done + {x}, res, disk)
  {
    assert Res(x) == res;
    forall z <- disk(x) | z in u ensures c'[z] == u[z] || Min(Config(res).target, u[z]) <= c'[z] <= u[z] {
      LimitBounds(res, OccupiedCount(u, disk(z), Config(res).target));
    }
    OccupancySurvivesClipping(u, c', disk(x), Config(res).target);
  }

  /** The clipping loop over the cells of one resolution, in the order given. */
  method Clip(u: HexMap, c: HexMap, cells: seq<Cell>, res: nat, disk: Disk) returns (c': HexMap)
    requires SameRes(disk) && ClipState(u, c, c, ToSet(cells), {}, res, disk)
    ensures ClipState(u, c, c', ToSet(cells), ToSet(cells), res, disk)
  {
    c' := c;
    var i := 0;
    assert ToSet(cells[..0]) == {};
    while i < |cells|
      invariant i <= |cells| && ClipState(u, c, c', ToSet(cells), ToSet(cells[..i]), res, disk)
    {
      var cell := cells[i];
      assert cell in ToSet(cells);
      ToSetNext(cells, i);
      ClipNext(u, c, c', ToSet(cells), ToSet(cells[..i]), cell, res, disk);
      var limit := Limit(res, OccupiedCount(c', disk(cell), Config(res).target));
      if cell in u {
        c' := c'[cell := Min(limit, u[cell])];
      }
      i := i + 1;
    }
    assert cells[..i] == cells;
  }

  // ---------------------------------------------------------------- all levels

  ghost predicate Base(s: set<Cell>) {
    forall y <- s :: Res(y) == MAX_RES
  }

  /** What the two maps hold at one used resolution: the unclipped count of a cell is the total of its children's
      clipped counts, and the clipped count is that, limited by the occupied cells around it. */
  ghost predicate ReducedAt(s: set<Cell>, u: HexMap, c: HexMap, r: nat, disk: Disk)
    requires Base(s) && r < MAX_RES
  {
    && Above(s, r + 1) <= c.Keys && Above(s, r) <= u.Keys && Above(s, r) <= c.Keys
    && (forall y <- Above(s, r + 1) :: Res(y) == r + 1)
    && (forall z <- u :: Res(z) == r ==> z in Above(s, r))
    && (forall z <- c :: Res(z) == r ==> z in Above(s, r))
    && (forall x <- Above(s, r) ::
          && u[x] == Total(Children(Above(s, r + 1), x, r), c)
          && c[x] == ClippedCount(u, x, r, disk))
  }

  /** The maps agree on all cells of resolution `r` and finer. */
  ghost predicate Agree(m: HexMap, m': HexMap, r: nat) {
    forall z: Cell | r <= Res(z) :: (z in m <==> z in m') && (z in m ==> m[z] == m'[z])
  }

  lemma ClippedCountSame(u: HexMap, u': HexMap, x: Cell, r: nat, disk: Disk)
    requires x in u && Res(x) == r && Agree(u, u', r) && SameRes(disk)
    ensures ClippedCount(u, x, r, disk) == ClippedCount(u', x, r, disk)
  {
    var target := Config(r).target;
    assert (set z | z in disk(x) && z in u && u[z] >= target) == (set z | z in disk(x) && z in u' && u'[z] >= target);
  }

  lemma ReducedAtSame(s: set<Cell>, u: HexMap, c: HexMap, u': HexMap, c': HexMap, r: nat, disk: Disk)
    requires Base(s) && r < MAX_RES && ReducedAt(s, u, c, r, disk) && SameRes(disk)
    requires Agree(u, u', r) && Agree(c, c', r)
    ensures ReducedAt(s, u', c', r, disk)
  {
    forall x <- Above(s, r)
      ensures x in u' && x in c' && Above(s, r + 1) <= c'.Keys
      ensures u'[x] == Total(Children(Above(s, r + 1), x, r), c') && c'[x] == ClippedCount(u', x, r, disk)
    {
      TotalSame(Children(Above(s, r + 1), x, r), c, c');
      ClippedCountSame(u, u', x, r, disk);
    }
    forall y <- Above(s, r + 1) ensures y in c' { assert y in c; }
  }

  lemma LevelReduced(s: set<Cell>, u: HexMap, c: HexMap, u1: HexMap, c1: HexMap, c2: HexMap,
                     parents: seq<Cell>, r: nat, disk: Disk)
    requires Base(s) && r < MAX_RES && SameRes(disk) && (forall y <- Above(s, r + 1) :: Res(y) == r + 1)
    requires RollUpState(u, c, u1, c1, parents, Above(s, r + 1), r)
    requires ClipState(u1, c1, c2, Above(s, r), Above(s, r), r, disk)
    ensures ReducedAt(s, u1, c2, r, disk) && Agree(u, u1, r + 1) && Agree(c, c2, r + 1)
  {
    AboveAbove(s, r);
    forall x <- Above(s, r)
      ensures Above(s, r + 1) <= c2.Keys && u1[x] == Total(Children(Above(s, r + 1), x, r), c2)
    {
      TotalSame(Children(Above(s, r + 1), x, r), c, c2);
    }
  }

  lemma ReadyToClip(s: set<Cell>, u: HexMap, c: HexMap, u1: HexMap, c1: HexMap, parents: seq<Cell>, r: nat, disk: Disk)
    requires Base(s) && r < MAX_RES && (forall y <- Above(s, r + 1) :: Res(y) == r + 1)
    requires RollUpState(u, c, u1, c1, parents, Above(s, r + 1), r)
    ensures ToSet(parents) == Above(s, r) && ClipState(u1, c1, c1, Above(s, r), {}, r, disk)
  {
    AboveAbove(s, r);
  }

  lemma AboveRes(s: set<Cell>, r: nat)
    requires Base(s) && r <= MAX_RES
    ensures (forall y <- Above(s, r) :: Res(y) == r) && Above(s, MAX_RES) == s
  {
    forall y <- s ensures At(y, MAX_RES) == y { assert y.digits[..MAX_RES] == y.digits; }
    assert s <= Above(s, MAX_RES) <= s;
  }

  /** The state of the reduction when all resolutions finer than `r` are done. */
  ghost predicate ReducedTo(s: set<Cell>, u0: HexMap, u: HexMap, c: HexMap, r: nat, disk: Disk)
    requires Base(s)
  {
    && r < MAX_RES && Above(s, r + 1) <= c.Keys && FinerThan(u, r) && FinerThan(c, r)
    && Agree(u0, u, MAX_RES) && Agree(u0, c, MAX_RES)
    && LevelsReduced(s, u, c, r, disk)
  }

  predicate FinerThan(m: HexMap, r: nat) {
    forall z <- m :: r < Res(z)
  }

  ghost predicate LevelsReduced(s: set<Cell>, u: HexMap, c: HexMap, r: nat, disk: Disk)
    requires Base(s)
  {
    forall k :: r < k < MAX_RES ==> ReducedAt(s, u, c, k, disk)
  }

  lemma LevelKeys(s: set<Cell>, u: HexMap, c: HexMap, u1: HexMap, c1: HexMap, c2: HexMap,
                  parents: seq<Cell>, r: nat, disk: Disk)
    requires Base(s) && r < MAX_RES && (forall y <- Above(s, r + 1) :: Res(y) == r + 1)
    requires FinerThan(u, r) && FinerThan(c, r) && 0 < r
    requires RollUpState(u, c, u1, c1, parents, Above(s, r + 1), r)
    requires ClipState(u1, c1, c2, Above(s, r), Above(s, r), r, disk)
    ensures Above(s, r) <= c2.Keys && FinerThan(u1, r - 1) && FinerThan(c2, r - 1)
  {
    AboveAbove(s, r);
    AboveRes(s, r);
  }

  lemma FinerLevelsSame(s: set<Cell>, u: HexMap, c: HexMap, u': HexMap, c': HexMap, r: nat, disk: Disk)
    requires Base(s) && SameRes(disk) && 0 < r < MAX_RES && Agree(u, u', r + 1) && Agree(c, c', r + 1)
    requires LevelsReduced(s, u, c, r, disk) && ReducedAt(s, u', c', r, disk)
    ensures LevelsReduced(s, u', c', r - 1, disk)
  {
    forall k | r - 1 < k < MAX_RES ensures ReducedAt(s, u', c', k, disk) {
      if r < k { ReducedAtSame(s, u, c, u', c', k, disk); }
    }
  }

  lemma AgreeFiner(m0: HexMap, m: HexMap, m': HexMap, r: nat)
    requires Agree(m0, m, MAX_RES) && Agree(m, m', r) && r <= MAX_RES
    ensures Agree(m0, m', MAX_RES)
  {}

  lemma StartReduced(s: set<Cell>, u: HexMap, disk: Disk)
    requires Base(s) && u.Keys == s
    ensures ReducedTo(s, u, u, u, MAX_RES - 1, disk)
  {
    AboveRes(s, MAX_RES);
  }

  lemma NextLevel(s: set<Cell>, u0: HexMap, u: HexMap, c: HexMap, u1: HexMap, c1: HexMap, c2: HexMap,
                  parents: seq<Cell>, r: nat, disk: Disk)
    requires Base(s) && 0 < r && ReducedTo(s, u0, u, c, r, disk) && SameRes(disk)
    requires RollUpState(u, c, u1, c1, parents, Above(s, r + 1), r)
    requires ClipState(u1, c1, c2, Above(s, r), Above(s, r), r, disk)
    ensures ReducedTo(s, u0, u1, c2, r - 1, disk)
  {
    AboveRes(s, r + 1);
    LevelReduced(s, u, c, u1, c1, c2, parents, r, disk);
    LevelKeys(s, u, c, u1, c1, c2, parents, r, disk);
    FinerLevelsSame(s, u, c, u1, c2, r, disk);
    AgreeFiner(u0, u, u1, r + 1);
    AgreeFiner(u0, c, c2, r + 1);
  }

  ghost predicate Progress(s: set<Cell>, u0: HexMap, u: HexMap, c: HexMap, hexes: seq<Cell>, r: nat, disk: Disk) {
    && Base(s) && r < MAX_RES && ReducedTo(s, u0, u, c, r, disk)
    && Distinct(hexes) && ToSet(hexes) == Above(s, r + 1)
  }

  /** One resolution: roll up, then clip. */
  method ReduceLevel(u: HexMap, c: HexMap, hexes: seq<Cell>, res: nat, disk: Disk, ghost s: set<Cell>, ghost u0: HexMap)
    returns (u': HexMap, c': HexMap, hexes': seq<Cell>)
    requires 0 < res && SameRes(disk) && Progress(s, u0, u, c, hexes, res, disk)
    ensures Progress(s, u0, u', c', hexes', res - 1, disk)
  {
    AboveRes(s, res + 1);
    forall k | 0 <= k < |hexes| ensures hexes[k] in c && Res(hexes[k]) == res + 1 { assert hexes[k] in ToSet(hexes); }
    var u1, c1, parents := RollUp(u, c, hexes, res);
    ReadyToClip(s, u, c, u1, c1, parents, res, disk);
    hexes' := Unique(parents);
    var c2 := Clip(u1, c1, hexes', res, disk);
    NextLevel(s, u0, u, c, u1, c1, c2, parents, res, disk);
    u', c' := u1, c2;
  }

  lemma Begin(u: HexMap, start: seq<Cell>, disk: Disk)
    requires Distinct(start) && Base(ToSet(start)) && u.Keys == ToSet(start)
    ensures Progress(ToSet(start), u, u, u, start, MAX_RES - 1, disk)
  {
    AboveRes(ToSet(start), MAX_RES);
    StartReduced(ToSet(start), u, disk);
  }

  /** `reduce_hex_res`: level by level from resolution 10 to 4, starting from any order of the cells. */
  method ReduceHexRes(u: HexMap, c: HexMap, start: seq<Cell>, disk: Disk, ghost s: set<Cell>)
    returns (u': HexMap, c': HexMap)
    requires SameRes(disk) && c == u && Progress(s, u, u, c, start, MAX_RES - 1, disk)
    ensures Base(s) && ReducedTo(s, u, u', c', TOP_RES - 1, disk)
  {
    u', c' := u, c;
    var hexes := start;
    var res := MAX_RES - 1;
    while TOP_RES <= res
      invariant TOP_RES - 1 <= res <= MAX_RES - 1
      invariant Progress(s, u, u', c', hexes, res, disk)
    {
      var next := res - 1;
      u', c', hexes := ReduceLevel(u', c', hexes, res, disk, s, u);
      assert Progress(s, u, u', c', hexes, next, disk);
      res := next;
    }
  }

  // ---------------------------------------------------------------- the result does not depend on the order

  /** The maps that the reduction leaves, for a list of asserted hotspots. */
  ghost predicate Reduced(asserted: seq<Cell>, u: HexMap, c: HexMap, disk: Disk) {
    && FineEnough(asserted)
    && Base(Bases(asserted)) && Above(Bases(asserted), TOP_RES) <= c.Keys
    && FinerThan(u, TOP_RES - 1) && FinerThan(c, TOP_RES - 1)
    && Counted(asserted, u) && Counted(asserted, c)
    && LevelsReduced(Bases(asserted), u, c, TOP_RES - 1, disk)
  }

  predicate FineEnough(asserted: seq<Cell>) {
    forall i :: 0 <= i < |asserted| ==> MAX_RES <= Res(asserted[i])
  }

  function Bases(asserted: seq<Cell>): set<Cell>
    requires FineEnough(asserted)
  {
    set i | 0 <= i < |asserted| :: At(asserted[i], MAX_RES)
  }

  /** The number of hotspots in a cell of resolution 11. */
  function Count(asserted: seq<Cell>, x: Cell): nat
    requires FineEnough(asserted)
  {
    if asserted == [] then 0
    else
      var n := |asserted| - 1;
      Count(asserted[..n], x) + if At(asserted[n], MAX_RES) == x then 1 else 0
  }

  /** At resolution 11 the map counts the hotspots. */
  ghost predicate Counted(asserted: seq<Cell>, m: HexMap)
    requires FineEnough(asserted)
  {
    forall x: Cell | MAX_RES <= Res(x) ::
      && (x in m <==> x in Bases(asserted))
      && (x in m ==> m[x] == Count(asserted, x))
  }

  lemma {:induction false} LevelsUnique(
    s: set<Cell>, u: HexMap, c: HexMap, u': HexMap, c': HexMap, r: nat, disk: Disk)
    requires Base(s) && SameRes(disk) && r < MAX_RES
    requires Agree(u, u', MAX_RES) && Agree(c, c', MAX_RES)
    requires LevelsReduced(s, u, c, r, disk) && LevelsReduced(s, u', c', r, disk)
    ensures Agree(u, u', r + 1) && Agree(c, c', r + 1)
    decreases MAX_RES - r
  {
    if r < MAX_RES - 1 {
      LevelsUnique(s, u, c, u', c', r + 1, disk);
      assert ReducedAt(s, u, c, r + 1, disk) && ReducedAt(s, u', c', r + 1, disk);
      LevelUnique(s, u, c, u', c', r + 1, disk);
    }
  }

  lemma LevelUnique(s: set<Cell>, u: HexMap, c: HexMap, u': HexMap, c': HexMap, r: nat, disk: Disk)
    requires Base(s) && SameRes(disk) && r < MAX_RES
    requires Agree(u, u', r + 1) && Agree(c, c', r + 1)
    requires ReducedAt(s, u, c, r, disk) && ReducedAt(s, u', c', r, disk)
    ensures Agree(u, u', r) && Agree(c, c', r)
  {
    AboveRes(s, r);
    forall x <- Above(s, r) ensures u[x] == u'[x] {
      TotalSame(Children(Above(s, r + 1), x, r), c, c');
    }
    assert Agree(u, u', r);
    forall x <- Above(s, r) ensures c[x] == c'[x] {
      ClippedCountSame(u, u', x, r, disk);
    }
  }

  lemma AgreeEverywhere(m: HexMap, m': HexMap, r: nat)
    requires FinerThan(m, r) && FinerThan(m', r) && Agree(m, m', r + 1)
    ensures m == m'
  {
    forall z: Cell ensures z in m <==> z in m' {}
  }

  /** Every order of the cells gives the same two maps. */
  lemma ReducedIsUnique(asserted: seq<Cell>, u: HexMap, c: HexMap, u': HexMap, c': HexMap, disk: Disk)
    requires SameRes(disk) && Reduced(asserted, u, c, disk) && Reduced(asserted, u', c', disk)
    ensures u == u' && c == c'
  {
    LevelsUnique(Bases(asserted), u, c, u', c', TOP_RES - 1, disk);
    AgreeEverywhere(u, u', TOP_RES - 1);
    AgreeEverywhere(c, c', TOP_RES - 1);
  }

  // ---------------------------------------------------------------- the maps of the verifier

  method KeysInSomeOrder(m: HexMap) returns (keys: seq<Cell>)
    ensures Distinct(keys) && ToSet(keys) == m.Keys
  {
    keys := [];
    var todo := m.Keys;
    while todo != {}
      invariant todo <= m.Keys && Distinct(keys) && ToSet(keys) == m.Keys - todo
      decreases |todo|
    {
      var key :| key in todo;
      assert forall k :: 0 <= k < |keys| ==> keys[k] in ToSet(keys);
      assert ToSet(keys + [key]) == ToSet(keys) + {key};
      keys := keys + [key];
      todo := todo - {key};
    }
  }

  lemma BasesNext(asserted: seq<Cell>, cell: Cell)
    requires FineEnough(asserted) && MAX_RES <= Res(cell)
    ensures Bases(asserted + [cell]) == Bases(asserted) + {At(cell, MAX_RES)}
  {
    var all, x := asserted + [cell], At(cell, MAX_RES);
    assert all[|asserted|] == cell;
    forall y <- Bases(asserted) + {x} ensures y in Bases(all) {
      if y in Bases(asserted) {
        var i :| 0 <= i < |asserted| && y == At(asserted[i], MAX_RES);
        assert all[i] == asserted[i];
      }
    }
  }

  lemma {:induction false} CountedIsPositive(asserted: seq<Cell>, x: Cell)
    requires FineEnough(asserted)
    ensures Count(asserted, x) > 0 <==> x in Bases(asserted)
    decreases |asserted|
  {
    if asserted != [] {
      var n := |asserted| - 1;
      CountedIsPositive(asserted[..n], x);
      BasesNext(asserted[..n], asserted[n]);
      assert asserted == asserted[..n] + [asserted[n]];
    }
  }

  lemma CountedNext(asserted: seq<Cell>, m: HexMap, cell: Cell)
    requires FineEnough(asserted) && Counted(asserted, m) && MAX_RES <= Res(cell)
    ensures Counted(asserted + [cell], Bump(m, At(cell, MAX_RES), 1))
  {
    var all := asserted + [cell];
    BasesNext(asserted, cell);
    forall x: Cell | MAX_RES <= Res(x) && x in Bases(all) ensures Bump(m, At(cell, MAX_RES), 1)[x] == Count(all, x) {
      assert all[..|asserted|] == asserted;
      CountedIsPositive(asserted, x);
    }
  }

  lemma StartFrom(asserted: seq<Cell>, m: HexMap, start: seq<Cell>, disk: Disk)
    requires FineEnough(asserted) && m.Keys == Bases(asserted) && Distinct(start) && ToSet(start) == m.Keys
    ensures Progress(Bases(asserted), m, m, m, start, MAX_RES - 1, disk)
  {
    Begin(m, start, disk);
  }

  lemma FromStart(asserted: seq<Cell>, m: HexMap, u: HexMap, c: HexMap, disk: Disk)
    requires FineEnough(asserted) && Counted(asserted, m)
    requires Base(Bases(asserted)) && ReducedTo(Bases(asserted), m, u, c, TOP_RES - 1, disk)
    ensures Reduced(asserted, u, c, disk)
  {}

  class GlobalHexMap {
    var clipped: HexMap
    var unclipped: HexMap
    var asserted: seq<Cell>

    constructor ()
      ensures Filling() && asserted == []
    {
      clipped, unclipped, asserted := map[], map[], [];
    }

    /** Before the reduction both maps count the hotspots per cell of resolution 11. */
    ghost predicate Filling()
      reads this
    {
      clipped == unclipped && FineEnough(asserted) && Counted(asserted, unclipped) && unclipped.Keys == Bases(asserted)
    }

    /** Cells coarser than resolution 11 and indexes that are no cells are ignored. */
    method IncrementUnclipped(index: Option<Cell>)
      requires Filling()
      modifies this
      ensures Filling()
      ensures asserted == if index.Some? && MAX_RES <= Res(index.value) then old(asserted) + [index.value] else old(asserted)
    {
      if index.Some? {
        var cell := index.value;
        var parent := Parent(cell, MAX_RES);
        if parent.Some? {
          CountedNext(asserted, unclipped, cell);
          BasesNext(asserted, cell);
          unclipped := Bump(unclipped, parent.value, 1);
          clipped := Bump(clipped, parent.value, 1);
          asserted := asserted + [cell];
        }
      }
    }

    method ReduceGlobal(disk: Disk)
      requires Filling() && SameRes(disk)
      modifies this
      ensures asserted == old(asserted) && Reduced(asserted, unclipped, clipped, disk)
    {
      var start := KeysInSomeOrder(unclipped);
      StartFrom(asserted, unclipped, start, disk);
      var u, c := ReduceHexRes(unclipped, clipped, start, disk, Bases(asserted));
      FromStart(asserted, unclipped, u, c, disk);
      unclipped, clipped := u, c;
    }
  }
}
