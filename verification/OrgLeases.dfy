/**
  Address leases of organizations. The table of used addresses and the table of constraints must describe the same
  disjoint leases after every request, so that no device address is ever leased to two organizations.
*/
module OrgLeases {
  import opened Wrappers
  import opened LoraField
  import opened DevAddrAllocator

  datatype Row = Row(oui: nat, netId: nat, range: DevAddrConstraint)

  datatype Leases = Leases(used: map<nat, HeliumNetId>, rows: set<Row>, nextOui: nat)

  function Helium(netId: nat): Option<HeliumNetId> {
    if netId == 0x00003c then Some(Type0_0x00003c)
    else if netId == 0x60002d then Some(Type3_0x60002d)
    else if netId == 0xc00053 then Some(Type6_0xc00053)
    else None
  }

  predicate Covers(c: DevAddrConstraint, a: nat) {
    c.start <= a <= c.end
  }

  function UsedBy(s: Leases, h: HeliumNetId): set<nat> {
    set a | a in s.used && s.used[a] == h
  }

  // ---------------------------------------------------------------- requests

  datatype Update =
    | Devaddrs(count: nat)
    | AddConstraint(range: DevAddrConstraint)
    | RemoveConstraint(range: DevAddrConstraint)
    | KeyUpdate                                      // owner or payer
    | DelegateUpdate

  datatype Request =
    | CreateHelium(net: HeliumNetId, count: nat)
    | CreateRoamer(netId: nat)
    | UpdateOrg(oui: nat, netId: nat, admin: bool, updates: seq<Update>)

  function RowsFor(oui: nat, netId: nat, cs: seq<DevAddrConstraint>): set<Row> {
    set c | c in cs :: Row(oui, netId, c)
  }

  /** The state after `rows` and `addrs` have been inserted. */
  function Granted(s: Leases, h: HeliumNetId, addrs: set<nat>, rows: set<Row>): Leases {
    s.(used := Claimed(s.used, h, addrs), rows := s.rows + rows)
  }

  /** Checks out `count` addresses and leases them to `oui`. */
  ghost function LeaseSlab(s: Leases, oui: nat, h: HeliumNetId, count: nat): Option<Leases> {
    match Claim(h, UsedBy(s, h), count)
    case Err(_) => None
    case Ok(claimed) =>
      if !NewKeys(s.used, claimed) then None
      else
        match Checkout(h, UsedBy(s, h), count)
        case Err(_) => None
        case Ok(cs) => Some(Granted(s, h, ToSet(claimed), RowsFor(oui, NetIdOf(h), cs)))
  }

  /** Leases one given range, unless an address of it is in use already. The range is not validated. */
  function LeaseRange(s: Leases, oui: nat, h: HeliumNetId, c: DevAddrConstraint): Option<Leases> {
    var request := Span(c.start, c.end + 1);
    if c.end < c.start || exists a | a in request :: a in s.used then None
    else Some(Granted(s, h, ToSet(request), {Row(oui, NetIdOf(h), c)}))
  }

  function Released(used: map<nat, HeliumNetId>, h: HeliumNetId, c: DevAddrConstraint): map<nat, HeliumNetId> {
    map a | a in used && !(Covers(c, a) && used[a] == h) :: used[a]
  }

  /** Releases the addresses of a range and deletes the organization's row for it. */
  function ReleaseRange(s: Leases, oui: nat, h: HeliumNetId, c: DevAddrConstraint): Leases {
    s.(used := Released(s.used, h, c), rows := set r | r in s.rows && !(r.oui == oui && r.range == c))
  }

  function RangesOf(s: Leases, oui: nat): set<DevAddrConstraint> {
    set r | r in s.rows && r.oui == oui :: r.range
  }

  /** One update of a request. `held` are the constraints the organization had when the request started. */
  ghost function ApplyUpdate(s: Leases, oui: nat, h: HeliumNetId, held: set<DevAddrConstraint>, u: Update): Option<Leases> {
    match u
    case Devaddrs(count) => LeaseSlab(s, oui, h, count)
    case AddConstraint(c) => LeaseRange(s, oui, h, c)
    case RemoveConstraint(c) => if c in held && 1 < |held| then Some(ReleaseRange(s, oui, h, c)) else None
    case KeyUpdate => Some(s)
    case DelegateUpdate => Some(s)
  }

  /** All updates, or none: an error rolls the transaction back. */
  ghost function ApplyUpdates(s: Leases, oui: nat, h: HeliumNetId, held: set<DevAddrConstraint>, updates: seq<Update>)
    : Option<Leases>
    decreases |updates|
  {
    if updates == [] then Some(s)
    else
      match ApplyUpdate(s, oui, h, held, updates[0])
      case Some(s') => ApplyUpdates(s', oui, h, held, updates[1..])
      case None => None
  }

  /** Delegates manage delegate keys only; addresses are managed for Helium NetIDs only. */
  predicate Allowed(admin: bool, netId: nat, u: Update) {
    match u
    case DelegateUpdate => true
    case KeyUpdate => admin
    case _ => admin && Helium(netId).Some?
  }

  ghost function Join(s: Leases, h: HeliumNetId, count: nat): Option<Leases> {
    if 8 <= count && count % 2 == 0 then LeaseSlab(s.(nextOui := s.nextOui + 1), s.nextOui, h, count) else None
  }

  function FullRange(netId: nat): Option<DevAddrConstraint> {
    match (RangeStart(netId), RangeEnd(netId))
    case (Ok(first), Ok(last)) => Some(DevAddrConstraint(first, last))
    case _ => None
  }

  /** The state after a new organization got one row, with nothing claimed for it. */
  function Enrolled(s: Leases, netId: nat, full: DevAddrConstraint): Leases {
    s.(rows := s.rows + {Row(s.nextOui, netId, full)}, nextOui := s.nextOui + 1)
  }

  /** A roaming organization gets the whole range of the NetID it names; nothing is claimed for it. */
  function Roam(s: Leases, netId: nat): Option<Leases> {
    match FullRange(netId)
    case None => None
    case Some(full) =>
      if Helium(netId) == None && exists r <- s.rows :: r.netId == netId then None
      else Some(Enrolled(s, netId, full))
  }

  ghost function Change(s: Leases, oui: nat, netId: nat, admin: bool, updates: seq<Update>): Option<Leases> {
    if !exists r <- s.rows :: r.oui == oui && r.netId == netId then None
    else if exists i :: 0 <= i < |updates| && !Allowed(admin, netId, updates[i]) then None
    else
      match Helium(netId)
      case Some(h) => ApplyUpdates(s, oui, h, RangesOf(s, oui), updates)
      case None => Some(s)
  }

  ghost function Apply(s: Leases, req: Request): Option<Leases> {
    match req
    case CreateHelium(h, count) => Join(s, h, count)
    case CreateRoamer(netId) => Roam(s, netId)
    case UpdateOrg(oui, netId, admin, updates) => Change(s, oui, netId, admin, updates)
  }

  // ---------------------------------------------------------------- what requests are trusted with

  predicate Aligned(c: DevAddrConstraint) {
    c.start < c.end && c.start % 2 == 0 && c.end % 2 == 1
  }

  predicate InsideOf(h: HeliumNetId, c: DevAddrConstraint) {
    FirstAddr(h) <= c.start && c.end <= LastAddr(h)
  }

  predicate DistinctRemovals(updates: seq<Update>) {
    forall i, j :: 0 <= i < j < |updates| && updates[i].RemoveConstraint? ==> updates[i] != updates[j]
  }

  predicate AlignedAdditions(h: HeliumNetId, updates: seq<Update>) {
    forall i :: 0 <= i < |updates| && updates[i].AddConstraint? ==> Aligned(updates[i].range) && InsideOf(h, updates[i].range)
  }

  /** Added ranges are aligned and inside the NetID, no request removes the same range twice, and a roamer brings a
      NetID of its own whose number fits. */
  predicate Trusted(req: Request) {
    match req
    case CreateHelium(_, _) => true
    case CreateRoamer(netId) => Fits(netId) && Helium(netId) == None
    case UpdateOrg(_, netId, _, updates) =>
      DistinctRemovals(updates) && (Helium(netId).Some? ==> AlignedAdditions(Helium(netId).value, updates))
  }

  // ---------------------------------------------------------------- invariant

  /** A Helium row is aligned and inside its NetID; a roamer's row is the whole range of its own NetID. */
  predicate RowSound(r: Row) {
    match Helium(r.netId)
    case Some(h) => Aligned(r.range) && InsideOf(h, r.range)
    case None =>
      Fits(r.netId) && FullRange(r.netId) == Some(r.range)
  }

  /** Every address of a Helium row is used, under the NetID of that row. */
  ghost predicate RowsAreUsed(s: Leases) {
    forall r <- s.rows, a: nat | Helium(r.netId).Some? && Covers(r.range, a) ::
      a in s.used && s.used[a] == Helium(r.netId).value
  }

  /** Every used address belongs to a row of its NetID. */
  ghost predicate UsedAreLeased(s: Leases) {
    forall a <- s.used :: exists r <- s.rows :: r.netId == NetIdOf(s.used[a]) && Covers(r.range, a)
  }

  /** No address is leased twice. */
  ghost predicate NoDoubleLease(s: Leases) {
    forall r <- s.rows, t <- s.rows, a: nat | Covers(r.range, a) && Covers(t.range, a) :: r == t
  }

  predicate UsedInRange(s: Leases) {
    forall a <- s.used :: InRangeOf(s.used[a], a)
  }

  ghost predicate UsedAligned(s: Leases) {
    forall h: HeliumNetId :: PairAligned(UsedBy(s, h))
  }

  predicate OuisSound(s: Leases) {
    && (forall r <- s.rows :: r.oui < s.nextOui)
    && (forall r <- s.rows, t <- s.rows :: r.oui == t.oui ==> r.netId == t.netId)
  }

  predicate RowsSound(s: Leases) {
    forall r <- s.rows :: RowSound(r)
  }

  ghost predicate LeaseInv(s: Leases) {
    && RowsSound(s) && RowsAreUsed(s) && UsedAreLeased(s) && NoDoubleLease(s)
    && UsedInRange(s) && UsedAligned(s) && OuisSound(s)
  }

  // ---------------------------------------------------------------- granting leases

  /** New rows of one organization that lease exactly the addresses `addrs`, each once. */
  ghost predicate Grants(rows: set<Row>, oui: nat, h: HeliumNetId, addrs: set<nat>) {
    && (forall r <- rows :: r.oui == oui && r.netId == NetIdOf(h) && Aligned(r.range) && InsideOf(h, r.range))
    && (forall r <- rows, a: nat | Covers(r.range, a) :: a in addrs)
    && (forall a <- addrs :: exists r <- rows :: Covers(r.range, a))
    && (forall r <- rows, t <- rows, a: nat | Covers(r.range, a) && Covers(t.range, a) :: r == t)
  }

  /** Unused addresses that leave the used ones of the NetID in pairs. */
  ghost predicate Unclaimed(s: Leases, h: HeliumNetId, addrs: set<nat>) {
    addrs !! s.used.Keys && PairAligned(UsedBy(s, h) + addrs)
  }

  predicate OwnNetId(s: Leases, oui: nat, netId: nat) {
    oui < s.nextOui && forall r <- s.rows :: r.oui == oui ==> r.netId == netId
  }

  ghost predicate Grantable(s: Leases, oui: nat, h: HeliumNetId, addrs: set<nat>, rows: set<Row>) {
    LeaseInv(s) && Grants(rows, oui, h, addrs) && Unclaimed(s, h, addrs) && OwnNetId(s, oui, NetIdOf(h))
  }

  lemma HeliumOfNetId(h: HeliumNetId)
    ensures Helium(NetIdOf(h)) == Some(h)
  {}

  /** A roamer's range and a Helium range have no address in common. */
  lemma RoamersKeepOut(r: Row, h: HeliumNetId, a: nat)
    requires RowSound(r) && Helium(r.netId) == None && InRangeOf(h, a)
    ensures !Covers(r.range, a)
  {
    RangesMatchNetIds(h);
    if Covers(r.range, a) {
      RangesAreDisjoint(r.netId, NetIdOf(h), a);
    }
  }

  lemma GrantIsDisjoint(s: Leases, oui: nat, h: HeliumNetId, addrs: set<nat>, rows: set<Row>, r: Row, t: Row, a: nat)
    requires Grantable(s, oui, h, addrs, rows) && r in s.rows && t in rows
    ensures !(Covers(r.range, a) && Covers(t.range, a))
  {
    if Covers(r.range, a) && Covers(t.range, a) {
      assert RowSound(r);
      assert a in addrs && InRangeOf(h, a);
      if Helium(r.netId) == None { RoamersKeepOut(r, h, a); }
    }
  }

  lemma GrantRowsUsed(s: Leases, oui: nat, h: HeliumNetId, addrs: set<nat>, rows: set<Row>)
    requires RowsAreUsed(s) && Grants(rows, oui, h, addrs) && addrs !! s.used.Keys
    ensures RowsAreUsed(Granted(s, h, addrs, rows))
  {
    HeliumOfNetId(h);
  }

  lemma GrantUsedLeased(s: Leases, oui: nat, h: HeliumNetId, addrs: set<nat>, rows: set<Row>)
    requires UsedAreLeased(s) && Grants(rows, oui, h, addrs)
    ensures UsedAreLeased(Granted(s, h, addrs, rows))
  {
    var s' := Granted(s, h, addrs, rows);
    forall a <- s'.used ensures exists r <- s'.rows :: r.netId == NetIdOf(s'.used[a]) && Covers(r.range, a) {
      if a in addrs {
        var r :| r in rows && Covers(r.range, a);
        assert r in s'.rows;
      } else {
        var r :| r in s.rows && r.netId == NetIdOf(s.used[a]) && Covers(r.range, a);
        assert r in s'.rows;
      }
    }
  }

  lemma GrantRowsSound(s: Leases, oui: nat, h: HeliumNetId, addrs: set<nat>, rows: set<Row>)
    requires RowsSound(s) && Grants(rows, oui, h, addrs)
    ensures RowsSound(Granted(s, h, addrs, rows))
  {
    HeliumOfNetId(h);
  }

  lemma GrantUsedInRange(s: Leases, oui: nat, h: HeliumNetId, addrs: set<nat>, rows: set<Row>)
    requires UsedInRange(s) && Grants(rows, oui, h, addrs)
    ensures UsedInRange(Granted(s, h, addrs, rows))
  {
    forall a <- addrs ensures InRangeOf(h, a) {
      var r :| r in rows && Covers(r.range, a);
    }
  }

  lemma GrantUsedAligned(s: Leases, h: HeliumNetId, addrs: set<nat>, rows: set<Row>)
    requires UsedAligned(s) && Unclaimed(s, h, addrs)
    ensures UsedAligned(Granted(s, h, addrs, rows))
  {
    var s' := Granted(s, h, addrs, rows);
    forall k: HeliumNetId ensures PairAligned(UsedBy(s', k)) {
      assert PairAligned(UsedBy(s, k));
      assert UsedBy(s', k) == if k == h then UsedBy(s, k) + addrs else UsedBy(s, k);
    }
  }

  lemma GrantNoDoubleLease(s: Leases, oui: nat, h: HeliumNetId, addrs: set<nat>, rows: set<Row>)
    requires Grantable(s, oui, h, addrs, rows)
    ensures NoDoubleLease(Granted(s, h, addrs, rows))
  {
    var s' := Granted(s, h, addrs, rows);
    forall r <- s'.rows, t <- s'.rows, a: nat | Covers(r.range, a) && Covers(t.range, a) ensures r == t {
      if r in s.rows && t in rows {
        GrantIsDisjoint(s, oui, h, addrs, rows, r, t, a);
      } else if t in s.rows && r in rows {
        GrantIsDisjoint(s, oui, h, addrs, rows, t, r, a);
      }
    }
  }

  /** Granting unused, aligned addresses keeps the leases sound. */
  lemma GrantKeepsInv(s: Leases, oui: nat, h: HeliumNetId, addrs: set<nat>, rows: set<Row>)
    requires Grantable(s, oui, h, addrs, rows)
    ensures LeaseInv(Granted(s, h, addrs, rows))
  {
    GrantRowsUsed(s, oui, h, addrs, rows);
    GrantUsedLeased(s, oui, h, addrs, rows);
    GrantRowsSound(s, oui, h, addrs, rows);
    GrantUsedInRange(s, oui, h, addrs, rows);
    GrantUsedAligned(s, h, addrs, rows);
    GrantNoDoubleLease(s, oui, h, addrs, rows);
  }

  // ---------------------------------------------------------------- slabs and ranges

  predicate AnyCovers(cs: seq<DevAddrConstraint>, a: nat) {
    cs != [] && (Covers(cs[|cs| - 1], a) || AnyCovers(cs[..|cs| - 1], a))
  }

  lemma {:induction false} AnyCoversIff(cs: seq<DevAddrConstraint>, a: nat)
    ensures AnyCovers(cs, a) <==> exists i :: 0 <= i < |cs| && Covers(cs[i], a)
    decreases |cs|
  {
    if cs != [] {
      var n := |cs| - 1;
      AnyCoversIff(cs[..n], a);
      if i :| 0 <= i < n && Covers(cs[i], a) { assert Covers(cs[..n][i], a); }
      if i :| 0 <= i < n && Covers(cs[..n][i], a) { assert Covers(cs[i], a); }
    }
  }

  lemma {:induction false} CoverHas(cs: seq<DevAddrConstraint>, a: nat)
    ensures a in Cover(cs) <==> AnyCovers(cs, a)
    decreases |cs|
  {
    if cs != [] {
      var n := |cs| - 1;
      CoverHas(cs[..n], a);
      SpanMembers(cs[n].start, cs[n].end + 1, a);
    }
  }

  lemma CoverMembers(cs: seq<DevAddrConstraint>, a: nat)
    ensures a in Cover(cs) <==> exists i :: 0 <= i < |cs| && Covers(cs[i], a)
  {
    CoverHas(cs, a);
    AnyCoversIff(cs, a);
  }

  lemma {:induction false} RunsOrdered(cs: seq<DevAddrConstraint>, i: nat, j: nat)
    requires MaximalRuns(cs) && i < j < |cs|
    ensures cs[i].end < cs[j].start
    decreases j - i
  {
    if i + 1 < j { RunsOrdered(cs, i, j - 1); }
  }

  lemma RunsInside(cs: seq<DevAddrConstraint>, h: HeliumNetId, i: nat)
    requires MaximalRuns(cs) && i < |cs| && forall a :: a in Cover(cs) ==> InRangeOf(h, a)
    ensures Aligned(cs[i]) && InsideOf(h, cs[i])
  {
    CoverMembers(cs, cs[i].start);
    CoverMembers(cs, cs[i].end);
    assert Covers(cs[i], cs[i].start) && Covers(cs[i], cs[i].end);
  }

  lemma RunsDisjoint(cs: seq<DevAddrConstraint>, c: DevAddrConstraint, d: DevAddrConstraint, a: nat)
    requires MaximalRuns(cs) && c in cs && d in cs && Covers(c, a) && Covers(d, a)
    ensures c == d
  {
    var i :| 0 <= i < |cs| && cs[i] == c;
    var j :| 0 <= j < |cs| && cs[j] == d;
    if i < j { RunsOrdered(cs, i, j); } else if j < i { RunsOrdered(cs, j, i); }
  }

  lemma RunsAreGrants(cs: seq<DevAddrConstraint>, oui: nat, h: HeliumNetId)
    requires MaximalRuns(cs) && forall a :: a in Cover(cs) ==> InRangeOf(h, a)
    ensures Grants(RowsFor(oui, NetIdOf(h), cs), oui, h, ToSet(Cover(cs)))
  {
    var rows := RowsFor(oui, NetIdOf(h), cs);
    forall r <- rows ensures Aligned(r.range) && InsideOf(h, r.range) {
      var i :| 0 <= i < |cs| && cs[i] == r.range;
      RunsInside(cs, h, i);
    }
    forall a <- ToSet(Cover(cs)) ensures exists r <- rows :: Covers(r.range, a) {
      CoverMembers(cs, a);
      var i :| 0 <= i < |cs| && Covers(cs[i], a);
      assert Row(oui, NetIdOf(h), cs[i]) in rows;
    }
    forall r <- rows, t <- rows, a: nat | Covers(r.range, a) && Covers(t.range, a) ensures r == t {
      RunsDisjoint(cs, r.range, t.range, a);
    }
    forall r <- rows, a: nat | Covers(r.range, a) ensures a in ToSet(Cover(cs)) {
      CoverMembers(cs, a);
      var i :| 0 <= i < |cs| && cs[i] == r.range;
    }
  }

  ghost function SlabAddrs(s: Leases, h: HeliumNetId, count: nat): seq<nat>
    requires LeaseSlab(s, 0, h, count).Some?
  {
    Claim(h, UsedBy(s, h), count).value
  }

  lemma SlabAddrsAreFree(s: Leases, h: HeliumNetId, count: nat)
    requires UsedInRange(s) && LeaseSlab(s, 0, h, count).Some?
    ensures forall a :: a in SlabAddrs(s, h, count) ==> InRangeOf(h, a) && a !in s.used
  {
    var free := Free(h, UsedBy(s, h));
    OfferedIsFree(h, UsedBy(s, h));
    FreeInIs(FirstAddr(h), LastAddr(h) + 1, UsedBy(s, h));
    forall a | a in SlabAddrs(s, h, count) ensures InRangeOf(h, a) && a !in s.used {
      assert a in free;
    }
  }

  /** In a sound state the lowest free addresses can always be claimed. */
  lemma FreeAreNewKeys(s: Leases, h: HeliumNetId, claimed: seq<nat>)
    requires UsedInRange(s) && claimed <= Free(h, UsedBy(s, h))
    ensures NewKeys(s.used, claimed)
  {
    var free := Free(h, UsedBy(s, h));
    FreeInIs(FirstAddr(h), LastAddr(h) + 1, UsedBy(s, h));
    forall i | 0 <= i < |claimed| ensures claimed[i] !in s.used {
      assert free[i] in free;
      if claimed[i] in s.used { RangesOfHeliumAreDisjoint(h, s.used[claimed[i]], claimed[i]); }
    }
  }

  /** So a slab is refused only if its checkout is. */
  lemma SlabIffCheckout(s: Leases, oui: nat, h: HeliumNetId, count: nat)
    requires UsedInRange(s)
    ensures LeaseSlab(s, oui, h, count).Some? <==> Checkout(h, UsedBy(s, h), count).Ok?
  {
    OfferedIsFree(h, UsedBy(s, h));
    if Claim(h, UsedBy(s, h), count).Ok? { FreeAreNewKeys(s, h, Claim(h, UsedBy(s, h), count).value); }
  }

  lemma SlabConstraints(s: Leases, h: HeliumNetId, count: nat)
    requires UsedInRange(s) && UsedAligned(s) && LeaseSlab(s, 0, h, count).Some?
    ensures GroupedAs(Checkout(h, UsedBy(s, h), count), SlabAddrs(s, h, count))
    ensures PairAligned(UsedBy(s, h) + ToSet(SlabAddrs(s, h, count)))
  {
    assert PairAligned(UsedBy(s, h));
    OfferedIsFree(h, UsedBy(s, h));
    CheckoutExact(h, UsedBy(s, h), count);
  }

  lemma SlabIsGrant(s: Leases, oui: nat, h: HeliumNetId, count: nat)
    requires UsedInRange(s) && UsedAligned(s) && LeaseSlab(s, oui, h, count).Some?
    ensures var addrs := ToSet(SlabAddrs(s, h, count));
            var rows := RowsFor(oui, NetIdOf(h), Checkout(h, UsedBy(s, h), count).value);
            && LeaseSlab(s, oui, h, count).value == Granted(s, h, addrs, rows)
            && Unclaimed(s, h, addrs) && Grants(rows, oui, h, addrs)
  {
    var claimed := SlabAddrs(s, h, count);
    SlabAddrsAreFree(s, h, count);
    SlabConstraints(s, h, count);
    RunsAreGrants(Checkout(h, UsedBy(s, h), count).value, oui, h);
  }

  lemma SlabKeepsInv(s: Leases, oui: nat, h: HeliumNetId, count: nat)
    requires LeaseInv(s) && OwnNetId(s, oui, NetIdOf(h)) && LeaseSlab(s, oui, h, count).Some?
    ensures var s' := LeaseSlab(s, oui, h, count).value;
            LeaseInv(s') && OwnNetId(s', oui, NetIdOf(h)) && s.rows <= s'.rows
  {
    SlabIsGrant(s, oui, h, count);
    GrantKeepsInv(s, oui, h, ToSet(SlabAddrs(s, h, count)),
                  RowsFor(oui, NetIdOf(h), Checkout(h, UsedBy(s, h), count).value));
  }

  lemma SpanSet(c: DevAddrConstraint, a: nat)
    ensures a in ToSet(Span(c.start, c.end + 1)) <==> Covers(c, a)
  {
    SpanMembers(c.start, c.end + 1, a);
  }

  lemma AlignedSpan(used: set<nat>, c: DevAddrConstraint)
    requires PairAligned(used) && Aligned(c)
    ensures PairAligned(used + ToSet(Span(c.start, c.end + 1)))
  {
    forall a: nat
      ensures a in used + ToSet(Span(c.start, c.end + 1)) <==> Partner(a) in used + ToSet(Span(c.start, c.end + 1))
    {
      SpanSet(c, a);
      SpanSet(c, Partner(a));
    }
  }

  lemma RangeGrants(oui: nat, h: HeliumNetId, c: DevAddrConstraint)
    requires Aligned(c) && InsideOf(h, c)
    ensures Grants({Row(oui, NetIdOf(h), c)}, oui, h, ToSet(Span(c.start, c.end + 1)))
  {
    var rows := {Row(oui, NetIdOf(h), c)};
    forall a: nat ensures a in ToSet(Span(c.start, c.end + 1)) <==> Covers(c, a) { SpanSet(c, a); }
    assert Row(oui, NetIdOf(h), c) in rows;
  }

  lemma RangeIsGrant(s: Leases, oui: nat, h: HeliumNetId, c: DevAddrConstraint)
    requires UsedAligned(s) && LeaseRange(s, oui, h, c).Some? && Aligned(c)
    ensures var addrs := ToSet(Span(c.start, c.end + 1));
            && LeaseRange(s, oui, h, c).value == Granted(s, h, addrs, {Row(oui, NetIdOf(h), c)})
            && Unclaimed(s, h, addrs)
  {
    var request := Span(c.start, c.end + 1);
    AlignedSpan(UsedBy(s, h), c) by { assert PairAligned(UsedBy(s, h)); }
  }

  lemma RangeKeepsInv(s: Leases, oui: nat, h: HeliumNetId, c: DevAddrConstraint)
    requires LeaseInv(s) && OwnNetId(s, oui, NetIdOf(h)) && LeaseRange(s, oui, h, c).Some?
    requires Aligned(c) && InsideOf(h, c)
    ensures var s' := LeaseRange(s, oui, h, c).value;
            LeaseInv(s') && OwnNetId(s', oui, NetIdOf(h)) && s.rows <= s'.rows
  {
    RangeGrants(oui, h, c);
    RangeIsGrant(s, oui, h, c);
    GrantKeepsInv(s, oui, h, ToSet(Span(c.start, c.end + 1)), {Row(oui, NetIdOf(h), c)});
  }

  /** Once a range inside the NetID has been added to a sound state, the next checkout is exact, for every count, if and
      only if the range leaves at most one address without its partner and nothing is free above that address. */
  lemma AddedRangeIsSafeIff(s: Leases, oui: nat, h: HeliumNetId, c: DevAddrConstraint)
    requires LeaseInv(s) && InsideOf(h, c) && LeaseRange(s, oui, h, c).Some?
    ensures (forall count: nat :: ChecksOutExactly(h, UsedBy(LeaseRange(s, oui, h, c).value, h), count))
       <==> LeavesPairs(h, UsedBy(s, h), c)
  {
    var used, used' := UsedBy(s, h), UsedBy(LeaseRange(s, oui, h, c).value, h);
    assert PairAligned(used);
    RangeIsUsed(s, oui, h, c);
    assert AllIn(h, used) by { assert UsedInRange(s); }
    AddedRangeLeavesPairs(h, used, c, used');
    PairedIffAlone(h, used');
    CheckoutExactIff(h, used');
  }

  lemma RangeIsUsed(s: Leases, oui: nat, h: HeliumNetId, c: DevAddrConstraint)
    requires LeaseRange(s, oui, h, c).Some?
    ensures var used, used' := UsedBy(s, h), UsedBy(LeaseRange(s, oui, h, c).value, h);
            && c.start <= c.end
            && (forall a: nat | c.start <= a <= c.end :: a !in used)
            && (forall a: nat :: a in used' <==> a in used || c.start <= a <= c.end)
  {
    var used, addrs, s' := UsedBy(s, h), ToSet(Span(c.start, c.end + 1)), LeaseRange(s, oui, h, c).value;
    assert UsedBy(s', h) == used + addrs;
    assert addrs !! used;
    forall a: nat ensures a in addrs <==> Covers(c, a) { SpanSet(c, a); }
  }

  // ---------------------------------------------------------------- releasing leases

  lemma ReleaseKeepsInv(s: Leases, oui: nat, h: HeliumNetId, c: DevAddrConstraint)
    requires LeaseInv(s) && OwnNetId(s, oui, NetIdOf(h)) && Row(oui, NetIdOf(h), c) in s.rows
    ensures LeaseInv(ReleaseRange(s, oui, h, c)) && OwnNetId(ReleaseRange(s, oui, h, c), oui, NetIdOf(h))
    ensures ReleaseRange(s, oui, h, c).rows == s.rows - {Row(oui, NetIdOf(h), c)}
  {
    var s' := ReleaseRange(s, oui, h, c);
    var row := Row(oui, NetIdOf(h), c);
    HeliumOfNetId(h);
    assert RowSound(row);
    forall r <- s'.rows, a: nat | Helium(r.netId).Some? && Covers(r.range, a)
      ensures a in s'.used && s'.used[a] == Helium(r.netId).value
    {
      assert a in s.used;
      assert r != row && !Covers(c, a);
    }
    forall a <- s'.used ensures exists r <- s'.rows :: r.netId == NetIdOf(s'.used[a]) && Covers(r.range, a) {
      var r :| r in s.rows && r.netId == NetIdOf(s.used[a]) && Covers(r.range, a);
      assert r != row;
    }
    ReleaseKeepsAligned(s, oui, h, c);
  }

  lemma ReleaseKeepsAligned(s: Leases, oui: nat, h: HeliumNetId, c: DevAddrConstraint)
    requires UsedAligned(s) && Aligned(c)
    ensures UsedAligned(ReleaseRange(s, oui, h, c))
  {
    var s' := ReleaseRange(s, oui, h, c);
    forall k: HeliumNetId ensures PairAligned(UsedBy(s', k)) {
      assert PairAligned(UsedBy(s, k));
      forall a: nat ensures a in UsedBy(s', k) <==> Partner(a) in UsedBy(s', k) {
        assert a in UsedBy(s, k) <==> Partner(a) in UsedBy(s, k);
        assert Covers(c, a) <==> Covers(c, Partner(a));
      }
    }
  }

  lemma InnerRangeIsFreed(s: Leases, oui: nat, h: HeliumNetId, c: DevAddrConstraint, row: Row, a: nat)
    requires row in s.rows && row.netId == NetIdOf(h) && !(row.oui == oui && row.range == c)
    requires Covers(row.range, a) && Covers(c, a)
    ensures !RowsAreUsed(ReleaseRange(s, oui, h, c))
  {
    HeliumOfNetId(h);
    var s' := ReleaseRange(s, oui, h, c);
    assert row in s'.rows && Helium(row.netId) == Some(h) && Covers(row.range, a);
    assert !(a in s'.used && s'.used[a] == h);
  }

  /** Releasing a range keeps the leases sound exactly when the organization still has the row, or no address of the
      range is in use under the NetID any more. */
  lemma ReleaseKeepsInvIff(s: Leases, oui: nat, h: HeliumNetId, c: DevAddrConstraint)
    requires LeaseInv(s) && OwnNetId(s, oui, NetIdOf(h))
    ensures LeaseInv(ReleaseRange(s, oui, h, c))
       <==> Row(oui, NetIdOf(h), c) in s.rows || forall a | a in s.used && Covers(c, a) :: s.used[a] != h
  {
    if Row(oui, NetIdOf(h), c) in s.rows {
      ReleaseKeepsInv(s, oui, h, c);
    } else {
      ReleaseOfNoRow(s, oui, h, c);
    }
  }

  lemma ReleaseOfNoRow(s: Leases, oui: nat, h: HeliumNetId, c: DevAddrConstraint)
    requires LeaseInv(s) && OwnNetId(s, oui, NetIdOf(h)) && Row(oui, NetIdOf(h), c) !in s.rows
    ensures LeaseInv(ReleaseRange(s, oui, h, c)) <==> forall a | a in s.used && Covers(c, a) :: s.used[a] != h
  {
    var s' := ReleaseRange(s, oui, h, c);
    assert s'.rows == s.rows by {
      assert forall r <- s.rows :: r.oui == oui && r.range == c ==> r == Row(oui, NetIdOf(h), c);
    }
    if a :| a in s.used && Covers(c, a) && s.used[a] == h {
      var r :| r in s.rows && r.netId == NetIdOf(h) && Covers(r.range, a);
      InnerRangeIsFreed(s, oui, h, c, r, a);
    } else {
      assert s'.used == s.used;
      assert s' == s;
    }
  }

  // ---------------------------------------------------------------- requests keep the invariant

  /** The ranges that the remaining updates want to remove are still leased, if they were at the start. */
  ghost predicate RemovalsHeld(s: Leases, oui: nat, h: HeliumNetId, held: set<DevAddrConstraint>, updates: seq<Update>) {
    forall i :: 0 <= i < |updates| && updates[i].RemoveConstraint? && updates[i].range in held ==>
      Row(oui, NetIdOf(h), updates[i].range) in s.rows
  }

  lemma UpdateKeepsInv(s: Leases, oui: nat, h: HeliumNetId, held: set<DevAddrConstraint>, updates: seq<Update>)
    requires LeaseInv(s) && OwnNetId(s, oui, NetIdOf(h)) && updates != []
    requires DistinctRemovals(updates) && AlignedAdditions(h, updates) && RemovalsHeld(s, oui, h, held, updates)
    requires ApplyUpdate(s, oui, h, held, updates[0]).Some?
    ensures var s' := ApplyUpdate(s, oui, h, held, updates[0]).value;
            LeaseInv(s') && OwnNetId(s', oui, NetIdOf(h)) && RemovalsHeld(s', oui, h, held, updates[1..])
  {
    match updates[0]
    case Devaddrs(count) => SlabKeepsInv(s, oui, h, count);
    case AddConstraint(c) => RangeKeepsInv(s, oui, h, c);
    case RemoveConstraint(c) => ReleaseKeepsInv(s, oui, h, c);
    case _ =>
  }

  lemma {:induction false} UpdatesKeepInv(s: Leases, oui: nat, h: HeliumNetId, held: set<DevAddrConstraint>, updates: seq<Update>)
    requires LeaseInv(s) && OwnNetId(s, oui, NetIdOf(h))
    requires DistinctRemovals(updates) && AlignedAdditions(h, updates) && RemovalsHeld(s, oui, h, held, updates)
    ensures var r := ApplyUpdates(s, oui, h, held, updates);
            r.Some? ==> LeaseInv(r.value)
    decreases |updates|
  {
    if updates != [] && ApplyUpdate(s, oui, h, held, updates[0]).Some? {
      UpdateKeepsInv(s, oui, h, held, updates);
      UpdatesKeepInv(ApplyUpdate(s, oui, h, held, updates[0]).value, oui, h, held, updates[1..]);
    }
  }

  lemma NewOuiKeepsInv(s: Leases)
    requires LeaseInv(s)
    ensures LeaseInv(s.(nextOui := s.nextOui + 1))
  {
    var s' := s.(nextOui := s.nextOui + 1);
    forall h: HeliumNetId ensures PairAligned(UsedBy(s', h)) {
      assert PairAligned(UsedBy(s, h));
      assert UsedBy(s', h) == UsedBy(s, h);
    }
  }

  /** A roamer with a NetID of its own, which nobody else leases from, gets a range that nobody has. */
  lemma RoamerKeepsInv(s: Leases, netId: nat, full: DevAddrConstraint)
    requires LeaseInv(s) && Fits(netId) && Helium(netId) == None && !exists r <- s.rows :: r.netId == netId
    requires FullRange(netId) == Some(full)
    ensures LeaseInv(Enrolled(s, netId, full))
  {
    RoamerIsAlone(s, netId, full);
    RoamerRestKeeps(s, netId, full);
    assert RowSound(Row(s.nextOui, netId, full));
  }

  lemma RoamerRestKeeps(s: Leases, netId: nat, full: DevAddrConstraint)
    requires UsedAreLeased(s) && UsedAligned(s)
    ensures UsedAreLeased(Enrolled(s, netId, full)) && UsedAligned(Enrolled(s, netId, full))
  {
    var s' := Enrolled(s, netId, full);
    forall a <- s'.used ensures exists r <- s'.rows :: r.netId == NetIdOf(s'.used[a]) && Covers(r.range, a) {
      var r :| r in s.rows && r.netId == NetIdOf(s.used[a]) && Covers(r.range, a);
      assert r in s'.rows;
    }
    forall h: HeliumNetId ensures PairAligned(UsedBy(s', h)) {
      assert PairAligned(UsedBy(s, h));
      assert UsedBy(s', h) == UsedBy(s, h);
    }
  }

  lemma RoamerIsAlone(s: Leases, netId: nat, full: DevAddrConstraint)
    requires RowsSound(s) && Fits(netId) && Helium(netId) == None && !exists r <- s.rows :: r.netId == netId
    requires FullRange(netId) == Some(full)
    ensures forall r <- s.rows, a: nat | Covers(r.range, a) :: !Covers(full, a)
  {
    forall r <- s.rows, a: nat | Covers(r.range, a) ensures !Covers(full, a) {
      assert RowSound(r);
      RoamerMissesRow(r, netId, full, a);
    }
  }

  lemma RoamerMissesRow(r: Row, netId: nat, full: DevAddrConstraint, a: nat)
    requires RowSound(r) && r.netId != netId && Fits(netId) && Helium(netId) == None && Covers(r.range, a)
    requires FullRange(netId) == Some(full)
    ensures !Covers(full, a)
  {
    match Helium(r.netId)
    case Some(h) => RoamersKeepOut(Row(0, netId, full), h, a);
    case None =>
      if Covers(full, a) {
        FitsBelowU32(netId, a);
        RangesAreDisjoint(r.netId, netId, a);
      }
  }

  lemma FitsBelowU32(netId: nat, a: nat)
    requires Fits(netId) && InFullRange(netId, a)
    ensures a < U32
  {
    var t, id := netId / 0x20_0000, netId % 0x20_0000;
    FullRangeOfFitting(netId);
    BlocksFit(t, id);
    TypesFit(t);
  }

  lemma TypesFit(t: nat)
    requires t <= 7
    ensures TypeBase(t) + Width(t) * Block(t) <= U32
  {
    match t case 0 => case 1 => case 2 => case 3 => case 4 => case 5 => case 6 => case 7 =>
  }

  lemma JoinKeepsInv(s: Leases, h: HeliumNetId, count: nat)
    requires LeaseInv(s) && Join(s, h, count).Some?
    ensures LeaseInv(Join(s, h, count).value)
  {
    NewOuiKeepsInv(s);
    assert OwnNetId(s.(nextOui := s.nextOui + 1), s.nextOui, NetIdOf(h));
    SlabKeepsInv(s.(nextOui := s.nextOui + 1), s.nextOui, h, count);
  }

  lemma RoamKeepsInv(s: Leases, netId: nat)
    requires LeaseInv(s) && Fits(netId) && Helium(netId) == None && Roam(s, netId).Some?
    ensures LeaseInv(Roam(s, netId).value)
  {
    RoamerKeepsInv(s, netId, FullRange(netId).value);
  }

  lemma HeldRowsExist(s: Leases, oui: nat, h: HeliumNetId, updates: seq<Update>)
    requires OwnNetId(s, oui, NetIdOf(h))
    ensures RemovalsHeld(s, oui, h, RangesOf(s, oui), updates)
  {
    forall c <- RangesOf(s, oui) ensures Row(oui, NetIdOf(h), c) in s.rows {
      var r :| r in s.rows && r.oui == oui && r.range == c;
      assert r == Row(oui, NetIdOf(h), c);
    }
  }

  lemma ChangeKeepsInv(s: Leases, oui: nat, netId: nat, admin: bool, updates: seq<Update>)
    requires LeaseInv(s) && Trusted(UpdateOrg(oui, netId, admin, updates))
    requires Change(s, oui, netId, admin, updates).Some?
    ensures LeaseInv(Change(s, oui, netId, admin, updates).value)
  {
    if Helium(netId).Some? {
      var h := Helium(netId).value;
      assert NetIdOf(h) == netId;
      assert OwnNetId(s, oui, netId) by { assert OuisSound(s); }
      HeldRowsExist(s, oui, h, updates);
      UpdatesKeepInv(s, oui, h, RangesOf(s, oui), updates);
    }
  }

  /** Every trusted request keeps the leases sound. */
  lemma ApplyKeepsInv(s: Leases, req: Request)
    requires LeaseInv(s) && Trusted(req) && Apply(s, req).Some?
    ensures LeaseInv(Apply(s, req).value)
  {
    match req
    case CreateHelium(h, count) => JoinKeepsInv(s, h, count);
    case CreateRoamer(netId) => RoamKeepsInv(s, netId);
    case UpdateOrg(oui, netId, admin, updates) => ChangeKeepsInv(s, oui, netId, admin, updates);
  }

  // ---------------------------------------------------------------- every run

  const Empty := Leases(map[], {}, 1)

  /** The state after a list of requests. A request that fails leaves the state as it was. */
  ghost function Run(s: Leases, reqs: seq<Request>): Leases
    decreases |reqs|
  {
    if reqs == [] then s
    else
      var n := |reqs| - 1;
      var before := Run(s, reqs[..n]);
      match Apply(before, reqs[n])
      case Some(s') => s'
      case None => before
  }

  lemma {:induction false} RunKeepsInv(s: Leases, reqs: seq<Request>)
    requires LeaseInv(s) && forall i :: 0 <= i < |reqs| ==> Trusted(reqs[i])
    ensures LeaseInv(Run(s, reqs))
    decreases |reqs|
  {
    if reqs != [] {
      var n := |reqs| - 1;
      RunKeepsInv(s, reqs[..n]);
      if Apply(Run(s, reqs[..n]), reqs[n]).Some? { ApplyKeepsInv(Run(s, reqs[..n]), reqs[n]); }
    }
  }

  lemma EmptyIsSound()
    ensures LeaseInv(Empty)
  {
    assert forall h: HeliumNetId :: UsedBy(Empty, h) == {};
  }

  lemma UsedIffLeased(s: Leases, h: HeliumNetId, a: nat)
    requires RowsAreUsed(s) && UsedAreLeased(s)
    ensures a in UsedBy(s, h) <==> exists r <- s.rows :: r.netId == NetIdOf(h) && Covers(r.range, a)
  {
    HeliumOfNetId(h);
  }

  /** After any list of trusted requests no address is leased twice, and an address of a Helium NetID is marked as used
      exactly when one organization, and only one, leases it. */
  lemma LeasesPartitionUsedAddresses(reqs: seq<Request>, h: HeliumNetId, a: nat)
    requires forall i :: 0 <= i < |reqs| ==> Trusted(reqs[i])
    ensures var s := Run(Empty, reqs);
            && NoDoubleLease(s)
            && (a in UsedBy(s, h) <==> exists r <- s.rows :: r.netId == NetIdOf(h) && Covers(r.range, a))
  {
    EmptyIsSound();
    RunKeepsInv(Empty, reqs);
    UsedIffLeased(Run(Empty, reqs), h, a);
  }

  // ---------------------------------------------------------------- an organization keeps a constraint

  predicate Adds(updates: seq<Update>) {
    exists i :: 0 <= i < |updates| && (updates[i].Devaddrs? || updates[i].AddConstraint?)
  }

  predicate Removes(updates: seq<Update>, c: DevAddrConstraint) {
    RemoveConstraint(c) in updates
  }

  predicate HasRow(s: Leases, oui: nat) {
    exists r <- s.rows :: r.oui == oui
  }

  predicate HasLastingRow(s: Leases, oui: nat, updates: seq<Update>) {
    exists r <- s.rows :: r.oui == oui && !Removes(updates, r.range)
  }

  lemma {:induction false} RemovalsAreHeld(
    s: Leases, oui: nat, h: HeliumNetId, held: set<DevAddrConstraint>, updates: seq<Update>, c: DevAddrConstraint)
    requires ApplyUpdates(s, oui, h, held, updates).Some? && Removes(updates, c)
    ensures c in held
    decreases |updates|
  {
    if updates[0] != RemoveConstraint(c) {
      assert Removes(updates[1..], c);
      RemovalsAreHeld(ApplyUpdate(s, oui, h, held, updates[0]).value, oui, h, held, updates[1..], c);
    }
  }

  /** An addition brings a row that the organization did not have. */
  lemma AdditionIsNew(s: Leases, oui: nat, h: HeliumNetId, held: set<DevAddrConstraint>, u: Update) returns (r: Row)
    requires LeaseInv(s) && OwnNetId(s, oui, NetIdOf(h)) && (u.Devaddrs? || u.AddConstraint?)
    requires u.AddConstraint? ==> Aligned(u.range) && InsideOf(h, u.range)
    requires ApplyUpdate(s, oui, h, held, u).Some?
    ensures r in ApplyUpdate(s, oui, h, held, u).value.rows && r !in s.rows && r.oui == oui && r.netId == NetIdOf(h)
  {
    if u.AddConstraint? {
      r := RangeRow(s, oui, h, u.range);
    } else {
      r := SlabRow(s, oui, h, u.count);
    }
  }

  lemma GrantedRow(s: Leases, oui: nat, h: HeliumNetId, addrs: set<nat>, rows: set<Row>) returns (r: Row)
    requires RowsAreUsed(s) && Grants(rows, oui, h, addrs) && addrs !! s.used.Keys && addrs != {}
    ensures r in rows && r !in s.rows && r.oui == oui && r.netId == NetIdOf(h)
  {
    HeliumOfNetId(h);
    var a :| a in addrs;
    r :| r in rows && Covers(r.range, a);
  }

  lemma RangeRow(s: Leases, oui: nat, h: HeliumNetId, c: DevAddrConstraint) returns (r: Row)
    requires LeaseInv(s) && LeaseRange(s, oui, h, c).Some? && Aligned(c) && InsideOf(h, c)
    ensures r in LeaseRange(s, oui, h, c).value.rows && r !in s.rows && r.oui == oui && r.netId == NetIdOf(h)
  {
    RangeGrants(oui, h, c);
    RangeIsGrant(s, oui, h, c);
    SpanSet(c, c.start);
    r := GrantedRow(s, oui, h, ToSet(Span(c.start, c.end + 1)), {Row(oui, NetIdOf(h), c)});
  }

  lemma SlabRow(s: Leases, oui: nat, h: HeliumNetId, count: nat) returns (r: Row)
    requires LeaseInv(s) && LeaseSlab(s, oui, h, count).Some?
    ensures r in LeaseSlab(s, oui, h, count).value.rows && r !in s.rows && r.oui == oui && r.netId == NetIdOf(h)
  {
    SlabIsGrant(s, oui, h, count);
    assert SlabAddrs(s, h, count)[0] in ToSet(SlabAddrs(s, h, count));
    r := GrantedRow(s, oui, h, ToSet(SlabAddrs(s, h, count)),
                    RowsFor(oui, NetIdOf(h), Checkout(h, UsedBy(s, h), count).value));
  }

  lemma RowsAfterRemoval(s: Leases, oui: nat, h: HeliumNetId, c: DevAddrConstraint, rest: seq<Update>)
    requires LeaseInv(s) && OwnNetId(s, oui, NetIdOf(h)) && Row(oui, NetIdOf(h), c) in s.rows
    ensures HasLastingRow(ReleaseRange(s, oui, h, c), oui, rest) <==> HasLastingRow(s, oui, [RemoveConstraint(c)] + rest)
  {
    var s' := ReleaseRange(s, oui, h, c);
    ReleaseKeepsInv(s, oui, h, c);
    forall r <- s.rows | r.oui == oui
      ensures r in s'.rows && !Removes(rest, r.range) <==> !Removes([RemoveConstraint(c)] + rest, r.range)
    {
      assert r == Row(oui, NetIdOf(h), r.range);
    }
  }

  /** What is left of an organization's rows: it keeps one exactly when something is added or some row is not removed. */
  lemma {:induction false} RowsAfterUpdates(
    s: Leases, oui: nat, h: HeliumNetId, held: set<DevAddrConstraint>, updates: seq<Update>)
    requires LeaseInv(s) && OwnNetId(s, oui, NetIdOf(h))
    requires DistinctRemovals(updates) && AlignedAdditions(h, updates) && RemovalsHeld(s, oui, h, held, updates)
    requires ApplyUpdates(s, oui, h, held, updates).Some?
    ensures HasRow(ApplyUpdates(s, oui, h, held, updates).value, oui) <==> Adds(updates) || HasLastingRow(s, oui, updates)
    decreases |updates|
  {
    if updates != [] {
      var u, rest := updates[0], updates[1..];
      var s' := ApplyUpdate(s, oui, h, held, u).value;
      UpdateKeepsInv(s, oui, h, held, updates);
      RowsAfterUpdates(s', oui, h, held, rest);
      RowsAfterUpdate(s, oui, h, held, updates);
    }
  }

  lemma RowsAfterUpdate(s: Leases, oui: nat, h: HeliumNetId, held: set<DevAddrConstraint>, updates: seq<Update>)
    requires LeaseInv(s) && OwnNetId(s, oui, NetIdOf(h)) && updates != []
    requires AlignedAdditions(h, updates) && RemovalsHeld(s, oui, h, held, updates)
    requires ApplyUpdates(s, oui, h, held, updates).Some?
    ensures var s' := ApplyUpdate(s, oui, h, held, updates[0]).value;
            Adds(updates[1..]) || HasLastingRow(s', oui, updates[1..]) <==> Adds(updates) || HasLastingRow(s, oui, updates)
  {
    var u, rest := updates[0], updates[1..];
    var s' := ApplyUpdate(s, oui, h, held, u).value;
    assert updates == [u] + rest;
    if u.RemoveConstraint? {
      RowsAfterRemoval(s, oui, h, u.range, rest);
      AddsCons(u, rest);
    } else if u.KeyUpdate? || u.DelegateUpdate? {
      AddsCons(u, rest);
      assert forall c :: Removes(updates, c) <==> Removes(rest, c);
    } else {
      var r := AdditionIsNew(s, oui, h, held, u);
      if Removes(rest, r.range) {
        RemovalsAreHeld(s', oui, h, held, rest, r.range);
      }
    }
  }

  lemma AddsCons(u: Update, rest: seq<Update>)
    ensures Adds([u] + rest) <==> u.Devaddrs? || u.AddConstraint? || Adds(rest)
  {
    var updates := [u] + rest;
    if Adds(rest) {
      var i :| 0 <= i < |rest| && (rest[i].Devaddrs? || rest[i].AddConstraint?);
      assert updates[i + 1] == rest[i];
    }
    if u.Devaddrs? || u.AddConstraint? { assert updates[0] == u; }
  }

  /** A request may leave an organization without any constraint, although it refuses to remove the only one: this
      happens exactly when it removes every range the organization had and adds nothing. */
  lemma KeepsAConstraintIff(s: Leases, oui: nat, h: HeliumNetId, updates: seq<Update>)
    requires LeaseInv(s) && DistinctRemovals(updates) && AlignedAdditions(h, updates)
    requires Change(s, oui, NetIdOf(h), true, updates).Some?
    ensures HasRow(Change(s, oui, NetIdOf(h), true, updates).value, oui)
       <==> Adds(updates) || exists c <- RangesOf(s, oui) :: !Removes(updates, c)
  {
    HeliumOfNetId(h);
    assert OwnNetId(s, oui, NetIdOf(h)) by { assert OuisSound(s); }
    HeldRowsExist(s, oui, h, updates);
    RowsAfterUpdates(s, oui, h, RangesOf(s, oui), updates);
    if c :| c in RangesOf(s, oui) && !Removes(updates, c) {
      var r :| r in s.rows && r.oui == oui && r.range == c;
      assert HasLastingRow(s, oui, updates);
    }
    if HasLastingRow(s, oui, updates) {
      var r :| r in s.rows && r.oui == oui && !Removes(updates, r.range);
      assert r.range in RangesOf(s, oui);
    }
  }

  // ---------------------------------------------------------------- what a request cannot touch

  lemma {:induction false} KeyUpdatesChangeNothing(
    s: Leases, oui: nat, h: HeliumNetId, held: set<DevAddrConstraint>, updates: seq<Update>)
    requires forall i :: 0 <= i < |updates| ==> updates[i].KeyUpdate? || updates[i].DelegateUpdate?
    ensures ApplyUpdates(s, oui, h, held, updates) == Some(s)
    decreases |updates|
  {
    if updates != [] { KeyUpdatesChangeNothing(s, oui, h, held, updates[1..]); }
  }

  /** Only administrators move addresses, and only those of Helium NetIDs. */
  lemma OnlyAdminsMoveAddresses(s: Leases, oui: nat, netId: nat, admin: bool, updates: seq<Update>)
    requires !admin || Helium(netId) == None
    ensures var r := Change(s, oui, netId, admin, updates); r == None || r == Some(s)
  {
    if Change(s, oui, netId, admin, updates).Some? && Helium(netId).Some? {
      forall i | 0 <= i < |updates| ensures updates[i].KeyUpdate? || updates[i].DelegateUpdate? {
        assert Allowed(admin, netId, updates[i]);
      }
      KeyUpdatesChangeNothing(s, oui, Helium(netId).value, RangesOf(s, oui), updates);
    }
  }

  lemma UpdateIsLocal(s: Leases, oui: nat, h: HeliumNetId, held: set<DevAddrConstraint>, u: Update, r: Row)
    requires ApplyUpdate(s, oui, h, held, u).Some? && r.oui != oui
    ensures r in ApplyUpdate(s, oui, h, held, u).value.rows <==> r in s.rows
  {}

  lemma {:induction false} UpdatesAreLocal(
    s: Leases, oui: nat, h: HeliumNetId, held: set<DevAddrConstraint>, updates: seq<Update>, r: Row)
    requires ApplyUpdates(s, oui, h, held, updates).Some? && r.oui != oui
    ensures r in ApplyUpdates(s, oui, h, held, updates).value.rows <==> r in s.rows
    decreases |updates|
  {
    if updates != [] {
      UpdateIsLocal(s, oui, h, held, updates[0], r);
      UpdatesAreLocal(ApplyUpdate(s, oui, h, held, updates[0]).value, oui, h, held, updates[1..], r);
    }
  }

  /** Whatever an update contains, trusted or not, the constraints of every other organization stay as they are. */
  lemma ChangeIsLocal(s: Leases, oui: nat, netId: nat, admin: bool, updates: seq<Update>, r: Row)
    requires Change(s, oui, netId, admin, updates).Some? && r.oui != oui
    ensures r in Change(s, oui, netId, admin, updates).value.rows <==> r in s.rows
  {
    if Helium(netId).Some? { UpdatesAreLocal(s, oui, Helium(netId).value, RangesOf(s, oui), updates, r); }
  }

  lemma {:induction false} UpdatesKeepNextOui(
    s: Leases, oui: nat, h: HeliumNetId, held: set<DevAddrConstraint>, updates: seq<Update>)
    requires ApplyUpdates(s, oui, h, held, updates).Some?
    ensures ApplyUpdates(s, oui, h, held, updates).value.nextOui == s.nextOui
    decreases |updates|
  {
    if updates != [] { UpdatesKeepNextOui(ApplyUpdate(s, oui, h, held, updates[0]).value, oui, h, held, updates[1..]); }
  }

  lemma RequestBringsNoRow(s: Leases, oui: nat, req: Request)
    requires oui < s.nextOui && !HasRow(s, oui) && Apply(s, req).Some?
    ensures var s' := Apply(s, req).value; oui < s'.nextOui && !HasRow(s', oui)
  {
    if req.UpdateOrg? && Helium(req.netId).Some? {
      var h := Helium(req.netId).value;
      UpdatesKeepNextOui(s, req.oui, h, RangesOf(s, req.oui), req.updates);
      var s' := Apply(s, req).value;
      if r :| r in s'.rows && r.oui == oui {
        ChangeIsLocal(s, req.oui, req.netId, req.admin, req.updates, r);
      }
    }
  }

  /** An organization that has lost its last constraint never gets one again, whatever is requested. */
  lemma {:induction false} NoConstraintEverAgain(s: Leases, oui: nat, reqs: seq<Request>)
    requires oui < s.nextOui && !HasRow(s, oui)
    ensures oui < Run(s, reqs).nextOui && !HasRow(Run(s, reqs), oui)
    decreases |reqs|
  {
    if reqs != [] {
      var n := |reqs| - 1;
      NoConstraintEverAgain(s, oui, reqs[..n]);
      if Apply(Run(s, reqs[..n]), reqs[n]).Some? { RequestBringsNoRow(Run(s, reqs[..n]), oui, reqs[n]); }
    }
  }
}
