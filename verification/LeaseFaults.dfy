/**
  Requests that break the leases, each with a run that does so, and exactly when they do.
*/
module LeaseFaults {
  import opened Wrappers
  import opened LoraField
  import opened DevAddrAllocator
  import opened OrgLeases

  // ---------------------------------------------------------------- a range removed twice

  /** A range that is removed twice in one request, with an inner range leased in between, frees addresses that stay
      leased: the second removal is checked against the constraints from before the request. */
  lemma SecondRemovalFreesLeasedAddresses(s: Leases, oui: nat, h: HeliumNetId, c: DevAddrConstraint, d: DevAddrConstraint)
    requires LeaseInv(s) && OwnNetId(s, oui, NetIdOf(h)) && Row(oui, NetIdOf(h), c) in s.rows && 1 < |RangesOf(s, oui)|
    requires Aligned(d) && c != d && c.start <= d.start && d.end <= c.end
    ensures var r := ApplyUpdates(s, oui, h, RangesOf(s, oui), [RemoveConstraint(c), AddConstraint(d), RemoveConstraint(c)]);
            r.Some? && !RowsAreUsed(r.value)
  {
    var held := RangesOf(s, oui);
    assert Row(oui, NetIdOf(h), c).range in held;
    ReleaseKeepsInv(s, oui, h, c);
    RangeIsFree(s, oui, h, c, d);
    ThreeUpdates(s, oui, h, held, RemoveConstraint(c), AddConstraint(d), RemoveConstraint(c));
    InnerRangeIsFreed(LeaseRange(ReleaseRange(s, oui, h, c), oui, h, d).value, oui, h, c, Row(oui, NetIdOf(h), d), d.start);
  }

  lemma FirstUpdate(s: Leases, oui: nat, h: HeliumNetId, held: set<DevAddrConstraint>, u: Update, rest: seq<Update>)
    ensures var r := ApplyUpdate(s, oui, h, held, u);
            ApplyUpdates(s, oui, h, held, [u] + rest) == if r.Some? then ApplyUpdates(r.value, oui, h, held, rest) else None
  {
    assert ([u] + rest)[1..] == rest;
  }

  lemma OneUpdate(s: Leases, oui: nat, h: HeliumNetId, held: set<DevAddrConstraint>, u: Update)
    ensures ApplyUpdates(s, oui, h, held, [u]) == ApplyUpdate(s, oui, h, held, u)
  {
    FirstUpdate(s, oui, h, held, u, []);
    assert [u] + [] == [u];
  }

  lemma TwoUpdates(s: Leases, oui: nat, h: HeliumNetId, held: set<DevAddrConstraint>, u: Update, v: Update)
    requires ApplyUpdate(s, oui, h, held, u).Some?
    ensures ApplyUpdates(s, oui, h, held, [u, v]) == ApplyUpdate(ApplyUpdate(s, oui, h, held, u).value, oui, h, held, v)
  {
    assert [u, v] == [u] + [v];
    FirstUpdate(s, oui, h, held, u, [v]);
    OneUpdate(ApplyUpdate(s, oui, h, held, u).value, oui, h, held, v);
  }

  lemma ThreeUpdates(s: Leases, oui: nat, h: HeliumNetId, held: set<DevAddrConstraint>, u: Update, v: Update, w: Update)
    requires ApplyUpdate(s, oui, h, held, u).Some?
    requires ApplyUpdate(ApplyUpdate(s, oui, h, held, u).value, oui, h, held, v).Some?
    ensures ApplyUpdates(s, oui, h, held, [u, v, w])
         == ApplyUpdate(ApplyUpdate(ApplyUpdate(s, oui, h, held, u).value, oui, h, held, v).value, oui, h, held, w)
  {
    assert [u, v, w] == [u] + [v, w];
    FirstUpdate(s, oui, h, held, u, [v, w]);
    TwoUpdates(ApplyUpdate(s, oui, h, held, u).value, oui, h, held, v, w);
  }

  lemma RangeIsFree(s: Leases, oui: nat, h: HeliumNetId, c: DevAddrConstraint, d: DevAddrConstraint)
    requires RowsAreUsed(s) && Row(oui, NetIdOf(h), c) in s.rows && Aligned(d) && c.start <= d.start && d.end <= c.end
    ensures LeaseRange(ReleaseRange(s, oui, h, c), oui, h, d).Some?
  {
    HeliumOfNetId(h);
    var s' := ReleaseRange(s, oui, h, c);
    forall a | a in Span(d.start, d.end + 1) ensures a !in s'.used {
      SpanMembers(d.start, d.end + 1, a);
      IsReleased(s, oui, h, c, a);
    }
  }

  lemma IsReleased(s: Leases, oui: nat, h: HeliumNetId, c: DevAddrConstraint, a: nat)
    requires RowsAreUsed(s) && Row(oui, NetIdOf(h), c) in s.rows && Covers(c, a) && Helium(NetIdOf(h)) == Some(h)
    ensures a !in ReleaseRange(s, oui, h, c).used
  {
    assert Covers(Row(oui, NetIdOf(h), c).range, a);
  }

  // ---------------------------------------------------------------- the first slabs

  /** Exactly the addresses from `lo` below `hi` are used, all of one NetID. */
  ghost predicate UsesOnly(used: map<nat, HeliumNetId>, h: HeliumNetId, lo: nat, hi: nat) {
    (forall a: nat :: a in used <==> lo <= a < hi) && forall a <- used :: used[a] == h
  }

  lemma SpanSetIs(lo: nat, hi: nat)
    ensures forall a: nat :: a in ToSet(Span(lo, hi)) <==> lo <= a < hi
  {
    forall a: nat ensures a in ToSet(Span(lo, hi)) <==> lo <= a < hi { SpanMembers(lo, hi, a); }
  }

  lemma ClaimedSpan(used: map<nat, HeliumNetId>, h: HeliumNetId, lo: nat, mid: nat, hi: nat)
    requires lo <= mid <= hi && UsesOnly(used, h, lo, mid)
    ensures NewKeys(used, Span(mid, hi)) && UsesOnly(Claimed(used, h, ToSet(Span(mid, hi))), h, lo, hi)
  {
    SpanIs(mid, hi);
    SpanSetIs(mid, hi);
  }

  /** The first `n` addresses of the NetID are used, and these are the rows. */
  ghost predicate IsFilled(s: Leases, h: HeliumNetId, n: nat, rows: set<Row>) {
    UsesOnly(s.used, h, FirstAddr(h), FirstAddr(h) + n) && s.rows == rows && s.nextOui == 2
  }

  lemma FreeIsTail(first: nat, mid: nat, end: nat, used: set<nat>)
    requires first <= mid <= end && forall a: nat :: a in used <==> first <= a < mid
    ensures FreeIn(first, end, used) == Span(mid, end)
  {
    FreeInSplit(first, mid, end, used);
    NoneFree(first, mid, used);
    FreeIsSpan(mid, end, used);
  }

  lemma SpanPrefix(lo: nat, mid: nat, hi: nat)
    requires lo <= mid <= hi
    ensures Span(lo, mid) <= Span(lo, hi) && |Span(lo, mid)| == mid - lo
  {
    SpanSplit(lo, mid, hi);
    SpanIs(lo, mid);
  }

  lemma FreeAfterStart(first: nat, end: nat, n: nat, k: nat, used: set<nat>)
    requires first + n + k <= end && forall a: nat :: a in used <==> first <= a < first + n
    ensures Span(first + n, first + n + k) <= FreeIn(first, end, used) && |Span(first + n, first + n + k)| == k
  {
    FreeIsTail(first, first + n, end, used);
    SpanPrefix(first + n, first + n + k, end);
  }

  lemma {:induction false} GroupRest(s: nat, e: nat, hi: nat)
    requires s % 2 == 0 && s < e < hi && hi % 2 == 0
    ensures Group(Span(e + 1, hi), Some(s), Some(e), []) == Ok([DevAddrConstraint(s, hi - 1)])
    decreases hi - e
  {
    if e + 1 < hi {
      assert Span(e + 1, hi)[1..] == Span(e + 2, hi);
      GroupRest(s, e + 1, hi);
    } else {
      var none: seq<DevAddrConstraint> := [];
      assert none + [DevAddrConstraint(s, e)] == [DevAddrConstraint(s, e)];
    }
  }

  /** Consecutive addresses are grouped into one constraint. */
  lemma GroupSpan(lo: nat, hi: nat)
    requires lo % 2 == 0 && hi % 2 == 0 && lo < hi
    ensures Group(Span(lo, hi), None, None, []) == Ok([DevAddrConstraint(lo, hi - 1)])
  {
    var addrs := Span(lo, hi);
    assert addrs[1..] == Span(lo + 1, hi) && addrs[1..][1..] == Span(lo + 2, hi);
    GroupRest(lo, lo + 1, hi);
  }

  lemma CheckoutOfSpan(offered: seq<nat>, lo: nat, k: nat)
    requires lo % 2 == 0 && k % 2 == 0 && 0 < k && Span(lo, lo + k) <= offered && |Span(lo, lo + k)| == k
    ensures ClaimFrom(offered, k) == Ok(Span(lo, lo + k))
    ensures CheckoutFrom(offered, k) == Ok([DevAddrConstraint(lo, lo + k - 1)])
  {
    GroupSpan(lo, lo + k);
    assert offered[..k] == Span(lo, lo + k);
  }

  lemma CheckoutAfterStart(h: HeliumNetId, used: set<nat>, lo: nat, k: nat)
    requires FirstAddr(h) <= lo && lo + k <= LastAddr(h) + 1 && lo % 2 == 0 && k % 2 == 0 && 0 < k
    requires forall a: nat :: a in used <==> FirstAddr(h) <= a < lo
    ensures Claim(h, used, k) == Ok(Span(lo, lo + k)) && Checkout(h, used, k) == Ok([DevAddrConstraint(lo, lo + k - 1)])
  {
    OfferedIsFree(h, used);
    FreeAfterStart(FirstAddr(h), LastAddr(h) + 1, lo - FirstAddr(h), k, used);
    CheckoutOfSpan(Offered(h, used), lo, k);
  }

  lemma SlabIs(s: Leases, oui: nat, h: HeliumNetId, k: nat, claimed: seq<nat>, c: DevAddrConstraint)
    requires Claim(h, UsedBy(s, h), k) == Ok(claimed) && Checkout(h, UsedBy(s, h), k) == Ok([c]) && NewKeys(s.used, claimed)
    ensures LeaseSlab(s, oui, h, k) == Some(Granted(s, h, ToSet(claimed), {Row(oui, NetIdOf(h), c)}))
  {
    assert RowsFor(oui, NetIdOf(h), [c]) == {Row(oui, NetIdOf(h), c)};
  }

  lemma SlabAfterStart(s: Leases, oui: nat, h: HeliumNetId, lo: nat, k: nat)
    requires FirstAddr(h) <= lo && lo + k <= LastAddr(h) + 1 && lo % 2 == 0 && k % 2 == 0 && 0 < k
    requires UsesOnly(s.used, h, FirstAddr(h), lo)
    ensures var r := LeaseSlab(s, oui, h, k);
            && r.Some? && UsesOnly(r.value.used, h, FirstAddr(h), lo + k) && r.value.nextOui == s.nextOui
            && r.value.rows == s.rows + {Row(oui, NetIdOf(h), DevAddrConstraint(lo, lo + k - 1))}
  {
    CheckoutAfterStart(h, UsedBy(s, h), lo, k);
    ClaimedSpan(s.used, h, FirstAddr(h), lo, lo + k);
    SlabIs(s, oui, h, k, Span(lo, lo + k), DevAddrConstraint(lo, lo + k - 1));
  }

  function FirstRange(h: HeliumNetId): DevAddrConstraint {
    DevAddrConstraint(FirstAddr(h), FirstAddr(h) + 7)
  }

  function SecondRange(h: HeliumNetId): DevAddrConstraint {
    DevAddrConstraint(FirstAddr(h) + 8, FirstAddr(h) + 9)
  }

  lemma RunNext(s: Leases, reqs: seq<Request>, req: Request)
    ensures Run(s, reqs + [req]) == match Apply(Run(s, reqs), req) case Some(s') => s' case None => Run(s, reqs)
  {
    assert (reqs + [req])[..|reqs|] == reqs;
  }

  lemma RunOne(s: Leases, req: Request)
    ensures Run(s, [req]) == match Apply(s, req) case Some(s') => s' case None => s
  {
    assert [] + [req] == [req];
    RunNext(s, [], req);
  }

  lemma FirstJoin(s: Leases, h: HeliumNetId, k: nat)
    requires s.used.Keys == {} && s.rows == {} && s.nextOui == 1 && 8 <= k <= LastAddr(h) + 1 - FirstAddr(h) && k % 2 == 0
    ensures var r := Join(s, h, k);
            r.Some? && IsFilled(r.value, h, k, {Row(1, NetIdOf(h), DevAddrConstraint(FirstAddr(h), FirstAddr(h) + k - 1))})
  {
    SlabAfterStart(s.(nextOui := 2), 1, h, FirstAddr(h), k);
  }

  /** An organization that joins with eight addresses gets the first ones. */
  lemma JoinedRun(h: HeliumNetId)
    ensures IsFilled(Run(Empty, [CreateHelium(h, 8)]), h, 8, {Row(1, NetIdOf(h), FirstRange(h))})
  {
    FirstJoin(Empty, h, 8);
    RunOne(Empty, CreateHelium(h, 8));
  }

  function Joining(h: HeliumNetId): seq<Request> {
    [CreateHelium(h, 8)] + [UpdateOrg(1, NetIdOf(h), true, [Devaddrs(2)])]
  }

  ghost predicate IsJoined(s: Leases, h: HeliumNetId) {
    IsFilled(s, h, 10, {Row(1, NetIdOf(h), FirstRange(h)), Row(1, NetIdOf(h), SecondRange(h))})
  }

  lemma ChangeIs(s: Leases, oui: nat, h: HeliumNetId, c: DevAddrConstraint, updates: seq<Update>)
    requires Row(oui, NetIdOf(h), c) in s.rows
    ensures Change(s, oui, NetIdOf(h), true, updates) == ApplyUpdates(s, oui, h, RangesOf(s, oui), updates)
  {
    HeliumOfNetId(h);
    assert Row(oui, NetIdOf(h), c).oui == oui;
  }

  lemma SecondSlab(s: Leases, h: HeliumNetId)
    requires IsFilled(s, h, 8, {Row(1, NetIdOf(h), FirstRange(h))})
    ensures LeaseSlab(s, 1, h, 2).Some? && IsJoined(LeaseSlab(s, 1, h, 2).value, h)
  {
    var row, row' := Row(1, NetIdOf(h), FirstRange(h)), Row(1, NetIdOf(h), SecondRange(h));
    SlabAfterStart(s, 1, h, FirstAddr(h) + 8, 2);
    assert {row} + {row'} == {row, row'};
  }

  lemma OneChange(s: Leases, h: HeliumNetId, c: DevAddrConstraint, u: Update)
    requires Row(1, NetIdOf(h), c) in s.rows
    ensures Apply(s, UpdateOrg(1, NetIdOf(h), true, [u])) == ApplyUpdate(s, 1, h, RangesOf(s, 1), u)
  {
    ChangeIs(s, 1, h, c, [u]);
    OneUpdate(s, 1, h, RangesOf(s, 1), u);
  }

  /** With a slab of two more it has two ranges. */
  lemma JoinedWithSlabRun(h: HeliumNetId)
    ensures IsJoined(Run(Empty, Joining(h)), h)
  {
    var s := Run(Empty, [CreateHelium(h, 8)]);
    JoinedRun(h);
    SecondSlab(s, h);
    OneChange(s, h, FirstRange(h), Devaddrs(2));
    RunNext(Empty, [CreateHelium(h, 8)], UpdateOrg(1, NetIdOf(h), true, [Devaddrs(2)]));
  }

  // ---------------------------------------------------------------- the last constraint

  /** A request that removes both of an organization's ranges is accepted, although the only one cannot be removed. */
  lemma LastRangesAreRemoved(s: Leases, oui: nat, h: HeliumNetId, c: DevAddrConstraint, d: DevAddrConstraint)
    requires LeaseInv(s) && RangesOf(s, oui) == {c, d} && c != d && Row(oui, NetIdOf(h), c) in s.rows
    ensures var r := Change(s, oui, NetIdOf(h), true, [RemoveConstraint(c), RemoveConstraint(d)]);
            r.Some? && !HasRow(r.value, oui)
  {
    var held := RangesOf(s, oui);
    assert |held| == 2;
    ChangeIs(s, oui, h, c, [RemoveConstraint(c), RemoveConstraint(d)]);
    TwoUpdates(s, oui, h, held, RemoveConstraint(c), RemoveConstraint(d));
    var s' := ReleaseRange(ReleaseRange(s, oui, h, c), oui, h, d);
    assert forall r <- s.rows :: r.oui == oui ==> r.range in held;
  }

  lemma JoinedIsSound(h: HeliumNetId)
    ensures var s := Run(Empty, Joining(h));
            LeaseInv(s) && IsJoined(s, h) && RangesOf(s, 1) == {FirstRange(h), SecondRange(h)}
  {
    var s := Run(Empty, Joining(h));
    JoinedWithSlabRun(h);
    EmptyIsSound();
    HeliumOfNetId(h);
    forall i | 0 <= i < |Joining(h)| ensures Trusted(Joining(h)[i]) {}
    RunKeepsInv(Empty, Joining(h));
    var row, row' := Row(1, NetIdOf(h), FirstRange(h)), Row(1, NetIdOf(h), SecondRange(h));
    assert row in s.rows && row' in s.rows;
    assert row.range in RangesOf(s, 1) && row'.range in RangesOf(s, 1);
  }

  function Removal(h: HeliumNetId): Request {
    UpdateOrg(1, NetIdOf(h), true, [RemoveConstraint(FirstRange(h)), RemoveConstraint(SecondRange(h))])
  }

  /** Such a run from the empty store: afterwards the organization is without a constraint for ever. */
  lemma ConstraintsRunOut(h: HeliumNetId, reqs: seq<Request>)
    ensures !HasRow(Run(Run(Empty, Joining(h) + [Removal(h)]), reqs), 1)
  {
    var s := Run(Empty, Joining(h));
    JoinedIsSound(h);
    LastRangesAreRemoved(s, 1, h, FirstRange(h), SecondRange(h));
    ChangeIs(s, 1, h, FirstRange(h), Removal(h).updates);
    UpdatesKeepNextOui(s, 1, h, RangesOf(s, 1), Removal(h).updates);
    RunNext(Empty, Joining(h), Removal(h));
    NoConstraintEverAgain(Run(Empty, Joining(h) + [Removal(h)]), 1, reqs);
  }

  // ---------------------------------------------------------------- slabs that reach over leased addresses

  ghost predicate RoamersSound(s: Leases) {
    forall r <- s.rows :: Helium(r.netId) == None ==> RowSound(r)
  }

  /** Both tables describe the same disjoint leases, aligned or not. */
  ghost predicate BooksAgree(s: Leases) {
    RowsAreUsed(s) && UsedAreLeased(s) && NoDoubleLease(s) && UsedInRange(s) && RoamersSound(s)
  }

  /** Adding any range inside the NetID leaves the books in agreement. */
  lemma AddedRangeKeepsBooks(s: Leases, oui: nat, h: HeliumNetId, c: DevAddrConstraint)
    requires BooksAgree(s) && InsideOf(h, c) && LeaseRange(s, oui, h, c).Some?
    ensures BooksAgree(LeaseRange(s, oui, h, c).value)
  {
    var s', row := LeaseRange(s, oui, h, c).value, Row(oui, NetIdOf(h), c);
    HeliumOfNetId(h);
    RangeTaken(s, oui, h, c);
    forall a <- s'.used ensures exists r <- s'.rows :: r.netId == NetIdOf(s'.used[a]) && Covers(r.range, a) {
      assert row in s'.rows;
      if !Covers(c, a) {
        var r :| r in s.rows && r.netId == NetIdOf(s.used[a]) && Covers(r.range, a);
        assert r in s'.rows;
      }
    }
    forall r <- s.rows, a: nat | Covers(r.range, a) && Covers(c, a) ensures false { RowIsElsewhere(s, h, r, a); }
  }

  lemma RangeTaken(s: Leases, oui: nat, h: HeliumNetId, c: DevAddrConstraint)
    requires LeaseRange(s, oui, h, c).Some?
    ensures var s' := LeaseRange(s, oui, h, c).value;
            && (forall a: nat | Covers(c, a) :: a !in s.used && a in s'.used && s'.used[a] == h)
            && (forall a: nat | !Covers(c, a) :: a in s'.used <==> a in s.used)
            && (forall a <- s.used :: s'.used[a] == s.used[a])
  {
    forall a: nat ensures a in ToSet(Span(c.start, c.end + 1)) <==> Covers(c, a) { SpanSet(c, a); }
  }

  /** Nobody leases an unused address of a Helium NetID. */
  lemma RowIsElsewhere(s: Leases, h: HeliumNetId, r: Row, a: nat)
    requires RowsAreUsed(s) && RoamersSound(s) && r in s.rows && InRangeOf(h, a) && a !in s.used
    ensures !Covers(r.range, a)
  {
    if Helium(r.netId) == None { RoamersKeepOut(r, h, a); }
  }

  lemma ReachesUsed(h: HeliumNetId, used: set<nat>, free: seq<nat>, count: nat)
    requires free == Free(h, used) && CheckoutFrom(free, count).Ok? && !GroupedAs(CheckoutFrom(free, count), free[..count])
    ensures exists c, a :: c in CheckoutFrom(free, count).value && a in used && Covers(c, a)
  {
    FreeInIs(FirstAddr(h), LastAddr(h) + 1, used);
    InexactReachesOver(free, count);
    var cs := CheckoutFrom(free, count).value;
    var c, a: nat, b :| c in cs && c.start <= a <= c.end && free[0] < a < b && b in free && a !in free;
    assert free[0] in free;
    assert a in used && Covers(c, a);
  }

  lemma SlabReachesUsed(s: Leases, oui: nat, h: HeliumNetId, count: nat)
    requires UsedInRange(s) && LeaseSlab(s, oui, h, count).Some?
    requires !GroupedAs(Checkout(h, UsedBy(s, h), count), SlabAddrs(s, h, count))
    ensures exists c, a :: c in Checkout(h, UsedBy(s, h), count).value && a in UsedBy(s, h) && Covers(c, a)
  {
    OfferedIsFree(h, UsedBy(s, h));
    ReachesUsed(h, UsedBy(s, h), Offered(h, UsedBy(s, h)), count);
  }

  lemma SlabRowOver(s: Leases, oui: nat, h: HeliumNetId, count: nat, c: DevAddrConstraint, r: Row, a: nat)
    requires RowsAreUsed(s) && UsedInRange(s) && LeaseSlab(s, oui, h, count).Some?
    requires c in Checkout(h, UsedBy(s, h), count).value
    requires r in s.rows && r.netId == NetIdOf(h) && Covers(r.range, a) && Covers(c, a)
    ensures !NoDoubleLease(LeaseSlab(s, oui, h, count).value)
  {
    var row, s' := Row(oui, NetIdOf(h), c), LeaseSlab(s, oui, h, count).value;
    HeliumOfNetId(h);
    SlabStartsFree(s, oui, h, count, c);
    assert Covers(c, c.start);
    assert r != row;
    assert row in s'.rows && r in s'.rows && Covers(row.range, a);
  }

  lemma ReachingSlabDoubleLeases(s: Leases, oui: nat, h: HeliumNetId, count: nat)
    requires BooksAgree(s) && LeaseSlab(s, oui, h, count).Some?
    requires !GroupedAs(Checkout(h, UsedBy(s, h), count), SlabAddrs(s, h, count))
    ensures !NoDoubleLease(LeaseSlab(s, oui, h, count).value)
  {
    SlabReachesUsed(s, oui, h, count);
    var c, a :| c in Checkout(h, UsedBy(s, h), count).value && a in UsedBy(s, h) && Covers(c, a);
    var r :| r in s.rows && r.netId == NetIdOf(h) && Covers(r.range, a);
    SlabRowOver(s, oui, h, count, c, r, a);
  }

  lemma SlabStartsFree(s: Leases, oui: nat, h: HeliumNetId, count: nat, c: DevAddrConstraint)
    requires UsedInRange(s) && LeaseSlab(s, oui, h, count).Some? && c in Checkout(h, UsedBy(s, h), count).value
    ensures c.start !in s.used
  {
    var addrs := SlabAddrs(s, h, count);
    SlabAddrsAreFree(s, h, count);
    StartsAreGrouped(addrs, None, None, [], c);
  }

  /** Every constraint starts at one of the addresses it was made from. */
  lemma {:induction false} StartsAreGrouped(
    addrs: seq<nat>, s: Option<nat>, e: Option<nat>, done: seq<DevAddrConstraint>, c: DevAddrConstraint)
    requires Group(addrs, s, e, done).Ok? && c in Group(addrs, s, e, done).value
    ensures c in done || s == Some(c.start) || c.start in addrs
    decreases |addrs|
  {
    if addrs != [] {
      var a, rest := addrs[0], addrs[1..];
      match (s, e)
      case (None, None) => StartsAreGrouped(rest, Some(a), None, done, c);
      case (Some(first), None) => StartsAreGrouped(rest, s, Some(a), done, c);
      case (Some(first), Some(last)) =>
        if a == last + 1 {
          StartsAreGrouped(rest, s, Some(a), done, c);
        } else {
          StartsAreGrouped(rest, Some(a), None, done + [DevAddrConstraint(first, last)], c);
        }
    }
  }

  lemma ExactSlabIsDisjoint(s: Leases, oui: nat, h: HeliumNetId, count: nat)
    requires BooksAgree(s) && LeaseSlab(s, oui, h, count).Some?
    requires GroupedAs(Checkout(h, UsedBy(s, h), count), SlabAddrs(s, h, count))
    ensures NoDoubleLease(LeaseSlab(s, oui, h, count).value)
  {
    var cs, s' := Checkout(h, UsedBy(s, h), count).value, LeaseSlab(s, oui, h, count).value;
    var rows := RowsFor(oui, NetIdOf(h), cs);
    SlabAddrsAreFree(s, h, count);
    RunsAreGrants(cs, oui, h);
    forall r <- s'.rows, t <- s'.rows, a: nat | Covers(r.range, a) && Covers(t.range, a) ensures r == t {
      if r in s.rows && t in rows { RowIsElsewhere(s, h, r, a); }
      if t in s.rows && r in rows { RowIsElsewhere(s, h, t, a); }
    }
  }

  /** A checkout that succeeds is exact if and only if what it claims comes in pairs. */
  lemma ExactIffPairs(free: seq<nat>, count: nat)
    requires CheckoutFrom(free, count).Ok?
    ensures GroupedAs(CheckoutFrom(free, count), free[..count]) <==> PairsAbove(free[..count], -1)
  {
    if PairsAbove(free[..count], -1) { GroupAllPairs(free[..count]); }
    if GroupedAs(CheckoutFrom(free, count), free[..count]) { RunsArePairs(CheckoutFrom(free, count).value); }
  }

  /** A slab that succeeds leases no address a second time if and only if the lowest free addresses, as many as it asks
      for, come in pairs. */
  lemma SlabDoubleLeasesIff(s: Leases, oui: nat, h: HeliumNetId, count: nat)
    requires BooksAgree(s) && LeaseSlab(s, oui, h, count).Some?
    ensures count <= |Free(h, UsedBy(s, h))|
    ensures NoDoubleLease(LeaseSlab(s, oui, h, count).value) <==> PairsAbove(Free(h, UsedBy(s, h))[..count], -1)
  {
    OfferedIsFree(h, UsedBy(s, h));
    ExactIffPairs(Free(h, UsedBy(s, h)), count);
    if GroupedAs(Checkout(h, UsedBy(s, h), count), SlabAddrs(s, h, count)) {
      ExactSlabIsDisjoint(s, oui, h, count);
    } else {
      ReachingSlabDoubleLeases(s, oui, h, count);
    }
  }

  // ---------------------------------------------------------------- unaligned ranges

  lemma FreeAroundRun(first: nat, last: nat)
    requires first + 5 <= last
    ensures FreeIn(first, last + 1, {first + 1, first + 2, first + 3, first + 4})
         == [first, first + 5] + FreeIn(first + 6, last + 1, {first + 1, first + 2, first + 3, first + 4})
  {
    var used := {first + 1, first + 2, first + 3, first + 4};
    FreeInSplit(first, first + 6, last + 1, used);
    FreeInSplit(first, first + 1, first + 6, used);
    FreeInSplit(first + 1, first + 5, first + 6, used);
    assert FreeIn(first + 1, first + 5, used) == FreeIn(first + 3, first + 5, used) == FreeIn(first + 5, first + 5, used);
  }

  lemma GroupTwo(a: nat, b: nat)
    requires NewConstraint(a, b).Ok?
    ensures Group([a, b], None, None, []) == Ok([NewConstraint(a, b).value])
  {
    var none: seq<DevAddrConstraint> := [];
    assert [a, b][1..] == [b] && [b][1..] == [] && none + [NewConstraint(a, b).value] == [NewConstraint(a, b).value];
    assert Group([a, b], None, None, []) == Group([b], Some(a), None, []) == Group([], Some(a), Some(b), []);
  }

  lemma CheckoutAroundRun(h: HeliumNetId, used: set<nat>)
    requires used == {FirstAddr(h) + 1, FirstAddr(h) + 2, FirstAddr(h) + 3, FirstAddr(h) + 4}
    ensures Checkout(h, used, 2) == Ok([DevAddrConstraint(FirstAddr(h), FirstAddr(h) + 5)])
  {
    var first := FirstAddr(h);
    OfferedIsFree(h, used);
    FreeAroundRun(first, LastAddr(h));
    assert Free(h, used)[..2] == [first, first + 5];
    assert NewConstraint(first, first + 5) == Ok(DevAddrConstraint(first, first + 5));
    GroupTwo(first, first + 5);
  }

  /** Once an unaligned range has been added, a slab checks out the single addresses around it as one range, and so
      leases the range a second time. */
  lemma UnalignedRangeIsLeasedTwice(s: Leases, oui: nat, h: HeliumNetId, other: nat)
    requires UsedInRange(s) && UsedBy(s, h) == {FirstAddr(h) + 1, FirstAddr(h) + 2, FirstAddr(h) + 3, FirstAddr(h) + 4}
    requires Row(other, NetIdOf(h), DevAddrConstraint(FirstAddr(h) + 1, FirstAddr(h) + 4)) in s.rows
    ensures LeaseSlab(s, oui, h, 2).Some? && !NoDoubleLease(LeaseSlab(s, oui, h, 2).value)
  {
    var first := FirstAddr(h);
    CheckoutAroundRun(h, UsedBy(s, h));
    SlabIffCheckout(s, oui, h, 2);
    var wide := Row(oui, NetIdOf(h), DevAddrConstraint(first, first + 5));
    var inner := Row(other, NetIdOf(h), DevAddrConstraint(first + 1, first + 4));
    var s' := LeaseSlab(s, oui, h, 2).value;
    assert wide in s'.rows && inner in s'.rows && Covers(wide.range, first + 1) && Covers(inner.range, first + 1);
  }

  function InnerRange(h: HeliumNetId): DevAddrConstraint {
    DevAddrConstraint(FirstAddr(h) + 1, FirstAddr(h) + 4)
  }

  function Swap(h: HeliumNetId): Request {
    UpdateOrg(1, NetIdOf(h), true,
              [RemoveConstraint(FirstRange(h)), RemoveConstraint(SecondRange(h)), AddConstraint(InnerRange(h))])
  }

  /** The two aligned ranges have been given back for the unaligned one. */
  ghost predicate IsSwapped(s: Leases, h: HeliumNetId) {
    && UsesOnly(s.used, h, FirstAddr(h) + 1, FirstAddr(h) + 5)
    && s.rows == {Row(1, NetIdOf(h), InnerRange(h))} && s.nextOui == 2
  }

  lemma SwapUpdates(s: Leases, h: HeliumNetId)
    requires IsJoined(s, h)
    ensures var r := ApplyUpdates(s, 1, h, {FirstRange(h), SecondRange(h)}, Swap(h).updates);
            r.Some? && IsSwapped(r.value, h)
  {
    var held := {FirstRange(h), SecondRange(h)};
    assert |held| == 2;
    var s1 := ReleaseRange(s, 1, h, FirstRange(h));
    var s2 := ReleaseRange(s1, 1, h, SecondRange(h));
    assert s2.used.Keys == {} && s2.rows == {};
    LeaseInner(s2, h);
    ThreeUpdates(s, 1, h, held,
                 RemoveConstraint(FirstRange(h)), RemoveConstraint(SecondRange(h)), AddConstraint(InnerRange(h)));
  }

  lemma LeaseInner(s: Leases, h: HeliumNetId)
    requires s.used.Keys == {} && s.rows == {} && s.nextOui == 2
    ensures LeaseRange(s, 1, h, InnerRange(h)).Some? && IsSwapped(LeaseRange(s, 1, h, InnerRange(h)).value, h)
  {
    ClaimedSpan(s.used, h, FirstAddr(h) + 1, FirstAddr(h) + 1, FirstAddr(h) + 5);
    assert s.rows + {Row(1, NetIdOf(h), InnerRange(h))} == {Row(1, NetIdOf(h), InnerRange(h))};
  }

  /** A run from the empty store of every NetID in which four addresses are leased twice. */
  lemma UnalignedRangeRun(h: HeliumNetId)
    ensures !NoDoubleLease(Run(Empty, Joining(h) + [Swap(h)] + [UpdateOrg(1, NetIdOf(h), true, [Devaddrs(2)])]))
  {
    var s := Run(Empty, Joining(h));
    JoinedIsSound(h);
    ChangeIs(s, 1, h, FirstRange(h), Swap(h).updates);
    SwapUpdates(s, h);
    RunNext(Empty, Joining(h), Swap(h));
    SwappedSlab(Run(Empty, Joining(h) + [Swap(h)]), h);
    RunNext(Empty, Joining(h) + [Swap(h)], UpdateOrg(1, NetIdOf(h), true, [Devaddrs(2)]));
  }

  lemma SwappedSlab(s: Leases, h: HeliumNetId)
    requires IsSwapped(s, h)
    ensures var r := Apply(s, UpdateOrg(1, NetIdOf(h), true, [Devaddrs(2)])); r.Some? && !NoDoubleLease(r.value)
  {
    assert UsedBy(s, h) == {FirstAddr(h) + 1, FirstAddr(h) + 2, FirstAddr(h) + 3, FirstAddr(h) + 4};
    UnalignedRangeIsLeasedTwice(s, 1, h, 1);
    OneChange(s, h, InnerRange(h), Devaddrs(2));
  }

  // ---------------------------------------------------------------- ranges outside the NetID

  const Low := DevAddrConstraint(0, 1)

  lemma LeaseLow(s: Leases, h: HeliumNetId)
    requires 0 !in s.used && 1 !in s.used
    ensures var r := LeaseRange(s, 1, h, Low);
            r.Some? && UsedBy(r.value, h) == UsedBy(s, h) + {0, 1} && r.value.used.Keys == s.used.Keys + {0, 1}
            && r.value.rows == s.rows + {Row(1, NetIdOf(h), Low)} && r.value.nextOui == s.nextOui
  {
    SpanIs(0, 2);
    assert Span(0, 2) == [0, 1] && ToSet(Span(0, 2)) == {0, 1};
  }

  /** The store lists the addresses 0 and 1 after those of the two upper NetIDs, so a checkout goes on from there. */
  lemma CheckoutFromLow(h: HeliumNetId, used: set<nat>, inside: set<nat>)
    requires h != Type0_0x00003c && AllIn(h, inside) && used == inside + {0, 1}
    ensures Claim(h, used, 2) == Ok([2, 3]) && Checkout(h, used, 2) == Ok([DevAddrConstraint(2, 3)])
  {
    assert IsLastUsed(used, 1);
    ToI32IsInjective(1, LastUsed(h, used));
    assert FreeIn(FirstAddr(h), 2, used) == [];
    assert Offered(h, used) == Span(2, LastAddr(h) + 1);
    SpanSplit(2, 4, LastAddr(h) + 1);
    SpanIs(2, 4);
    assert Span(2, 4) == [2, 3] && Span(2, LastAddr(h) + 1)[..2] == [2, 3];
    GroupTwo(2, 3);
  }

  lemma SlabFromLow(s: Leases, h: HeliumNetId, inside: set<nat>)
    requires h != Type0_0x00003c && AllIn(h, inside) && UsedBy(s, h) == inside + {0, 1} && s.used.Keys == inside + {0, 1}
    ensures var r := LeaseSlab(s, 1, h, 2); r.Some? && Row(1, NetIdOf(h), DevAddrConstraint(2, 3)) in r.value.rows
  {
    CheckoutFromLow(h, UsedBy(s, h), inside);
    SlabIs(s, 1, h, 2, [2, 3], DevAddrConstraint(2, 3));
  }

  /** A run in which an organization of a Helium NetID is given addresses of another NetID: a range is not checked
      against the NetID, and the next slab continues after it. */
  lemma OutsideRangeRun(h: HeliumNetId)
    requires h != Type0_0x00003c
    ensures var s := Run(Empty, [CreateHelium(h, 8)] + [UpdateOrg(1, NetIdOf(h), true, [AddConstraint(Low)])]
                                + [UpdateOrg(1, NetIdOf(h), true, [Devaddrs(2)])]);
            Row(1, NetIdOf(h), DevAddrConstraint(2, 3)) in s.rows && !InRangeOf(h, 2)
  {
    var add, slab := UpdateOrg(1, NetIdOf(h), true, [AddConstraint(Low)]), UpdateOrg(1, NetIdOf(h), true, [Devaddrs(2)]);
    var s := Run(Empty, [CreateHelium(h, 8)]);
    JoinedRun(h);
    LeaseLow(s, h);
    OneChange(s, h, FirstRange(h), AddConstraint(Low));
    RunNext(Empty, [CreateHelium(h, 8)], add);
    var s' := Run(Empty, [CreateHelium(h, 8)] + [add]);
    assert UsedBy(s, h) == s.used.Keys;
    SlabFromLow(s', h, UsedBy(s, h));
    OneChange(s', h, Low, Devaddrs(2));
    RunNext(Empty, [CreateHelium(h, 8)] + [add], slab);
  }

  // ---------------------------------------------------------------- roamers

  lemma HeliumRoamer(s: Leases, h: HeliumNetId)
    requires LeaseInv(s)
    ensures Roam(s, NetIdOf(h)).Some? && !LeaseInv(Roam(s, NetIdOf(h)).value)
  {
    RangesMatchNetIds(h);
    HeliumOfNetId(h);
    UnclaimedRowBreaks(s, h, DevAddrConstraint(FirstAddr(h), LastAddr(h)));
  }

  lemma UnclaimedRowBreaks(s: Leases, h: HeliumNetId, c: DevAddrConstraint)
    requires UsedAreLeased(s) && OuisSound(s) && c.start <= c.end
    ensures !(NoDoubleLease(Enrolled(s, NetIdOf(h), c)) && RowsAreUsed(Enrolled(s, NetIdOf(h), c)))
  {
    HeliumOfNetId(h);
    var row := Row(s.nextOui, NetIdOf(h), c);
    var s' := Enrolled(s, NetIdOf(h), c);
    assert row in s'.rows && Covers(row.range, c.start);
    if c.start in s.used && s.used[c.start] == h {
      var r :| r in s.rows && r.netId == NetIdOf(h) && Covers(r.range, c.start);
      assert r in s'.rows && r != row;
    }
  }

  /** Two roamers whose NetIDs differ only above the bits that fit are leased the same addresses. */
  lemma RoamersShareARange()
    ensures !NoDoubleLease(Run(Empty, [CreateRoamer(0xE0_0000), CreateRoamer(0xE1_0000)]))
  {
    RangesCollide();
    var full := DevAddrConstraint(0xFE00_0000, 0xFE00_007F);
    assert FullRange(0xE0_0000) == Some(full) && FullRange(0xE1_0000) == Some(full);
    var reqs := [CreateRoamer(0xE0_0000), CreateRoamer(0xE1_0000)];
    assert reqs[..1] == [CreateRoamer(0xE0_0000)] && reqs[..1][..0] == [];
    var s1 := Enrolled(Empty, 0xE0_0000, full);
    assert Run(Empty, reqs[..1]) == s1;
    var s2 := Enrolled(s1, 0xE1_0000, full);
    assert Run(Empty, reqs) == s2;
    assert Row(1, 0xE0_0000, full) in s2.rows && Row(2, 0xE1_0000, full) in s2.rows;
    assert Covers(full, 0xFE00_0000);
  }

  predicate AllTrusted(reqs: seq<Request>) {
    forall i :: 0 <= i < |reqs| ==> Trusted(reqs[i])
  }

  /** After the trusted requests, the roamer shares an address with an organization that was there before. */
  ghost predicate DoubleLeases(reqs: seq<Request>, netId: nat) {
    var r := Roam(Run(Empty, reqs), netId);
    AllTrusted(reqs) && r.Some? && !NoDoubleLease(r.value)
  }

  /** Sound leases only of addresses that NetIDs which fit share out. */
  lemma SoundRowIsBelow(r: Row, a: nat)
    requires RowSound(r) && Covers(r.range, a)
    ensures a < FITTING_END
  {
    if Helium(r.netId) == None { FittingIsBelow(r.netId, a); }
  }

  lemma HighRoamerIsAlone(s: Leases, netId: nat, full: DevAddrConstraint)
    requires LeaseInv(s) && FITTING_END <= full.start
    ensures NoDoubleLease(Enrolled(s, netId, full))
  {
    forall r <- s.rows, a: nat | Covers(r.range, a) ensures !Covers(full, a) {
      assert RowSound(r);
      SoundRowIsBelow(r, a);
    }
  }

  lemma EnrolledMeets(s: Leases, netId: nat, full: DevAddrConstraint, r: Row, a: nat)
    requires r in s.rows && Covers(r.range, a) && r.oui < s.nextOui && Covers(full, a)
    ensures !NoDoubleLease(Enrolled(s, netId, full))
  {
    var row := Row(s.nextOui, netId, full);
    assert row in Enrolled(s, netId, full).rows && r in Enrolled(s, netId, full).rows;
    assert Covers(row.range, a) && r != row;
  }

  /** After the trusted requests, `r` leases the address, and all rows are of one NetID. */
  ghost predicate LeasedBy(reqs: seq<Request>, r: Row, netId: nat, a: nat) {
    var s := Run(Empty, reqs);
    && AllTrusted(reqs) && r in s.rows && Covers(r.range, a) && r.oui < s.nextOui
    && forall t <- s.rows :: t.netId == netId
  }

  /** A roamer that comes then shares the address. */
  lemma RoamerMeets(reqs: seq<Request>, r: Row, other: nat, a: nat, netId: nat)
    requires LeasedBy(reqs, r, other, a) && InFullRange(netId, a) && (Helium(netId).Some? || other != netId)
    ensures DoubleLeases(reqs, netId)
  {
    EnrolledMeets(Run(Empty, reqs), netId, FullRange(netId).value, r, a);
  }

  lemma RoamerLeases(other: nat, a: nat)
    requires Fits(other) && Helium(other) == None && InFullRange(other, a)
    ensures LeasedBy([CreateRoamer(other)], Row(1, other, FullRange(other).value), other, a)
  {
    RunOne(Empty, CreateRoamer(other));
  }

  function PairOf(a: nat): DevAddrConstraint {
    DevAddrConstraint(a - a % 2, a - a % 2 + 1)
  }

  lemma FirstSlabLeases(h: HeliumNetId, a: nat)
    requires FirstAddr(h) <= a < FirstAddr(h) + 8
    ensures LeasedBy([CreateHelium(h, 8)], Row(1, NetIdOf(h), FirstRange(h)), NetIdOf(h), a)
  {
    JoinedRun(h);
  }

  lemma PairIsLeased(s: Leases, h: HeliumNetId, a: nat)
    requires FirstAddr(h) + 8 <= a && UsesOnly(s.used, h, FirstAddr(h), FirstAddr(h) + 8)
    ensures var r := LeaseRange(s, 1, h, PairOf(a));
            r.Some? && r.value.nextOui == s.nextOui && r.value.rows == s.rows + {Row(1, NetIdOf(h), PairOf(a))}
  {
    var c := PairOf(a);
    forall b | b in Span(c.start, c.end + 1) ensures b !in s.used { SpanMembers(c.start, c.end + 1, b); }
  }

  lemma PairIsTrusted(h: HeliumNetId, a: nat)
    requires InRangeOf(h, a)
    ensures Trusted(UpdateOrg(1, NetIdOf(h), true, [AddConstraint(PairOf(a))])) && Covers(PairOf(a), a)
  {
    HeliumOfNetId(h);
  }

  lemma AddedPairLeases(h: HeliumNetId, a: nat)
    requires InRangeOf(h, a) && FirstAddr(h) + 8 <= a
    ensures LeasedBy([CreateHelium(h, 8)] + [UpdateOrg(1, NetIdOf(h), true, [AddConstraint(PairOf(a))])],
                     Row(1, NetIdOf(h), PairOf(a)), NetIdOf(h), a)
  {
    var s := Run(Empty, [CreateHelium(h, 8)]);
    var req := UpdateOrg(1, NetIdOf(h), true, [AddConstraint(PairOf(a))]);
    JoinedRun(h);
    PairIsTrusted(h, a);
    AddedPair(s, h, a);
    RunNext(Empty, [CreateHelium(h, 8)], req);
  }

  lemma AddedPair(s: Leases, h: HeliumNetId, a: nat)
    requires FirstAddr(h) + 8 <= a && IsFilled(s, h, 8, {Row(1, NetIdOf(h), FirstRange(h))})
    ensures var r := Apply(s, UpdateOrg(1, NetIdOf(h), true, [AddConstraint(PairOf(a))]));
            && r.Some? && r.value.nextOui == 2
            && r.value.rows == {Row(1, NetIdOf(h), FirstRange(h)), Row(1, NetIdOf(h), PairOf(a))}
  {
    PairIsLeased(s, h, a);
    OneChange(s, h, FirstRange(h), AddConstraint(PairOf(a)));
  }

  lemma HeliumIsLeased(h: HeliumNetId, a: nat)
    requires InRangeOf(h, a)
    ensures exists reqs, r :: LeasedBy(reqs, r, NetIdOf(h), a)
  {
    if a < FirstAddr(h) + 8 { FirstSlabLeases(h, a); } else { AddedPairLeases(h, a); }
  }

  lemma FullRangeOfHelium(netId: nat, h: HeliumNetId, a: nat)
    requires Helium(netId) == Some(h)
    ensures netId == NetIdOf(h) && (InFullRange(netId, a) <==> InRangeOf(h, a))
  {
    RangesMatchNetIds(h);
  }

  /** Every address that fitting NetIDs share out can be leased. */
  lemma AnyIsLeased(other: nat, a: nat)
    requires Fits(other) && InFullRange(other, a)
    ensures exists reqs, r :: LeasedBy(reqs, r, other, a)
  {
    match Helium(other)
    case None => RoamerLeases(other, a);
    case Some(h) =>
      FullRangeOfHelium(other, h, a);
      HeliumIsLeased(h, a);
  }

  lemma MeetsFitting(netId: nat, other: nat, a: nat)
    requires Fits(other) && InFullRange(other, a) && InFullRange(netId, a) && (Helium(netId).Some? || other != netId)
    ensures exists reqs :: DoubleLeases(reqs, netId)
  {
    AnyIsLeased(other, a);
    var reqs, r :| LeasedBy(reqs, r, other, a);
    RoamerMeets(reqs, r, other, a, netId);
  }

  /** Exactly which NetIDs a roamer can bring so that, after some trusted requests, an address is leased twice: those of
      Helium, and those that do not fit and start below the end of the addresses that fitting ones share out. */
  lemma RoamDoubleLeasesIff(netId: nat)
    requires netId < 0x100_0000
    ensures RangeStart(netId).Ok?
    ensures (exists reqs :: DoubleLeases(reqs, netId))
       <==> Helium(netId).Some? || (!Fits(netId) && RangeStart(netId).value < FITTING_END)
  {
    RangeIsNotEmpty(netId);
    if Helium(netId).Some? {
      HeliumDoubleLeases(netId, Helium(netId).value);
    } else if !Fits(netId) && RangeStart(netId).value < FITTING_END {
      MisfitDoubleLeases(netId);
    } else {
      forall reqs ensures !DoubleLeases(reqs, netId) { OtherRoamersAreAlone(netId, reqs); }
    }
  }

  lemma HeliumDoubleLeases(netId: nat, h: HeliumNetId)
    requires Helium(netId) == Some(h)
    ensures exists reqs :: DoubleLeases(reqs, netId)
  {
    RangesMatchNetIds(h);
    FullRangeOfHelium(netId, h, FirstAddr(h));
    MeetsFitting(netId, netId, FirstAddr(h));
  }

  lemma MisfitDoubleLeases(netId: nat)
    requires netId < 0x100_0000 && !Fits(netId) && RangeStart(netId).Ok? && RangeStart(netId).value < FITTING_END
    ensures exists reqs :: DoubleLeases(reqs, netId)
  {
    MisfitSharesIff(netId);
    var other, a :| Fits(other) && other != netId && SharesAddress(netId, other, a);
    MeetsFitting(netId, other, a);
  }

  lemma OtherRoamersAreAlone(netId: nat, reqs: seq<Request>)
    requires Helium(netId) == None && RangeStart(netId).Ok? && (Fits(netId) || FITTING_END <= RangeStart(netId).value)
    ensures !DoubleLeases(reqs, netId)
  {
    var s := Run(Empty, reqs);
    if AllTrusted(reqs) && Roam(s, netId).Some? {
      EmptyIsSound();
      RunKeepsInv(Empty, reqs);
      if Fits(netId) { RoamKeepsInv(s, netId); } else { HighRoamerIsAlone(s, netId, FullRange(netId).value); }
    }
  }
}
