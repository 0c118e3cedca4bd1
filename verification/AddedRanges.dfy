/**
  What slabs do after any range inside the NetID has been added to sound leases: exactly which ranges let them lease an
  address twice, and which only make them fail.
*/
module AddedRanges {
  import opened Wrappers
  import opened DevAddrAllocator
  import opened OrgLeases
  import opened LeaseFaults

  // ---------------------------------------------------------------- grouping around single addresses

  lemma {:induction false} OddRunFails(addrs: seq<nat>, s: nat, e: nat, done: seq<DevAddrConstraint>)
    requires s % 2 == 1
    ensures Group(addrs, Some(s), Some(e), done).Err?
    decreases |addrs|
  {
    if addrs != [] && addrs[0] == e + 1 { OddRunFails(addrs[1..], s, addrs[0], done); }
  }

  lemma OddStartFails(addrs: seq<nat>, s: nat, done: seq<DevAddrConstraint>)
    requires s % 2 == 1
    ensures Group(addrs, Some(s), None, done).Err?
  {
    if addrs != [] { OddRunFails(addrs[1..], s, addrs[0], done); }
  }

  lemma {:induction false} OddAfterRunFails(
    pairs: seq<nat>, x: nat, rest: seq<nat>, s: nat, e: nat, done: seq<DevAddrConstraint>)
    requires PairsAbove(pairs, e) && IsRun(s, e) && x % 2 == 1 && e < x && forall a <- pairs :: a < x
    ensures Group(pairs + ([x] + rest), Some(s), Some(e), done).Err?
    decreases |pairs|
  {
    var all := pairs + ([x] + rest);
    if pairs == [] {
      assert all[1..] == rest;
      OddStartFails(rest, x, done + [DevAddrConstraint(s, e)]);
    } else {
      GroupPair(all, s, e, done);
      assert all[2..] == pairs[2..] + ([x] + rest);
      assert pairs[1] in pairs && forall a <- pairs[2..] :: a in pairs;
      if pairs[0] == e + 1 {
        OddAfterRunFails(pairs[2..], x, rest, s, pairs[1], done);
      } else {
        OddAfterRunFails(pairs[2..], x, rest, pairs[0], pairs[1], done + [DevAddrConstraint(s, e)]);
      }
    }
  }

  /** Pairs followed by a single odd address cannot be grouped, whatever comes after it. */
  lemma OddSingleFails(pairs: seq<nat>, x: nat, rest: seq<nat>)
    requires PairsAbove(pairs, -1) && x % 2 == 1 && forall a <- pairs :: a < x
    ensures Group(pairs + ([x] + rest), None, None, []).Err?
  {
    var all := pairs + ([x] + rest);
    if pairs == [] {
      assert all[1..] == rest;
      OddStartFails(rest, x, []);
    } else {
      FirstPair(all);
      assert all[2..] == pairs[2..] + ([x] + rest);
      assert pairs[1] in pairs && forall a <- pairs[2..] :: a in pairs;
      OddAfterRunFails(pairs[2..], x, rest, pairs[0], pairs[1], []);
    }
  }

  lemma GroupThree(x: nat, y: nat)
    requires x % 2 == 0 && y % 2 == 0 && x < y
    ensures Group([x, y, y + 1], None, None, []) == Ok([DevAddrConstraint(x, y + 1)])
  {
    var none: seq<DevAddrConstraint> := [];
    assert [x, y, y + 1][1..] == [y, y + 1] && [y, y + 1][1..] == [y + 1] && [y + 1][1..] == [];
    assert Group([x, y, y + 1], None, None, []) == Group([y, y + 1], Some(x), None, []);
    assert Group([y, y + 1], Some(x), None, []) == Group([y + 1], Some(x), Some(y), []);
    assert Group([y + 1], Some(x), Some(y), []) == Group([], Some(x), Some(y + 1), []);
    assert none + [DevAddrConstraint(x, y + 1)] == [DevAddrConstraint(x, y + 1)];
  }

  // ---------------------------------------------------------------- lists of free addresses that are safe

  /** The first `k` addresses come in pairs, and then nothing follows, or an odd address, or one address only. */
  predicate SafeAt(free: seq<nat>, k: nat) {
    && k <= |free| && PairsAbove(free[..k], -1)
    && (k == |free| || free[k] % 2 == 1 || k + 1 == |free|)
  }

  /** From such a list exactly the even counts up to `k` can be checked out. */
  lemma SafeCheckout(free: seq<nat>, k: nat, count: nat)
    requires Ascending(free) && SafeAt(free, k)
    ensures CheckoutFrom(free, count).Ok? <==> 0 < count <= k && count % 2 == 0
    ensures CheckoutFrom(free, count).Ok? ==> PairsAbove(free[..count], -1)
  {
    PairsEven(free[..k], -1);
    if 0 < count <= k {
      WithinPairs(free, k, count);
    } else if k < count <= |free| {
      BeyondPairs(free, k, count);
    }
  }

  lemma WithinPairs(free: seq<nat>, k: nat, count: nat)
    requires Ascending(free) && k <= |free| && PairsAbove(free[..k], -1) && 0 < count <= k
    ensures CheckoutFrom(free, count).Ok? <==> count % 2 == 0
    ensures count % 2 == 0 ==> PairsAbove(free[..count], -1)
  {
    var pairs := free[..k];
    assert pairs[..count] == free[..count];
    if count % 2 == 0 {
      EvenGroups(pairs, count);
      PairsPrefix(pairs, -1, count / 2);
    } else {
      OddFails(pairs, count);
    }
  }

  lemma BeyondPairs(free: seq<nat>, k: nat, count: nat)
    requires Ascending(free) && SafeAt(free, k) && k < count <= |free|
    ensures CheckoutFrom(free, count).Err?
  {
    var pairs, x, rest := free[..k], free[k], free[k + 1..count];
    assert free[..count] == pairs + ([x] + rest);
    if x % 2 == 1 {
      OddSingleFails(pairs, x, rest);
    } else {
      assert free[..count] == pairs + [x];
      GroupOddPairs(pairs, x);
    }
  }

  /** What is left after a checkout is such a list again. */
  lemma SafeRest(free: seq<nat>, k: nat, count: nat)
    requires SafeAt(free, k) && count <= k && count % 2 == 0
    ensures SafeAt(free[count..], k - count)
  {
    assert free[count..][..k - count] == free[..k][count..];
    PairsDrop(free[..k], -1, count / 2);
  }

  lemma {:induction false} PairsDrop(s: seq<nat>, floor: int, m: nat)
    requires PairsAbove(s, floor) && 2 * m <= |s| && -1 <= floor
    ensures PairsAbove(s[2 * m..], -1)
    decreases m
  {
    if m == 0 {
      assert s[0..] == s;
      PairsFloor(s, floor, -1);
    } else {
      var rest, d := s[2..], 2 * (m - 1);
      PairsDrop(rest, s[1], m - 1);
      assert rest[d..] == s[2 * m..];
    }
  }

  lemma {:induction false} SameMembers(p: seq<nat>, q: seq<nat>)
    requires Ascending(p) && Ascending(q) && forall a: nat :: a in p <==> a in q
    ensures p == q
    decreases |p|
  {
    assert q == [] || q[0] in q;
    if p != [] {
      assert p[0] in p && p[0] in q;
      FirstIsLeast(p);
      FirstIsLeast(q);
      assert p[0] == q[0];
      AscendingTail(p);
      AscendingTail(q);
      forall a: nat ensures a in p[1..] <==> a in q[1..] {
        TailHas(p, a);
        TailHas(q, a);
      }
      SameMembers(p[1..], q[1..]);
      assert p == [p[0]] + p[1..] && q == [q[0]] + q[1..];
    }
  }

  lemma TailHas(s: seq<nat>, a: nat)
    requires s != [] && Ascending(s)
    ensures a in s[1..] <==> a in s && a != s[0]
  {
    if a in s && a != s[0] {
      var i :| 0 <= i < |s| && s[i] == a;
      assert s[1..][i - 1] == a;
    }
    if a in s[1..] {
      var i :| 0 <= i < |s| - 1 && s[1..][i] == a;
      assert s[i + 1] == a;
    }
  }

  lemma DropHas(s: seq<nat>, n: nat, a: nat)
    requires Ascending(s) && n <= |s|
    ensures a in s[n..] <==> a in s && a !in s[..n]
  {
    if a in s && a !in s[..n] {
      var i :| 0 <= i < |s| && s[i] == a;
      assert n <= i;
      assert s[n..][i - n] == a;
    }
    if a in s[n..] {
      var i :| 0 <= i < |s| - n && s[n..][i] == a;
      assert s[n + i] == a;
    }
  }

  /** Once the lowest free addresses are claimed, the others are left. */
  lemma FreeAfterClaim(lo: nat, hi: nat, used: set<nat>, count: nat, free: seq<nat>)
    requires free == FreeIn(lo, hi, used) && count <= |free|
    ensures FreeIn(lo, hi, used + ToSet(free[..count])) == free[count..]
  {
    var used' := used + ToSet(free[..count]);
    FreeInIs(lo, hi, used);
    FreeInIs(lo, hi, used');
    forall a: nat ensures a in FreeIn(lo, hi, used') <==> a in free[count..] { DropHas(free, count, a); }
    SameMembers(FreeIn(lo, hi, used'), free[count..]);
  }

  // ---------------------------------------------------------------- slabs and releases one after the other

  /** A slab is leased, or a leased range of the NetID is given back. */
  datatype Move = Take(oui: nat, count: nat) | GiveBack(row: Row)

  /** A slab that fails leaves the state as it was, and so does a range that is not leased. */
  ghost function AfterMove(s: Leases, h: HeliumNetId, m: Move): Leases {
    match m
    case Take(oui, count) => (match LeaseSlab(s, oui, h, count) case Some(s') => s' case None => s)
    case GiveBack(r) => if r in s.rows && r.netId == NetIdOf(h) then ReleaseRange(s, r.oui, h, r.range) else s
  }

  ghost function After(s: Leases, h: HeliumNetId, moves: seq<Move>): Leases
    decreases |moves|
  {
    if moves == [] then s else AfterMove(After(s, h, moves[..|moves| - 1]), h, moves[|moves| - 1])
  }

  predicate OnlySlabs(moves: seq<Move>) {
    forall i :: 0 <= i < |moves| ==> moves[i].Take?
  }

  ghost predicate DoubleLeasesBy(s: Leases, h: HeliumNetId, moves: seq<Move>) {
    !NoDoubleLease(After(s, h, moves))
  }

  /** Two slabs at most do so. */
  ghost predicate TwoSlabsDoubleLease(s: Leases, h: HeliumNetId, moves: seq<Move>) {
    |moves| <= 2 && OnlySlabs(moves) && DoubleLeasesBy(s, h, moves)
  }

  ghost function FreeOf(s: Leases, h: HeliumNetId): seq<nat> {
    Free(h, UsedBy(s, h))
  }

  lemma SlabIffGrouped(s: Leases, oui: nat, h: HeliumNetId, count: nat)
    requires UsedInRange(s)
    ensures LeaseSlab(s, oui, h, count).Some? <==> CheckoutFrom(FreeOf(s, h), count).Ok?
  {
    SlabIffCheckout(s, oui, h, count);
    OfferedIsFree(h, UsedBy(s, h));
  }

  lemma SlabUses(s: Leases, oui: nat, h: HeliumNetId, count: nat)
    requires UsedInRange(s) && LeaseSlab(s, oui, h, count).Some?
    ensures count <= |FreeOf(s, h)|
    ensures UsedBy(LeaseSlab(s, oui, h, count).value, h) == UsedBy(s, h) + ToSet(FreeOf(s, h)[..count])
  {
    OfferedIsFree(h, UsedBy(s, h));
  }

  lemma SlabLeavesFree(s: Leases, oui: nat, h: HeliumNetId, count: nat)
    requires UsedInRange(s) && LeaseSlab(s, oui, h, count).Some?
    ensures count <= |FreeOf(s, h)| && FreeOf(LeaseSlab(s, oui, h, count).value, h) == FreeOf(s, h)[count..]
  {
    var used, free := UsedBy(s, h), FreeOf(s, h);
    SlabUses(s, oui, h, count);
    FreeAfterClaim(FirstAddr(h), LastAddr(h) + 1, used, count, free);
  }

  lemma PairedSlabKeepsBooks(s: Leases, oui: nat, h: HeliumNetId, count: nat)
    requires BooksAgree(s) && LeaseSlab(s, oui, h, count).Some?
    requires count <= |FreeOf(s, h)| && PairsAbove(FreeOf(s, h)[..count], -1)
    ensures BooksAgree(LeaseSlab(s, oui, h, count).value)
  {
    var cs, addrs := Checkout(h, UsedBy(s, h), count).value, SlabAddrs(s, h, count);
    var rows := RowsFor(oui, NetIdOf(h), cs);
    OfferedIsFree(h, UsedBy(s, h));
    ExactIffPairs(FreeOf(s, h), count);
    SlabAddrsAreFree(s, h, count);
    RunsAreGrants(cs, oui, h);
    GrantKeepsBooks(s, oui, h, ToSet(addrs), rows);
    SlabDoubleLeasesIff(s, oui, h, count);
  }

  lemma GrantKeepsBooks(s: Leases, oui: nat, h: HeliumNetId, addrs: set<nat>, rows: set<Row>)
    requires BooksAgree(s) && Grants(rows, oui, h, addrs) && addrs !! s.used.Keys
    ensures var s' := Granted(s, h, addrs, rows);
            RowsAreUsed(s') && UsedAreLeased(s') && UsedInRange(s') && RoamersSound(s')
  {
    HeliumOfNetId(h);
    GrantRowsUsed(s, oui, h, addrs, rows);
    GrantUsedLeased(s, oui, h, addrs, rows);
    GrantUsedInRange(s, oui, h, addrs, rows);
  }

  ghost predicate SlabsAreSafe(s: Leases, h: HeliumNetId) {
    BooksAgree(s) && exists k: nat :: SafeAt(FreeOf(s, h), k)
  }

  lemma SlabStaysSafe(s: Leases, oui: nat, h: HeliumNetId, count: nat, k: nat)
    requires BooksAgree(s) && SafeAt(FreeOf(s, h), k) && LeaseSlab(s, oui, h, count).Some?
    ensures SlabsAreSafe(LeaseSlab(s, oui, h, count).value, h)
  {
    SlabIffGrouped(s, oui, h, count);
    FreeInAscends(FirstAddr(h), LastAddr(h) + 1, UsedBy(s, h));
    SafeCheckout(FreeOf(s, h), k, count);
    PairedSlabKeepsBooks(s, oui, h, count);
    SlabLeavesFree(s, oui, h, count);
    SafeRest(FreeOf(s, h), k, count);
    assert SafeAt(FreeOf(LeaseSlab(s, oui, h, count).value, h), k - count);
  }

  /** From a safe state no list of slabs leases an address twice. */
  lemma {:induction false} SlabsStaySafe(s: Leases, h: HeliumNetId, moves: seq<Move>)
    requires SlabsAreSafe(s, h) && OnlySlabs(moves)
    ensures SlabsAreSafe(After(s, h, moves), h)
    decreases |moves|
  {
    if moves != [] {
      var n := |moves| - 1;
      var before, m := After(s, h, moves[..n]), moves[n];
      SlabsStaySafe(s, h, moves[..n]);
      var k: nat :| SafeAt(FreeOf(before, h), k);
      if LeaseSlab(before, m.oui, h, m.count).Some? { SlabStaysSafe(before, m.oui, h, m.count, k); }
    }
  }

  // ---------------------------------------------------------------- the free addresses around an added range

  lemma {:induction false} FreeAgrees(lo: nat, hi: nat, used: set<nat>, used': set<nat>)
    requires forall a: nat | lo <= a < hi :: a in used <==> a in used'
    ensures FreeIn(lo, hi, used) == FreeIn(lo, hi, used')
    decreases hi - lo
  {
    if lo < hi { FreeAgrees(lo + 1, hi, used, used'); }
  }

  lemma FreeAround(first: nat, last: nat, used: set<nat>, c: DevAddrConstraint, used': set<nat>)
    requires first <= c.start <= c.end <= last && forall a: nat :: a in used' <==> a in used || c.start <= a <= c.end
    ensures FreeIn(first, last + 1, used') == FreeIn(first, c.start, used) + FreeIn(c.end + 1, last + 1, used)
  {
    FreeInSplit(first, c.start, last + 1, used');
    FreeSkips(c.start, c.end + 1, last + 1, used');
    SameOutside(first, last, used, c, used');
  }

  lemma FreeSkips(lo: nat, mid: nat, hi: nat, used: set<nat>)
    requires lo <= mid <= hi && forall a | lo <= a < mid :: a in used
    ensures FreeIn(lo, hi, used) == FreeIn(mid, hi, used)
  {
    FreeInSplit(lo, mid, hi, used);
    NoneFree(lo, mid, used);
  }

  lemma SameOutside(first: nat, last: nat, used: set<nat>, c: DevAddrConstraint, used': set<nat>)
    requires forall a: nat :: a in used' <==> a in used || c.start <= a <= c.end
    ensures FreeIn(first, c.start, used') == FreeIn(first, c.start, used)
    ensures FreeIn(c.end + 1, last + 1, used') == FreeIn(c.end + 1, last + 1, used)
  {
    FreeAgrees(first, c.start, used', used);
    FreeAgrees(c.end + 1, last + 1, used', used);
  }

  /** The addresses below a range that starts at an odd address end with a single even one. */
  lemma FreeBelowOdd(first: nat, start: nat, used: set<nat>)
    requires first % 2 == 0 && first < start && start % 2 == 1 && PairAligned(used) && start !in used
    ensures FreeIn(first, start, used) == FreeIn(first, start - 1, used) + [start - 1]
  {
    FreeInSplit(first, start - 1, start, used);
    assert Partner(start) == start - 1;
    assert start in used <==> Partner(start) in used;
  }

  lemma EvenFreeIsPairs(lo: nat, hi: nat, used: set<nat>)
    requires lo % 2 == 0 && hi % 2 == 0 && lo <= hi && PairAligned(used)
    ensures PairsAbove(FreeIn(lo, hi, used), -1)
  {
    FreePairs(lo, hi, used);
    PairsFloor(FreeIn(lo, hi, used), lo - 1, -1);
  }

  /** The addresses above a range that ends at an even address start with a single odd one. */
  lemma FreeAboveEven(end: nat, last: nat, used: set<nat>)
    requires end % 2 == 0 && end < last && PairAligned(used) && end !in used
    ensures FreeIn(end + 1, last + 1, used) == [end + 1] + FreeIn(end + 2, last + 1, used)
  {
    assert Partner(end) == end + 1;
    assert end in used <==> Partner(end) in used;
  }

  // ---------------------------------------------------------------- ranges that are safe

  /** The range leaves a single even address below it, and something is free above. */
  predicate LeavesGap(h: HeliumNetId, used: set<nat>, c: DevAddrConstraint) {
    c.start % 2 == 1 && !UsedAbove(h, used, c.end)
  }

  lemma OddStartIsSafe(first: nat, last: nat, used: set<nat>, c: DevAddrConstraint, free: seq<nat>)
    requires first % 2 == 0 && c.start % 2 == 1 && first <= c.start && PairAligned(used) && c.start !in used
    requires forall b: nat | c.end < b <= last :: b in used
    requires free == FreeIn(first, c.start, used) + FreeIn(c.end + 1, last + 1, used)
    ensures exists k: nat :: SafeAt(free, k)
  {
    var pairs := FreeIn(first, c.start - 1, used);
    NoneFree(c.end + 1, last + 1, used);
    FreeBelowOdd(first, c.start, used);
    EvenFreeIsPairs(first, c.start - 1, used);
    SingleIsSafe(pairs, c.start - 1, free);
  }

  lemma SingleIsSafe(pairs: seq<nat>, x: nat, free: seq<nat>)
    requires PairsAbove(pairs, -1) && free == pairs + [x]
    ensures SafeAt(free, |pairs|)
  {
    assert free[..|pairs|] == pairs;
  }

  lemma OddNextIsSafe(pairs: seq<nat>, x: nat, rest: seq<nat>, free: seq<nat>)
    requires PairsAbove(pairs, -1) && x % 2 == 1 && free == pairs + ([x] + rest)
    ensures SafeAt(free, |pairs|)
  {
    assert free[..|pairs|] == pairs && free[|pairs|] == x;
  }

  lemma EvenEndIsSafe(first: nat, last: nat, used: set<nat>, c: DevAddrConstraint, free: seq<nat>)
    requires first % 2 == 0 && last % 2 == 1 && c.start % 2 == 0 && c.end % 2 == 0 && first <= c.start <= c.end <= last
    requires PairAligned(used) && c.end !in used
    requires free == FreeIn(first, c.start, used) + FreeIn(c.end + 1, last + 1, used)
    ensures SafeAt(free, |FreeIn(first, c.start, used)|)
  {
    EvenFreeIsPairs(first, c.start, used);
    FreeAboveEven(c.end, last, used);
    OddNextIsSafe(FreeIn(first, c.start, used), c.end + 1, FreeIn(c.end + 2, last + 1, used), free);
  }

  lemma AlignedIsSafe(first: nat, last: nat, used: set<nat>, c: DevAddrConstraint, free: seq<nat>)
    requires first % 2 == 0 && last % 2 == 1 && c.start % 2 == 0 && c.end % 2 == 1 && first <= c.start <= c.end <= last
    requires PairAligned(used)
    requires free == FreeIn(first, c.start, used) + FreeIn(c.end + 1, last + 1, used)
    ensures SafeAt(free, |free|)
  {
    EvenFreeIsPairs(first, c.start, used);
    FreePairs(c.end + 1, last + 1, used);
    forall a <- FreeIn(first, c.start, used) ensures a <= c.end { FreeInHas(first, c.start, used, a); }
    PairsConcat(FreeIn(first, c.start, used), FreeIn(c.end + 1, last + 1, used), -1, c.end);
    assert free[..|free|] == free;
  }

  lemma SafeList(first: nat, last: nat, used: set<nat>, c: DevAddrConstraint, free: seq<nat>)
    requires first % 2 == 0 && last % 2 == 1 && first <= c.start <= c.end <= last && PairAligned(used)
    requires c.start !in used && c.end !in used
    requires c.start % 2 == 1 ==> forall b: nat | c.end < b <= last :: b in used
    requires free == FreeIn(first, c.start, used) + FreeIn(c.end + 1, last + 1, used)
    ensures exists k: nat :: SafeAt(free, k)
  {
    if c.start % 2 == 1 {
      OddStartIsSafe(first, last, used, c, free);
    } else if c.end % 2 == 0 {
      EvenEndIsSafe(first, last, used, c, free);
    } else {
      AlignedIsSafe(first, last, used, c, free);
    }
  }

  // ---------------------------------------------------------------- ranges that are not

  /** A single even address followed by others that are not next to it, the first of which is odd or half of a pair. */
  predicate GapBefore(x: nat, above: seq<nat>) {
    && x % 2 == 0 && above != [] && x + 1 < above[0]
    && (above[0] % 2 == 0 ==> 2 <= |above| && above[1] == above[0] + 1)
  }

  /** Pairs, then such an address with a gap behind it. */
  predicate IsGap(free: seq<nat>, pairs: seq<nat>, x: nat, above: seq<nat>) {
    PairsAbove(pairs, -1) && GapBefore(x, above) && free == pairs + ([x] + above)
  }

  /** How many addresses to ask for, so that the single one is grouped with those above the gap. */
  function Reach(above: seq<nat>): nat
    requires above != []
  {
    if above[0] % 2 == 1 then 2 else 3
  }

  lemma ReachGroups(x: nat, above: seq<nat>, free: seq<nat>)
    requires GapBefore(x, above) && free == [x] + above
    ensures CheckoutFrom(free, Reach(above)).Ok? && !PairsAbove(free[..Reach(above)], -1)
  {
    if above[0] % 2 == 1 {
      assert free[..2] == [x, above[0]];
      GroupTwo(x, above[0]);
    } else {
      assert free[..3] == [x, above[0], above[0] + 1];
      GroupThree(x, above[0]);
    }
  }

  lemma GapSlab(s: Leases, oui: nat, h: HeliumNetId, x: nat, above: seq<nat>)
    requires BooksAgree(s) && GapBefore(x, above) && FreeOf(s, h) == [x] + above
    ensures LeaseSlab(s, oui, h, Reach(above)).Some? && !NoDoubleLease(LeaseSlab(s, oui, h, Reach(above)).value)
  {
    ReachGroups(x, above, FreeOf(s, h));
    SlabIffGrouped(s, oui, h, Reach(above));
    SlabDoubleLeasesIff(s, oui, h, Reach(above));
  }

  lemma PairsSlab(s: Leases, oui: nat, h: HeliumNetId, pairs: seq<nat>, rest: seq<nat>)
    requires BooksAgree(s) && pairs != [] && PairsAbove(pairs, -1) && FreeOf(s, h) == pairs + rest
    ensures var r := LeaseSlab(s, oui, h, |pairs|); r.Some? && BooksAgree(r.value) && FreeOf(r.value, h) == rest
  {
    assert FreeOf(s, h)[..|pairs|] == pairs && FreeOf(s, h)[|pairs|..] == rest;
    GroupAllPairs(pairs);
    SlabIffGrouped(s, oui, h, |pairs|);
    PairedSlabKeepsBooks(s, oui, h, |pairs|);
    SlabLeavesFree(s, oui, h, |pairs|);
  }

  lemma OneMove(s: Leases, h: HeliumNetId, m: Move)
    ensures After(s, h, [m]) == AfterMove(s, h, m)
  {
    assert [m][..0] == [];
  }

  lemma TwoMoves(s: Leases, h: HeliumNetId, a: Move, b: Move)
    ensures After(s, h, [a, b]) == AfterMove(AfterMove(s, h, a), h, b)
  {
    OneMove(s, h, a);
    assert [a, b][..1] == [a];
  }

  lemma {:induction false} AfterFirst(s: Leases, h: HeliumNetId, m: Move, moves: seq<Move>)
    ensures After(s, h, [m] + moves) == After(AfterMove(s, h, m), h, moves)
    decreases |moves|
  {
    if moves == [] {
      assert [m] + moves == [m];
      OneMove(s, h, m);
    } else {
      var n := |moves| - 1;
      AfterFirst(s, h, m, moves[..n]);
      AfterLast(s, h, [m] + moves[..n], moves[n]);
      assert [m] + moves == ([m] + moves[..n]) + [moves[n]];
    }
  }

  lemma AfterLast(s: Leases, h: HeliumNetId, moves: seq<Move>, m: Move)
    ensures After(s, h, moves + [m]) == AfterMove(After(s, h, moves), h, m)
  {
    assert (moves + [m])[..|moves|] == moves;
  }

  lemma GapFirst(s: Leases, oui: nat, h: HeliumNetId, x: nat, above: seq<nat>)
    requires BooksAgree(s) && GapBefore(x, above) && FreeOf(s, h) == [x] + above
    ensures TwoSlabsDoubleLease(s, h, [Take(oui, Reach(above))])
  {
    GapSlab(s, oui, h, x, above);
    OneMove(s, h, Take(oui, Reach(above)));
  }

  lemma TakeIs(s: Leases, oui: nat, h: HeliumNetId, count: nat, s': Leases)
    requires LeaseSlab(s, oui, h, count) == Some(s')
    ensures AfterMove(s, h, Take(oui, count)) == s'
  {}

  lemma TakeTwice(s: Leases, oui: nat, h: HeliumNetId, a: nat, b: nat, s': Leases, s'': Leases)
    requires LeaseSlab(s, oui, h, a) == Some(s') && LeaseSlab(s', oui, h, b) == Some(s'')
    ensures After(s, h, [Take(oui, a), Take(oui, b)]) == s''
  {
    TakeIs(s, oui, h, a, s');
    TakeIs(s', oui, h, b, s'');
    TwoMoves(s, h, Take(oui, a), Take(oui, b));
  }

  lemma PairsThenGap(s: Leases, oui: nat, h: HeliumNetId, pairs: seq<nat>, x: nat, above: seq<nat>)
    returns (s': Leases, s'': Leases)
    requires BooksAgree(s) && pairs != [] && IsGap(FreeOf(s, h), pairs, x, above)
    ensures LeaseSlab(s, oui, h, |pairs|) == Some(s') && LeaseSlab(s', oui, h, Reach(above)) == Some(s'')
    ensures !NoDoubleLease(s'')
  {
    PairsSlab(s, oui, h, pairs, [x] + above);
    s' := LeaseSlab(s, oui, h, |pairs|).value;
    GapSlab(s', oui, h, x, above);
    s'' := LeaseSlab(s', oui, h, Reach(above)).value;
  }

  /** At most two slabs, leased to anyone, reach over the gap. */
  lemma GapSlabs(s: Leases, oui: nat, h: HeliumNetId, pairs: seq<nat>, x: nat, above: seq<nat>) returns (moves: seq<Move>)
    requires BooksAgree(s) && IsGap(FreeOf(s, h), pairs, x, above)
    ensures TwoSlabsDoubleLease(s, h, moves)
  {
    if pairs == [] {
      assert pairs + ([x] + above) == [x] + above;
      GapFirst(s, oui, h, x, above);
      moves := [Take(oui, Reach(above))];
    } else {
      var s', s'' := PairsThenGap(s, oui, h, pairs, x, above);
      TakeTwice(s, oui, h, |pairs|, Reach(above), s', s'');
      moves := [Take(oui, |pairs|), Take(oui, Reach(above))];
    }
  }

  lemma FirstAbove(lo: nat, last: nat, used: set<nat>, b: nat)
    requires lo <= b <= last && b !in used
    ensures FreeIn(lo, last + 1, used) != [] && lo <= FreeIn(lo, last + 1, used)[0]
  {
    var free := FreeIn(lo, last + 1, used);
    FreeInHas(lo, last + 1, used, b);
    FreeInHas(lo, last + 1, used, free[0]);
  }

  lemma GapAbove(last: nat, used: set<nat>, c: DevAddrConstraint, above: seq<nat>)
    requires last % 2 == 1 && c.start % 2 == 1 && c.start <= c.end <= last && PairAligned(used) && c.end !in used
    requires exists b: nat :: c.end < b <= last && b !in used
    requires above == FreeIn(c.end + 1, last + 1, used)
    ensures GapBefore(c.start - 1, above)
  {
    var b: nat :| c.end < b <= last && b !in used;
    FirstAbove(c.end + 1, last, used, b);
    if c.end % 2 == 0 {
      FreeAboveEven(c.end, last, used);
    } else {
      EvenFreeIsPairs(c.end + 1, last + 1, used);
    }
  }

  lemma GapList(first: nat, last: nat, used: set<nat>, c: DevAddrConstraint)
    requires first % 2 == 0 && last % 2 == 1 && c.start % 2 == 1 && first <= c.start <= c.end <= last
    requires PairAligned(used) && c.start !in used && c.end !in used
    requires exists b: nat :: c.end < b <= last && b !in used
    ensures var pairs, above := FreeIn(first, c.start - 1, used), FreeIn(c.end + 1, last + 1, used);
            && PairsAbove(pairs, -1) && GapBefore(c.start - 1, above)
            && FreeIn(first, c.start, used) + above == pairs + ([c.start - 1] + above)
  {
    FreeBelowOdd(first, c.start, used);
    EvenFreeIsPairs(first, c.start - 1, used);
    GapAbove(last, used, c, FreeIn(c.end + 1, last + 1, used));
  }

  // ---------------------------------------------------------------- the exact condition

  lemma RangeEnds(h: HeliumNetId)
    ensures FirstAddr(h) % 2 == 0 && LastAddr(h) % 2 == 1
  {
    match h case Type0_0x00003c => case Type3_0x60002d => case Type6_0xc00053 =>
  }

  lemma FreeAfterRange(s: Leases, oui: nat, h: HeliumNetId, c: DevAddrConstraint)
    requires InsideOf(h, c) && LeaseRange(s, oui, h, c).Some?
    ensures Fresh(h, UsedBy(s, h), c)
    ensures FreeOf(LeaseRange(s, oui, h, c).value, h)
         == FreeIn(FirstAddr(h), c.start, UsedBy(s, h)) + FreeIn(c.end + 1, LastAddr(h) + 1, UsedBy(s, h))
  {
    RangeIsUsed(s, oui, h, c);
    FreeAround(FirstAddr(h), LastAddr(h), UsedBy(s, h), c, UsedBy(LeaseRange(s, oui, h, c).value, h));
  }

  lemma RangeKeepsBooks(s: Leases, oui: nat, h: HeliumNetId, c: DevAddrConstraint)
    requires LeaseInv(s) && InsideOf(h, c) && LeaseRange(s, oui, h, c).Some?
    ensures BooksAgree(LeaseRange(s, oui, h, c).value) && PairAligned(UsedBy(s, h))
  {
    AddedRangeKeepsBooks(s, oui, h, c);
  }

  /** The range is inside the NetID and was unused. */
  predicate Fresh(h: HeliumNetId, used: set<nat>, c: DevAddrConstraint) {
    FirstAddr(h) <= c.start <= c.end <= LastAddr(h) && c.start !in used && c.end !in used
  }

  lemma SafeFree(h: HeliumNetId, used: set<nat>, c: DevAddrConstraint, free: seq<nat>)
    requires PairAligned(used) && Fresh(h, used, c) && !LeavesGap(h, used, c)
    requires free == FreeIn(FirstAddr(h), c.start, used) + FreeIn(c.end + 1, LastAddr(h) + 1, used)
    ensures exists k: nat :: SafeAt(free, k)
  {
    RangeEnds(h);
    SafeList(FirstAddr(h), LastAddr(h), used, c, free);
  }

  lemma GapFree(h: HeliumNetId, used: set<nat>, c: DevAddrConstraint, free: seq<nat>)
    requires PairAligned(used) && Fresh(h, used, c) && LeavesGap(h, used, c)
    requires free == FreeIn(FirstAddr(h), c.start, used) + FreeIn(c.end + 1, LastAddr(h) + 1, used)
    ensures exists pairs, x, above :: IsGap(free, pairs, x, above)
  {
    RangeEnds(h);
    GapList(FirstAddr(h), LastAddr(h), used, c);
    assert IsGap(free, FreeIn(FirstAddr(h), c.start - 1, used), c.start - 1, FreeIn(c.end + 1, LastAddr(h) + 1, used));
  }

  lemma RangeIsSafe(s: Leases, oui: nat, h: HeliumNetId, c: DevAddrConstraint)
    requires LeaseInv(s) && InsideOf(h, c) && LeaseRange(s, oui, h, c).Some? && !LeavesGap(h, UsedBy(s, h), c)
    ensures SlabsAreSafe(LeaseRange(s, oui, h, c).value, h)
  {
    RangeKeepsBooks(s, oui, h, c);
    FreeAfterRange(s, oui, h, c);
    SafeFree(h, UsedBy(s, h), c, FreeOf(LeaseRange(s, oui, h, c).value, h));
  }

  lemma RangeIsNotSafe(s: Leases, oui: nat, h: HeliumNetId, c: DevAddrConstraint)
    requires LeaseInv(s) && InsideOf(h, c) && LeaseRange(s, oui, h, c).Some? && LeavesGap(h, UsedBy(s, h), c)
    ensures exists moves :: TwoSlabsDoubleLease(LeaseRange(s, oui, h, c).value, h, moves)
  {
    var s' := LeaseRange(s, oui, h, c).value;
    RangeKeepsBooks(s, oui, h, c);
    FreeAfterRange(s, oui, h, c);
    GapFree(h, UsedBy(s, h), c, FreeOf(s', h));
    var pairs, x, above :| IsGap(FreeOf(s', h), pairs, x, above);
    var moves := GapSlabs(s', oui, h, pairs, x, above);
  }

  /** After any range inside the NetID has been added to a sound state, some list of slabs leases an address twice if and
      only if the range starts at an odd address and something is free above it; two slabs are then enough. */
  lemma AddedRangeDoubleLeasesIff(s: Leases, oui: nat, h: HeliumNetId, c: DevAddrConstraint)
    requires LeaseInv(s) && InsideOf(h, c) && LeaseRange(s, oui, h, c).Some?
    ensures var s' := LeaseRange(s, oui, h, c).value;
            && ((exists moves :: OnlySlabs(moves) && DoubleLeasesBy(s', h, moves)) <==> LeavesGap(h, UsedBy(s, h), c))
            && (LeavesGap(h, UsedBy(s, h), c) ==> exists moves :: TwoSlabsDoubleLease(s', h, moves))
  {
    var s' := LeaseRange(s, oui, h, c).value;
    if LeavesGap(h, UsedBy(s, h), c) {
      RangeIsNotSafe(s, oui, h, c);
    } else {
      RangeIsSafe(s, oui, h, c);
      forall moves | OnlySlabs(moves) ensures !DoubleLeasesBy(s', h, moves) { SlabsStaySafe(s', h, moves); }
    }
  }

  /** A range with even start and even end only makes slabs fail: exactly the even counts of at most the free addresses
      below it succeed. */
  lemma EvenEndBlocksSlabs(s: Leases, oui: nat, h: HeliumNetId, c: DevAddrConstraint, other: nat, count: nat)
    requires LeaseInv(s) && InsideOf(h, c) && LeaseRange(s, oui, h, c).Some? && c.start % 2 == 0 && c.end % 2 == 0
    ensures LeaseSlab(LeaseRange(s, oui, h, c).value, other, h, count).Some?
       <==> 0 < count <= |FreeIn(FirstAddr(h), c.start, UsedBy(s, h))| && count % 2 == 0
  {
    var used, s' := UsedBy(s, h), LeaseRange(s, oui, h, c).value;
    RangeEnds(h);
    RangeKeepsBooks(s, oui, h, c);
    FreeAfterRange(s, oui, h, c);
    EvenEndIsSafe(FirstAddr(h), LastAddr(h), used, c, FreeOf(s', h));
    FreeInAscends(FirstAddr(h), LastAddr(h) + 1, UsedBy(s', h));
    SafeCheckout(FreeOf(s', h), |FreeIn(FirstAddr(h), c.start, used)|, count);
    SlabIffGrouped(s', other, h, count);
  }

  // ---------------------------------------------------------------- slabs and releases

  /** Every row of the NetID is aligned, or has the range `c` if that one is held. */
  predicate RowsFit(s: Leases, h: HeliumNetId, c: DevAddrConstraint, held: bool) {
    forall r <- s.rows | r.netId == NetIdOf(h) :: Aligned(r.range) || (held && r.range == c)
  }

  /** The used addresses are `paired` and, while it is held, the range `c`. */
  ghost predicate UsedFit(used: set<nat>, paired: set<nat>, c: DevAddrConstraint, held: bool) {
    && PairAligned(paired)
    && (forall a: nat :: a in used <==> a in paired || (held && Covers(c, a)))
    && (held ==> forall a: nat | Covers(c, a) :: a !in paired)
  }

  ghost predicate HasRange(s: Leases, h: HeliumNetId, c: DevAddrConstraint) {
    exists r <- s.rows :: r.netId == NetIdOf(h) && r.range == c
  }

  /** The books agree, and at most the range `c` is not aligned. */
  ghost predicate OneOdd(s: Leases, h: HeliumNetId, c: DevAddrConstraint, paired: set<nat>, held: bool) {
    && BooksAgree(s) && RowsFit(s, h, c, held) && UsedFit(UsedBy(s, h), paired, c, held) && (held ==> HasRange(s, h, c))
  }

  /** The range cannot become the lower end of a gap. */
  predicate NeverGaps(h: HeliumNetId, c: DevAddrConstraint) {
    InsideOf(h, c) && c.start <= c.end && (c.start % 2 == 0 || c.end == LastAddr(h))
  }

  lemma OneOddIsSafe(s: Leases, h: HeliumNetId, c: DevAddrConstraint, paired: set<nat>, held: bool)
    requires OneOdd(s, h, c, paired, held) && NeverGaps(h, c)
    ensures exists k: nat :: SafeAt(FreeOf(s, h), k)
  {
    if held {
      FreeAround(FirstAddr(h), LastAddr(h), paired, c, UsedBy(s, h));
      SafeFree(h, paired, c, FreeOf(s, h));
    } else {
      assert UsedBy(s, h) == paired;
      RangeEnds(h);
      EvenFreeIsPairs(FirstAddr(h), LastAddr(h) + 1, paired);
      assert FreeOf(s, h)[..|FreeOf(s, h)|] == FreeOf(s, h);
      assert SafeAt(FreeOf(s, h), |FreeOf(s, h)|);
    }
  }

  lemma TakeKeepsUsed(used: set<nat>, paired: set<nat>, c: DevAddrConstraint, held: bool,
                      free: seq<nat>, count: nat, lo: nat, hi: nat)
    requires UsedFit(used, paired, c, held) && free == FreeIn(lo, hi, used) && 0 < count <= |free|
    requires PairsAbove(free[..count], -1)
    ensures UsedFit(used + ToSet(free[..count]), paired + ToSet(free[..count]), c, held)
  {
    FreeInIs(lo, hi, used);
    assert forall a <- free[..count] :: a in free;
    PairsEven(free[..count], -1);
    AlignedUnion(paired, free[..count]);
  }

  lemma SlabRowsFit(s: Leases, oui: nat, h: HeliumNetId, count: nat, c: DevAddrConstraint, held: bool)
    requires UsedInRange(s) && RowsFit(s, h, c, held) && LeaseSlab(s, oui, h, count).Some?
    requires count <= |FreeOf(s, h)| && PairsAbove(FreeOf(s, h)[..count], -1)
    ensures RowsFit(LeaseSlab(s, oui, h, count).value, h, c, held) && s.rows <= LeaseSlab(s, oui, h, count).value.rows
  {
    var cs := Checkout(h, UsedBy(s, h), count).value;
    OfferedIsFree(h, UsedBy(s, h));
    ExactIffPairs(FreeOf(s, h), count);
    assert forall d <- cs :: Aligned(d);
  }

  lemma TakeKeepsOneOdd(s: Leases, oui: nat, h: HeliumNetId, count: nat, c: DevAddrConstraint, paired: set<nat>, held: bool)
    requires OneOdd(s, h, c, paired, held) && NeverGaps(h, c) && LeaseSlab(s, oui, h, count).Some?
    ensures StaysOdd(LeaseSlab(s, oui, h, count).value, h, c)
  {
    var free, s' := FreeOf(s, h), LeaseSlab(s, oui, h, count).value;
    OneOddIsSafe(s, h, c, paired, held);
    var k: nat :| SafeAt(free, k);
    SlabIffGrouped(s, oui, h, count);
    FreeInAscends(FirstAddr(h), LastAddr(h) + 1, UsedBy(s, h));
    SafeCheckout(free, k, count);
    PairedSlabKeepsBooks(s, oui, h, count);
    SlabRowsFit(s, oui, h, count, c, held);
    SlabUses(s, oui, h, count);
    TakeKeepsUsed(UsedBy(s, h), paired, c, held, free, count, FirstAddr(h), LastAddr(h) + 1);
    assert OneOdd(s', h, c, paired + ToSet(free[..count]), held);
  }

  function Without(used: set<nat>, d: DevAddrConstraint): set<nat> {
    set a | a in used && !Covers(d, a)
  }

  lemma AlignedWithout(used: set<nat>, d: DevAddrConstraint)
    requires PairAligned(used) && Aligned(d)
    ensures PairAligned(Without(used, d))
  {
    forall a: nat ensures a in Without(used, d) <==> Partner(a) in Without(used, d) {
      assert a in used <==> Partner(a) in used;
      assert Covers(d, a) <==> Covers(d, Partner(a));
    }
  }

  lemma ReleasedRows(s: Leases, h: HeliumNetId, r: Row)
    requires NoDoubleLease(s) && r in s.rows && r.range.start <= r.range.end
    ensures ReleaseRange(s, r.oui, h, r.range).rows == s.rows - {r}
    ensures UsedBy(ReleaseRange(s, r.oui, h, r.range), h) == Without(UsedBy(s, h), r.range)
  {
    forall t <- s.rows | t.oui == r.oui && t.range == r.range ensures t == r {
      assert Covers(t.range, r.range.start) && Covers(r.range, r.range.start);
    }
  }

  lemma ReleaseKeepsBooks(s: Leases, h: HeliumNetId, r: Row)
    requires BooksAgree(s) && r in s.rows && r.netId == NetIdOf(h) && r.range.start <= r.range.end
    ensures BooksAgree(ReleaseRange(s, r.oui, h, r.range))
  {
    var s' := ReleaseRange(s, r.oui, h, r.range);
    HeliumOfNetId(h);
    ReleasedRows(s, h, r);
    forall t <- s'.rows, a: nat | Helium(t.netId).Some? && Covers(t.range, a)
      ensures a in s'.used && s'.used[a] == Helium(t.netId).value
    {
      assert a in s.used && t != r && !Covers(r.range, a);
    }
    forall a <- s'.used ensures exists t <- s'.rows :: t.netId == NetIdOf(s'.used[a]) && Covers(t.range, a) {
      var t :| t in s.rows && t.netId == NetIdOf(s.used[a]) && Covers(t.range, a);
      assert t != r;
    }
  }

  lemma ReleaseOfOdd(s: Leases, h: HeliumNetId, r: Row, c: DevAddrConstraint, paired: set<nat>)
    requires OneOdd(s, h, c, paired, true) && c.start <= c.end && r in s.rows && r.netId == NetIdOf(h) && r.range == c
    ensures OneOdd(ReleaseRange(s, r.oui, h, r.range), h, c, paired, false)
  {
    var s' := ReleaseRange(s, r.oui, h, r.range);
    ReleasedRows(s, h, r);
    ReleaseKeepsBooks(s, h, r);
    assert UsedBy(s', h) == paired;
    forall t <- s'.rows | t.netId == NetIdOf(h) ensures Aligned(t.range) {
      assert t.range == c ==> Covers(t.range, c.start) && Covers(r.range, c.start);
    }
  }

  lemma OtherIsPaired(s: Leases, h: HeliumNetId, r: Row, c: DevAddrConstraint)
    requires NoDoubleLease(s) && HasRange(s, h, c) && r in s.rows && r.range != c
    ensures forall a: nat :: !(Covers(r.range, a) && Covers(c, a))
  {
    var t :| t in s.rows && t.netId == NetIdOf(h) && t.range == c;
    forall a: nat ensures !(Covers(r.range, a) && Covers(c, a)) {
      assert Covers(c, a) ==> Covers(t.range, a);
    }
  }

  lemma UsedWithout(used: set<nat>, paired: set<nat>, c: DevAddrConstraint, held: bool, d: DevAddrConstraint)
    requires UsedFit(used, paired, c, held) && Aligned(d)
    requires held ==> forall a: nat :: !(Covers(d, a) && Covers(c, a))
    ensures UsedFit(Without(used, d), Without(paired, d), c, held)
  {
    AlignedWithout(paired, d);
  }

  lemma ReleaseOfAligned(s: Leases, h: HeliumNetId, r: Row, c: DevAddrConstraint, paired: set<nat>, held: bool)
    requires OneOdd(s, h, c, paired, held) && r in s.rows && r.netId == NetIdOf(h) && !(held && r.range == c)
    ensures OneOdd(ReleaseRange(s, r.oui, h, r.range), h, c, Without(paired, r.range), held)
  {
    var s' := ReleaseRange(s, r.oui, h, r.range);
    ReleasedRows(s, h, r);
    ReleaseKeepsBooks(s, h, r);
    if held {
      OtherIsPaired(s, h, r, c);
      var t :| t in s.rows && t.netId == NetIdOf(h) && t.range == c;
      assert t in s'.rows;
    }
    UsedWithout(UsedBy(s, h), paired, c, held, r.range);
  }

  ghost predicate StaysOdd(s: Leases, h: HeliumNetId, c: DevAddrConstraint) {
    exists paired, held :: OneOdd(s, h, c, paired, held)
  }

  lemma TakeKeeps(s: Leases, oui: nat, h: HeliumNetId, count: nat, c: DevAddrConstraint, paired: set<nat>, held: bool)
    requires OneOdd(s, h, c, paired, held) && NeverGaps(h, c)
    ensures StaysOdd(AfterMove(s, h, Take(oui, count)), h, c)
  {
    if LeaseSlab(s, oui, h, count).Some? {
      TakeKeepsOneOdd(s, oui, h, count, c, paired, held);
    } else {
      assert OneOdd(AfterMove(s, h, Take(oui, count)), h, c, paired, held);
    }
  }

  lemma GiveBackKeeps(s: Leases, h: HeliumNetId, r: Row, c: DevAddrConstraint, paired: set<nat>, held: bool)
    requires OneOdd(s, h, c, paired, held) && c.start <= c.end
    ensures StaysOdd(AfterMove(s, h, GiveBack(r)), h, c)
  {
    var s' := AfterMove(s, h, GiveBack(r));
    if !(r in s.rows && r.netId == NetIdOf(h)) {
      assert OneOdd(s', h, c, paired, held);
    } else if held && r.range == c {
      ReleaseOfOdd(s, h, r, c, paired);
      assert OneOdd(s', h, c, paired, false);
    } else {
      ReleaseOfAligned(s, h, r, c, paired, held);
      assert OneOdd(s', h, c, Without(paired, r.range), held);
    }
  }

  lemma {:induction false} MovesKeepOneOdd(
    s: Leases, h: HeliumNetId, moves: seq<Move>, c: DevAddrConstraint, paired: set<nat>, held: bool)
    requires OneOdd(s, h, c, paired, held) && NeverGaps(h, c)
    ensures StaysOdd(After(s, h, moves), h, c)
    decreases |moves|
  {
    if moves == [] {
      assert OneOdd(After(s, h, moves), h, c, paired, held);
    } else {
      var n := |moves| - 1;
      MovesKeepOneOdd(s, h, moves[..n], c, paired, held);
      var before := After(s, h, moves[..n]);
      var paired', held' :| OneOdd(before, h, c, paired', held');
      match moves[n]
      case Take(oui, count) => TakeKeeps(before, oui, h, count, c, paired', held');
      case GiveBack(r) => GiveBackKeeps(before, h, r, c, paired', held');
    }
  }

  lemma AddedIsOneOdd(s: Leases, oui: nat, h: HeliumNetId, c: DevAddrConstraint)
    requires LeaseInv(s) && InsideOf(h, c) && LeaseRange(s, oui, h, c).Some?
    ensures OneOdd(LeaseRange(s, oui, h, c).value, h, c, UsedBy(s, h), true) && c.start <= c.end
  {
    var s', row := LeaseRange(s, oui, h, c).value, Row(oui, NetIdOf(h), c);
    HeliumOfNetId(h);
    RangeKeepsBooks(s, oui, h, c);
    RangeIsUsed(s, oui, h, c);
    assert row in s'.rows;
    forall r <- s'.rows | r.netId == NetIdOf(h) ensures Aligned(r.range) || r.range == c {
      if r in s.rows { assert RowSound(r); }
    }
  }

  lemma OneOddGaps(s: Leases, oui: nat, h: HeliumNetId, c: DevAddrConstraint, paired: set<nat>) returns (moves: seq<Move>)
    requires OneOdd(s, h, c, paired, true) && InsideOf(h, c) && c.start <= c.end && LeavesGap(h, paired, c)
    ensures TwoSlabsDoubleLease(s, h, moves)
  {
    assert Covers(c, c.start) && Covers(c, c.end);
    FreeAround(FirstAddr(h), LastAddr(h), paired, c, UsedBy(s, h));
    GapFree(h, paired, c, FreeOf(s, h));
    var pairs, x, above :| IsGap(FreeOf(s, h), pairs, x, above);
    moves := GapSlabs(s, oui, h, pairs, x, above);
  }

  /** When the address above the range is leased, giving back the range it belongs to opens the gap. */
  lemma ReleaseOpensGap(s: Leases, oui: nat, h: HeliumNetId, c: DevAddrConstraint, paired: set<nat>)
    returns (moves: seq<Move>)
    requires OneOdd(s, h, c, paired, true) && InsideOf(h, c) && c.start <= c.end < LastAddr(h) && c.start % 2 == 1
    requires c.end + 1 in paired
    ensures DoubleLeasesBy(s, h, moves)
  {
    var r := GivenBackAbove(s, h, c, paired);
    var rest := OneOddGaps(ReleaseRange(s, r.oui, h, r.range), oui, h, c, Without(paired, r.range));
    GiveBackFirst(s, h, r, rest);
    moves := [GiveBack(r)] + rest;
  }

  lemma GivenBackAbove(s: Leases, h: HeliumNetId, c: DevAddrConstraint, paired: set<nat>) returns (r: Row)
    requires OneOdd(s, h, c, paired, true) && c.end < LastAddr(h) && c.start % 2 == 1 && c.end + 1 in paired
    ensures r in s.rows && r.netId == NetIdOf(h) && LeavesGap(h, Without(paired, r.range), c)
    ensures OneOdd(ReleaseRange(s, r.oui, h, r.range), h, c, Without(paired, r.range), true)
  {
    r := LeaserOf(s, h, c.end + 1);
    ReleaseOfAligned(s, h, r, c, paired, true);
    OpenedGap(h, c, Without(paired, r.range));
  }

  lemma OpenedGap(h: HeliumNetId, c: DevAddrConstraint, paired: set<nat>)
    requires c.end < LastAddr(h) && c.start % 2 == 1 && c.end + 1 !in paired
    ensures LeavesGap(h, paired, c)
  {}

  lemma GiveBackFirst(s: Leases, h: HeliumNetId, r: Row, moves: seq<Move>)
    requires r in s.rows && r.netId == NetIdOf(h) && DoubleLeasesBy(ReleaseRange(s, r.oui, h, r.range), h, moves)
    ensures DoubleLeasesBy(s, h, [GiveBack(r)] + moves)
  {
    AfterFirst(s, h, GiveBack(r), moves);
  }

  lemma LeaserOf(s: Leases, h: HeliumNetId, a: nat) returns (r: Row)
    requires UsedAreLeased(s) && a in UsedBy(s, h)
    ensures r in s.rows && r.netId == NetIdOf(h) && Covers(r.range, a)
  {
    r :| r in s.rows && r.netId == NetIdOf(h) && Covers(r.range, a);
  }

  /** After any range inside the NetID has been added to a sound state, some list of slabs and releases leases an address
      twice if and only if the range starts at an odd address and does not reach the end of the NetID. */
  lemma AddedRangeRunsIff(s: Leases, oui: nat, h: HeliumNetId, c: DevAddrConstraint)
    requires LeaseInv(s) && InsideOf(h, c) && LeaseRange(s, oui, h, c).Some?
    ensures (exists moves :: DoubleLeasesBy(LeaseRange(s, oui, h, c).value, h, moves))
       <==> c.start % 2 == 1 && c.end < LastAddr(h)
  {
    var s', paired := LeaseRange(s, oui, h, c).value, UsedBy(s, h);
    AddedIsOneOdd(s, oui, h, c);
    if c.start % 2 == 1 && c.end < LastAddr(h) {
      if c.end + 1 in paired {
        var moves := ReleaseOpensGap(s', oui, h, c, paired);
      } else {
        var moves := OneOddGaps(s', oui, h, c, paired);
      }
    } else {
      forall moves ensures !DoubleLeasesBy(s', h, moves) { MovesKeepOneOdd(s', h, moves, c, paired, true); }
    }
  }
}
