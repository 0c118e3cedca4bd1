/**
  Allocation of device addresses from the NetIDs that Helium owns: the lowest free addresses are claimed and
  handed out as ranges that start even and end odd.
*/
module DevAddrAllocator {
  import opened Wrappers
  import opened LoraField

  // ---------------------------------------------------------------- Helium NetIDs

  datatype HeliumNetId = Type0_0x00003c | Type3_0x60002d | Type6_0xc00053

  function NetIdOf(h: HeliumNetId): nat {
    match h
    case Type0_0x00003c => 0x00003c
    case Type3_0x60002d => 0x60002d
    case Type6_0xc00053 => 0xc00053
  }

  function FirstAddr(h: HeliumNetId): nat {
    match h
    case Type0_0x00003c => 2_013_265_920
    case Type3_0x60002d => 3_763_994_624
    case Type6_0xc00053 => 4_227_943_424
  }

  function LastAddr(h: HeliumNetId): nat {
    match h
    case Type0_0x00003c => 2_046_820_351
    case Type3_0x60002d => 3_764_125_695
    case Type6_0xc00053 => 4_227_944_447
  }

  predicate InRangeOf(h: HeliumNetId, addr: nat) {
    FirstAddr(h) <= addr <= LastAddr(h)
  }

  /** The constant ranges are the ones that the NetID layout assigns. */
  lemma RangesMatchNetIds(h: HeliumNetId)
    ensures Fits(NetIdOf(h))
    ensures RangeStart(NetIdOf(h)) == Ok(FirstAddr(h)) && RangeEnd(NetIdOf(h)) == Ok(LastAddr(h))
    ensures FirstAddr(h) % 2 == 0 && LastAddr(h) % 2 == 1 && FirstAddr(h) < LastAddr(h) < U32
  {
    match h
    case Type0_0x00003c => RangeOf(0x00003c, 0, 0x3c, 2_013_265_920, 2_046_820_351);
    case Type3_0x60002d => RangeOf(0x60002d, 3, 0x2d, 3_763_994_624, 3_764_125_695);
    case Type6_0xc00053 => RangeOf(0xc00053, 6, 0x53, 4_227_943_424, 4_227_944_447);
  }

  lemma RangeOf(netId: nat, t: nat, id: nat, first: nat, last: nat)
    requires Fits(netId) && t == netId / 0x20_0000 && id == netId % 0x20_0000
    requires first == TypeBase(t) + id * Block(t) && last == first + Block(t) - 1
    ensures RangeStart(netId) == Ok(first) && RangeEnd(netId) == Ok(last)
  {
    FullRangeOfFitting(netId);
  }

  /** How an unsigned address is stored in a signed 32-bit column. */
  function ToI32(addr: nat): int {
    if addr < 0x8000_0000 then addr else addr - U32
  }

  lemma ToI32IsInjective(a: nat, b: nat)
    requires a < U32 && b < U32 && ToI32(a) == ToI32(b)
    ensures a == b
  {}

  /** Within each Helium range the signed order of the store is the order of the addresses. */
  lemma StoreOrderIsAddressOrder(h: HeliumNetId, a: nat, b: nat)
    requires InRangeOf(h, a) && InRangeOf(h, b)
    ensures ToI32(a) < ToI32(b) <==> a < b
  {}

  // ---------------------------------------------------------------- constraints

  datatype DevAddrConstraint = DevAddrConstraint(start: nat, end: nat)

  datatype AllocError = AddressStore | NoAvailableAddrs | StartAddr | EndAddr | EndLessThanStart | RangeUneven | AddrInUse

  /** `DevAddrConstraint::new` */
  function NewConstraint(start: nat, end: nat): Result<DevAddrConstraint, AllocError> {
    if end <= start then Err(EndLessThanStart)
    else if start % 2 != 0 || end % 2 == 0 then Err(RangeUneven)
    else Ok(DevAddrConstraint(start, end))
  }

  /** The addresses from `lo` up to but not including `hi`. */
  function Span(lo: nat, hi: nat): seq<nat>
    decreases hi - lo
  {
    if hi <= lo then [] else [lo] + Span(lo + 1, hi)
  }

  lemma {:induction false} SpanIs(lo: nat, hi: nat)
    requires lo <= hi
    ensures |Span(lo, hi)| == hi - lo && forall i :: 0 <= i < hi - lo ==> Span(lo, hi)[i] == lo + i
    decreases hi - lo
  {
    if lo < hi { SpanIs(lo + 1, hi); }
  }

  lemma {:induction false} SpanMembers(lo: nat, hi: nat, a: nat)
    ensures a in Span(lo, hi) <==> lo <= a < hi
    decreases hi - lo
  {
    if lo < hi { SpanMembers(lo + 1, hi, a); }
  }

  lemma {:induction false} SpanSplit(lo: nat, mid: nat, hi: nat)
    requires lo <= mid <= hi
    ensures Span(lo, hi) == Span(lo, mid) + Span(mid, hi)
    decreases mid - lo
  {
    if lo < mid { SpanSplit(lo + 1, mid, hi); }
  }

  /** All addresses of a list of constraints, in order. */
  function Cover(cs: seq<DevAddrConstraint>): seq<nat> {
    if cs == [] then [] else Cover(cs[..|cs| - 1]) + Span(cs[|cs| - 1].start, cs[|cs| - 1].end + 1)
  }

  /** Runs with even start and odd end, each at least one address away from the next. */
  predicate MaximalRuns(cs: seq<DevAddrConstraint>) {
    && (forall i :: 0 <= i < |cs| ==> cs[i].start < cs[i].end && cs[i].start % 2 == 0 && cs[i].end % 2 == 1)
    && (forall i :: 0 <= i < |cs| - 1 ==> cs[i].end + 1 < cs[i + 1].start)
  }

  /** `constraints_from_addrs`: `start` and `end` are the run being built, `done` the finished ones. */
  function Group(addrs: seq<nat>, start: Option<nat>, end: Option<nat>, done: seq<DevAddrConstraint>)
    : Result<seq<DevAddrConstraint>, AllocError>
  {
    if addrs == [] then
      match (start, end)
      case (Some(s), Some(e)) =>
        (match NewConstraint(s, e) case Ok(c) => Ok(done + [c]) case Err(err) => Err(err))
      case _ => Err(EndAddr)
    else
      match (start, end)
      case (None, None) => Group(addrs[1..], Some(addrs[0]), None, done)
      case (Some(s), None) => Group(addrs[1..], start, Some(addrs[0]), done)
      case (Some(s), Some(e)) =>
        if addrs[0] == e + 1 then Group(addrs[1..], start, Some(addrs[0]), done)
        else if addrs[0] > e + 1 then
          match NewConstraint(s, e)
          case Ok(c) => Group(addrs[1..], Some(addrs[0]), None, done + [c])
          case Err(err) => Err(err)
        else Err(EndAddr)
      case (None, Some(_)) => Err(StartAddr)
  }

  /** The loop of the source, on local variables. */
  method ConstraintsFromAddrs(addrs: seq<nat>) returns (r: Result<seq<DevAddrConstraint>, AllocError>)
    ensures r == Group(addrs, None, None, [])
  {
    var constraints: seq<DevAddrConstraint> := [];
    var start: Option<nat>, end: Option<nat> := None, None;
    var i := 0;
    while i < |addrs|
      invariant i <= |addrs|
      invariant Group(addrs, None, None, []) == Group(addrs[i..], start, end, constraints)
    {
      var addr := addrs[i];
      assert addrs[i..][1..] == addrs[i + 1..];
      match (start, end) {
        case (None, None) => start := Some(addr);
        case (Some(_), None) => end := Some(addr);
        case (Some(s), Some(e)) =>
          if addr == e + 1 {
            end := Some(addr);
          } else if addr > e + 1 {
            var c := NewConstraint(s, e);
            if c.Err? { return Err(c.error); }
            constraints := constraints + [c.value];
            start, end := Some(addr), None;
          } else {
            return Err(EndAddr);
          }
        case (None, Some(_)) => return Err(StartAddr);
      }
      i := i + 1;
    }
    assert addrs[i..] == [];
    match (start, end) {
      case (Some(s), Some(e)) =>
        var c := NewConstraint(s, e);
        if c.Err? { return Err(c.error); }
        return Ok(constraints + [c.value]);
      case _ => return Err(EndAddr);
    }
  }

  /** Ascending pairs 2k, 2k+1, all above `floor`. */
  predicate PairsAbove(s: seq<nat>, floor: int) {
    s == [] || (2 <= |s| && floor < s[0] && s[0] % 2 == 0 && s[1] == s[0] + 1 && PairsAbove(s[2..], s[1]))
  }

  lemma CoverSnoc(cs: seq<DevAddrConstraint>, c: DevAddrConstraint)
    ensures Cover(cs + [c]) == Cover(cs) + Span(c.start, c.end + 1)
  {
    assert (cs + [c])[..|cs|] == cs;
  }

  predicate OpenRun(done: seq<DevAddrConstraint>, s: nat, e: nat) {
    MaximalRuns(done + [DevAddrConstraint(s, e)])
  }

  predicate IsRun(s: nat, e: nat) {
    s < e && s % 2 == 0 && e % 2 == 1
  }

  lemma RunIsConstraint(done: seq<DevAddrConstraint>, s: nat, e: nat)
    requires OpenRun(done, s, e)
    ensures IsRun(s, e) && NewConstraint(s, e) == Ok(DevAddrConstraint(s, e))
  {
    assert (done + [DevAddrConstraint(s, e)])[|done|] == DevAddrConstraint(s, e);
  }

  lemma RunGrows(done: seq<DevAddrConstraint>, s: nat, e: nat, e': nat)
    requires OpenRun(done, s, e) && e < e' && e' % 2 == 1
    ensures OpenRun(done, s, e')
  {
    RunIsConstraint(done, s, e);
    var cs, cs' := done + [DevAddrConstraint(s, e)], done + [DevAddrConstraint(s, e')];
    assert forall i :: 0 <= i < |done| ==> cs'[i] == cs[i];
    forall i | 0 <= i < |cs'| - 1 ensures cs'[i].end + 1 < cs'[i + 1].start {
      assert cs[i].end + 1 < cs[i + 1].start;
    }
  }

  lemma RunStarts(done: seq<DevAddrConstraint>, s: nat, e: nat, a: nat)
    requires OpenRun(done, s, e) && e + 1 < a && a % 2 == 0
    ensures OpenRun(done + [DevAddrConstraint(s, e)], a, a + 1)
  {
    var cs := done + [DevAddrConstraint(s, e)];
    var cs' := cs + [DevAddrConstraint(a, a + 1)];
    assert forall i :: 0 <= i < |cs| ==> cs'[i] == cs[i];
    assert cs[|done|] == DevAddrConstraint(s, e);
  }

  /** Grouping takes the two addresses of a pair together. */
  lemma GroupPair(addrs: seq<nat>, s: nat, e: nat, done: seq<DevAddrConstraint>)
    requires 2 <= |addrs| && addrs[1] == addrs[0] + 1 && e < addrs[0] && IsRun(s, e)
    ensures Group(addrs, Some(s), Some(e), done)
         == if addrs[0] == e + 1 then Group(addrs[2..], Some(s), Some(addrs[1]), done)
            else Group(addrs[2..], Some(addrs[0]), Some(addrs[1]), done + [DevAddrConstraint(s, e)])
  {
    assert addrs[1..][1..] == addrs[2..];
  }

  /** Appending a pair to a span is the same as moving it over from the remaining addresses. */
  lemma MovePair(before: seq<nat>, lo: nat, addrs: seq<nat>)
    requires 2 <= |addrs| && addrs[1] == addrs[0] + 1 && lo <= addrs[0]
    ensures before + Span(lo, addrs[0] + 2) + addrs[2..] == before + Span(lo, addrs[0]) + addrs
  {
    var a := addrs[0];
    SpanSplit(lo, a, a + 2);
    SpanIs(a, a + 2);
    assert Span(a, a + 2) == [a, a + 1];
    assert addrs == [a, a + 1] + addrs[2..];
  }

  /** The result is the maximal runs of exactly these addresses. */
  predicate GroupedAs(r: Result<seq<DevAddrConstraint>, AllocError>, addrs: seq<nat>) {
    r.Ok? && MaximalRuns(r.value) && Cover(r.value) == addrs
  }

  lemma MovePairToNewRun(done: seq<DevAddrConstraint>, s: nat, e: nat, addrs: seq<nat>)
    requires 2 <= |addrs| && addrs[1] == addrs[0] + 1
    ensures Cover(done + [DevAddrConstraint(s, e)]) + Span(addrs[0], addrs[0] + 2) + addrs[2..]
         == Cover(done) + Span(s, e + 1) + addrs
  {
    CoverSnoc(done, DevAddrConstraint(s, e));
    MovePair(Cover(done + [DevAddrConstraint(s, e)]), addrs[0], addrs);
    assert Span(addrs[0], addrs[0]) == [];
  }

  /** What is grouped so far, the open run, and the addresses still to come. */
  function Whole(done: seq<DevAddrConstraint>, s: nat, e: nat, addrs: seq<nat>): seq<nat> {
    Cover(done) + Span(s, e + 1) + addrs
  }

  lemma WholeJoins(done: seq<DevAddrConstraint>, s: nat, e: nat, addrs: seq<nat>)
    requires 2 <= |addrs| && addrs[1] == addrs[0] + 1 && addrs[0] == e + 1 && s <= e
    ensures Whole(done, s, addrs[1], addrs[2..]) == Whole(done, s, e, addrs)
  {
    MovePair(Cover(done), s, addrs);
  }

  lemma WholeStarts(done: seq<DevAddrConstraint>, s: nat, e: nat, addrs: seq<nat>)
    requires 2 <= |addrs| && addrs[1] == addrs[0] + 1
    ensures Whole(done + [DevAddrConstraint(s, e)], addrs[0], addrs[1], addrs[2..]) == Whole(done, s, e, addrs)
  {
    MovePairToNewRun(done, s, e, addrs);
  }

  lemma WholeEnds(done: seq<DevAddrConstraint>, s: nat, e: nat)
    ensures Cover(done + [DevAddrConstraint(s, e)]) == Whole(done, s, e, [])
  {
    CoverSnoc(done, DevAddrConstraint(s, e));
  }

  lemma {:induction false} GroupCovers(addrs: seq<nat>, s: nat, e: nat, done: seq<DevAddrConstraint>, whole: seq<nat>)
    requires PairsAbove(addrs, e) && IsRun(s, e) && whole == Whole(done, s, e, addrs)
    ensures var r := Group(addrs, Some(s), Some(e), done); r.Ok? && Cover(r.value) == whole
    decreases |addrs|
  {
    if addrs == [] {
      WholeEnds(done, s, e);
    } else {
      GroupPair(addrs, s, e, done);
      if addrs[0] == e + 1 {
        WholeJoins(done, s, e, addrs);
        GroupCovers(addrs[2..], s, addrs[1], done, whole);
      } else {
        WholeStarts(done, s, e, addrs);
        GroupCovers(addrs[2..], addrs[0], addrs[1], done + [DevAddrConstraint(s, e)], whole);
      }
    }
  }

  lemma {:induction false} GroupRuns(addrs: seq<nat>, s: nat, e: nat, done: seq<DevAddrConstraint>)
    requires PairsAbove(addrs, e) && OpenRun(done, s, e)
    ensures var r := Group(addrs, Some(s), Some(e), done); r.Ok? && MaximalRuns(r.value)
    decreases |addrs|
  {
    RunIsConstraint(done, s, e);
    if addrs != [] {
      GroupPair(addrs, s, e, done);
      if addrs[0] == e + 1 {
        RunGrows(done, s, e, addrs[1]);
        GroupRuns(addrs[2..], s, addrs[1], done);
      } else {
        RunStarts(done, s, e, addrs[0]);
        GroupRuns(addrs[2..], addrs[0], addrs[1], done + [DevAddrConstraint(s, e)]);
      }
    }
  }

  /** From a run [s, e] on, grouping pairs yields maximal runs that cover exactly what it was given. */
  lemma GroupPairs(addrs: seq<nat>, s: nat, e: nat, done: seq<DevAddrConstraint>)
    requires PairsAbove(addrs, e) && OpenRun(done, s, e)
    ensures GroupedAs(Group(addrs, Some(s), Some(e), done), Cover(done) + Span(s, e + 1) + addrs)
  {
    RunIsConstraint(done, s, e);
    GroupCovers(addrs, s, e, done, Whole(done, s, e, addrs));
    GroupRuns(addrs, s, e, done);
  }

  /** A dangling last address, or none at all, is an error. */
  lemma {:induction false} GroupDangling(addrs: seq<nat>, last: nat, s: nat, e: nat, done: seq<DevAddrConstraint>)
    requires PairsAbove(addrs, e) && OpenRun(done, s, e)
    requires e < last && (forall i :: 0 <= i < |addrs| ==> addrs[i] < last)
    ensures Group(addrs + [last], Some(s), Some(e), done).Err?
    decreases |addrs|
  {
    RunIsConstraint(done, s, e);
    var all := addrs + [last];
    if addrs == [] {
      assert all[1..] == [];
    } else {
      var a := addrs[0];
      GroupPair(all, s, e, done);
      assert all[2..] == addrs[2..] + [last];
      if a == e + 1 {
        RunGrows(done, s, e, a + 1);
        GroupDangling(addrs[2..], last, s, a + 1, done);
      } else {
        RunStarts(done, s, e, a);
        GroupDangling(addrs[2..], last, a, a + 1, done + [DevAddrConstraint(s, e)]);
      }
    }
  }

  lemma FirstPair(addrs: seq<nat>)
    requires 2 <= |addrs| && addrs[0] % 2 == 0 && addrs[1] == addrs[0] + 1
    ensures Group(addrs, None, None, []) == Group(addrs[2..], Some(addrs[0]), Some(addrs[1]), [])
    ensures OpenRun([], addrs[0], addrs[1])
  {
    assert addrs[1..][1..] == addrs[2..];
    assert [] + [DevAddrConstraint(addrs[0], addrs[1])] == [DevAddrConstraint(addrs[0], addrs[1])];
  }

  /** `constraints_from_addrs` on pairs: the maximal runs of exactly these addresses, and an error for none. */
  lemma GroupAllPairs(addrs: seq<nat>)
    requires PairsAbove(addrs, -1)
    ensures addrs == [] ==> Group(addrs, None, None, []) == Err(EndAddr)
    ensures addrs != [] ==> GroupedAs(Group(addrs, None, None, []), addrs)
  {
    if addrs != [] {
      FirstPair(addrs);
      GroupPairs(addrs[2..], addrs[0], addrs[1], []);
      MovePair([], addrs[0], addrs);
      assert Cover([]) == [] && Span(addrs[0], addrs[0]) == [];
    }
  }

  /** A dangling address after the pairs is an error. */
  lemma GroupOddPairs(addrs: seq<nat>, last: nat)
    requires PairsAbove(addrs, -1) && (forall i :: 0 <= i < |addrs| ==> addrs[i] < last)
    ensures Group(addrs + [last], None, None, []).Err?
  {
    var all := addrs + [last];
    if addrs == [] {
      assert all[1..] == [];
    } else {
      FirstPair(all);
      assert all[2..] == addrs[2..] + [last];
      GroupDangling(addrs[2..], last, addrs[0], addrs[1], []);
    }
  }

  // ---------------------------------------------------------------- free addresses

  /** The addresses from `lo` below `hi` that are not used, in ascending order. */
  function FreeIn(lo: nat, hi: nat, used: set<nat>): seq<nat>
    decreases hi - lo
  {
    if hi <= lo then [] else (if lo in used then [] else [lo]) + FreeIn(lo + 1, hi, used)
  }

  predicate Ascending(s: seq<nat>) {
    forall i, j :: 0 <= i < j < |s| ==> s[i] < s[j]
  }

  lemma {:induction false} FreeInHas(lo: nat, hi: nat, used: set<nat>, a: nat)
    ensures a in FreeIn(lo, hi, used) <==> lo <= a < hi && a !in used
    decreases hi - lo
  {
    if lo < hi { FreeInHas(lo + 1, hi, used, a); }
  }

  lemma {:induction false} FreeInAscends(lo: nat, hi: nat, used: set<nat>)
    ensures Ascending(FreeIn(lo, hi, used))
    decreases hi - lo
  {
    if lo < hi {
      FreeInAscends(lo + 1, hi, used);
      var rest := FreeIn(lo + 1, hi, used);
      forall i | 0 <= i < |rest| ensures lo < rest[i] { FreeInHas(lo + 1, hi, used, rest[i]); }
    }
  }

  lemma FreeInIs(lo: nat, hi: nat, used: set<nat>)
    ensures Ascending(FreeIn(lo, hi, used))
    ensures forall a :: a in FreeIn(lo, hi, used) <==> lo <= a < hi && a !in used
  {
    FreeInAscends(lo, hi, used);
    forall a: nat ensures a in FreeIn(lo, hi, used) <==> lo <= a < hi && a !in used { FreeInHas(lo, hi, used, a); }
  }

  lemma {:induction false} FreeInSplit(lo: nat, mid: nat, hi: nat, used: set<nat>)
    requires lo <= mid <= hi
    ensures FreeIn(lo, hi, used) == FreeIn(lo, mid, used) + FreeIn(mid, hi, used)
    decreases mid - lo
  {
    if lo < mid { FreeInSplit(lo + 1, mid, hi, used); }
  }

  /** Free and used addresses of a range add up to its size. */
  lemma {:induction false} FreeCount(lo: nat, hi: nat, used: set<nat>)
    requires lo <= hi && forall a <- used :: lo <= a < hi
    ensures |FreeIn(lo, hi, used)| + |used| == hi - lo
    decreases hi - lo
  {
    if lo < hi {
      var rest := used - {lo};
      FreeCount(lo + 1, hi, rest);
      FreeInIgnores(lo + 1, hi, used, lo);
    } else {
      assert used == {};
    }
  }

  lemma {:induction false} FreeInIgnores(lo: nat, hi: nat, used: set<nat>, a: nat)
    requires a < lo
    ensures FreeIn(lo, hi, used - {a}) == FreeIn(lo, hi, used)
    decreases hi - lo
  {
    if lo < hi { FreeInIgnores(lo + 1, hi, used, a); }
  }

  /** Addresses are used in pairs: 2k is used exactly when 2k+1 is. */
  ghost predicate PairAligned(used: set<nat>) {
    forall a: nat :: a in used <==> Partner(a) in used
  }

  function Partner(a: nat): nat {
    if a % 2 == 0 then a + 1 else a - 1
  }

  lemma {:induction false} FreePairs(lo: nat, hi: nat, used: set<nat>)
    requires lo % 2 == 0 && hi % 2 == 0 && lo <= hi && PairAligned(used)
    ensures PairsAbove(FreeIn(lo, hi, used), lo - 1)
    decreases hi - lo
  {
    if lo < hi {
      FreePairs(lo + 2, hi, used);
      assert Partner(lo) == lo + 1;
      var rest := FreeIn(lo + 2, hi, used);
      if lo in used {
        assert FreeIn(lo, hi, used) == rest;
        PairsFloor(rest, lo + 1, lo - 1);
      } else {
        assert FreeIn(lo, hi, used) == [lo, lo + 1] + rest;
      }
    }
  }

  lemma PairsFloor(s: seq<nat>, floor: int, floor': int)
    requires PairsAbove(s, floor) && floor' <= floor
    ensures PairsAbove(s, floor')
  {}

  lemma {:induction false} PairsPrefix(s: seq<nat>, floor: int, n: nat)
    requires PairsAbove(s, floor) && 2 * n <= |s|
    ensures PairsAbove(s[..2 * n], floor)
    decreases n
  {
    if n != 0 {
      PairsPrefix(s[2..], s[1], n - 1);
      assert s[..2 * n][2..] == s[2..][..2 * (n - 1)];
    }
  }

  lemma {:induction false} PairsEven(s: seq<nat>, floor: int)
    requires PairsAbove(s, floor)
    ensures |s| % 2 == 0
    ensures forall a :: a in s ==> Partner(a) in s
    decreases |s|
  {
    if s != [] {
      PairsEven(s[2..], s[1]);
      assert s == [s[0], s[1]] + s[2..];
    }
  }

  // ---------------------------------------------------------------- checkout

  function ToSet(s: seq<nat>): set<nat> {
    set a | a in s
  }

  predicate Words(addrs: set<nat>) {
    forall a <- addrs :: a < U32
  }

  /** The used address that the store lists last. */
  ghost predicate IsLastUsed(used: set<nat>, a: nat) {
    a in used && forall b <- used :: ToI32(b) <= ToI32(a)
  }

  lemma {:induction false} LastUsedExists(used: set<nat>)
    requires used != {}
    ensures exists a :: IsLastUsed(used, a)
    decreases used
  {
    var x :| x in used;
    if used == {x} {
      assert IsLastUsed(used, x);
    } else {
      LastUsedExists(used - {x});
      var a :| IsLastUsed(used - {x}, a);
      assert IsLastUsed(used, if ToI32(a) < ToI32(x) then x else a);
    }
  }

  /** The last used address, or the first one of the range. */
  ghost function LastUsed(h: HeliumNetId, used: set<nat>): (a: nat)
    ensures used != {} ==> IsLastUsed(used, a)
    ensures used == {} ==> a == FirstAddr(h)
  {
    if used == {} then FirstAddr(h) else LastUsedExists(used); var a :| IsLastUsed(used, a); a
  }

  /** The addresses a checkout takes from, in order: the gaps below the last used address, then those after it. The
      address after the last word wraps around. */
  ghost function Offered(h: HeliumNetId, used: set<nat>): seq<nat> {
    var last := LastUsed(h, used);
    FreeIn(FirstAddr(h), last + 1, used) + Span((last + 1) % U32, LastAddr(h) + 1)
  }

  /** What a checkout of `count` addresses selects, or why it cannot. */
  function ClaimFrom(offered: seq<nat>, count: nat): Result<seq<nat>, AllocError> {
    if |offered| < count then Err(NoAvailableAddrs) else Ok(offered[..count])
  }

  /** The constraints a checkout returns once its addresses are claimed; no addresses cannot be claimed. */
  function CheckoutFrom(offered: seq<nat>, count: nat): Result<seq<DevAddrConstraint>, AllocError> {
    match ClaimFrom(offered, count)
    case Ok(addrs) => if addrs == [] then Err(AddressStore) else Group(addrs, None, None, [])
    case Err(e) => Err(e)
  }

  ghost function Claim(h: HeliumNetId, used: set<nat>, count: nat): Result<seq<nat>, AllocError> {
    ClaimFrom(Offered(h, used), count)
  }

  ghost function Checkout(h: HeliumNetId, used: set<nat>, count: nat): Result<seq<DevAddrConstraint>, AllocError> {
    CheckoutFrom(Offered(h, used), count)
  }

  lemma {:induction false} FreeIsSpan(lo: nat, hi: nat, used: set<nat>)
    requires forall a | lo <= a < hi :: a !in used
    ensures FreeIn(lo, hi, used) == Span(lo, hi)
    decreases hi - lo
  {
    if lo < hi { FreeIsSpan(lo + 1, hi, used); }
  }

  predicate AllIn(h: HeliumNetId, used: set<nat>) {
    forall a <- used :: InRangeOf(h, a)
  }

  /** The free addresses of the NetID, in ascending order. */
  function Free(h: HeliumNetId, used: set<nat>): seq<nat> {
    FreeIn(FirstAddr(h), LastAddr(h) + 1, used)
  }

  /** While all used addresses are in the range, a checkout takes the lowest free ones. */
  lemma OfferedIsFree(h: HeliumNetId, used: set<nat>)
    requires AllIn(h, used)
    ensures Offered(h, used) == Free(h, used)
  {
    var last := LastUsed(h, used);
    forall b <- used ensures b <= last { StoreOrderIsAddressOrder(h, last, b); }
    FreeInSplit(FirstAddr(h), last + 1, LastAddr(h) + 1, used);
    FreeIsSpan(last + 1, LastAddr(h) + 1, used);
  }

  /** The last used address leaves the NetID neither above, with a gap on the way, nor below, nor at the last word. */
  ghost predicate StaysInside(h: HeliumNetId, used: set<nat>) {
    var last := LastUsed(h, used);
    && last + 1 != U32
    && (if LastAddr(h) < last then forall a | LastAddr(h) < a <= last :: a in used else FirstAddr(h) <= last + 1)
  }

  predicate Between(s: seq<nat>, lo: nat, hi: nat) {
    forall i :: 0 <= i < |s| ==> lo <= s[i] <= hi
  }

  /** Whatever is used, a checkout is offered addresses of its own NetID only if and only if that is so. */
  lemma OfferedInsideIff(h: HeliumNetId, used: set<nat>)
    requires Words(used)
    ensures Between(Offered(h, used), FirstAddr(h), LastAddr(h)) <==> StaysInside(h, used)
  {
    OfferedFrom(FirstAddr(h), LastAddr(h), LastUsed(h, used), used);
  }

  lemma OfferedHas(first: nat, end: nat, last: nat, used: set<nat>, next: nat, offered: seq<nat>)
    requires offered == FreeIn(first, last + 1, used) + Span(next, end + 1)
    ensures forall a: nat :: a in offered <==> (first <= a <= last && a !in used) || next <= a <= end
  {
    forall a: nat ensures a in offered <==> (first <= a <= last && a !in used) || next <= a <= end {
      FreeInHas(first, last + 1, used, a);
      SpanMembers(next, end + 1, a);
    }
  }

  lemma BetweenIff(s: seq<nat>, lo: nat, hi: nat)
    ensures Between(s, lo, hi) <==> forall a <- s :: lo <= a <= hi
  {
    if forall a <- s :: lo <= a <= hi {
      forall i | 0 <= i < |s| ensures lo <= s[i] <= hi { assert s[i] in s; }
    }
  }

  lemma OfferedFrom(first: nat, end: nat, last: nat, used: set<nat>)
    requires 0 < first <= end < U32 && last < U32
    ensures Between(FreeIn(first, last + 1, used) + Span((last + 1) % U32, end + 1), first, end)
       <==> last + 1 != U32 && (if end < last then forall a | end < a <= last :: a in used else first <= last + 1)
  {
    var next := (last + 1) % U32;
    var offered := FreeIn(first, last + 1, used) + Span(next, end + 1);
    OfferedHas(first, end, last, used, next, offered);
    BetweenIff(offered, first, end);
    StaysBetween(first, end, last, used, next, offered);
  }

  lemma StaysBetween(first: nat, end: nat, last: nat, used: set<nat>, next: nat, offered: seq<nat>)
    requires 0 < first <= end < U32 && last < U32 && next == (last + 1) % U32
    requires forall a: nat :: a in offered <==> (first <= a <= last && a !in used) || next <= a <= end
    ensures (forall a <- offered :: first <= a <= end)
       <==> last + 1 != U32 && (if end < last then forall a | end < a <= last :: a in used else first <= last + 1)
  {
    assert next <= end ==> next in offered;
    assert forall a | end < a <= last :: a in offered <==> a !in used;
  }

  /** With used addresses in pairs, a checkout succeeds exactly for a positive even count of at most the free
      addresses; it then returns the maximal runs of exactly the lowest free addresses and keeps the pairs. */
  lemma CheckoutExact(h: HeliumNetId, used: set<nat>, count: nat)
    requires PairAligned(used) && AllIn(h, used)
    ensures Checkout(h, used, count).Ok? <==> 0 < count && count % 2 == 0 && count + |used| <= LastAddr(h) + 1 - FirstAddr(h)
    ensures Checkout(h, used, count).Ok? ==>
              && count <= |Free(h, used)| && GroupedAs(Checkout(h, used, count), Free(h, used)[..count])
              && PairAligned(used + ToSet(Free(h, used)[..count]))
  {
    CheckoutSucceedsIff(h, used, count);
    if Checkout(h, used, count).Ok? { CheckoutKeepsPairs(h, used, count); }
  }

  lemma CheckoutSucceedsIff(h: HeliumNetId, used: set<nat>, count: nat)
    requires PairAligned(used) && AllIn(h, used)
    ensures Checkout(h, used, count).Ok? <==> 0 < count && count % 2 == 0 && count + |used| <= LastAddr(h) + 1 - FirstAddr(h)
  {
    OfferedIsFree(h, used);
    PairsOfRange(FirstAddr(h), LastAddr(h), used);
    PairsCheckOut(Free(h, used), count);
  }

  lemma CheckoutKeepsPairs(h: HeliumNetId, used: set<nat>, count: nat)
    requires PairAligned(used) && AllIn(h, used) && Checkout(h, used, count).Ok?
    ensures count <= |Free(h, used)| && GroupedAs(Checkout(h, used, count), Free(h, used)[..count])
    ensures PairAligned(used + ToSet(Free(h, used)[..count]))
  {
    OfferedIsFree(h, used);
    PairsOfRange(FirstAddr(h), LastAddr(h), used);
    PairsCheckOut(Free(h, used), count);
    PairsKeepAligned(used, Free(h, used), count);
  }

  lemma PairsOfRange(first: nat, last: nat, used: set<nat>)
    requires first % 2 == 0 && last % 2 == 1 && first < last && PairAligned(used) && forall a <- used :: first <= a <= last
    ensures var free := FreeIn(first, last + 1, used);
            PairsAbove(free, -1) && Ascending(free) && |free| + |used| == last + 1 - first
  {
    FreeCount(first, last + 1, used);
    FreePairs(first, last + 1, used);
    PairsFloor(FreeIn(first, last + 1, used), first - 1, -1);
    FreeInAscends(first, last + 1, used);
  }

  lemma PairsKeepAligned(used: set<nat>, free: seq<nat>, count: nat)
    requires PairAligned(used) && PairsAbove(free, -1) && 0 < count <= |free| && count % 2 == 0
    ensures PairAligned(used + ToSet(free[..count]))
  {
    EvenGroups(free, count);
    AlignedUnion(used, free[..count]);
  }

  lemma PairsCheckOut(free: seq<nat>, count: nat)
    requires PairsAbove(free, -1) && Ascending(free)
    ensures CheckoutFrom(free, count).Ok? <==> 0 < count && count % 2 == 0 && count <= |free|
    ensures CheckoutFrom(free, count).Ok? ==> GroupedAs(CheckoutFrom(free, count), free[..count])
  {
    if 0 < count <= |free| {
      if count % 2 == 0 { EvenGroups(free, count); } else { OddFails(free, count); }
    }
  }

  /** A checkout of `count` succeeds for the right reasons, with the maximal runs of exactly the lowest free addresses. */
  predicate IsExact(r: Result<seq<DevAddrConstraint>, AllocError>, free: seq<nat>, count: nat) {
    && (r.Ok? <==> 0 < count && count % 2 == 0 && count <= |free|)
    && (r.Ok? ==> GroupedAs(r, free[..count]))
  }

  ghost predicate ChecksOutExactly(h: HeliumNetId, used: set<nat>, count: nat) {
    IsExact(Checkout(h, used, count), Free(h, used), count)
  }

  /** The addresses come in pairs, except that the highest one may be alone. */
  predicate PairedButHighest(free: seq<nat>) {
    PairsAbove(EvenPart(free), -1)
  }

  /** All of an even number of elements, all but the last of an odd one. */
  function EvenPart(s: seq<nat>): seq<nat> {
    s[..|s| - |s| % 2]
  }

  /** Every count is checked out exactly if and only if the free addresses come in pairs, except for the highest one. */
  lemma CheckoutExactIff(h: HeliumNetId, used: set<nat>)
    requires AllIn(h, used)
    ensures (forall count: nat :: ChecksOutExactly(h, used, count)) <==> PairedButHighest(Free(h, used))
  {
    var free := Free(h, used);
    OfferedIsFree(h, used);
    FreeInAscends(FirstAddr(h), LastAddr(h) + 1, used);
    ExactIffPaired(free);
    if forall count: nat :: ChecksOutExactly(h, used, count) {
      forall count: nat ensures IsExact(CheckoutFrom(free, count), free, count) {
        assert ChecksOutExactly(h, used, count);
      }
    }
  }

  lemma ExactIffPaired(free: seq<nat>)
    requires Ascending(free)
    ensures (forall count: nat :: IsExact(CheckoutFrom(free, count), free, count)) <==> PairedButHighest(free)
  {
    if PairedButHighest(free) {
      forall count: nat ensures IsExact(CheckoutFrom(free, count), free, count) {
        if 0 < count <= |free| { PairedGroups(free, count); }
      }
    }
    if forall count: nat :: IsExact(CheckoutFrom(free, count), free, count) {
      var most: nat := |free| - |free| % 2;
      assert IsExact(CheckoutFrom(free, most), free, most);
      if 0 < most { RunsArePairs(CheckoutFrom(free, most).value); }
    }
  }

  lemma PairedGroups(free: seq<nat>, count: nat)
    requires Ascending(free) && PairedButHighest(free) && 0 < count <= |free|
    ensures count % 2 == 0 ==> GroupedAs(Group(free[..count], None, None, []), free[..count])
    ensures count % 2 == 1 ==> Group(free[..count], None, None, []).Err?
  {
    var paired := EvenPart(free);
    if count % 2 == 0 {
      EvenGroups(paired, count);
      assert paired[..count] == free[..count];
    } else {
      PairsPrefix(paired, -1, count / 2);
      assert paired[..2 * (count / 2)] == free[..count - 1];
      assert free[..count] == free[..count - 1] + [free[count - 1]];
      GroupOddPairs(free[..count - 1], free[count - 1]);
    }
  }

  lemma {:induction false} PairsConcat(p: seq<nat>, q: seq<nat>, floor: int, mid: int)
    requires PairsAbove(p, floor) && PairsAbove(q, mid) && floor <= mid && forall a <- p :: a <= mid
    ensures PairsAbove(p + q, floor)
    decreases |p|
  {
    if p == [] {
      assert p + q == q;
      PairsFloor(q, mid, floor);
    } else {
      assert (p + q)[2..] == p[2..] + q;
      assert p[1] in p && forall a <- p[2..] :: a in p;
      PairsConcat(p[2..], q, p[1], mid);
    }
  }

  lemma {:induction false} SpanIsPairs(lo: nat, hi: nat)
    requires lo % 2 == 0 && hi % 2 == 0 && lo <= hi
    ensures PairsAbove(Span(lo, hi), lo - 1)
    decreases hi - lo
  {
    if lo < hi {
      SpanIsPairs(lo + 2, hi);
      assert Span(lo, hi) == [lo, lo + 1] + Span(lo + 2, hi);
    }
  }

  lemma {:induction false} CoverBelow(cs: seq<DevAddrConstraint>, a: nat)
    requires MaximalRuns(cs) && a in Cover(cs)
    ensures cs != [] && a <= cs[|cs| - 1].end
    decreases |cs|
  {
    var n := |cs| - 1;
    SpanMembers(cs[n].start, cs[n].end + 1, a);
    if a in Cover(cs[..n]) { CoverBelow(cs[..n], a); }
  }

  lemma CoverIsBelowNext(cs: seq<DevAddrConstraint>, n: nat)
    requires MaximalRuns(cs) && n < |cs|
    ensures forall a <- Cover(cs[..n]) :: a < cs[n].start
  {
    forall a <- Cover(cs[..n]) ensures a < cs[n].start { CoverBelow(cs[..n], a); }
  }

  /** What maximal runs cover comes in pairs. */
  lemma {:induction false} RunsArePairs(cs: seq<DevAddrConstraint>)
    requires MaximalRuns(cs)
    ensures PairsAbove(Cover(cs), -1)
    decreases |cs|
  {
    if cs != [] {
      var n := |cs| - 1;
      RunsArePairs(cs[..n]);
      CoverIsBelowNext(cs, n);
      AppendRun(Cover(cs[..n]), cs[n]);
    }
  }

  lemma AppendRun(p: seq<nat>, c: DevAddrConstraint)
    requires PairsAbove(p, -1) && IsRun(c.start, c.end) && forall a <- p :: a < c.start
    ensures PairsAbove(p + Span(c.start, c.end + 1), -1)
  {
    SpanIsPairs(c.start, c.end + 1);
    PairsConcat(p, Span(c.start, c.end + 1), -1, c.start - 1);
  }

  // ---------------------------------------------------------------- checkouts that succeed

  /** The run that is being built ends up in the result. */
  lemma {:induction false} RunIsKept(addrs: seq<nat>, s: nat, e: nat, done: seq<DevAddrConstraint>)
    requires Group(addrs, Some(s), Some(e), done).Ok?
    ensures var cs := Group(addrs, Some(s), Some(e), done).value;
            |done| < |cs| && cs[..|done|] == done && cs[|done|].start == s && e <= cs[|done|].end
    decreases |addrs|, 1
  {
    if addrs != [] {
      if addrs[0] == e + 1 {
        RunIsKept(addrs[1..], s, addrs[0], done);
      } else {
        StartIsKept(addrs[1..], addrs[0], done + [DevAddrConstraint(s, e)]);
      }
    }
  }

  lemma {:induction false} StartIsKept(addrs: seq<nat>, s: nat, done: seq<DevAddrConstraint>)
    requires Group(addrs, Some(s), None, done).Ok?
    ensures addrs != []
    ensures var cs := Group(addrs, Some(s), None, done).value;
            |done| < |cs| && cs[..|done|] == done && cs[|done|].start == s && addrs[0] <= cs[|done|].end
    decreases |addrs|, 0
  {
    if addrs != [] { RunIsKept(addrs[1..], s, addrs[0], done); }
  }

  /** A constraint reaches over an address that it was not made from. */
  ghost predicate ReachesOver(cs: seq<DevAddrConstraint>, addrs: seq<nat>, lo: nat) {
    exists c, a: nat, b :: c in cs && c.start <= a <= c.end && lo < a < b && b in addrs && a !in addrs
  }

  lemma ReachesOverMore(cs: seq<DevAddrConstraint>, addrs: seq<nat>, lo: nat)
    requires addrs != [] && ReachesOver(cs, addrs[1..], addrs[0]) && lo <= addrs[0]
    ensures ReachesOver(cs, addrs, lo)
  {
    var c, a: nat, b :| c in cs && c.start <= a <= c.end && addrs[0] < a < b && b in addrs[1..] && a !in addrs[1..];
    assert a !in addrs && b in addrs;
  }

  lemma ReachesOverGap(cs: seq<DevAddrConstraint>, i: nat, addrs: seq<nat>, s: nat)
    requires i < |cs| && cs[i].start == s && addrs != [] && addrs[0] <= cs[i].end && s + 1 < addrs[0] && Ascending(addrs)
    ensures ReachesOver(cs, addrs, s)
  {
    FirstIsLeast(addrs);
    assert cs[i] in cs && s + 1 !in addrs && addrs[0] in addrs;
  }

  lemma SpanJoins(s: nat, e: nat, addrs: seq<nat>)
    requires s <= e && addrs != [] && addrs[0] == e + 1
    ensures Span(s, e + 2) + addrs[1..] == Span(s, e + 1) + addrs
  {
    SpanSplit(s, e + 1, e + 2);
    assert Span(e + 1, e + 2) == [e + 1];
    assert addrs == [e + 1] + addrs[1..];
  }

  lemma {:induction false} StartPairsOrReaches(addrs: seq<nat>, s: nat, done: seq<DevAddrConstraint>)
    requires Ascending([s] + addrs) && Group(addrs, Some(s), None, done).Ok?
    ensures PairsAbove([s] + addrs, s - 1) || ReachesOver(Group(addrs, Some(s), None, done).value, addrs, s)
    decreases |addrs|, 1
  {
    StartIsKept(addrs, s, done);
    AscendingTail([s] + addrs);
    assert ([s] + addrs)[0] < ([s] + addrs)[1] && ([s] + addrs)[1..] == addrs;
    if s + 1 < addrs[0] {
      ReachesOverGap(Group(addrs, Some(s), None, done).value, |done|, addrs, s);
    } else {
      assert Span(s, s + 1) == [s];
      FirstJoins(addrs, s, done);
    }
  }

  lemma {:induction false} FirstJoins(addrs: seq<nat>, s: nat, done: seq<DevAddrConstraint>)
    requires addrs != [] && addrs[0] == s + 1 && Ascending(addrs) && Group(addrs, Some(s), None, done).Ok?
    ensures PairsAbove(Span(s, s + 1) + addrs, s - 1) || ReachesOver(Group(addrs, Some(s), None, done).value, addrs, s)
    decreases |addrs|, 0
  {
    assert [addrs[0]] + addrs[1..] == addrs;
    RunPairsOrReaches(addrs[1..], s, s + 1, done);
    SpanJoins(s, s, addrs);
    var cs := Group(addrs, Some(s), None, done).value;
    if ReachesOver(cs, addrs[1..], addrs[0]) { ReachesOverMore(cs, addrs, s); }
  }

  lemma FirstIsLeast(s: seq<nat>)
    requires s != [] && Ascending(s)
    ensures forall a <- s :: s[0] <= a
  {}

  lemma PrefixHas(s: seq<nat>, n: nat, a: nat, b: nat)
    requires Ascending(s) && n <= |s| && a in s && b in s[..n] && a < b
    ensures a in s[..n]
  {
    var i :| 0 <= i < |s| && s[i] == a;
    var j :| 0 <= j < n && s[j] == b;
    assert s[..n][i] == a;
  }

  lemma AscendingTail(s: seq<nat>)
    requires s != [] && Ascending(s)
    ensures Ascending(s[1..])
  {}

  lemma {:induction false} RunPairsOrReaches(addrs: seq<nat>, s: nat, e: nat, done: seq<DevAddrConstraint>)
    requires s < e && Ascending([e] + addrs) && Group(addrs, Some(s), Some(e), done).Ok?
    ensures PairsAbove(Span(s, e + 1) + addrs, s - 1) || ReachesOver(Group(addrs, Some(s), Some(e), done).value, addrs, e)
    decreases |addrs|, 1
  {
    if addrs == [] {
      SpanIsPairs(s, e + 1);
      assert Span(s, e + 1) + addrs == Span(s, e + 1);
    } else {
      var a, rest := addrs[0], addrs[1..];
      assert ([e] + addrs)[1..] == addrs == [a] + rest;
      AscendingTail([e] + addrs);
      if a == e + 1 {
        RunJoins(addrs, s, e, done);
      } else {
        RunEnds(addrs, s, e, done);
      }
    }
  }

  lemma {:induction false} RunJoins(addrs: seq<nat>, s: nat, e: nat, done: seq<DevAddrConstraint>)
    requires s < e && addrs != [] && addrs[0] == e + 1 && Ascending(addrs) && Group(addrs, Some(s), Some(e), done).Ok?
    ensures PairsAbove(Span(s, e + 1) + addrs, s - 1) || ReachesOver(Group(addrs, Some(s), Some(e), done).value, addrs, e)
    decreases |addrs|, 0
  {
    assert [addrs[0]] + addrs[1..] == addrs;
    RunPairsOrReaches(addrs[1..], s, e + 1, done);
    SpanJoins(s, e, addrs);
    var cs := Group(addrs, Some(s), Some(e), done).value;
    if ReachesOver(cs, addrs[1..], addrs[0]) { ReachesOverMore(cs, addrs, e); }
  }

  lemma {:induction false} RunEnds(addrs: seq<nat>, s: nat, e: nat, done: seq<DevAddrConstraint>)
    requires s < e && addrs != [] && addrs[0] > e + 1 && Ascending(addrs) && Group(addrs, Some(s), Some(e), done).Ok?
    ensures PairsAbove(Span(s, e + 1) + addrs, s - 1) || ReachesOver(Group(addrs, Some(s), Some(e), done).value, addrs, e)
    decreases |addrs|, 0
  {
    var a, rest := addrs[0], addrs[1..];
    assert addrs == [a] + rest;
    StartPairsOrReaches(rest, a, done + [DevAddrConstraint(s, e)]);
    var cs := Group(addrs, Some(s), Some(e), done).value;
    if ReachesOver(cs, rest, a) {
      ReachesOverMore(cs, addrs, e);
    } else {
      SpanIsPairs(s, e + 1);
      SpanIs(s, e + 1);
      PairsConcat(Span(s, e + 1), addrs, s - 1, a - 1);
    }
  }

  /** A checkout that succeeds without being exact reaches over an address below that is not free. */
  lemma InexactReachesOver(free: seq<nat>, count: nat)
    requires Ascending(free) && CheckoutFrom(free, count).Ok? && !GroupedAs(CheckoutFrom(free, count), free[..count])
    ensures free != [] && ReachesOver(CheckoutFrom(free, count).value, free, free[0])
  {
    var addrs, cs := free[..count], CheckoutFrom(free, count).value;
    assert addrs == [addrs[0]] + addrs[1..];
    StartPairsOrReaches(addrs[1..], addrs[0], []);
    if PairsAbove(addrs, addrs[0] - 1) {
      PairsFloor(addrs, addrs[0] - 1, -1);
      GroupAllPairs(addrs);
      assert false;
    }
    var c, a: nat, b :| c in cs && c.start <= a <= c.end && addrs[0] < a < b && b in addrs[1..] && a !in addrs[1..];
    assert b in addrs && b in free && a !in addrs;
    if a in free { PrefixHas(free, count, a, b); }
  }

  // ---------------------------------------------------------------- what an added range does to later checkouts

  /** Only the highest free address may be without its partner. */
  ghost predicate OnlyHighestAlone(lo: nat, hi: nat, used: set<nat>) {
    forall a, b | lo <= a < b < hi && a !in used && Partner(a) in used :: b in used
  }

  lemma NoneFree(lo: nat, hi: nat, used: set<nat>)
    requires forall b | lo <= b < hi :: b in used
    ensures FreeIn(lo, hi, used) == []
  {
    var free := FreeIn(lo, hi, used);
    if free != [] { FreeInHas(lo, hi, used, free[0]); }
  }

  lemma FreeInTwo(lo: nat, hi: nat, used: set<nat>)
    requires lo + 2 <= hi
    ensures FreeIn(lo, hi, used)
         == (if lo in used then [] else [lo]) + (if lo + 1 in used then [] else [lo + 1]) + FreeIn(lo + 2, hi, used)
  {}

  lemma EvenPartCons(a: nat, b: nat, rest: seq<nat>)
    ensures EvenPart([a, b] + rest) == [a, b] + EvenPart(rest)
  {}

  lemma {:induction false} AloneIsHighest(lo: nat, hi: nat, used: set<nat>)
    requires lo % 2 == 0 && hi % 2 == 0 && lo <= hi && OnlyHighestAlone(lo, hi, used)
    ensures PairsAbove(EvenPart(FreeIn(lo, hi, used)), lo - 1)
    decreases hi - lo
  {
    if lo < hi {
      var rest := FreeIn(lo + 2, hi, used);
      assert Partner(lo) == lo + 1 && Partner(lo + 1) == lo;
      FreeInTwo(lo, hi, used);
      if lo !in used && lo + 1 !in used {
        AloneIsHighest(lo + 2, hi, used);
        PairBefore(lo, FreeIn(lo, hi, used), rest);
      } else if lo in used && lo + 1 in used {
        AloneIsHighest(lo + 2, hi, used);
        assert FreeIn(lo, hi, used) == rest;
        PairsFloor(EvenPart(rest), lo + 1, lo - 1);
      } else {
        NoneFree(lo + 2, hi, used);
        assert |FreeIn(lo, hi, used)| == 1 && EvenPart(FreeIn(lo, hi, used)) == [];
      }
    }
  }

  lemma PairBefore(lo: nat, free: seq<nat>, rest: seq<nat>)
    requires lo % 2 == 0 && free == [lo, lo + 1] + rest && PairsAbove(EvenPart(rest), lo + 1)
    ensures PairsAbove(EvenPart(free), lo - 1)
  {
    EvenPartCons(lo, lo + 1, rest);
    assert ([lo, lo + 1] + EvenPart(rest))[2..] == EvenPart(rest);
  }

  lemma PairedIffAlone(h: HeliumNetId, used: set<nat>)
    ensures PairedButHighest(Free(h, used)) <==> OnlyHighestAlone(FirstAddr(h), LastAddr(h) + 1, used)
  {
    var lo, hi := FirstAddr(h), LastAddr(h) + 1;
    var free := Free(h, used);
    if OnlyHighestAlone(lo, hi, used) {
      AloneIsHighest(lo, hi, used);
      PairsFloor(EvenPart(free), lo - 1, -1);
    }
    if PairedButHighest(free) {
      FreeInIs(lo, hi, used);
      forall a, b | lo <= a < b < hi && a !in used && Partner(a) in used ensures b in used {
        if b !in used { PartnerIsThere(free, a, b); }
      }
    }
  }

  lemma PartnerIsThere(free: seq<nat>, a: nat, b: nat)
    requires Ascending(free) && PairedButHighest(free) && a in free && b in free && a < b
    ensures Partner(a) in free
  {
    var paired := EvenPart(free);
    PairsEven(paired, -1);
    var i :| 0 <= i < |free| && free[i] == a;
    var j :| 0 <= j < |free| && free[j] == b;
    assert paired[i] == a;
    assert Partner(a) in paired;
  }

  /** Nothing is free above `a`. */
  predicate UsedAbove(h: HeliumNetId, used: set<nat>, a: nat) {
    forall b: nat | a < b <= LastAddr(h) :: b in used
  }

  /** A range added to paired addresses leaves at most one address alone, and none is free above that one. */
  predicate LeavesPairs(h: HeliumNetId, used: set<nat>, c: DevAddrConstraint) {
    && (c.start % 2 == 1 ==> c.end % 2 == 1 && UsedAbove(h, used, c.end))
    && (c.end % 2 == 0 ==> c.start % 2 == 0 && UsedAbove(h, used, c.end + 1))
  }

  lemma AddedRangeLeavesPairs(h: HeliumNetId, used: set<nat>, c: DevAddrConstraint, used': set<nat>)
    requires PairAligned(used) && FirstAddr(h) <= c.start <= c.end <= LastAddr(h)
    requires forall a: nat | c.start <= a <= c.end :: a !in used
    requires forall a: nat :: a in used' <==> a in used || c.start <= a <= c.end
    ensures OnlyHighestAlone(FirstAddr(h), LastAddr(h) + 1, used') <==> LeavesPairs(h, used, c)
  {
    var lo, hi := FirstAddr(h), LastAddr(h) + 1;
    if OnlyHighestAlone(lo, hi, used') {
      if c.start % 2 == 1 { StartLeavesAlone(h, used, c, used'); }
      if c.end % 2 == 0 { EndLeavesAlone(h, used, c, used'); }
    }
    if LeavesPairs(h, used, c) {
      forall a, b | lo <= a < b < hi && a !in used' && Partner(a) in used' ensures b in used' {
        assert a in used <==> Partner(a) in used;
      }
    }
  }

  lemma StartLeavesAlone(h: HeliumNetId, used: set<nat>, c: DevAddrConstraint, used': set<nat>)
    requires PairAligned(used) && FirstAddr(h) <= c.start <= c.end <= LastAddr(h) && c.start % 2 == 1
    requires forall a: nat | c.start <= a <= c.end :: a !in used
    requires forall a: nat :: a in used' <==> a in used || c.start <= a <= c.end
    requires OnlyHighestAlone(FirstAddr(h), LastAddr(h) + 1, used')
    ensures c.end % 2 == 1 && UsedAbove(h, used, c.end)
  {
    var a := c.start - 1;
    assert Partner(a) == c.start;
    assert a in used <==> Partner(a) in used;
    forall b | a < b <= LastAddr(h) ensures b in used' {}
    assert c.end in used <==> Partner(c.end) in used;
  }

  lemma EndLeavesAlone(h: HeliumNetId, used: set<nat>, c: DevAddrConstraint, used': set<nat>)
    requires PairAligned(used) && FirstAddr(h) <= c.start <= c.end <= LastAddr(h) && c.end % 2 == 0
    requires forall a: nat | c.start <= a <= c.end :: a !in used
    requires forall a: nat :: a in used' <==> a in used || c.start <= a <= c.end
    requires OnlyHighestAlone(FirstAddr(h), LastAddr(h) + 1, used')
    ensures c.start % 2 == 0 && UsedAbove(h, used, c.end + 1)
  {
    var a := c.end + 1;
    assert Partner(c.end) == a && Partner(a) == c.end;
    assert c.end in used <==> Partner(c.end) in used;
    forall b | a < b <= LastAddr(h) ensures b in used' {}
    if c.start % 2 == 1 { StartLeavesAlone(h, used, c, used'); }
  }

  lemma EvenGroups(free: seq<nat>, count: nat)
    requires PairsAbove(free, -1) && 0 < count <= |free| && count % 2 == 0
    ensures GroupedAs(Group(free[..count], None, None, []), free[..count])
    ensures forall a :: a in free[..count] ==> Partner(a) in free[..count]
  {
    PairsPrefix(free, -1, count / 2);
    assert 2 * (count / 2) == count;
    GroupAllPairs(free[..count]);
    PairsEven(free[..count], -1);
  }

  lemma OddFails(free: seq<nat>, count: nat)
    requires PairsAbove(free, -1) && Ascending(free) && count <= |free| && count % 2 == 1
    ensures Group(free[..count], None, None, []).Err?
  {
    PairsPrefix(free, -1, count / 2);
    var pairs := free[..2 * (count / 2)];
    assert free[..count] == pairs + [free[count - 1]];
    GroupOddPairs(pairs, free[count - 1]);
  }

  lemma AlignedUnion(used: set<nat>, pairs: seq<nat>)
    requires PairAligned(used) && forall a :: a in pairs ==> Partner(a) in pairs
    ensures PairAligned(used + ToSet(pairs))
  {
    forall a: nat ensures a in used + ToSet(pairs) <==> Partner(a) in used + ToSet(pairs) {
      assert Partner(Partner(a)) == a;
    }
  }

  // ---------------------------------------------------------------- the address store

  predicate StoreOrdered(addrs: seq<nat>) {
    forall i, j :: 0 <= i < j < |addrs| ==> ToI32(addrs[i]) < ToI32(addrs[j])
  }

  /** Inserts into a listing that is ordered the way the store orders its signed column. */
  function InsertOrdered(addrs: seq<nat>, a: nat): seq<nat> {
    if addrs == [] || ToI32(a) < ToI32(addrs[0]) then [a] + addrs else [addrs[0]] + InsertOrdered(addrs[1..], a)
  }

  lemma {:induction false} InsertOrderedSet(addrs: seq<nat>, a: nat)
    ensures ToSet(InsertOrdered(addrs, a)) == ToSet(addrs) + {a}
  {
    var r := InsertOrdered(addrs, a);
    if addrs != [] && ToI32(addrs[0]) <= ToI32(a) {
      InsertOrderedSet(addrs[1..], a);
      var rest := InsertOrdered(addrs[1..], a);
      assert forall b :: b in rest <==> b in ToSet(rest);
      assert forall b :: b in addrs <==> b == addrs[0] || b in addrs[1..];
      assert forall b :: b in r <==> b == addrs[0] || b in rest;
    } else {
      assert forall b :: b in r <==> b == a || b in addrs;
    }
  }

  lemma {:induction false} InsertOrderedIs(addrs: seq<nat>, a: nat)
    requires StoreOrdered(addrs) && forall i :: 0 <= i < |addrs| ==> ToI32(addrs[i]) != ToI32(a)
    ensures StoreOrdered(InsertOrdered(addrs, a))
  {
    if addrs != [] && ToI32(addrs[0]) < ToI32(a) {
      InsertOrderedIs(addrs[1..], a);
      var rest := InsertOrdered(addrs[1..], a);
      InsertOrderedSet(addrs[1..], a);
      forall i | 0 <= i < |rest| ensures ToI32(addrs[0]) < ToI32(rest[i]) {
        assert rest[i] in ToSet(rest);
        assert rest[i] == a || rest[i] in addrs[1..];
      }
    }
  }

  /** The store's last address is the last used one. */
  lemma LastOfListing(h: HeliumNetId, addrs: seq<nat>, used: set<nat>)
    requires StoreOrdered(addrs) && ToSet(addrs) == used && Words(used)
    ensures LastUsed(h, used) == if addrs == [] then FirstAddr(h) else addrs[|addrs| - 1]
  {
    if addrs == [] {
      assert used == {};
    } else {
      var last := addrs[|addrs| - 1];
      assert last in ToSet(addrs);
      forall a <- used ensures ToI32(a) <= ToI32(last) {
        var i :| 0 <= i < |addrs| && addrs[i] == a;
      }
      ToI32IsInjective(last, LastUsed(h, used));
    }
  }

  /** The selection of `checkout_devaddr_constraints`: gaps below the last used address first, then the addresses
      after it. */
  method SelectAddrs(h: HeliumNetId, usedAddrs: seq<nat>, count: nat) returns (r: Result<seq<nat>, AllocError>)
    requires StoreOrdered(usedAddrs) && Words(ToSet(usedAddrs))
    ensures r == Claim(h, ToSet(usedAddrs), count)
  {
    var first, last := FirstAddr(h), LastAddr(h);
    var lastUsed := if usedAddrs == [] then first else usedAddrs[|usedAddrs| - 1];
    var used := ToSet(usedAddrs);
    LastOfListing(h, usedAddrs, used);
    r := TakeAddrs(FreeIn(first, lastUsed + 1, used), (lastUsed + 1) % U32, last, count);
  }

  /** Takes `count` addresses from the available ones, and then those from `start` to `last`. */
  method TakeAddrs(available: seq<nat>, start: nat, last: nat, count: nat) returns (r: Result<seq<nat>, AllocError>)
    ensures r == ClaimFrom(available + Span(start, last + 1), count)
  {
    var claimed := available[..if count < |available| then count else |available|];
    var next := start;
    ghost var offered := available + Span(start, last + 1);
    OfferedAt(available, start, last + 1);
    while |claimed| < count
      invariant |claimed| <= count && claimed <= offered
      invariant |claimed| < count ==> |available| <= |claimed| && next == start + |claimed| - |available|
    {
      if last < next {
        return Err(NoAvailableAddrs);
      }
      claimed := claimed + [next];
      next := next + 1;
    }
    assert claimed == offered[..count];
    return Ok(claimed);
  }

  lemma OfferedAt(available: seq<nat>, lo: nat, hi: nat)
    ensures var offered := available + Span(lo, hi);
            && |offered| == |available| + (if lo < hi then hi - lo else 0)
            && available <= offered
            && forall i :: |available| <= i < |offered| ==> offered[i] == lo + i - |available|
  {
    if lo < hi { SpanIs(lo, hi); }
  }

  /** The table of used addresses after `addrs` have been inserted under one NetID. */
  function Claimed(used: map<nat, HeliumNetId>, h: HeliumNetId, addrs: set<nat>): map<nat, HeliumNetId> {
    used + map a | a in addrs :: h
  }

  lemma ClaimedNext(used: map<nat, HeliumNetId>, h: HeliumNetId, addrs: seq<nat>, i: nat)
    requires i < |addrs|
    ensures Claimed(used, h, ToSet(addrs[..i + 1])) == Claimed(used, h, ToSet(addrs[..i]))[addrs[i] := h]
  {
    assert ToSet(addrs[..i + 1]) == ToSet(addrs[..i]) + {addrs[i]};
  }

  predicate NewKeys(used: map<nat, HeliumNetId>, addrs: seq<nat>) {
    && (forall i :: 0 <= i < |addrs| ==> addrs[i] !in used)
    && (forall i, j :: 0 <= i < j < |addrs| ==> addrs[i] != addrs[j])
  }

  lemma NewKeysNext(used: map<nat, HeliumNetId>, h: HeliumNetId, addrs: seq<nat>, i: nat)
    requires i < |addrs| && NewKeys(used, addrs[..i])
    ensures addrs[i] in Claimed(used, h, ToSet(addrs[..i])) ==> !NewKeys(used, addrs)
    ensures addrs[i] !in Claimed(used, h, ToSet(addrs[..i])) ==> NewKeys(used, addrs[..i + 1])
  {
    if addrs[i] in Claimed(used, h, ToSet(addrs[..i])) && addrs[i] !in used {
      var k :| 0 <= k < i && addrs[..i][k] == addrs[i];
      assert addrs[k] == addrs[i];
    }
    if addrs[i] !in Claimed(used, h, ToSet(addrs[..i])) {
      forall k | 0 <= k < i ensures addrs[k] != addrs[i] { assert addrs[..i][k] in ToSet(addrs[..i]); }
    }
  }

  /** Inserts the addresses one by one; the address is the primary key. */
  method InsertAll(used: map<nat, HeliumNetId>, h: HeliumNetId, addrs: seq<nat>)
    returns (ok: bool, table: map<nat, HeliumNetId>)
    ensures ok <==> NewKeys(used, addrs)
    ensures ok ==> table == Claimed(used, h, ToSet(addrs))
  {
    table := used;
    var i := 0;
    while i < |addrs|
      invariant i <= |addrs| && NewKeys(used, addrs[..i])
      invariant table == Claimed(used, h, ToSet(addrs[..i]))
    {
      NewKeysNext(used, h, addrs, i);
      if addrs[i] in table {
        return false, table;
      }
      ClaimedNext(used, h, addrs, i);
      table := table[addrs[i] := h];
      i := i + 1;
    }
    assert addrs[..i] == addrs;
    ok := true;
  }

  lemma ListNext(addrs: seq<nat>, a: nat)
    requires StoreOrdered(addrs) && Words(ToSet(addrs)) && a < U32 && a !in ToSet(addrs)
    ensures StoreOrdered(InsertOrdered(addrs, a)) && ToSet(InsertOrdered(addrs, a)) == ToSet(addrs) + {a}
  {
    forall i | 0 <= i < |addrs| ensures ToI32(addrs[i]) != ToI32(a) {
      assert addrs[i] in ToSet(addrs);
      if ToI32(addrs[i]) == ToI32(a) { ToI32IsInjective(addrs[i], a); }
    }
    InsertOrderedIs(addrs, a);
    InsertOrderedSet(addrs, a);
  }

  /** Lists addresses the way the store orders its signed column. */
  method ListOrdered(all: set<nat>) returns (addrs: seq<nat>)
    requires Words(all)
    ensures StoreOrdered(addrs) && ToSet(addrs) == all
  {
    addrs := [];
    var todo := all;
    while todo != {}
      invariant todo <= all && StoreOrdered(addrs) && ToSet(addrs) == all - todo
      decreases |todo|
    {
      var a :| a in todo;
      ListNext(addrs, a);
      addrs := InsertOrdered(addrs, a);
      todo := todo - {a};
    }
  }

  /** Everything that is offered is a word. */
  lemma OfferedAreWords(h: HeliumNetId, used: set<nat>)
    requires Words(used)
    ensures forall a <- Offered(h, used) :: a < U32
  {
    var last := LastUsed(h, used);
    assert last < U32 && LastAddr(h) < U32;
    forall a <- Offered(h, used) ensures a < U32 {
      FreeInHas(FirstAddr(h), last + 1, used, a);
      SpanMembers((last + 1) % U32, LastAddr(h) + 1, a);
    }
  }

  class AddressTable {
    /** Used addresses with their NetID; the address is the primary key. */
    var used: map<nat, HeliumNetId>

    constructor ()
      ensures used == map[]
    {
      used := map[];
    }

    /** Addresses are 32-bit words. */
    ghost predicate Valid()
      reads this
    {
      forall a <- used :: a < U32
    }

    function UsedBy(h: HeliumNetId): set<nat>
      reads this
    {
      set a | a in used && used[a] == h
    }

    method GetUsedAddrs(h: HeliumNetId) returns (addrs: seq<nat>)
      requires Valid()
      ensures StoreOrdered(addrs) && ToSet(addrs) == UsedBy(h)
    {
      addrs := ListOrdered(UsedBy(h));
    }

    /** An insert of no rows is malformed, and one that repeats a key fails as a whole. */
    method ClaimAddrs(h: HeliumNetId, addrs: seq<nat>) returns (ok: bool)
      modifies this
      ensures ok <==> addrs != [] && NewKeys(old(used), addrs)
      ensures used == if ok then Claimed(old(used), h, ToSet(addrs)) else old(used)
    {
      if addrs == [] {
        return false;
      }
      var table;
      ok, table := InsertAll(used, h, addrs);
      if ok {
        used := table;
      }
    }

    method ReleaseAddrs(h: HeliumNetId, addrs: seq<nat>)
      modifies this
      ensures used == map a | a in old(used) && !(a in addrs && old(used)[a] == h) :: old(used)[a]
    {
      used := map a | a in used && !(a in addrs && used[a] == h) :: used[a];
    }

    /** `checkout_devaddr_constraints` */
    method CheckoutConstraints(count: nat, h: HeliumNetId) returns (r: Result<seq<DevAddrConstraint>, AllocError>)
      requires Valid()
      modifies this
      ensures Valid()
      ensures var claim := Claim(h, old(UsedBy(h)), count);
              if claim.Ok? && !NewKeys(old(used), claim.value) then r == Err(AddressStore) && used == old(used)
              else
                && r == Checkout(h, old(UsedBy(h)), count)
                && used == if claim.Ok? && claim.value != [] then Claimed(old(used), h, ToSet(claim.value)) else old(used)
    {
      var usedAddrs := GetUsedAddrs(h);
      var selected := SelectAddrs(h, usedAddrs, count);
      if selected.Err? {
        return Err(selected.error);
      }
      var claimed := selected.value;
      OfferedAreWords(h, UsedBy(h));
      var ok := ClaimAddrs(h, claimed);
      if !ok {
        return Err(AddressStore);
      }
      assert forall a <- claimed :: a in Offered(h, old(UsedBy(h)));
      r := ConstraintsFromAddrs(claimed);
    }

    /** `checkout_specified_devaddr_constraint` */
    method CheckoutSpecified(h: HeliumNetId, c: DevAddrConstraint) returns (r: Result<(), AllocError>)
      requires Valid() && c.end < U32
      modifies this
      ensures Valid()
      ensures r.Ok? <==> c.start <= c.end && forall a | c.start <= a <= c.end :: a !in old(used)
      ensures r.Ok? ==> used == Claimed(old(used), h, ToSet(Span(c.start, c.end + 1)))
      ensures r.Err? ==> used == old(used)
    {
      var usedAddrs := GetUsedAddrs(h);
      var request := Span(c.start, c.end + 1);
      forall a: nat ensures a in request <==> c.start <= a <= c.end { SpanMembers(c.start, c.end + 1, a); }
      if c.start <= c.end { SpanIs(c.start, c.end + 1); }
      if exists a | a in request :: a in usedAddrs {
        var a :| a in request && a in usedAddrs;
        assert a in ToSet(usedAddrs);
        return Err(AddrInUse);
      }
      var ok := ClaimAddrs(h, request);
      if !ok {
        return Err(AddressStore);
      }
      assert forall a <- used :: a in old(used) || a in request;
      return Ok(());
    }
  }

  lemma RangesOfHeliumAreDisjoint(h: HeliumNetId, k: HeliumNetId, a: nat)
    requires InRangeOf(h, a) && InRangeOf(k, a)
    ensures h == k
  {}
}
