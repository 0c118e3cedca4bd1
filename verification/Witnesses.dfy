/**
  The witness pipeline of one proof of coverage: verification with duplicate tracking, filtering, selection of the
  earliest witnesses, reward units and shares.

  The gateway lookups, the deny list and the checks on radio data are parameters, and so are the functions for
  the reward units.
*/
module Witnesses {
  import opened Wrappers
  import opened Rounding
  import opened RewardUnits

  datatype Report = Report(id: nat, key: nat, received: int)

  datatype Reason =
    | ReasonNone
    | GatewayNotFound
    | NotAsserted
    | DenyListed
    | DeniedEdge
    | SelfWitness
    | Rejected(check: nat)
    | Duplicate

  datatype Verified = Verified(report: Report, reason: Reason, hexScale: real, rewardUnit: real)

  /** One of the checks after the self-witness check: entropy, lag, data, capability, frequency, region, distances, RSSI. */
  datatype Check = Check(id: nat, passes: Report -> bool)

  datatype Env = Env(
    beaconKey: nat, beaconAsserted: bool, scale: real,
    fails: Report -> bool, found: nat -> bool, asserted: nat -> bool,
    denied: nat -> bool, deniedEdge: (nat, nat) -> bool, later: seq<Check>,
    beaconerUnit: nat -> real, witnessUnit: nat -> real)

  predicate Valid(v: Verified) {
    v.reason == ReasonNone
  }

  // ---------------------------------------------------------------- the chain of checks

  function FirstFailing(checks: seq<Check>, w: Report): Option<nat> {
    if checks == [] then None
    else if !checks[0].passes(w) then Some(checks[0].id)
    else FirstFailing(checks[1..], w)
  }

  function VerifyReason(env: Env, w: Report): Reason {
    if !env.found(w.key) then GatewayNotFound
    else if !env.asserted(w.key) || !env.beaconAsserted then NotAsserted
    else if env.denied(w.key) then DenyListed
    else if env.deniedEdge(env.beaconKey, w.key) then DeniedEdge
    else if w.key == env.beaconKey then SelfWitness
    else
      match FirstFailing(env.later, w)
      case Some(id) => Rejected(id)
      case None => ReasonNone
  }

  function VerifyWitness(env: Env, w: Report): Option<Verified> {
    if env.fails(w) then None
    else
      var reason := VerifyReason(env, w);
      Some(Verified(w, reason, if reason == ReasonNone then env.scale else 0.0, 0.0))
  }

  lemma {:induction false} FirstFailingIs(checks: seq<Check>, w: Report)
    ensures FirstFailing(checks, w) == None <==> forall i :: 0 <= i < |checks| ==> checks[i].passes(w)
    ensures FirstFailing(checks, w).Some? ==>
              exists i :: 0 <= i < |checks| && checks[i].id == FirstFailing(checks, w).value && !checks[i].passes(w)
                          && forall k :: 0 <= k < i ==> checks[k].passes(w)
    decreases |checks|
  {
    if checks != [] {
      FirstFailingIs(checks[1..], w);
      if checks[0].passes(w) && FirstFailing(checks, w).Some? {
        var i :| 0 <= i < |checks| - 1 && checks[1..][i].id == FirstFailing(checks[1..], w).value && !checks[1..][i].passes(w)
                 && forall k :: 0 <= k < i ==> checks[1..][k].passes(w);
        assert checks[i + 1] == checks[1..][i];
        forall k | 0 <= k < i + 1 ensures checks[k].passes(w) {
          if 0 < k { assert checks[k] == checks[1..][k - 1]; }
        }
      } else if checks[0].passes(w) {
        forall i | 0 <= i < |checks| ensures checks[i].passes(w) {
          if 0 < i { assert checks[i] == checks[1..][i - 1]; }
        }
      }
    }
  }

  /** A witness is valid exactly when every check of the chain passes. */
  lemma ValidIff(env: Env, w: Report)
    ensures VerifyReason(env, w) == ReasonNone
       <==> && env.found(w.key) && env.asserted(w.key) && env.beaconAsserted && !env.denied(w.key)
            && !env.deniedEdge(env.beaconKey, w.key) && w.key != env.beaconKey
            && forall i :: 0 <= i < |env.later| ==> env.later[i].passes(w)
  {
    FirstFailingIs(env.later, w);
  }

  // ---------------------------------------------------------------- duplicates

  datatype Outcome = Outcome(verified: seq<Verified>, failed: seq<Report>, seen: set<nat>)

  function VerifyNext(env: Env, o: Outcome, w: Report): Outcome {
    if w.key in o.seen then o.(verified := o.verified + [Verified(w, Duplicate, 0.0, 0.0)])
    else
      match VerifyWitness(env, w)
      case Some(v) => o.(verified := o.verified + [v], seen := o.seen + {v.report.key})
      case None => o.(failed := o.failed + [w])
  }

  function VerifyAll(env: Env, ws: seq<Report>): Outcome {
    if ws == [] then Outcome([], [], {}) else VerifyNext(env, VerifyAll(env, ws[..|ws| - 1]), ws[|ws| - 1])
  }

  /** `verify_witnesses` */
  method VerifyWitnesses(env: Env, ws: seq<Report>) returns (verified: seq<Verified>, failed: seq<Report>)
    ensures verified == VerifyAll(env, ws).verified && failed == VerifyAll(env, ws).failed
  {
    verified, failed := [], [];
    var seen: set<nat> := {};
    var i := 0;
    while i < |ws|
      invariant i <= |ws| && Outcome(verified, failed, seen) == VerifyAll(env, ws[..i])
    {
      var w := ws[i];
      assert ws[..i + 1][..i] == ws[..i];
      if w.key !in seen {
        match VerifyWitness(env, w)
        case Some(v) => verified, seen := verified + [v], seen + {v.report.key};
        case None => failed := failed + [w];
      } else {
        verified := verified + [Verified(w, Duplicate, 0.0, 0.0)];
      }
      i := i + 1;
    }
    assert ws[..i] == ws;
  }

  predicate Counts(v: Verified) {
    v.reason != Duplicate
  }

  /** Among the verified reports, all but one of each gateway are duplicates. */
  ghost predicate OnePerGateway(verified: seq<Verified>) {
    forall i, j :: 0 <= i < j < |verified| && Counts(verified[i]) && Counts(verified[j]) ==>
      verified[i].report.key != verified[j].report.key
  }

  ghost predicate SeenIs(verified: seq<Verified>, seen: set<nat>) {
    && (forall i :: 0 <= i < |verified| ==> verified[i].report.key in seen)
    && (forall k <- seen :: exists i :: 0 <= i < |verified| && verified[i].report.key == k && Counts(verified[i]))
  }

  lemma SeenNext(verified: seq<Verified>, seen: set<nat>, v: Verified)
    requires SeenIs(verified, seen) && (Counts(v) || v.report.key in seen)
    ensures SeenIs(verified + [v], seen + {v.report.key})
  {
    var all := verified + [v];
    forall k <- seen + {v.report.key} ensures exists i :: 0 <= i < |all| && all[i].report.key == k && Counts(all[i]) {
      if k in seen {
        var i :| 0 <= i < |verified| && verified[i].report.key == k && Counts(verified[i]);
        assert all[i] == verified[i];
      } else {
        assert all[|verified|] == v;
      }
    }
  }

  lemma VerifyReasonCounts(env: Env, w: Report)
    ensures VerifyReason(env, w) != Duplicate
  {}

  lemma {:induction false} GatewaysCountOnce(env: Env, ws: seq<Report>)
    ensures OnePerGateway(VerifyAll(env, ws).verified) && SeenIs(VerifyAll(env, ws).verified, VerifyAll(env, ws).seen)
    decreases |ws|
  {
    if ws != [] {
      var n := |ws| - 1;
      var o, w := VerifyAll(env, ws[..n]), ws[n];
      GatewaysCountOnce(env, ws[..n]);
      VerifyReasonCounts(env, w);
      if w.key in o.seen {
        SeenNext(o.verified, o.seen, Verified(w, Duplicate, 0.0, 0.0));
        assert o.seen + {w.key} == o.seen;
      } else if VerifyWitness(env, w).Some? {
        SeenNext(o.verified, o.seen, VerifyWitness(env, w).value);
      }
    }
  }

  function Reports(vs: seq<Verified>): seq<Report> {
    if vs == [] then [] else Reports(vs[..|vs| - 1]) + [vs[|vs| - 1].report]
  }

  lemma ReportsNext(vs: seq<Verified>, v: Verified)
    ensures Reports(vs + [v]) == Reports(vs) + [v.report]
  {
    assert (vs + [v])[..|vs|] == vs;
  }

  /** A report is appended to the verified ones or to the failed ones. */
  lemma VerifyNextAppends(env: Env, o: Outcome, w: Report) returns (v: Verified)
    ensures var o' := VerifyNext(env, o, w);
            if o'.verified == o.verified then o'.failed == o.failed + [w]
            else o'.verified == o.verified + [v] && v.report == w && o'.failed == o.failed
  {
    v := Verified(w, Duplicate, 0.0, 0.0);
    if w.key !in o.seen && VerifyWitness(env, w).Some? {
      v := VerifyWitness(env, w).value;
    }
  }

  ghost predicate HandlesAll(o: Outcome, ws: seq<Report>) {
    multiset(Reports(o.verified)) + multiset(o.failed) == multiset(ws)
  }

  lemma HandledNext(before: seq<Report>, w: Report, ws: seq<Report>, o: Outcome, o': Outcome, v: Verified)
    requires HandlesAll(o, before) && ws == before + [w]
    requires if o'.verified == o.verified then o'.failed == o.failed + [w]
             else o'.verified == o.verified + [v] && v.report == w && o'.failed == o.failed
    ensures HandlesAll(o', ws)
  {
    ReportsNext(o.verified, v);
  }

  /** Every report is either verified or failed, and only once. */
  lemma {:induction false} EveryReportIsHandled(env: Env, ws: seq<Report>)
    ensures HandlesAll(VerifyAll(env, ws), ws)
    decreases |ws|
  {
    if ws != [] {
      var n := |ws| - 1;
      var o := VerifyAll(env, ws[..n]);
      EveryReportIsHandled(env, ws[..n]);
      var v := VerifyNextAppends(env, o, ws[n]);
      HandledNext(ws[..n], ws[n], ws, o, VerifyNext(env, o, ws[n]), v);
    }
  }

  /** A valid witness comes from the checks, is not the beaconer, and carries the beaconer's hex scale. */
  lemma {:induction false} ValidAreChecked(env: Env, ws: seq<Report>, i: nat)
    requires i < |VerifyAll(env, ws).verified|
    ensures var v := VerifyAll(env, ws).verified[i];
            Valid(v) ==> VerifyReason(env, v.report) == ReasonNone && v.hexScale == env.scale && v.report.key != env.beaconKey
    decreases |ws|
  {
    var n := |ws| - 1;
    if i < |VerifyAll(env, ws[..n]).verified| { ValidAreChecked(env, ws[..n], i); } else { ValidIff(env, ws[n]); }
  }

  // ---------------------------------------------------------------- filtering

  datatype Kind = Candidate | Refused | Dropped

  /** Self-witnesses are dropped; the others are kept apart by their status. */
  function KindOf(v: Verified): Kind {
    if v.reason == SelfWitness then Dropped else if Valid(v) then Candidate else Refused
  }

  function Pick(vs: seq<Verified>, kind: Kind): seq<Verified> {
    if vs == [] then []
    else
      var n := |vs| - 1;
      if KindOf(vs[n]) == kind then Pick(vs[..n], kind) + [vs[n]] else Pick(vs[..n], kind)
  }

  ghost predicate Partitions(a: seq<Verified>, b: seq<Verified>, c: seq<Verified>, vs: seq<Verified>) {
    multiset(a) + multiset(b) + multiset(c) == multiset(vs)
  }

  lemma PartitionNext(
    a: seq<Verified>, b: seq<Verified>, c: seq<Verified>, before: seq<Verified>, v: Verified, vs: seq<Verified>)
    requires Partitions(a, b, c, before) && vs == before + [v]
    ensures Partitions(a + [v], b, c, vs) && Partitions(a, b + [v], c, vs) && Partitions(a, b, c + [v], vs)
  {}

  /** Filtering loses nothing but the self-witnesses. */
  lemma {:induction false} FilterIsPartition(vs: seq<Verified>)
    ensures Partitions(Pick(vs, Candidate), Pick(vs, Refused), Pick(vs, Dropped), vs)
    decreases |vs|
  {
    if vs != [] {
      var n := |vs| - 1;
      FilterIsPartition(vs[..n]);
      PartitionNext(Pick(vs[..n], Candidate), Pick(vs[..n], Refused), Pick(vs[..n], Dropped), vs[..n], vs[n], vs);
    }
  }

  lemma {:induction false} PickedAre(vs: seq<Verified>, kind: Kind, v: Verified)
    requires v in Pick(vs, kind)
    ensures KindOf(v) == kind && exists i :: 0 <= i < |vs| && vs[i] == v
    decreases |vs|
  {
    var n := |vs| - 1;
    if v in Pick(vs[..n], kind) {
      PickedAre(vs[..n], kind, v);
      var i :| 0 <= i < n && vs[..n][i] == v;
      assert vs[i] == v;
    }
  }

  lemma {:induction false} PickHas(vs: seq<Verified>, i: nat)
    requires i < |vs|
    ensures vs[i] in Pick(vs, KindOf(vs[i]))
    decreases |vs|
  {
    var n := |vs| - 1;
    if i < n { PickHas(vs[..n], i); }
  }

  /** The verdict of a report that is no duplicate is that of the checks. */
  lemma {:induction false} CountedAreChecked(env: Env, ws: seq<Report>, i: nat)
    requires i < |VerifyAll(env, ws).verified|
    ensures var v := VerifyAll(env, ws).verified[i]; Counts(v) ==> v.reason == VerifyReason(env, v.report)
    decreases |ws|
  {
    var n := |ws| - 1;
    if i < |VerifyAll(env, ws[..n]).verified| { CountedAreChecked(env, ws[..n], i); }
  }

  lemma {:induction false} VerifiedAreSeen(env: Env, ws: seq<Report>, w: Report)
    requires w in ws && !env.fails(w)
    ensures w.key in VerifyAll(env, ws).seen
    decreases |ws|
  {
    var n := |ws| - 1;
    if w in ws[..n] { VerifiedAreSeen(env, ws[..n], w); }
  }

  lemma {:induction false} SeenAreVerified(env: Env, ws: seq<Report>, key: nat)
    requires key in VerifyAll(env, ws).seen
    ensures exists w :: w in ws && w.key == key && !env.fails(w)
    decreases |ws|
  {
    var n := |ws| - 1;
    if key in VerifyAll(env, ws[..n]).seen {
      SeenAreVerified(env, ws[..n], key);
      var w :| w in ws[..n] && w.key == key && !env.fails(w);
      assert w in ws;
    } else {
      assert ws[n] in ws;
    }
  }

  lemma {:induction false} DroppedOnce(vs: seq<Verified>, key: nat)
    requires OnePerGateway(vs) && forall i :: 0 <= i < |vs| && KindOf(vs[i]) == Dropped ==> vs[i].report.key == key
    ensures |Pick(vs, Dropped)| <= 1
    decreases |vs|
  {
    if vs != [] {
      var n := |vs| - 1;
      DroppedOnce(vs[..n], key);
      if Pick(vs[..n], Dropped) != [] && KindOf(vs[n]) == Dropped {
        PickedAre(vs[..n], Dropped, Pick(vs[..n], Dropped)[0]);
        assert false;
      }
    }
  }

  /** The beaconer passes the lookups and both lists as a witness of its own beacon. */
  predicate PassesAsWitness(env: Env) {
    var k := env.beaconKey;
    env.found(k) && env.asserted(k) && env.beaconAsserted && !env.denied(k) && !env.deniedEdge(k, k)
  }

  /** The beaconer sent a report that can be verified. */
  predicate BeaconerReports(env: Env, ws: seq<Report>) {
    exists w :: w in ws && w.key == env.beaconKey && !env.fails(w)
  }

  /** Of all reports of one proof of coverage at most one is dropped, whatever the beaconer sends; the others of the
      beaconer stay as duplicates. */
  lemma DroppedIff(env: Env, ws: seq<Report>)
    ensures var dropped := Pick(VerifyAll(env, ws).verified, Dropped);
            && (forall v <- dropped :: v.report.key == env.beaconKey)
            && |dropped| == if PassesAsWitness(env) && BeaconerReports(env, ws) then 1 else 0
  {
    var o := VerifyAll(env, ws);
    GatewaysCountOnce(env, ws);
    forall i | 0 <= i < |o.verified| && KindOf(o.verified[i]) == Dropped
      ensures o.verified[i].report.key == env.beaconKey && PassesAsWitness(env) && env.beaconKey in o.seen
    {
      CountedAreChecked(env, ws, i);
    }
    DroppedOnce(o.verified, env.beaconKey);
    forall v <- Pick(o.verified, Dropped)
      ensures v.report.key == env.beaconKey && PassesAsWitness(env) && env.beaconKey in o.seen
    {
      PickedAre(o.verified, Dropped, v);
    }
    if Pick(o.verified, Dropped) != [] {
      assert Pick(o.verified, Dropped)[0] in Pick(o.verified, Dropped);
      SeenAreVerified(env, ws, env.beaconKey);
    }
    if PassesAsWitness(env) && BeaconerReports(env, ws) {
      BeaconerIsDropped(env, ws);
    }
  }

  lemma BeaconerIsDropped(env: Env, ws: seq<Report>)
    requires PassesAsWitness(env) && BeaconerReports(env, ws)
    ensures Pick(VerifyAll(env, ws).verified, Dropped) != []
  {
    var w :| w in ws && w.key == env.beaconKey && !env.fails(w);
    var o := VerifyAll(env, ws);
    VerifiedAreSeen(env, ws, w);
    GatewaysCountOnce(env, ws);
    var i :| 0 <= i < |o.verified| && o.verified[i].report.key == env.beaconKey && Counts(o.verified[i]);
    CountedAreChecked(env, ws, i);
    PickHas(o.verified, i);
  }

  // ---------------------------------------------------------------- selection

  /** Inserts after all that are not later, so that equal times keep their order. */
  function InsertByTime(vs: seq<Verified>, v: Verified): seq<Verified> {
    if vs == [] then [v]
    else
      var n := |vs| - 1;
      if vs[n].report.received <= v.report.received then vs + [v] else InsertByTime(vs[..n], v) + [vs[n]]
  }

  function SortByTime(vs: seq<Verified>): seq<Verified> {
    if vs == [] then [] else InsertByTime(SortByTime(vs[..|vs| - 1]), vs[|vs| - 1])
  }

  /** `sort_and_split_witnesses`: nothing is sorted when all fit. */
  function Split(vs: seq<Verified>, max: nat): (seq<Verified>, seq<Verified>) {
    if |vs| <= max then (vs, [])
    else
      var sorted := SortByTime(vs);
      SortKeepsAll(vs);
      (sorted[..max], sorted[max..])
  }

  predicate Ordered(vs: seq<Verified>) {
    forall i, j :: 0 <= i < j < |vs| ==> vs[i].report.received <= vs[j].report.received
  }

  lemma {:induction false} InsertKeeps(vs: seq<Verified>, v: Verified)
    ensures multiset(InsertByTime(vs, v)) == multiset(vs) + multiset{v} && |InsertByTime(vs, v)| == |vs| + 1
    decreases |vs|
  {
    if vs != [] {
      var n := |vs| - 1;
      assert vs == vs[..n] + [vs[n]];
      InsertKeeps(vs[..n], v);
    }
  }

  lemma {:induction false} SortKeepsAll(vs: seq<Verified>)
    ensures multiset(SortByTime(vs)) == multiset(vs) && |SortByTime(vs)| == |vs|
    decreases |vs|
  {
    if vs != [] {
      var n := |vs| - 1;
      assert vs == vs[..n] + [vs[n]];
      SortKeepsAll(vs[..n]);
      InsertKeeps(SortByTime(vs[..n]), vs[n]);
    }
  }

  lemma {:induction false} InsertOrders(vs: seq<Verified>, v: Verified)
    requires Ordered(vs)
    ensures Ordered(InsertByTime(vs, v))
    decreases |vs|
  {
    if vs != [] && v.report.received < vs[|vs| - 1].report.received {
      var n := |vs| - 1;
      InsertOrders(vs[..n], v);
      var all := InsertByTime(vs[..n], v);
      InsertKeeps(vs[..n], v);
      forall i | 0 <= i < |all| ensures all[i].report.received <= vs[n].report.received {
        assert all[i] in multiset(all);
        if all[i] != v { assert all[i] in vs[..n]; }
      }
    }
  }

  lemma {:induction false} SortOrders(vs: seq<Verified>)
    ensures Ordered(SortByTime(vs))
    decreases |vs|
  {
    if vs != [] {
      SortOrders(vs[..|vs| - 1]);
      InsertOrders(SortByTime(vs[..|vs| - 1]), vs[|vs| - 1]);
    }
  }

  /** The selection keeps every candidate, selects as many as allowed, and none that is later than one left out. */
  lemma SplitSelectsEarliest(vs: seq<Verified>, max: nat)
    ensures var (selected, rest) := Split(vs, max);
            && multiset(selected) + multiset(rest) == multiset(vs)
            && |selected| == (if |vs| <= max then |vs| else max)
            && forall s <- selected, u <- rest :: s.report.received <= u.report.received
  {
    if max < |vs| {
      var sorted := SortByTime(vs);
      SortKeepsAll(vs);
      SortOrders(vs);
      assert sorted == sorted[..max] + sorted[max..];
    }
  }

  // ---------------------------------------------------------------- one proof of coverage

  function Candidates(env: Env, ws: seq<Report>): seq<Verified> {
    Pick(VerifyAll(env, ws).verified, Candidate)
  }

  function Selected(env: Env, ws: seq<Report>, max: nat): seq<Verified> {
    Split(Candidates(env, ws), max).0
  }

  function Unselected(env: Env, ws: seq<Report>, max: nat): seq<Verified> {
    Split(Candidates(env, ws), max).1 + Pick(VerifyAll(env, ws).verified, Refused)
  }

  /** Selected, unselected and dropped reports are all the verified ones; the selected ones are valid, at most `max`, and
      no valid witness that was left out is earlier than a selected one. */
  lemma SelectionIsSound(env: Env, ws: seq<Report>, max: nat)
    ensures var verified := VerifyAll(env, ws).verified;
            && multiset(Selected(env, ws, max)) + multiset(Unselected(env, ws, max)) + multiset(Pick(verified, Dropped))
            == multiset(verified)
    ensures |Selected(env, ws, max)| <= max && forall s <- Selected(env, ws, max) :: Valid(s)
    ensures forall s <- Selected(env, ws, max), u <- Unselected(env, ws, max) | Valid(u) ::
              s.report.received <= u.report.received
  {
    var verified := VerifyAll(env, ws).verified;
    FilterIsPartition(verified);
    SplitSelectsEarliest(Candidates(env, ws), max);
    forall s <- Selected(env, ws, max) ensures Valid(s) {
      assert s in multiset(Selected(env, ws, max)) && s in multiset(Candidates(env, ws));
      PickedAre(verified, Candidate, s);
    }
    forall u <- Pick(verified, Refused) ensures !Valid(u) { PickedAre(verified, Refused, u); }
  }

  /** No gateway has two reports among these. */
  ghost predicate Unique(m: multiset<Verified>) {
    forall a <- m, b <- m | a.report.key == b.report.key :: a == b && m[a] == 1
  }

  lemma {:induction false} CandidatesAreUnique(vs: seq<Verified>)
    requires OnePerGateway(vs)
    ensures Unique(multiset(Pick(vs, Candidate)))
    decreases |vs|
  {
    if vs != [] {
      var n := |vs| - 1;
      CandidatesAreUnique(vs[..n]);
      forall a <- Pick(vs[..n], Candidate) | Valid(vs[n]) ensures a.report.key != vs[n].report.key {
        PickedAre(vs[..n], Candidate, a);
        var i :| 0 <= i < n && vs[..n][i] == a;
        assert vs[i] == a;
      }
    }
  }

  lemma TwicePresent(vs: seq<Verified>, i: nat, j: nat)
    requires i < j < |vs| && vs[i] == vs[j]
    ensures 2 <= multiset(vs)[vs[i]]
  {
    assert vs == vs[..j] + vs[j..];
    assert vs[..j][i] in multiset(vs[..j]) && vs[j..][0] in multiset(vs[j..]);
  }

  lemma SelectedAreCandidates(env: Env, ws: seq<Report>, max: nat)
    ensures multiset(Selected(env, ws, max)) <= multiset(Candidates(env, ws))
  {
    SplitSelectsEarliest(Candidates(env, ws), max);
  }

  lemma UniqueKeys(s: seq<Verified>, m: multiset<Verified>, i: nat, j: nat)
    requires Unique(m) && multiset(s) <= m && i < j < |s|
    ensures s[i].report.key != s[j].report.key
  {
    assert s[i] in multiset(s) && s[j] in multiset(s);
    if s[i] == s[j] { TwicePresent(s, i, j); }
  }

  lemma SelectedIsNotBeaconer(env: Env, ws: seq<Report>, max: nat, i: nat)
    requires i < |Selected(env, ws, max)|
    ensures var v := Selected(env, ws, max)[i]; v.report.key != env.beaconKey && v.hexScale == env.scale
  {
    var v, verified := Selected(env, ws, max)[i], VerifyAll(env, ws).verified;
    SelectedAreCandidates(env, ws, max);
    assert v in multiset(Selected(env, ws, max)) && v in multiset(Candidates(env, ws));
    PickedAre(verified, Candidate, v);
    var k :| 0 <= k < |verified| && verified[k] == v;
    ValidAreChecked(env, ws, k);
  }

  /** The selected witnesses are different gateways, and none of them is the beaconer. */
  lemma SelectedKeysDiffer(env: Env, ws: seq<Report>, max: nat)
    ensures var s := Selected(env, ws, max);
            && (forall i, j :: 0 <= i < j < |s| ==> s[i].report.key != s[j].report.key)
            && (forall i :: 0 <= i < |s| ==> s[i].report.key != env.beaconKey && s[i].hexScale == env.scale)
  {
    var s := Selected(env, ws, max);
    GatewaysCountOnce(env, ws);
    CandidatesAreUnique(VerifyAll(env, ws).verified);
    SelectedAreCandidates(env, ws, max);
    forall i, j | 0 <= i < j < |s| ensures s[i].report.key != s[j].report.key {
      UniqueKeys(s, multiset(Candidates(env, ws)), i, j);
    }
    forall i | 0 <= i < |s| ensures s[i].report.key != env.beaconKey && s[i].hexScale == env.scale {
      SelectedIsNotBeaconer(env, ws, max, i);
    }
  }

  // ---------------------------------------------------------------- shares

  datatype Share = Share(key: nat, isBeacon: bool, hexScale: real, rewardUnit: real)

  /** The reward units of the selected witnesses are set in place. */
  function Rewarded(vs: seq<Verified>, unit: real): (r: seq<Verified>)
    ensures |r| == |vs| && forall i :: 0 <= i < |vs| ==> r[i] == vs[i].(rewardUnit := if Valid(vs[i]) then unit else 0.0)
  {
    seq(|vs|, i requires 0 <= i < |vs| => vs[i].(rewardUnit := if Valid(vs[i]) then unit else 0.0))
  }

  function WitnessShares(vs: seq<Verified>): seq<Share> {
    if vs == [] then []
    else
      var n := |vs| - 1;
      var v, rest := vs[n], WitnessShares(vs[..n]);
      if Valid(v) && v.hexScale > 0.0 && v.rewardUnit > 0.0
      then rest + [Share(v.report.key, false, v.hexScale, v.rewardUnit)]
      else rest
  }

  function BeaconShares(key: nat, scale: real, unit: real): seq<Share> {
    if scale > 0.0 && unit > 0.0 then [Share(key, true, scale, unit)] else []
  }

  /** `shares_from_poc` */
  method SharesFromPoc(key: nat, scale: real, unit: real, selected: seq<Verified>) returns (shares: seq<Share>)
    ensures shares == BeaconShares(key, scale, unit) + WitnessShares(selected)
  {
    shares := [];
    if scale > 0.0 && unit > 0.0 {
      shares := shares + [Share(key, true, scale, unit)];
    }
    var i := 0;
    while i < |selected|
      invariant i <= |selected| && shares == BeaconShares(key, scale, unit) + WitnessShares(selected[..i])
    {
      var v := selected[i];
      assert selected[..i + 1][..i] == selected[..i];
      if Valid(v) && v.hexScale > 0.0 && v.rewardUnit > 0.0 {
        shares := shares + [Share(v.report.key, false, v.hexScale, v.rewardUnit)];
      }
      i := i + 1;
    }
    assert selected[..i] == selected;
  }

  function SharesAt(env: Env, selected: seq<Verified>, beaconScale: real, beaconUnit: real, unit: real): seq<Share> {
    BeaconShares(env.beaconKey, beaconScale, beaconUnit) + WitnessShares(Rewarded(selected, unit))
  }

  function PocShares(env: Env, ws: seq<Report>, max: nat, beaconScale: real): seq<Share> {
    var selected := Selected(env, ws, max);
    SharesAt(env, selected, beaconScale, env.beaconerUnit(|selected|), env.witnessUnit(|selected|))
  }

  ghost predicate KeysFrom(shares: seq<Share>, vs: seq<Verified>) {
    forall s <- shares :: exists i :: 0 <= i < |vs| && vs[i].report.key == s.key
  }

  ghost predicate KeysDiffer(shares: seq<Share>) {
    forall i, j :: 0 <= i < j < |shares| ==> shares[i].key != shares[j].key
  }

  lemma {:induction false} WitnessSharesDiffer(vs: seq<Verified>)
    requires forall i, j :: 0 <= i < j < |vs| ==> vs[i].report.key != vs[j].report.key
    ensures KeysFrom(WitnessShares(vs), vs) && KeysDiffer(WitnessShares(vs))
    decreases |vs|
  {
    if vs != [] {
      var n := |vs| - 1;
      var rest := WitnessShares(vs[..n]);
      WitnessSharesDiffer(vs[..n]);
      forall s <- rest ensures exists i :: 0 <= i < n && vs[i].report.key == s.key {
        var i :| 0 <= i < n && vs[..n][i].report.key == s.key;
        assert vs[i].report.key == s.key;
      }
      assert vs[n].report.key == vs[n].report.key;
    }
  }

  /** The shares of one proof of coverage belong to different gateways, so saving one never overwrites another. */
  lemma SharesBelongToDifferentGateways(env: Env, ws: seq<Report>, max: nat, beaconScale: real)
    ensures KeysDiffer(PocShares(env, ws, max, beaconScale))
  {
    var selected := Selected(env, ws, max);
    var rewarded := Rewarded(selected, env.witnessUnit(|selected|));
    SelectedKeysDiffer(env, ws, max);
    WitnessSharesDiffer(rewarded);
    forall s <- WitnessShares(rewarded) ensures s.key != env.beaconKey {
      var i :| 0 <= i < |rewarded| && rewarded[i].report.key == s.key;
    }
  }

  // ---------------------------------------------------------------- what one proof of coverage pays

  function UnitTotal(shares: seq<Share>): real {
    if shares == [] then 0.0 else UnitTotal(shares[..|shares| - 1]) + shares[|shares| - 1].rewardUnit
  }

  lemma {:induction false} UnitTotalConcat(a: seq<Share>, b: seq<Share>)
    ensures UnitTotal(a + b) == UnitTotal(a) + UnitTotal(b)
    decreases |b|
  {
    if b == [] {
      assert a + b == a;
    } else {
      var n := |b| - 1;
      assert (a + b)[..|a| + n] == a + b[..n];
      UnitTotalConcat(a, b[..n]);
    }
  }

  lemma UnitsNonNegative(n: nat)
    ensures 0.0 <= WitnessUnit(n) && 0.0 <= BeaconerUnit(n)
  {
    BeaconerUnitsGrow(0, n);
    RoundDpOfWhole(0, 10000);
    if WITNESS_REDUNDANCY < n { CapsAreIdle(n); WitnessExactPositive(n); }
    RoundDpMonotone(0.0, WitnessExact(n), TEN_4);
  }

  lemma WitnessExactPositive(n: nat)
    requires WITNESS_REDUNDANCY < n
    ensures 0.0 <= WitnessExact(n)
  {
    CapsAreIdle(n);
    DecayShrinks(1, n - WITNESS_REDUNDANCY);
    assert Decay(1) == 0.8;
    QuotientBound(3.0 + Decay(n - WITNESS_REDUNDANCY), n);
  }

  /** A share pays its unit only where the hex has a scale. */
  function PaidUnit(scale: real, unit: real): real {
    if 0.0 < scale then unit else 0.0
  }

  ghost predicate RewardedAt(vs: seq<Verified>, scale: real, unit: real) {
    forall i :: 0 <= i < |vs| ==> Valid(vs[i]) && vs[i].hexScale == scale && vs[i].rewardUnit == unit
  }

  lemma {:induction false} WitnessUnitTotal(vs: seq<Verified>, scale: real, unit: real, paid: real)
    requires 0.0 <= unit && RewardedAt(vs, scale, unit) && paid == PaidUnit(scale, unit)
    ensures UnitTotal(WitnessShares(vs)) == Pays(|vs|, 0.0, paid)
    decreases |vs|
  {
    if vs == [] {
      NothingPays(paid);
    } else {
      var n := |vs| - 1;
      WitnessUnitTotal(vs[..n], scale, unit, paid);
      LastWitnessUnit(vs, scale, unit);
      OneMoreUnit(n, paid);
    }
  }

  lemma LastWitnessUnit(vs: seq<Verified>, scale: real, unit: real)
    requires vs != [] && 0.0 <= unit && RewardedAt(vs, scale, unit)
    ensures UnitTotal(WitnessShares(vs)) == UnitTotal(WitnessShares(vs[..|vs| - 1])) + PaidUnit(scale, unit)
  {
    var v, rest := vs[|vs| - 1], WitnessShares(vs[..|vs| - 1]);
    assert Valid(v) && v.hexScale == scale && v.rewardUnit == unit;
    if 0.0 < unit && 0.0 < scale {
      assert (rest + [Share(v.report.key, false, v.hexScale, unit)])[..|rest|] == rest;
    }
  }

  lemma NothingPays(unit: real)
    ensures Pays(0, 0.0, unit) == 0.0
  {}

  lemma OneMoreUnit(n: nat, unit: real)
    ensures Pays(n + 1, 0.0, unit) == Pays(n, 0.0, unit) + unit
  {}

  lemma SharesTotal(key: nat, beaconScale: real, beaconUnit: real, vs: seq<Verified>, scale: real, unit: real,
                    beaconPaid: real, paid: real)
    requires 0.0 <= beaconUnit && 0.0 <= unit && RewardedAt(vs, scale, unit)
    requires beaconPaid == PaidUnit(beaconScale, beaconUnit) && paid == PaidUnit(scale, unit)
    ensures UnitTotal(BeaconShares(key, beaconScale, beaconUnit) + WitnessShares(vs)) == Pays(|vs|, beaconPaid, paid)
  {
    var beacon := BeaconShares(key, beaconScale, beaconUnit);
    assert UnitTotal(beacon) == beaconPaid by { if beacon != [] { assert beacon[..0] == []; } }
    WitnessUnitTotal(vs, scale, unit, paid);
    UnitTotalConcat(beacon, WitnessShares(vs));
  }

  lemma RewardedHave(env: Env, ws: seq<Report>, max: nat, unit: real)
    ensures RewardedAt(Rewarded(Selected(env, ws, max), unit), env.scale, unit)
  {
    SelectedKeysDiffer(env, ws, max);
    SelectionIsSound(env, ws, max);
  }

  /** The units that a proof of coverage pays. */
  function PocPays(env: Env, n: nat, beaconScale: real): real {
    Pays(n, PaidUnit(beaconScale, env.beaconerUnit(n)), PaidUnit(env.scale, env.witnessUnit(n)))
  }

  lemma PocUnitTotal(env: Env, ws: seq<Report>, max: nat, beaconScale: real, beaconUnit: real, unit: real)
    requires 0.0 <= beaconUnit && 0.0 <= unit
    ensures var selected := Selected(env, ws, max);
            UnitTotal(SharesAt(env, selected, beaconScale, beaconUnit, unit))
            == Pays(|selected|, PaidUnit(beaconScale, beaconUnit), PaidUnit(env.scale, unit))
  {
    var vs := Rewarded(Selected(env, ws, max), unit);
    RewardedHave(env, ws, max, unit);
    SharesTotal(env.beaconKey, beaconScale, beaconUnit, vs, env.scale, unit,
                PaidUnit(beaconScale, beaconUnit), PaidUnit(env.scale, unit));
  }

  /** The units of HIP-15 add up, for every number of witnesses. */
  lemma Hip15UnitsAreSound(n: nat, beaconUnit: real, unit: real)
    requires beaconUnit == BeaconerUnit(n) && unit == WitnessUnit(n)
    ensures 0.0 <= beaconUnit && 0.0 <= unit && CloseToDue(n, Pays(n, beaconUnit, unit))
  {
    UnitsNonNegative(n);
    RoundedUnitsAreConserved(n);
  }

  ghost predicate UsesHip15(env: Env) {
    forall n: nat :: env.beaconerUnit(n) == BeaconerUnit(n) && env.witnessUnit(n) == WitnessUnit(n)
  }

  /** A proof of coverage pays the beaconer's unit and one unit per selected witness, each where its hex has a scale.
      Where both have one that is 5/4 units per selected witness, up to the redundancy of four and up to the rounding of
      the units. */
  lemma PocPaysPerWitness(env: Env, ws: seq<Report>, max: nat, beaconScale: real)
    requires UsesHip15(env)
    ensures var n, paid := |Selected(env, ws, max)|, UnitTotal(PocShares(env, ws, max, beaconScale));
            && paid == PocPays(env, n, beaconScale)
            && (0.0 < env.scale && 0.0 < beaconScale ==> CloseToDue(n, paid))
  {
    var n := |Selected(env, ws, max)|;
    Hip15UnitsAreSound(n, env.beaconerUnit(n), env.witnessUnit(n));
    PocUnitTotal(env, ws, max, beaconScale, env.beaconerUnit(n), env.witnessUnit(n));
  }

  // ---------------------------------------------------------------- saving

  /** The table of shares, keyed by gateway within one proof of coverage; saving is an upsert. */
  function Saved(table: map<nat, Share>, shares: seq<Share>): map<nat, Share> {
    if shares == [] then table
    else
      var n := |shares| - 1;
      Saved(table, shares[..n])[shares[n].key := shares[n]]
  }

  /** With different gateways, every saved share is found again. */
  lemma {:induction false} NothingIsOverwritten(table: map<nat, Share>, shares: seq<Share>, i: nat)
    requires KeysDiffer(shares) && i < |shares|
    ensures shares[i].key in Saved(table, shares) && Saved(table, shares)[shares[i].key] == shares[i]
    decreases |shares|
  {
    var n := |shares| - 1;
    if i < n {
      NothingIsOverwritten(table, shares[..n], i);
      assert shares[..n][i] == shares[i];
    }
  }
}
