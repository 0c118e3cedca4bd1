/**
  Reward periods: shares are saved with a timestamp, each period counts those after its start up to its end, and what is
  purged afterwards has been counted before. A pass over a period can be interrupted; only the files that a manifest names
  are rewards.
*/
module RewardPeriods {
  datatype Manifest = Manifest(start: int, end: int, counted: set<nat>)

  /** How far a pass over the period comes: to the written files, to the purged tables, or to the manifest. */
  datatype Progress = FilesWritten | TablesPurged | Announced

  datatype Event = Save(key: nat) | Reward(progress: Progress)

  /** The saved shares, the end of the last rewarded period, the end of the next one, and the manifests so far. */
  datatype State = State(table: set<nat>, last: int, next: int, manifests: seq<Manifest>)

  /** `at` is the reward timestamp of each share. */
  function Counted(s: State, at: nat -> int): set<nat> {
    set k | k in s.table && s.last < at(k) <= s.next
  }

  /** One transaction deletes the shares up to the start of the period and moves on to the next period. */
  function Purged(s: State, at: nat -> int, length: nat): State {
    State((set k | k in s.table && s.last < at(k)), s.next, s.next + length, s.manifests)
  }

  function Step(s: State, e: Event, at: nat -> int, length: nat): State {
    match e
    case Save(k) => s.(table := s.table + {k})
    case Reward(FilesWritten) => s
    case Reward(TablesPurged) => Purged(s, at, length)
    case Reward(Announced) =>
      Purged(s, at, length).(manifests := s.manifests + [Manifest(s.last, s.next, Counted(s, at))])
  }

  function Run(start: int, events: seq<Event>, at: nat -> int, length: nat): State {
    if events == [] then State({}, start, start + length, [])
    else
      var n := |events| - 1;
      Step(Run(start, events[..n], at, length), events[n], at, length)
  }

  /** The number of manifests that count the share. */
  function Times(manifests: seq<Manifest>, k: nat): nat {
    if manifests == [] then 0
    else
      var n := |manifests| - 1;
      Times(manifests[..n], k) + if k in manifests[n].counted then 1 else 0
  }

  lemma TimesNext(manifests: seq<Manifest>, m: Manifest, k: nat)
    ensures Times(manifests + [m], k) == Times(manifests, k) + if k in m.counted then 1 else 0
  {
    assert (manifests + [m])[..|manifests|] == manifests;
  }

  /** The event at `i` announces the period of the share, which has been saved by then. */
  predicate CountsAt(start: int, events: seq<Event>, at: nat -> int, length: nat, k: nat, i: nat) {
    && i < |events| && events[i] == Reward(Announced) && Save(k) in events[..i]
    && var s := Run(start, events[..i], at, length);
       s.last < at(k) <= s.next
  }

  ghost predicate InTime(start: int, events: seq<Event>, at: nat -> int, length: nat, k: nat) {
    exists i: nat :: CountsAt(start, events, at, length, k, i)
  }

  lemma InTimeNext(start: int, events: seq<Event>, at: nat -> int, length: nat, k: nat)
    requires events != []
    ensures InTime(start, events, at, length, k) <==>
              InTime(start, events[..|events| - 1], at, length, k) || CountsAt(start, events, at, length, k, |events| - 1)
  {
    var n := |events| - 1;
    forall i: nat | i < n
      ensures CountsAt(start, events, at, length, k, i) <==> CountsAt(start, events[..n], at, length, k, i)
    {
      assert events[..n][..i] == events[..i];
    }
    if i: nat :| CountsAt(start, events[..n], at, length, k, i) { assert CountsAt(start, events, at, length, k, i); }
  }

  /** What holds of one share after every run, whether it was saved and whether it was in time. */
  ghost predicate Accounted(start: int, s: State, at: nat -> int, k: nat, saved: bool, inTime: bool) {
    && start <= s.last < s.next
    && (inTime ==> start < at(k) <= s.last)
    && Times(s.manifests, k) == (if inTime then 1 else 0)
    && (s.last < at(k) ==> (k in s.table <==> saved))
  }

  lemma PurgeAccounts(start: int, s: State, at: nat -> int, length: nat, k: nat, saved: bool, inTime: bool)
    requires 0 < length && Accounted(start, s, at, k, saved, inTime)
    ensures Accounted(start, Purged(s, at, length), at, k, saved, inTime)
  {
    assert k in Purged(s, at, length).table <==> k in s.table && s.last < at(k);
  }

  lemma AnnouncementAccounts(start: int, s: State, at: nat -> int, length: nat, k: nat, saved: bool, inTime: bool)
    requires 0 < length && Accounted(start, s, at, k, saved, inTime)
    ensures Accounted(start, Step(s, Reward(Announced), at, length), at, k, saved,
                      inTime || (saved && s.last < at(k) <= s.next))
  {
    PurgeAccounts(start, s, at, length, k, saved, inTime);
    var m := Manifest(s.last, s.next, Counted(s, at));
    assert k in m.counted <==> k in s.table && s.last < at(k) <= s.next;
    TimesNext(s.manifests, m, k);
  }

  lemma StepAccounts(start: int, s: State, e: Event, at: nat -> int, length: nat, k: nat, saved: bool, inTime: bool)
    requires 0 < length && Accounted(start, s, at, k, saved, inTime)
    ensures Accounted(start, Step(s, e, at, length), at, k, saved || e == Save(k),
                      inTime || (e == Reward(Announced) && saved && s.last < at(k) <= s.next))
  {
    match e
    case Save(j) => assert k in s.table + {j} <==> k in s.table || k == j;
    case Reward(FilesWritten) =>
    case Reward(TablesPurged) => PurgeAccounts(start, s, at, length, k, saved, inTime);
    case Reward(Announced) => AnnouncementAccounts(start, s, at, length, k, saved, inTime);
  }

  lemma {:induction false} RunAccounts(start: int, events: seq<Event>, at: nat -> int, length: nat, k: nat)
    requires 0 < length
    ensures Accounted(start, Run(start, events, at, length), at, k, Save(k) in events, InTime(start, events, at, length, k))
    decreases |events|
  {
    if events != [] {
      var n := |events| - 1;
      var before := events[..n];
      RunAccounts(start, before, at, length, k);
      InTimeNext(start, events, at, length, k);
      assert Save(k) in events <==> Save(k) in before || events[n] == Save(k);
      StepAccounts(start, Run(start, before, at, length), events[n], at, length, k,
                   Save(k) in before, InTime(start, before, at, length, k));
    }
  }

  /** Every share is counted by exactly one manifest if it was saved before its period was announced, and by none
      otherwise: no share is rewarded twice, however often a pass is interrupted. */
  lemma CountedOnceIff(start: int, events: seq<Event>, at: nat -> int, length: nat, k: nat)
    requires 0 < length
    ensures var s := Run(start, events, at, length);
            Times(s.manifests, k) == if InTime(start, events, at, length, k) then 1 else 0
  {
    RunAccounts(start, events, at, length, k);
  }

  /** The purge never deletes a share of the current or a later period. */
  lemma PurgeIsSafe(start: int, events: seq<Event>, at: nat -> int, length: nat, k: nat)
    requires 0 < length && Save(k) in events
    ensures var s := Run(start, events, at, length); s.last < at(k) ==> k in s.table
  {
    RunAccounts(start, events, at, length, k);
  }

  predicate Follows(manifests: seq<Manifest>) {
    forall i :: 0 < i < |manifests| ==> manifests[i - 1].end <= manifests[i].start
  }

  lemma {:induction false} RunFollows(start: int, events: seq<Event>, at: nat -> int, length: nat)
    requires 0 < length
    ensures var s := Run(start, events, at, length);
            && Follows(s.manifests) && start <= s.last < s.next
            && forall i :: 0 <= i < |s.manifests| ==> s.manifests[i].start < s.manifests[i].end <= s.last
    decreases |events|
  {
    if events != [] { RunFollows(start, events[..|events| - 1], at, length); }
  }

  predicate AllAnnounced(events: seq<Event>) {
    forall i :: 0 <= i < |events| ==> events[i] != Reward(TablesPurged)
  }

  /** The manifests cover the time from `start` to `last` without a gap. */
  predicate Abut(manifests: seq<Manifest>, start: int, last: int) {
    if manifests == [] then last == start
    else
      && manifests[0].start == start && manifests[|manifests| - 1].end == last
      && forall i :: 0 < i < |manifests| ==> manifests[i - 1].end == manifests[i].start
  }

  lemma AbutNext(manifests: seq<Manifest>, start: int, last: int, m: Manifest)
    requires m.start == last
    ensures Abut(manifests + [m], start, m.end) <==> Abut(manifests, start, last)
  {
    var all := manifests + [m];
    assert all[|manifests|] == m;
    if manifests != [] {
      assert all[0] == manifests[0] && all[|manifests| - 1] == manifests[|manifests| - 1];
      if Abut(all, start, m.end) {
        assert all[|manifests| - 1].end == all[|manifests|].start;
        forall i | 0 < i < |manifests| ensures manifests[i - 1].end == manifests[i].start {
          assert all[i - 1].end == all[i].start;
        }
      }
    }
  }

  /** A period is left out exactly when a pass over it stops between the purge and the manifest. */
  lemma {:induction false} ManifestsAbutIff(start: int, events: seq<Event>, at: nat -> int, length: nat)
    requires 0 < length
    ensures var s := Run(start, events, at, length); Abut(s.manifests, start, s.last) <==> AllAnnounced(events)
    decreases |events|
  {
    if events != [] {
      var n := |events| - 1;
      var s := Run(start, events[..n], at, length);
      ManifestsAbutIff(start, events[..n], at, length);
      RunFollows(start, events[..n], at, length);
      assert AllAnnounced(events) <==> AllAnnounced(events[..n]) && events[n] != Reward(TablesPurged);
      AbutNext(s.manifests, start, s.last, Manifest(s.last, s.next, Counted(s, at)));
    }
  }

  // ---------------------------------------------------------------- what an interrupted pass loses

  /** The event at `i` is the pass that moves on past the timestamp of the share. */
  predicate PassesAt(start: int, events: seq<Event>, at: nat -> int, length: nat, k: nat, i: nat) {
    && i < |events| && (events[i] == Reward(TablesPurged) || events[i] == Reward(Announced))
    && var s := Run(start, events[..i], at, length);
       s.last < at(k) <= s.next
  }

  lemma RunNext(start: int, events: seq<Event>, at: nat -> int, length: nat, i: nat)
    requires i < |events|
    ensures Run(start, events[..i + 1], at, length) == Step(Run(start, events[..i], at, length), events[i], at, length)
  {
    assert events[..i + 1][..i] == events[..i];
  }

  lemma {:induction false} LastGrows(start: int, events: seq<Event>, at: nat -> int, length: nat, i: nat, j: nat)
    requires 0 < length && i <= j <= |events|
    ensures Run(start, events[..i], at, length).last <= Run(start, events[..j], at, length).last
    decreases j - i
  {
    if i < j {
      RunNext(start, events, at, length, i);
      RunFollows(start, events[..i], at, length);
      LastGrows(start, events, at, length, i + 1, j);
    }
  }

  /** Only one pass moves on past a timestamp. */
  lemma PassIsUnique(start: int, events: seq<Event>, at: nat -> int, length: nat, k: nat, i: nat, j: nat)
    requires 0 < length && i <= j && PassesAt(start, events, at, length, k, i) && PassesAt(start, events, at, length, k, j)
    ensures i == j
  {
    if i < j {
      RunNext(start, events, at, length, i);
      LastGrows(start, events, at, length, i + 1, j);
    }
  }

  /** There is one for every timestamp up to the end of the last rewarded period. */
  lemma {:induction false} PassExists(start: int, events: seq<Event>, at: nat -> int, length: nat, k: nat)
    requires 0 < length && start < at(k) <= Run(start, events, at, length).last
    ensures exists i: nat :: PassesAt(start, events, at, length, k, i)
    decreases |events|
  {
    var n := |events| - 1;
    var s := Run(start, events[..n], at, length);
    if at(k) <= s.last {
      PassExists(start, events[..n], at, length, k);
      var i: nat :| PassesAt(start, events[..n], at, length, k, i);
      assert events[..n][..i] == events[..i];
      assert PassesAt(start, events, at, length, k, i);
    } else {
      assert PassesAt(start, events, at, length, k, n);
    }
  }

  /** A share that was saved before the pass over its period gets no reward if and only if that pass stops between the
      purge and the manifest; no later pass makes up for it. */
  lemma ShareIsLostIff(start: int, events: seq<Event>, at: nat -> int, length: nat, k: nat, i: nat)
    requires 0 < length && PassesAt(start, events, at, length, k, i) && Save(k) in events[..i]
    ensures Times(Run(start, events, at, length).manifests, k) == 0 <==> events[i] == Reward(TablesPurged)
  {
    CountedOnceIff(start, events, at, length, k);
    if events[i] == Reward(Announced) {
      assert CountsAt(start, events, at, length, k, i);
    } else if j: nat :| CountsAt(start, events, at, length, k, j) {
      PassIsUnique(start, events, at, length, k, if i <= j then i else j, if i <= j then j else i);
    }
  }
}
