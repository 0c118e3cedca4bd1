/**
  Which payer is burned next: the one above the threshold whose last burn is the longest ago. A settled burn moves its
  payer to the end, so a payer with enough pending credits waits for a bounded number of burns.
*/
module BurnQueue {
  import opened Wrappers
  import opened BurnProtocol

  datatype BurnRow = BurnRow(amount: nat, lastBurn: int)

  type Table = map<Payer, BurnRow>

  predicate Due(t: Table, p: Payer) {
    p in t && BURN_THRESHOLD <= t[p].amount
  }

  /** `p` is due, and no payer that is due was last burned earlier. */
  predicate IsNext(t: Table, p: Payer) {
    Due(t, p) && forall q <- t :: Due(t, q) ==> t[p].lastBurn <= t[q].lastBurn
  }

  /** `fetch_next_burn` */
  method FetchNextBurn(t: Table) returns (next: Option<Payer>)
    ensures next.None? <==> forall q <- t :: !Due(t, q)
    ensures next.Some? ==> IsNext(t, next.value)
  {
    next := None;
    var todo := t.Keys;
    while todo != {}
      invariant todo <= t.Keys
      invariant next.None? ==> forall q | q in t && q !in todo :: !Due(t, q)
      invariant next.Some? ==> Due(t, next.value) && next.value !in todo
      invariant next.Some? ==> forall q | q in t && q !in todo && Due(t, q) :: t[next.value].lastBurn <= t[q].lastBurn
      decreases |todo|
    {
      var q :| q in todo;
      if Due(t, q) && (next.None? || t[q].lastBurn < t[next.value].lastBurn) {
        next := Some(q);
      }
      todo := todo - {q};
    }
  }

  /** The table and the burn that has been fetched and not come to an end. */
  datatype Queue = Queue(table: Table, current: Option<Payer>)

  datatype Event =
    | Add(payer: Payer, amount: nat, now: int)   // debits of a file
    | Fetch(payer: Payer)
    | Settle(amount: nat, now: int)              // after the submission, or by the recovery
    | Drop                                       // the transaction did not land

  predicate Later(t: Table, now: int) {
    forall p <- t :: t[p].lastBurn < now
  }

  predicate Enabled(s: Queue, e: Event) {
    match e
    case Add(_, _, now) => Later(s.table, now)
    case Fetch(p) => s.current.None? && IsNext(s.table, p)
    case Settle(_, now) => s.current.Some? && s.current.value in s.table && Later(s.table, now)
    case Drop => s.current.Some?
  }

  function Step(s: Queue, e: Event): Queue
    requires Enabled(s, e)
  {
    match e
    case Add(p, amount, now) =>
      var row := if p in s.table then s.table[p].(amount := s.table[p].amount + amount) else BurnRow(amount, now);
      s.(table := s.table[p := row])
    case Fetch(p) => s.(current := Some(p))
    case Settle(amount, now) =>
      var p := s.current.value;
      Queue(s.table[p := BurnRow(SaturatingSub(s.table[p].amount, amount), now)], None)
    case Drop => s.(current := None)
  }

  /** A run in which each event is enabled and none settles a burn of `w`. */
  ghost predicate WaitsThrough(s: Queue, events: seq<Event>, w: Payer)
    decreases |events|
  {
    events == [] ||
    (&& Enabled(s, events[0]) && !(events[0].Settle? && s.current == Some(w))
     && WaitsThrough(Step(s, events[0]), events[1..], w))
  }

  function Settled(events: seq<Event>): nat {
    if events == [] then 0 else (if events[0].Settle? then 1 else 0) + Settled(events[1..])
  }

  /** The payers that may be burned before `w`. */
  function Ahead(t: Table, w: Payer): set<Payer>
    requires w in t
  {
    set q | q in t && q != w && t[q].lastBurn <= t[w].lastBurn
  }

  /** A burn that was fetched before `w` was due can come first, too. */
  function Stray(s: Queue, w: Payer): nat
    requires w in s.table
  {
    if s.current.Some? && s.current.value != w && s.current.value !in Ahead(s.table, w) then 1 else 0
  }

  function Wait(s: Queue, w: Payer): nat
    requires w in s.table
  {
    |Ahead(s.table, w)| + Stray(s, w)
  }

  lemma AddKeepsWait(s: Queue, e: Event, w: Payer)
    requires e.Add? && Enabled(s, e) && Due(s.table, w)
    ensures Due(Step(s, e).table, w) && Wait(Step(s, e), w) <= Wait(s, w)
  {
    assert Ahead(Step(s, e).table, w) == Ahead(s.table, w);
  }

  lemma FetchKeepsWait(s: Queue, e: Event, w: Payer)
    requires e.Fetch? && Enabled(s, e) && Due(s.table, w)
    ensures Due(Step(s, e).table, w) && Wait(Step(s, e), w) <= Wait(s, w)
  {}

  lemma SettleShortensWait(s: Queue, e: Event, w: Payer)
    requires e.Settle? && Enabled(s, e) && Due(s.table, w) && s.current != Some(w)
    ensures Due(Step(s, e).table, w) && Wait(Step(s, e), w) < Wait(s, w)
  {
    assert Ahead(Step(s, e).table, w) == Ahead(s.table, w) - {s.current.value};
  }

  /** Once a payer is due, the burns that are settled before its own are at most the payers that were last burned no later
      than it, and one that was already under way. */
  lemma {:induction false} WaitIsBounded(s: Queue, events: seq<Event>, w: Payer)
    requires Due(s.table, w) && WaitsThrough(s, events, w)
    ensures Settled(events) <= Wait(s, w)
    decreases |events|
  {
    if events != [] {
      var e := events[0];
      match e {
        case Add(_, _, _) => AddKeepsWait(s, e, w);
        case Fetch(_) => FetchKeepsWait(s, e, w);
        case Settle(_, _) => SettleShortensWait(s, e, w);
        case Drop =>
      }
      WaitIsBounded(Step(s, e), events[1..], w);
    }
  }

  /** Events of burns that all fail, while nothing is added. */
  ghost predicate Fails(s: Queue, events: seq<Event>)
    decreases |events|
  {
    events == [] ||
    (Enabled(s, events[0]) && (events[0].Fetch? || events[0].Drop?) && Fails(Step(s, events[0]), events[1..]))
  }

  /** A burn that does not land leaves its payer in front: as long as burns fail, nobody else is fetched. */
  lemma {:induction false} FailuresBlock(s: Queue, events: seq<Event>, p: Payer, q: Payer)
    requires IsNext(s.table, p)
    requires forall r <- s.table | r != p && Due(s.table, r) :: s.table[p].lastBurn < s.table[r].lastBurn
    requires Fails(s, events) && Fetch(q) in events
    ensures q == p
    decreases |events|
  {
    if Fetch(q) != events[0] {
      assert Fetch(q) in events[1..];
      FailuresBlock(Step(s, events[0]), events[1..], p, q);
    }
  }
}
