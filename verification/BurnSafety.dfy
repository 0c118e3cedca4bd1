/**
  What the burn protocol guarantees in every reachable state: solvency, exactly-once burning, safe account
  lookups and safe debits. Where a guarantee needs an assumption, a concrete run shows what happens without it.
*/
module BurnSafety {
  import opened Wrappers
  import opened BurnProtocol

  // ---------------------------------------------------------------- runs

  predicate Legal(s: State, events: seq<Event>)
    decreases |events|
  {
    events == [] ||
    (Enabled(s, events[0]) && Assumed(s, events[0]) && Legal(Step(s, events[0]), events[1..]))
  }

  function Exec(s: State, events: seq<Event>): State
    requires Legal(s, events)
    decreases |events|
  {
    if events == [] then s else Exec(Step(s, events[0]), events[1..])
  }

  ghost predicate Reachable(s: State) {
    exists events: seq<Event> :: Legal(Initial, events) && Exec(Initial, events) == s
  }

  lemma {:induction false} ExecKeepsInv(s: State, events: seq<Event>)
    requires Inv(s) && Legal(s, events)
    ensures Inv(Exec(s, events))
    decreases |events|
  {
    if events != [] {
      StepKeepsInv(s, events[0]);
      ExecKeepsInv(Step(s, events[0]), events[1..]);
    }
  }

  lemma InitialInv()
    ensures Inv(Initial)
  {
    forall p: Payer ensures Balanced(HoldingsOf(Initial, p)) {}
  }

  /** The invariant holds in every state of every run. */
  lemma ReachableInv(s: State)
    requires Reachable(s)
    ensures Inv(s)
  {
    var events: seq<Event> :| Legal(Initial, events) && Exec(Initial, events) == s;
    InitialInv();
    ExecKeepsInv(Initial, events);
  }

  lemma {:induction false} ExecAppend(s: State, events: seq<Event>, e: Event)
    requires Legal(s, events) && Enabled(Exec(s, events), e) && Assumed(Exec(s, events), e)
    ensures Legal(s, events + [e]) && Exec(s, events + [e]) == Step(Exec(s, events), e)
    decreases |events|
  {
    if events == [] {
      assert [e][1..] == [];
    } else {
      ExecAppend(Step(s, events[0]), events[1..], e);
      assert (events + [e])[1..] == events[1..] + [e];
    }
  }

  lemma ReachableStep(s: State, e: Event)
    requires Reachable(s) && Enabled(s, e) && Assumed(s, e)
    ensures Reachable(Step(s, e))
  {
    var events: seq<Event> :| Legal(Initial, events) && Exec(Initial, events) == s;
    ExecAppend(Initial, events, e);
  }

  lemma InitialReachable()
    ensures Reachable(Initial)
  {
    assert Legal(Initial, []) && Exec(Initial, []) == Initial;
  }

  // ---------------------------------------------------------------- guarantees

  /** Accepted debits that are not burned yet never exceed the payer's chain balance plus the landed burns
      whose row has not been settled. */
  lemma Solvency(s: State, p: Payer)
    requires Reachable(s)
    ensures Get(s.pendingBurns, p) + Get(s.openDebits, p) <= Get(s.chain, p) + LandedPending(s.txns, s.pendingTxns, p)
  {
    ReachableInv(s);
    assert Balanced(HoldingsOf(s, p));
  }

  /** Every burn transaction in flight can be paid by its payer, and so can every recorded one not yet sent. */
  lemma BurnsAreAffordable(s: State, t: PendingTxn)
    requires Reachable(s)
    requires t in s.pendingTxns && !HasLanded(s.txns, t.signature)
    ensures t.amount <= Get(s.chain, t.payer)
    ensures t.signature in s.txns && s.txns[t.signature].status == InFlight ==> LandsNow(s, t.signature)
  {
    ReachableInv(s);
    assert s.pendingTxns == [t];
    LandedOfOneRow(s.txns, s.pendingTxns, t.payer);
    assert Balanced(HoldingsOf(s, t.payer));
  }

  lemma InFlightIsPending(s: State, sig: Signature)
    requires Reachable(s) && sig in s.txns && s.txns[sig].status == InFlight
    ensures s.txns[sig].txn in s.pendingTxns && LandsNow(s, sig)
  {
    ReachableInv(s);
    BurnsAreAffordable(s, s.txns[sig].txn);
  }

  /** Exactly-once burning: outside a pending transaction, what was burned on chain and what is still pending
      add up to the debits of all committed report files; a landed pending burn is counted twice until settled. */
  lemma ExactlyOnce(s: State, p: Payer)
    requires Reachable(s)
    ensures Get(s.burnedOnChain, p) + Get(s.pendingBurns, p)
         == Get(s.committedDebits, p) + LandedPending(s.txns, s.pendingTxns, p)
    ensures s.pendingTxns == [] ==>
              Get(s.burnedOnChain, p) + Get(s.pendingBurns, p) == Get(s.committedDebits, p)
  {
    ReachableInv(s);
    assert Balanced(HoldingsOf(s, p));
  }

  /** `burn` finds the account of the burn it just settled, and its `burned` covers the deduction. */
  lemma BurnLookupIsSafe(s: State)
    requires Reachable(s) && s.burner.Settled?
    ensures s.burner.txn.payer in s.cache && s.burner.txn.amount <= s.cache[s.burner.txn.payer].burned
  {
    ReachableInv(s);
    assert Balanced(HoldingsOf(s, s.burner.txn.payer));
  }

  /** `confirm_pending_txns` finds the account of every landed row, and its `burned` covers the deduction. */
  lemma RecoveryLookupIsSafe(s: State)
    requires Reachable(s) && TodoHead(s) && HasLanded(s.txns, s.burner.todo[0].signature)
    ensures s.burner.todo[0].payer in s.cache
    ensures s.burner.todo[0].amount <= s.cache[s.burner.todo[0].payer].burned
  {
    ReachableInv(s);
    LandedOfOneRow(s.txns, s.pendingTxns, s.burner.todo[0].payer);
    assert Balanced(HoldingsOf(s, s.burner.todo[0].payer));
  }

  /** The `pending_burns` row that a landed burn is subtracted from exists and is large enough. */
  lemma TableDeductionIsSafe(s: State)
    requires Reachable(s) && (s.burner.Submitted? || s.burner.RecoveryCommit?)
    ensures s.burner.txn.payer in s.pendingBurns && s.burner.txn.amount <= s.pendingBurns[s.burner.txn.payer]
  {
    ReachableInv(s);
  }

  // ---------------------------------------------------------------- the returned balance of a debit

  /** The debit is accepted and its `balance - burned` goes below zero, which an unsigned subtraction cannot hold. */
  predicate Underflows(entry: Option<PayerAccount>, chainBalance: nat, amount: nat, threshold: nat) {
    var d := Debit(entry, chainBalance, amount, threshold);
    d.remaining.Some? && d.remaining.value < 0
  }

  /** Exactly which accounts some debit can underflow, whatever the threshold is: those with funds left whose cached
      balance is above the balance a refresh would fetch. Every debit is of at least one credit. */
  lemma UnderflowIff(account: PayerAccount, chainBalance: nat, threshold: nat)
    ensures (exists amount: nat :: 1 <= amount && Underflows(Some(account), chainBalance, amount, threshold))
       <==> 0 < threshold && account.burned < account.balance && chainBalance < account.balance
  {
    if 0 < threshold && account.burned < account.balance && chainBalance < account.balance {
      assert Underflows(Some(account), chainBalance, account.balance - account.burned, threshold);
    }
  }

  lemma NewPayerNeverUnderflows(chainBalance: nat, amount: nat, threshold: nat)
    ensures !Underflows(None, chainBalance, amount, threshold)
  {}

  /** While no landed burn of the payer waits for its cache deduction, no debit of theirs underflows. */
  lemma DebitIsSafeWithoutLag(s: State, p: Payer, amount: nat, threshold: nat)
    requires Reachable(s) && Get(s.lag, p) == 0
    ensures !Underflows(Entry(s, p), Get(s.chain, p), amount, threshold)
  {
    ReachableInv(s);
    assert Balanced(HoldingsOf(s, p));
  }

  /** Follows a fixed sequence of events, keeping reachability. */
  lemma Follow(s: State, e: Event) returns (s': State)
    requires Reachable(s) && Enabled(s, e) && Assumed(s, e)
    ensures Reachable(s') && s' == Step(s, e)
  {
    ReachableStep(s, e);
    s' := Step(s, e);
  }

  /** A running service with a funded payer 0 and nothing else. */
  lemma FundedService(funds: nat) returns (s: State)
    ensures Reachable(s)
    ensures s == Initial.(chain := map[0 := funds], process := Running, burner := Idle)
  {
    InitialReachable();
    s := Follow(Initial, Chain(Deposit(0, funds)));
    s := Follow(s, Proc(Start));
    s := Follow(s, Proc(LoadingDone));
    s := Follow(s, Recovery(RecoveryDone));
  }

  /** The same service after a committed file with debits of `debit`. */
  lemma CommittedDebit(funds: nat, debit: nat) returns (s: State)
    requires debit <= funds
    ensures Reachable(s)
    ensures s == State(map[0 := funds], map[], map[0 := debit], [], map[], map[0 := PayerAccount(funds, debit)],
                       Running, Idle, None, map[], map[0 := debit], map[], map[])
  {
    s := FundedService(funds);
    s := Follow(s, File(DebitPacket(0, debit, 0)));
    assert s.openDebits == map[0 := debit];
    s := Follow(s, File(CommitFile));
    assert Merge(map[], map[0 := debit]) == map[0 := debit];
  }

  /** The same service once that debit has been sent to the network as transaction 0. */
  lemma SentBurn(funds: nat, debit: nat) returns (s: State)
    requires BURN_THRESHOLD <= debit <= funds
    ensures Reachable(s)
    ensures var t := PendingTxn(0, 0, debit);
            s == State(map[0 := funds], map[0 := ChainTxn(t, InFlight)], map[0 := debit], [t], map[],
                       map[0 := PayerAccount(funds, debit)], Running, Awaiting(t), None, map[], map[0 := debit], map[], map[])
  {
    s := CommittedDebit(funds, debit);
    s := Follow(s, Burn(FetchBurn(0)));
    s := Follow(s, Burn(RecordTxn(0, Done)));
    s := Follow(s, Burn(Send));
  }

  /** A refresh in the middle of a burn does underflow: the burn has landed, the cached account has not been
      reduced yet, and the refresh fetches the smaller balance. */
  lemma UnderflowIsReachable()
    ensures exists s: State ::
              Reachable(s) && s.process == Running && Get(s.lag, 0) > 0 && Underflows(Entry(s, 0), Get(s.chain, 0), 5_000, 10_000)
  {
    var s := SentBurn(20_000, 10_000);
    s := Follow(s, Chain(Land(0)));
    assert Underflows(Entry(s, 0), Get(s.chain, 0), 5_000, 10_000);
  }

  // ---------------------------------------------------------------- the funds monitor

  /** Accepted debits that are not burned yet exceed what the payer has. */
  predicate Overdrawn(s: State, p: Payer) {
    Get(s.chain, p) + LandedPending(s.txns, s.pendingTxns, p) < Get(s.pendingBurns, p) + Get(s.openDebits, p)
  }

  /** Storing the monitor's balance and then debiting `amount` overdraws its payer. */
  predicate OverdrawsAfterStore(s: State, amount: nat, threshold: nat) {
    && Enabled(s, Funds(StoreFunds))
    && var p := s.monitor.value.payer;
       && Enabled(Step(s, Funds(StoreFunds)), File(DebitPacket(p, amount, threshold)))
       && Overdrawn(Step(Step(s, Funds(StoreFunds)), File(DebitPacket(p, amount, threshold))), p)
  }

  function CachedBurned(s: State, p: Payer): nat {
    if p in s.cache then s.cache[p].burned else 0
  }

  lemma DebitAfterStore(s: State, amount: nat, threshold: nat)
    requires Inv(s) && Enabled(s, Funds(StoreFunds))
    ensures var r := s.monitor.value;
            OverdrawsAfterStore(s, amount, threshold) <==>
              && amount + CachedBurned(s, r.payer) <= r.balance
              && Get(s.chain, r.payer) + LandedPending(s.txns, s.pendingTxns, r.payer)
                 < Get(s.pendingBurns, r.payer) + Get(s.openDebits, r.payer) + amount
  {
    assert Balanced(HoldingsOf(s, s.monitor.value.payer));
  }

  /** Exactly when a stored balance lets the next debit through without cover, at any threshold: the balance that was
      read and what the tables still have to burn exceed what the payer has and what the cached account counts as
      burned. */
  lemma StaleStoreOverdrawsIff(s: State, threshold: nat)
    requires Inv(s) && Enabled(s, Funds(StoreFunds))
    ensures var r := s.monitor.value;
            (exists amount: nat :: OverdrawsAfterStore(s, amount, threshold)) <==>
              Get(s.chain, r.payer) + LandedPending(s.txns, s.pendingTxns, r.payer) + CachedBurned(s, r.payer)
              < r.balance + Get(s.pendingBurns, r.payer) + Get(s.openDebits, r.payer)
  {
    var r := s.monitor.value;
    assert Balanced(HoldingsOf(s, r.payer));
    forall amount: nat { DebitAfterStore(s, amount, threshold); }
    if CachedBurned(s, r.payer) <= r.balance {
      var amount: nat := r.balance - CachedBurned(s, r.payer);
      DebitAfterStore(s, amount, threshold);
    }
  }

  /** The monitor reads outside the lock. When a whole burn is settled between its read and its write, the next
      debit is accepted without cover. */
  lemma StaleFundsBreakSolvency()
    ensures exists s: State :: Reachable(s) && OverdrawsAfterStore(s, 10_000, 0)
  {
    var s := SettledBurn();
    var s1 := Step(s, Funds(StoreFunds));
    var s2 := Step(s1, File(DebitPacket(0, 10_000, 0)));
    assert Overdrawn(s2, 0);
  }

  /** The whole balance has been burned and settled; the monitor still holds what it read before. */
  lemma SettledBurn() returns (s: State)
    ensures Reachable(s) && s.process == Running && s.monitor.Some? && s.monitor.value.payer == 0
    ensures s.monitor.value.balance == 20_000 && 0 in s.cache && s.cache[0].burned == 0 && s.pendingTxns == []
    ensures Get(s.chain, 0) == 0 && Get(s.openDebits, 0) == 0
  {
    s := SentBurn(20_000, 20_000);
    s := Follow(s, Funds(ReadFunds(0)));
    s := Follow(s, Chain(Land(0)));
    s := Follow(s, Burn(SubmitSucceeds));
    WithoutOnlyRow(PendingTxn(0, 0, 20_000));
    s := Follow(s, Burn(SettleTables(Done)));
    s := Follow(s, Burn(SettleCache));
  }
}
