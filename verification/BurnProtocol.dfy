/**
  The data-credit burn protocol of the packet verifier, as a state machine over every interleaving of
  packet debits, chain activity, burner phases, recovery, the funds monitor and process crashes.

  Three stores must agree about every payer: the balance on chain, the Postgres tables `pending_burns`
  and `pending_txns`, and the in-memory account `{balance, burned}`.
*/
module BurnProtocol {
  import opened Wrappers

  type Payer = nat
  type Signature = nat

  /** Amounts below this are not worth a burn transaction. */
  const BURN_THRESHOLD: nat := 10_000

  datatype PayerAccount = PayerAccount(balance: nat, burned: nat)

  datatype PendingTxn = PendingTxn(signature: Signature, payer: Payer, amount: nat)

  // ---------------------------------------------------------------- amounts per payer

  function Get(m: map<Payer, nat>, p: Payer): nat {
    if p in m then m[p] else 0
  }

  function Plus(m: map<Payer, nat>, p: Payer, n: nat): map<Payer, nat> {
    m[p := Get(m, p) + n]
  }

  /** Subtraction that stops at zero, as `u64::saturating_sub`. */
  function SaturatingSub(a: nat, b: nat): nat {
    if a < b then 0 else a - b
  }

  function Minus(m: map<Payer, nat>, p: Payer, n: nat): map<Payer, nat> {
    m[p := SaturatingSub(Get(m, p), n)]
  }

  function Merge(m: map<Payer, nat>, n: map<Payer, nat>): map<Payer, nat> {
    map p | p in m.Keys + n.Keys :: Get(m, p) + Get(n, p)
  }

  // ---------------------------------------------------------------- the debit decision

  /** What a debit leaves behind. `remaining` is the balance reported to the caller: None is a refusal, and
      a negative value is where the unsigned subtraction of the source underflows. */
  datatype DebitOutcome = DebitOutcome(account: PayerAccount, remaining: Option<int>)

  function Debit(entry: Option<PayerAccount>, chainBalance: nat, amount: nat, threshold: nat): DebitOutcome {
    match entry
    case None =>
      if amount <= chainBalance
      then DebitOutcome(PayerAccount(chainBalance, amount), Some(chainBalance - amount))
      else DebitOutcome(PayerAccount(chainBalance, 0), None)
    case Some(account) =>
      if amount + account.burned <= account.balance then
        var left := account.balance - (amount + account.burned);
        var balance := if left < threshold then chainBalance else account.balance;
        DebitOutcome(PayerAccount(balance, account.burned + amount), Some(balance - (account.burned + amount)))
      else
        DebitOutcome(account, None)
  }

  /** The cached account once a landed burn has been taken off it. */
  function Deduct(account: PayerAccount, amount: nat): PayerAccount {
    PayerAccount(SaturatingSub(account.balance, amount), SaturatingSub(account.burned, amount))
  }

  // ---------------------------------------------------------------- state

  datatype TxnStatus = InFlight | Landed | Dropped

  datatype ChainTxn = ChainTxn(txn: PendingTxn, status: TxnStatus)

  /** Where the burner task stands: inside `burn`, or inside `confirm_pending_txns`. */
  datatype Burner =
    | Idle
    | Fetched(payer: Payer, amount: nat)
    | Recorded(txn: PendingTxn)                           // row in pending_txns, nothing sent
    | Awaiting(txn: PendingTxn)                           // sent, submit has not returned
    | Submitted(txn: PendingTxn)                          // submit returned Ok
    | Settled(txn: PendingTxn)                            // tables committed, cache not yet updated
    | Recovering(todo: seq<PendingTxn>)                   // rows still to be confirmed
    | RecoveryCommit(txn: PendingTxn, todo: seq<PendingTxn>) // cache updated, tables not yet committed
    | Failed                                              // it returned an error
    | NotStarted

  datatype Process = Down | Loading(todo: set<Payer>) | Confirming | Running

  /** A balance the funds monitor has read but not stored yet. `current` is lost when a landed burn of the
      payer is taken off the cache in between. */
  datatype MonitorRead = MonitorRead(payer: Payer, balance: nat, current: bool)

  datatype State = State(
    // the chain
    chain: map<Payer, nat>,
    txns: map<Signature, ChainTxn>,
    // Postgres
    pendingBurns: map<Payer, nat>,
    pendingTxns: seq<PendingTxn>,
    // debits inside the open report-file transaction
    openDebits: map<Payer, nat>,
    // memory
    cache: map<Payer, PayerAccount>,
    process: Process,
    burner: Burner,
    monitor: Option<MonitorRead>,
    // history: never read by a step
    burnedOnChain: map<Payer, nat>,     // credits burned by landed transactions
    committedDebits: map<Payer, nat>,   // debits of all committed report files
    lag: map<Payer, nat>,               // landed burns not yet taken off the cached account
    orphans: map<Payer, nat>            // debits of aborted files still in the cached account
  )

  const Initial := State(map[], map[], map[], [], map[], map[], Down, NotStarted, None, map[], map[], map[], map[])

  // ---------------------------------------------------------------- steps

  /** A database commit succeeds, or fails before or after it took effect. */
  datatype Commit = Done | FailedApplied | FailedLost

  datatype ChainEvent =
    | Deposit(payer: Payer, amount: nat)
    | Land(signature: Signature)

  /** The report-file daemon: `handle_file` and the debits of its packets. */
  datatype FileEvent =
    | DebitPacket(payer: Payer, amount: nat, threshold: nat)
    | CommitFile
    | AbortFile

  /** `monitor_funds`: the balance is read, and stored in a later step. */
  datatype FundsEvent =
    | ReadFunds(payer: Payer)
    | StoreFunds

  /** The phases of `Burner::burn`. */
  datatype BurnEvent =
    | FetchBurn(payer: Payer)
    | MakeTxnFails
    | RecordTxn(signature: Signature, commit: Commit)
    | Send
    | SendFails
    | SubmitSucceeds
    | SubmitFails
    | SettleTables(commit: Commit)
    | SettleCache

  /** The phases of `confirm_pending_txns`. */
  datatype RecoveryEvent =
    | ConfirmLanded
    | ConfirmDropped(commit: Commit)
    | CommitRecovery(commit: Commit)
    | ConfirmFails
    | RecoveryDone

  datatype ProcessEvent =
    | Crash
    | Start
    | LoadAccount(payer: Payer)
    | LoadingDone

  datatype Event =
    | Chain(chain: ChainEvent)
    | File(file: FileEvent)
    | Funds(funds: FundsEvent)
    | Burn(burn: BurnEvent)
    | Recovery(recovery: RecoveryEvent)
    | Proc(process: ProcessEvent)

  predicate HasLanded(txns: map<Signature, ChainTxn>, sig: Signature) {
    sig in txns && txns[sig].status == Landed
  }

  function LandedRow(txns: map<Signature, ChainTxn>, t: PendingTxn, p: Payer): nat {
    if t.payer == p && HasLanded(txns, t.signature) then t.amount else 0
  }

  /** Burns of `p` that have landed on chain while their row is still in `pending_txns`. */
  function LandedPending(txns: map<Signature, ChainTxn>, rows: seq<PendingTxn>, p: Payer): nat {
    if rows == [] then 0 else LandedRow(txns, rows[0], p) + LandedPending(txns, rows[1..], p)
  }

  predicate CacheLoaded(s: State) {
    s.process == Confirming || s.process == Running
  }

  predicate SignatureUnused(s: State, sig: Signature) {
    sig !in s.txns && forall t <- s.pendingTxns :: t.signature != sig
  }

  /** Takes a landed burn off the cached account; a funds read of that payer made before is now stale. */
  function DeductCache(s: State, t: PendingTxn): State
    requires t.payer in s.cache
  {
    s.(cache := s.cache[t.payer := Deduct(s.cache[t.payer], t.amount)],
       lag := Minus(s.lag, t.payer, t.amount),
       monitor := match s.monitor
                  case Some(r) => Some(r.(current := r.current && r.payer != t.payer))
                  case None => None)
  }

  /** The table transaction of a landed burn: the row goes, and so does the burned amount. */
  function Settle(s: State, t: PendingTxn): State {
    s.(pendingTxns := WithoutRow(s.pendingTxns, t.signature),
       pendingBurns := Minus(s.pendingBurns, t.payer, t.amount))
  }

  function WithoutRow(rows: seq<PendingTxn>, sig: Signature): seq<PendingTxn> {
    if rows == [] then []
    else if rows[0].signature == sig then WithoutRow(rows[1..], sig)
    else [rows[0]] + WithoutRow(rows[1..], sig)
  }

  predicate LandsNow(s: State, sig: Signature) {
    && sig in s.txns
    && s.txns[sig].status == InFlight
    && s.txns[sig].txn.amount <= Get(s.chain, s.txns[sig].txn.payer)
  }

  predicate TodoHead(s: State) {
    s.burner.Recovering? && s.burner.todo != []
  }

  predicate ChainEnabled(s: State, e: ChainEvent) {
    match e
    case Deposit(_, _) => true
    case Land(sig) => LandsNow(s, sig)
  }

  predicate FundsEnabled(s: State, e: FundsEvent) {
    match e
    case ReadFunds(_) => s.process == Running
    case StoreFunds => s.process == Running && s.monitor.Some?
  }

  predicate BurnEnabled(s: State, e: BurnEvent) {
    match e
    case FetchBurn(p) =>
      s.process == Running && s.burner.Idle? && p in s.pendingBurns && BURN_THRESHOLD <= s.pendingBurns[p]
    case MakeTxnFails => s.burner.Fetched?
    case RecordTxn(sig, _) => s.burner.Fetched? && SignatureUnused(s, sig)
    case Send => s.burner.Recorded?
    case SendFails => s.burner.Recorded?
    case SubmitSucceeds => s.burner.Awaiting? && HasLanded(s.txns, s.burner.txn.signature)
    case SubmitFails => s.burner.Awaiting?
    case SettleTables(_) => s.burner.Submitted?
    case SettleCache => s.burner.Settled? && s.burner.txn.payer in s.cache
  }

  predicate RecoveryEnabled(s: State, e: RecoveryEvent) {
    match e
    case ConfirmLanded =>
      TodoHead(s) && HasLanded(s.txns, s.burner.todo[0].signature) && s.burner.todo[0].payer in s.cache
    case ConfirmDropped(_) => TodoHead(s) && !HasLanded(s.txns, s.burner.todo[0].signature)
    case CommitRecovery(_) => s.burner.RecoveryCommit?
    case ConfirmFails => s.burner.Recovering?
    case RecoveryDone => s.burner.Recovering? && s.burner.todo == [] && CacheLoaded(s)
  }

  predicate ProcessEnabled(s: State, e: ProcessEvent) {
    match e
    case Crash => true
    case Start => s.process == Down
    case LoadAccount(p) => s.process.Loading? && p in s.process.todo
    case LoadingDone => s.process == Loading({})
  }

  predicate Enabled(s: State, e: Event) {
    match e
    case Chain(c) => ChainEnabled(s, c)
    case File(_) => s.process == Running
    case Funds(f) => FundsEnabled(s, f)
    case Burn(b) => BurnEnabled(s, b)
    case Recovery(r) => RecoveryEnabled(s, r)
    case Proc(x) => ProcessEnabled(s, x)
  }

  function OnDeposit(s: State, p: Payer, n: nat): State {
    s.(chain := Plus(s.chain, p, n))
  }

  function OnLand(s: State, sig: Signature): State
    requires LandsNow(s, sig)
  {
    var t := s.txns[sig].txn;
    s.(chain := Minus(s.chain, t.payer, t.amount),
       txns := s.txns[sig := ChainTxn(t, Landed)],
       burnedOnChain := Plus(s.burnedOnChain, t.payer, t.amount),
       lag := if t.payer in s.cache then Plus(s.lag, t.payer, t.amount) else s.lag)
  }

  function Entry(s: State, p: Payer): Option<PayerAccount> {
    if p in s.cache then Some(s.cache[p]) else None
  }

  function OnDebit(s: State, p: Payer, amount: nat, threshold: nat): State {
    var d := Debit(Entry(s, p), Get(s.chain, p), amount, threshold);
    s.(cache := s.cache[p := d.account],
       openDebits := if d.remaining.Some? then Plus(s.openDebits, p, amount) else s.openDebits)
  }

  function OnCommitFile(s: State): State {
    s.(pendingBurns := Merge(s.pendingBurns, s.openDebits),
       committedDebits := Merge(s.committedDebits, s.openDebits),
       openDebits := map[])
  }

  function OnAbortFile(s: State): State {
    s.(orphans := Merge(s.orphans, s.openDebits), openDebits := map[])
  }

  function OnReadFunds(s: State, p: Payer): State {
    s.(monitor := Some(MonitorRead(p, Get(s.chain, p), true)))
  }

  function OnStoreFunds(s: State): State
    requires s.monitor.Some?
  {
    var r := s.monitor.value;
    var burned := if r.payer in s.cache then s.cache[r.payer].burned else 0;
    s.(cache := s.cache[r.payer := PayerAccount(r.balance, burned)], monitor := None)
  }

  /** `confirm_pending_txns` starts from the rows that are in the table now. */
  function Recover(s: State): State {
    s.(burner := Recovering(s.pendingTxns))
  }

  function OnRecord(s: State, sig: Signature, commit: Commit): State
    requires s.burner.Fetched?
  {
    var t := PendingTxn(sig, s.burner.payer, s.burner.amount);
    var s' := s.(pendingTxns := s.pendingTxns + [t]);
    match commit
    case Done => s'.(burner := Recorded(t))
    case FailedApplied => Recover(s')
    case FailedLost => Recover(s)
  }

  function OnSend(s: State): State
    requires s.burner.Recorded?
  {
    var t := s.burner.txn;
    s.(txns := s.txns[t.signature := ChainTxn(t, InFlight)], burner := Awaiting(t))
  }

  function OnSettleTables(s: State, commit: Commit): State
    requires s.burner.Submitted?
  {
    var t := s.burner.txn;
    match commit
    case Done => Settle(s, t).(burner := Settled(t))
    case FailedApplied => Recover(Settle(s, t))
    case FailedLost => Recover(s)
  }

  function OnSettleCache(s: State): State
    requires s.burner.Settled? && s.burner.txn.payer in s.cache
  {
    DeductCache(s, s.burner.txn).(burner := Idle)
  }

  function OnConfirmLanded(s: State): State
    requires s.burner.Recovering? && s.burner.todo != [] && s.burner.todo[0].payer in s.cache
  {
    DeductCache(s, s.burner.todo[0]).(burner := RecoveryCommit(s.burner.todo[0], s.burner.todo[1..]))
  }

  function OnConfirmDropped(s: State, commit: Commit): State
    requires s.burner.Recovering? && s.burner.todo != []
  {
    var t := s.burner.todo[0];
    var lost := s.(txns := s.txns[t.signature := ChainTxn(t, Dropped)]);
    var applied := lost.(pendingTxns := WithoutRow(s.pendingTxns, t.signature));
    match commit
    case Done => applied.(burner := Recovering(s.burner.todo[1..]))
    case FailedApplied => applied.(burner := Failed)
    case FailedLost => lost.(burner := Failed)
  }

  function OnCommitRecovery(s: State, commit: Commit): State
    requires s.burner.RecoveryCommit?
  {
    match commit
    case Done => Settle(s, s.burner.txn).(burner := Recovering(s.burner.todo))
    case FailedApplied => Settle(s, s.burner.txn).(burner := Failed)
    case FailedLost => s.(burner := Failed)
  }

  function OnCrash(s: State): State {
    s.(openDebits := map[], cache := map[], process := Down, burner := NotStarted, monitor := None,
       lag := map[], orphans := map[])
  }

  function OnLoadAccount(s: State, p: Payer): State
    requires s.process.Loading?
  {
    s.(cache := s.cache[p := PayerAccount(Get(s.chain, p), Get(s.pendingBurns, p))],
       lag := s.lag[p := LandedPending(s.txns, s.pendingTxns, p)],
       process := Loading(s.process.todo - {p}))
  }

  function BurnStep(s: State, e: BurnEvent): State
    requires BurnEnabled(s, e)
  {
    match e
    case FetchBurn(p) => s.(burner := Fetched(p, s.pendingBurns[p]))
    case MakeTxnFails => Recover(s)
    case RecordTxn(sig, commit) => OnRecord(s, sig, commit)
    case Send => OnSend(s)
    case SendFails => Recover(s)
    case SubmitSucceeds => s.(burner := Submitted(s.burner.txn))
    case SubmitFails => Recover(s)
    case SettleTables(commit) => OnSettleTables(s, commit)
    case SettleCache => OnSettleCache(s)
  }

  function RecoveryStep(s: State, e: RecoveryEvent): State
    requires RecoveryEnabled(s, e)
  {
    match e
    case ConfirmLanded => OnConfirmLanded(s)
    case ConfirmDropped(commit) => OnConfirmDropped(s, commit)
    case CommitRecovery(commit) => OnCommitRecovery(s, commit)
    case ConfirmFails => s.(burner := Failed)
    case RecoveryDone => s.(burner := Idle, process := Running)
  }

  function ProcessStep(s: State, e: ProcessEvent): State
    requires ProcessEnabled(s, e)
  {
    match e
    case Crash => OnCrash(s)
    case Start => s.(process := Loading(s.pendingBurns.Keys))
    case LoadAccount(p) => OnLoadAccount(s, p)
    case LoadingDone => Recover(s.(process := Confirming))
  }

  function ChainStep(s: State, e: ChainEvent): State
    requires ChainEnabled(s, e)
  {
    match e
    case Deposit(p, n) => OnDeposit(s, p, n)
    case Land(sig) => OnLand(s, sig)
  }

  function FileStep(s: State, e: FileEvent): State {
    match e
    case DebitPacket(p, amount, threshold) => OnDebit(s, p, amount, threshold)
    case CommitFile => OnCommitFile(s)
    case AbortFile => OnAbortFile(s)
  }

  function FundsStep(s: State, e: FundsEvent): State
    requires FundsEnabled(s, e)
  {
    match e
    case ReadFunds(p) => OnReadFunds(s, p)
    case StoreFunds => OnStoreFunds(s)
  }

  function Step(s: State, e: Event): State
    requires Enabled(s, e)
  {
    match e
    case Chain(c) => ChainStep(s, c)
    case File(f) => FileStep(s, f)
    case Funds(f) => FundsStep(s, f)
    case Burn(b) => BurnStep(s, b)
    case Recovery(r) => RecoveryStep(s, r)
    case Proc(x) => ProcessStep(s, x)
  }

  /** The environment assumption on the funds monitor: it does not store a balance that it read before a
      landed burn of the same payer was taken off the cached account. */
  predicate Assumed(s: State, e: Event) {
    e == Funds(StoreFunds) && s.monitor.Some? ==> s.monitor.value.current
  }

  // ---------------------------------------------------------------- invariant

  /** Everything the stores hold about one payer. */
  datatype Holdings = Holdings(
    chain: nat, pendingBurn: nat, open: nat, landed: nat, onChain: nat, committed: nat,
    account: Option<PayerAccount>, lag: nat, orphans: nat)

  function HoldingsOf(s: State, p: Payer): Holdings {
    Holdings(Get(s.chain, p), Get(s.pendingBurns, p), Get(s.openDebits, p), LandedPending(s.txns, s.pendingTxns, p),
             Get(s.burnedOnChain, p), Get(s.committedDebits, p),
             Entry(s, p), Get(s.lag, p), Get(s.orphans, p))
  }

  /** The per-payer accounting: debits that still have to be burned are covered by the chain, every committed
      debit is burned or pending exactly once, and the cached account never claims more than is there. */
  predicate Balanced(h: Holdings) {
    && h.pendingBurn + h.open <= h.chain + h.landed
    && h.onChain + h.pendingBurn == h.committed + h.landed
    && (h.account.Some? ==>
          && h.account.value.burned + h.landed == h.pendingBurn + h.open + h.lag + h.orphans
          && h.account.value.balance <= h.chain + h.lag)
    && (h.account.None? ==> h.open == 0 && h.lag == 0 && h.orphans == 0)
  }

  predicate RowsConsistent(s: State) {
    && |s.pendingTxns| <= 1
    && (s.pendingTxns != [] ==>
          var t := s.pendingTxns[0];
          && t.payer in s.pendingBurns && t.amount <= s.pendingBurns[t.payer]
          && (t.signature in s.txns ==> s.txns[t.signature].txn == t))
    && (forall sig <- s.txns :: s.txns[sig].txn.signature == sig)
    && (forall sig <- s.txns :: s.txns[sig].status == InFlight ==> s.pendingTxns == [s.txns[sig].txn])
  }

  /** Every payer with a table row has a cached account once the cache is loaded. */
  predicate PayersCached(s: State) {
    && (CacheLoaded(s) ==> s.pendingBurns.Keys <= s.cache.Keys)
    && (s.process.Loading? ==>
          && s.pendingBurns.Keys <= s.cache.Keys + s.process.todo
          && s.cache.Keys !! s.process.todo && s.openDebits == map[])
    && (s.process == Down ==> s.cache == map[] && s.openDebits == map[])
    && s.openDebits.Keys <= s.cache.Keys
  }

  /** A landed burn whose row is still to be recovered or settled is not yet taken off the cached account. */
  predicate RowUndeducted(s: State, t: PendingTxn) {
    LandedRow(s.txns, t, t.payer) <= Get(s.lag, t.payer)
  }

  predicate BurnerConsistent(s: State) {
    match s.burner
    case Idle => s.pendingTxns == [] && s.process == Running
    case Fetched(p, a) => s.pendingTxns == [] && p in s.pendingBurns && a <= s.pendingBurns[p] && s.process == Running
    case Recorded(t) => s.pendingTxns == [t] && t.signature !in s.txns && s.process == Running
    case Awaiting(t) =>
      && s.pendingTxns == [t] && t.signature in s.txns && s.txns[t.signature].status != Dropped
      && RowUndeducted(s, t) && s.process == Running
    case Submitted(t) =>
      s.pendingTxns == [t] && HasLanded(s.txns, t.signature) && RowUndeducted(s, t) && s.process == Running
    case Settled(t) =>
      s.pendingTxns == [] && t.payer in s.pendingBurns && t.amount <= Get(s.lag, t.payer) && s.process == Running
    case Recovering(todo) =>
      s.pendingTxns == todo && CacheLoaded(s) && (todo != [] ==> RowUndeducted(s, todo[0]))
    case RecoveryCommit(t, todo) =>
      s.pendingTxns == [t] && todo == [] && HasLanded(s.txns, t.signature) && CacheLoaded(s)
    case Failed => CacheLoaded(s)
    case NotStarted =>
      && (s.process == Down || s.process.Loading?)
      && (s.pendingTxns != [] && s.pendingTxns[0].payer in s.cache ==> RowUndeducted(s, s.pendingTxns[0]))
  }

  predicate MonitorConsistent(s: State) {
    && (s.monitor.Some? ==> s.process == Running)
    && (s.monitor.Some? && s.monitor.value.current ==>
      var r := s.monitor.value;
      r.balance <= Get(s.chain, r.payer) + Get(s.lag, r.payer))
  }

  ghost predicate AllBalanced(s: State) {
    forall p: Payer :: Balanced(HoldingsOf(s, p))
  }

  predicate Structured(s: State) {
    RowsConsistent(s) && PayersCached(s) && BurnerConsistent(s) && MonitorConsistent(s)
  }

  ghost predicate Inv(s: State) {
    AllBalanced(s) && Structured(s)
  }

  // ---------------------------------------------------------------- preservation

  /** With at most one row, the landed pending burns of a payer are those of that row. */
  lemma LandedOfOneRow(txns: map<Signature, ChainTxn>, rows: seq<PendingTxn>, p: Payer)
    requires |rows| <= 1
    ensures LandedPending(txns, rows, p) == if rows == [] then 0 else LandedRow(txns, rows[0], p)
  {
    if rows != [] { assert rows[1..] == []; }
  }

  lemma WithoutOnlyRow(t: PendingTxn)
    ensures WithoutRow([t], t.signature) == []
  {
    assert [t][1..] == [];
  }

  lemma DepositKeeps(s: State, p: Payer, n: nat)
    requires Structured(s)
    ensures Structured(OnDeposit(s, p, n))
  {
  }

  lemma DepositKeepsBalance(s: State, p: Payer, n: nat, q: Payer)
    requires Balanced(HoldingsOf(s, q))
    ensures Balanced(HoldingsOf(OnDeposit(s, p, n), q))
  {
  }

  lemma LandKeepsBalance(s: State, sig: Signature, q: Payer)
    requires RowsConsistent(s) && LandsNow(s, sig) && Balanced(HoldingsOf(s, q))
    ensures Balanced(HoldingsOf(OnLand(s, sig), q))
  {
    LandedOfOneRow(s.txns, s.pendingTxns, q);
    LandedOfOneRow(OnLand(s, sig).txns, s.pendingTxns, q);
  }

  lemma LandKeeps(s: State, sig: Signature)
    requires Structured(s) && LandsNow(s, sig)
    ensures Structured(OnLand(s, sig))
  {
    var t := s.txns[sig].txn;
    assert s.pendingTxns == [t] && t.signature == sig;
    assert HasLanded(OnLand(s, sig).txns, sig);
  }

  /** Once the cache is loaded, a payer without an account has nothing pending. */
  lemma UncachedHasNothing(s: State, p: Payer)
    requires Structured(s) && CacheLoaded(s) && p !in s.cache
    ensures Get(s.pendingBurns, p) == 0 && LandedPending(s.txns, s.pendingTxns, p) == 0
  {
    LandedOfOneRow(s.txns, s.pendingTxns, p);
  }

  lemma DebitKeeps(s: State, p: Payer, amount: nat, threshold: nat)
    requires Structured(s) && s.process == Running
    ensures Structured(OnDebit(s, p, amount, threshold))
  {
  }

  lemma DebitKeepsBalance(s: State, p: Payer, amount: nat, threshold: nat, q: Payer)
    requires Structured(s) && s.process == Running && Balanced(HoldingsOf(s, q))
    ensures Balanced(HoldingsOf(OnDebit(s, p, amount, threshold), q))
  {
    if q !in s.cache { UncachedHasNothing(s, q); }
    HoldingsAfterDebit(s, p, amount, threshold, q);
    DebitBalanced(HoldingsOf(s, q), amount, threshold);
  }

  lemma HoldingsAfterDebit(s: State, p: Payer, amount: nat, threshold: nat, q: Payer)
    ensures HoldingsOf(OnDebit(s, p, amount, threshold), q)
         == if p == q then AfterDebit(HoldingsOf(s, q), amount, threshold) else HoldingsOf(s, q)
  {}

  function AfterDebit(h: Holdings, amount: nat, threshold: nat): Holdings {
    var d := Debit(h.account, h.chain, amount, threshold);
    h.(account := Some(d.account), open := if d.remaining.Some? then h.open + amount else h.open)
  }

  lemma DebitBalanced(h: Holdings, amount: nat, threshold: nat)
    requires Balanced(h) && (h.account.None? ==> h.pendingBurn == 0 && h.landed == 0)
    ensures Balanced(AfterDebit(h, amount, threshold))
  {}

  lemma CommitFileKeepsBalance(s: State, q: Payer)
    requires Balanced(HoldingsOf(s, q))
    ensures Balanced(HoldingsOf(OnCommitFile(s), q))
  {
    assert Get(OnCommitFile(s).pendingBurns, q) == Get(s.pendingBurns, q) + Get(s.openDebits, q);
    assert Get(OnCommitFile(s).committedDebits, q) == Get(s.committedDebits, q) + Get(s.openDebits, q);
  }

  lemma CommitFileKeeps(s: State)
    requires Structured(s) && s.process == Running
    ensures Structured(OnCommitFile(s))
  {
    var s' := OnCommitFile(s);
    assert s.pendingBurns.Keys <= s'.pendingBurns.Keys <= s.cache.Keys;
    assert forall p <- s.pendingBurns :: s.pendingBurns[p] <= s'.pendingBurns[p];
  }

  lemma AbortFileKeeps(s: State, q: Payer)
    requires Structured(s) && s.process == Running && Balanced(HoldingsOf(s, q))
    ensures Structured(OnAbortFile(s)) && Balanced(HoldingsOf(OnAbortFile(s), q))
  {
    assert Get(OnAbortFile(s).orphans, q) == Get(s.orphans, q) + Get(s.openDebits, q);
  }

  lemma ReadFundsKeeps(s: State, p: Payer, q: Payer)
    requires Structured(s) && s.process == Running && Balanced(HoldingsOf(s, q))
    ensures Structured(OnReadFunds(s, p)) && Balanced(HoldingsOf(OnReadFunds(s, p), q))
  {
  }

  lemma StoreFundsKeeps(s: State, q: Payer)
    requires Structured(s) && s.monitor.Some? && Balanced(HoldingsOf(s, q))
    requires var r := s.monitor.value; r.balance <= Get(s.chain, r.payer) + Get(s.lag, r.payer)
    ensures Structured(OnStoreFunds(s)) && Balanced(HoldingsOf(OnStoreFunds(s), q))
  {
    if q !in s.cache { UncachedHasNothing(s, q); }
  }

  lemma RecoverKeeps(s: State, q: Payer)
    requires RowsConsistent(s) && PayersCached(s) && MonitorConsistent(s) && CacheLoaded(s)
    requires s.pendingTxns != [] ==> RowUndeducted(s, s.pendingTxns[0])
    requires Balanced(HoldingsOf(s, q))
    ensures Structured(Recover(s)) && Balanced(HoldingsOf(Recover(s), q))
  {
  }

  lemma RecordKeeps(s: State, sig: Signature, commit: Commit)
    requires Structured(s) && s.burner.Fetched? && SignatureUnused(s, sig)
    ensures Structured(OnRecord(s, sig, commit))
  {
  }

  lemma RecordKeepsBalance(s: State, sig: Signature, commit: Commit, q: Payer)
    requires RowsConsistent(s) && s.burner.Fetched? && s.pendingTxns == [] && sig !in s.txns && Balanced(HoldingsOf(s, q))
    ensures Balanced(HoldingsOf(OnRecord(s, sig, commit), q))
  {
    var s' := OnRecord(s, sig, commit);
    LandedOfOneRow(s.txns, s'.pendingTxns, q);
    assert HoldingsOf(s', q) == HoldingsOf(s, q);
  }

  lemma SendKeeps(s: State, q: Payer)
    requires Structured(s) && s.burner.Recorded? && Balanced(HoldingsOf(s, q))
    ensures Structured(OnSend(s)) && Balanced(HoldingsOf(OnSend(s), q))
  {
    LandedOfOneRow(s.txns, s.pendingTxns, q);
    LandedOfOneRow(OnSend(s).txns, s.pendingTxns, q);
  }

  /** Settling a landed burn in the tables takes its amount out of both the row and the pending burns. */
  lemma SettleKeepsBalance(s: State, t: PendingTxn, q: Payer)
    requires RowsConsistent(s) && s.pendingTxns == [t] && HasLanded(s.txns, t.signature) && Balanced(HoldingsOf(s, q))
    ensures Settle(s, t).pendingTxns == [] && Balanced(HoldingsOf(Settle(s, t), q))
  {
    WithoutOnlyRow(t);
    LandedOfOneRow(s.txns, s.pendingTxns, q);
  }

  lemma SettleTablesKeeps(s: State, commit: Commit, q: Payer)
    requires Structured(s) && s.burner.Submitted? && Balanced(HoldingsOf(s, q))
    ensures Structured(OnSettleTables(s, commit)) && Balanced(HoldingsOf(OnSettleTables(s, commit), q))
  {
    SettleKeepsBalance(s, s.burner.txn, q);
  }

  lemma CommitRecoveryKeeps(s: State, commit: Commit, q: Payer)
    requires Structured(s) && s.burner.RecoveryCommit? && Balanced(HoldingsOf(s, q))
    ensures Structured(OnCommitRecovery(s, commit)) && Balanced(HoldingsOf(OnCommitRecovery(s, commit), q))
  {
    SettleKeepsBalance(s, s.burner.txn, q);
  }

  /** Taking a landed burn off the cached account never saturates `burned`. */
  lemma DeductKeepsBalance(s: State, t: PendingTxn, q: Payer)
    requires t.payer in s.cache && t.amount <= Get(s.lag, t.payer)
    requires LandedPending(s.txns, s.pendingTxns, t.payer) <= Get(s.pendingBurns, t.payer)
    requires Balanced(HoldingsOf(s, q)) && Balanced(HoldingsOf(s, t.payer))
    ensures Balanced(HoldingsOf(DeductCache(s, t), q))
    ensures t.amount <= s.cache[t.payer].burned
  {
  }

  lemma SettleCacheKeeps(s: State, q: Payer)
    requires Structured(s) && s.burner.Settled?
    requires Balanced(HoldingsOf(s, q)) && Balanced(HoldingsOf(s, s.burner.txn.payer))
    ensures s.burner.txn.payer in s.cache
    ensures Structured(OnSettleCache(s)) && Balanced(HoldingsOf(OnSettleCache(s), q))
  {
    DeductKeepsBalance(s, s.burner.txn, q);
  }

  lemma ConfirmLandedKeeps(s: State, q: Payer)
    requires Structured(s) && TodoHead(s) && HasLanded(s.txns, s.burner.todo[0].signature)
    requires Balanced(HoldingsOf(s, q)) && Balanced(HoldingsOf(s, s.burner.todo[0].payer))
    ensures s.burner.todo[0].payer in s.cache && Balanced(HoldingsOf(OnConfirmLanded(s), q))
  {
    LandedOfOneRow(s.txns, s.pendingTxns, s.burner.todo[0].payer);
    DeductKeepsBalance(s, s.burner.todo[0], q);
  }

  lemma ConfirmLandedKeepsStructure(s: State)
    requires Structured(s) && TodoHead(s) && HasLanded(s.txns, s.burner.todo[0].signature)
    ensures s.burner.todo[0].payer in s.cache && Structured(OnConfirmLanded(s))
  {
  }

  lemma ConfirmDroppedKeepsBalance(s: State, commit: Commit, q: Payer)
    requires RowsConsistent(s) && TodoHead(s) && s.pendingTxns == s.burner.todo
    requires !HasLanded(s.txns, s.burner.todo[0].signature) && Balanced(HoldingsOf(s, q))
    ensures Balanced(HoldingsOf(OnConfirmDropped(s, commit), q))
  {
    var s' := OnConfirmDropped(s, commit);
    WithoutOnlyRow(s.burner.todo[0]);
    LandedOfOneRow(s.txns, s.pendingTxns, q);
    LandedOfOneRow(s'.txns, s'.pendingTxns, q);
  }

  lemma ConfirmDroppedKeeps(s: State, commit: Commit)
    requires Structured(s) && TodoHead(s) && !HasLanded(s.txns, s.burner.todo[0].signature)
    ensures var s' := OnConfirmDropped(s, commit);
            && Structured(s')
            && (!commit.FailedLost? ==> s'.pendingTxns == [])
            && s' == s.(pendingTxns := s'.pendingTxns, txns := s'.txns, burner := s'.burner)
  {
    assert s.pendingTxns == [s.burner.todo[0]];
    WithoutOnlyRow(s.burner.todo[0]);
  }

  lemma CrashKeeps(s: State, q: Payer)
    requires Structured(s) && Balanced(HoldingsOf(s, q))
    ensures Structured(OnCrash(s)) && Balanced(HoldingsOf(OnCrash(s), q))
  {
  }

  lemma LoadKeeps(s: State, p: Payer)
    requires Structured(s) && s.process.Loading? && p in s.process.todo
    ensures Structured(OnLoadAccount(s, p))
  {
    LandedOfOneRow(s.txns, s.pendingTxns, p);
  }

  lemma LoadKeepsBalance(s: State, p: Payer, q: Payer)
    requires PayersCached(s) && s.process.Loading? && p in s.process.todo && Balanced(HoldingsOf(s, q))
    ensures Balanced(HoldingsOf(OnLoadAccount(s, p), q))
  {
  }

  lemma FetchKeeps(s: State, p: Payer, q: Payer)
    requires Structured(s) && s.burner.Idle? && p in s.pendingBurns && Balanced(HoldingsOf(s, q))
    ensures var s' := s.(burner := Fetched(p, s.pendingBurns[p])); Structured(s') && Balanced(HoldingsOf(s', q))
  {
  }

  lemma SubmitSucceedsKeeps(s: State, q: Payer)
    requires Structured(s) && s.burner.Awaiting? && HasLanded(s.txns, s.burner.txn.signature) && Balanced(HoldingsOf(s, q))
    ensures var s' := s.(burner := Submitted(s.burner.txn)); Structured(s') && Balanced(HoldingsOf(s', q))
  {
  }

  lemma ConfirmFailsKeeps(s: State, q: Payer)
    requires Structured(s) && s.burner.Recovering? && Balanced(HoldingsOf(s, q))
    ensures var s' := s.(burner := Failed); Structured(s') && Balanced(HoldingsOf(s', q))
  {
  }

  lemma RecoveryDoneKeeps(s: State, q: Payer)
    requires Structured(s) && s.burner == Recovering([]) && Balanced(HoldingsOf(s, q))
    ensures var s' := s.(burner := Idle, process := Running); Structured(s') && Balanced(HoldingsOf(s', q))
  {
  }

  lemma StartKeeps(s: State, q: Payer)
    requires Structured(s) && s.process == Down && Balanced(HoldingsOf(s, q))
    ensures var s' := s.(process := Loading(s.pendingBurns.Keys)); Structured(s') && Balanced(HoldingsOf(s', q))
  {
  }

  lemma LoadingDoneKeeps(s: State, q: Payer)
    requires Structured(s) && s.process == Loading({}) && Balanced(HoldingsOf(s, q))
    ensures var s' := Recover(s.(process := Confirming)); Structured(s') && Balanced(HoldingsOf(s', q))
  {
  }

  lemma BurnStepKeeps(s: State, e: BurnEvent, q: Payer)
    requires Structured(s) && BurnEnabled(s, e) && Balanced(HoldingsOf(s, q))
    requires s.burner.Settled? ==> Balanced(HoldingsOf(s, s.burner.txn.payer))
    ensures Structured(BurnStep(s, e)) && Balanced(HoldingsOf(BurnStep(s, e), q))
  {
    match e
    case FetchBurn(p) => FetchKeeps(s, p, q);
    case MakeTxnFails => RecoverKeeps(s, q);
    case RecordTxn(sig, commit) => RecordKeeps(s, sig, commit); RecordKeepsBalance(s, sig, commit, q);
    case Send => SendKeeps(s, q);
    case SendFails => RecoverKeeps(s, q);
    case SubmitSucceeds => SubmitSucceedsKeeps(s, q);
    case SubmitFails => RecoverKeeps(s, q);
    case SettleTables(commit) => SettleTablesKeeps(s, commit, q);
    case SettleCache => SettleCacheKeeps(s, q);
  }

  lemma RecoveryStepKeeps(s: State, e: RecoveryEvent, q: Payer)
    requires Structured(s) && RecoveryEnabled(s, e) && Balanced(HoldingsOf(s, q))
    requires TodoHead(s) ==> Balanced(HoldingsOf(s, s.burner.todo[0].payer))
    ensures Structured(RecoveryStep(s, e)) && Balanced(HoldingsOf(RecoveryStep(s, e), q))
  {
    match e
    case ConfirmLanded => ConfirmLandedKeepsStructure(s); ConfirmLandedKeeps(s, q);
    case ConfirmDropped(commit) => ConfirmDroppedKeeps(s, commit); ConfirmDroppedKeepsBalance(s, commit, q);
    case CommitRecovery(commit) => CommitRecoveryKeeps(s, commit, q);
    case ConfirmFails => ConfirmFailsKeeps(s, q);
    case RecoveryDone => RecoveryDoneKeeps(s, q);
  }

  lemma ProcessStepKeeps(s: State, e: ProcessEvent, q: Payer)
    requires Structured(s) && ProcessEnabled(s, e) && Balanced(HoldingsOf(s, q))
    ensures Structured(ProcessStep(s, e)) && Balanced(HoldingsOf(ProcessStep(s, e), q))
  {
    match e
    case Crash => CrashKeeps(s, q);
    case Start => StartKeeps(s, q);
    case LoadAccount(p) => LoadKeeps(s, p); LoadKeepsBalance(s, p, q);
    case LoadingDone => LoadingDoneKeeps(s, q);
  }

  lemma ChainStepKeeps(s: State, e: ChainEvent, q: Payer)
    requires Structured(s) && ChainEnabled(s, e) && Balanced(HoldingsOf(s, q))
    ensures Structured(ChainStep(s, e)) && Balanced(HoldingsOf(ChainStep(s, e), q))
  {
    match e
    case Deposit(p, n) => DepositKeeps(s, p, n); DepositKeepsBalance(s, p, n, q);
    case Land(sig) => LandKeeps(s, sig); LandKeepsBalance(s, sig, q);
  }

  lemma FileStepKeeps(s: State, e: FileEvent, q: Payer)
    requires Structured(s) && s.process == Running && Balanced(HoldingsOf(s, q))
    ensures Structured(FileStep(s, e)) && Balanced(HoldingsOf(FileStep(s, e), q))
  {
    match e
    case DebitPacket(p, amount, threshold) => DebitKeeps(s, p, amount, threshold); DebitKeepsBalance(s, p, amount, threshold, q);
    case CommitFile => CommitFileKeeps(s); CommitFileKeepsBalance(s, q);
    case AbortFile => AbortFileKeeps(s, q);
  }

  lemma FundsStepKeeps(s: State, e: FundsEvent, q: Payer)
    requires Structured(s) && FundsEnabled(s, e) && Balanced(HoldingsOf(s, q))
    requires e == StoreFunds && s.monitor.Some? ==> s.monitor.value.current
    ensures Structured(FundsStep(s, e)) && Balanced(HoldingsOf(FundsStep(s, e), q))
  {
    match e
    case ReadFunds(p) => ReadFundsKeeps(s, p, q);
    case StoreFunds => StoreFundsKeeps(s, q);
  }

  lemma StepKeepsPayer(s: State, e: Event, q: Payer)
    requires Inv(s) && Enabled(s, e) && Assumed(s, e)
    ensures Structured(Step(s, e)) && Balanced(HoldingsOf(Step(s, e), q))
  {
    assert Balanced(HoldingsOf(s, q));
    match e
    case Chain(c) => ChainStepKeeps(s, c, q);
    case File(f) => FileStepKeeps(s, f, q);
    case Funds(f) => FundsStepKeeps(s, f, q);
    case Burn(b) => BurnStepKeeps(s, b, q);
    case Recovery(r) => RecoveryStepKeeps(s, r, q);
    case Proc(x) => ProcessStepKeeps(s, x, q);
  }

  /** Every step keeps the invariant, as long as the monitor does not store a stale balance. */
  lemma StepKeepsInv(s: State, e: Event)
    requires Inv(s) && Enabled(s, e) && Assumed(s, e)
    ensures Inv(Step(s, e))
  {
    forall q: Payer ensures Structured(Step(s, e)) && Balanced(HoldingsOf(Step(s, e), q)) {
      StepKeepsPayer(s, e, q);
    }
    assert Structured(Step(s, e)) by { StepKeepsPayer(s, e, 0); }
  }
}
