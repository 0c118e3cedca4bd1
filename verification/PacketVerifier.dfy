/**
  The packet verifier's own code: the balance cache, the burner with its recovery, and the verification of a
  file of packet reports. Each method is proved against the burn protocol's steps or against what it promises.
*/
module PacketVerifier {
  import opened Wrappers
  import opened BurnProtocol

  // ---------------------------------------------------------------- balance cache

  class BalanceCache {
    var accounts: map<Payer, PayerAccount>

    constructor (accounts: map<Payer, PayerAccount>)
      ensures this.accounts == accounts
    {
      this.accounts := accounts;
    }

    /** Loads an account for every payer with pending burns; `balances` is what the chain answers, and the first
        request it does not answer ends the load. */
    static method Load(burns: map<Payer, nat>, balances: map<Payer, nat>) returns (cache: Option<BalanceCache>)
      ensures cache.Some? <==> burns.Keys <= balances.Keys
      ensures cache.Some? ==> fresh(cache.value)
      ensures cache.Some? ==> cache.value.accounts == map p | p in burns :: PayerAccount(balances[p], burns[p])
    {
      var accounts := map[];
      var todo := burns.Keys;
      while todo != {}
        invariant todo <= burns.Keys && burns.Keys - todo <= balances.Keys
        invariant accounts == map p | p in burns.Keys - todo :: PayerAccount(balances[p], burns[p])
        decreases |todo|
      {
        var p :| p in todo;
        if p !in balances {
          return None;
        }
        accounts := accounts[p := PayerAccount(balances[p], burns[p])];
        todo := todo - {p};
      }
      var loaded := new BalanceCache(accounts);
      return Some(loaded);
    }

    function Find(p: Payer): Option<PayerAccount>
      reads this
    {
      if p in accounts then Some(accounts[p]) else None
    }

    function Burned(p: Payer): nat
      reads this
    {
      if p in accounts then accounts[p].burned else 0
    }

    /** `chainBalance` is the answer of the chain should it be asked, None a failed request. */
    method DebitIfSufficient(payer: Payer, amount: nat, threshold: nat, chainBalance: Option<nat>)
      returns (r: Result<Option<int>, ()>)
      modifies this
      ensures r.Ok? ==> var answer := if chainBalance.Some? then chainBalance.value else 0;
                var d := Debit(old(Find(payer)), answer, amount, threshold);
                accounts == old(accounts)[payer := d.account] && r.value == d.remaining
      ensures chainBalance.Some? ==> r.Ok?
      ensures r.Ok? ==> payer in accounts && forall q | q != payer :: Find(q) == old(Find(q))
      ensures r.Ok? ==> Burned(payer) == old(Burned(payer)) + if r.value.Some? then amount else 0
      ensures r.Err? ==> accounts == old(accounts)
    {
      if payer !in accounts {
        if chainBalance == None {
          return Err(());
        }
        accounts := accounts[payer := PayerAccount(chainBalance.value, 0)];
        if amount <= accounts[payer].balance {
          accounts := accounts[payer := accounts[payer].(burned := accounts[payer].burned + amount)];
          return Ok(Some(accounts[payer].balance - amount));
        }
        return Ok(None);
      }
      var account := accounts[payer];
      if account.balance < amount + account.burned {
        return Ok(None);
      }
      var remaining := account.balance - (amount + account.burned);
      if remaining < threshold {
        if chainBalance == None {
          return Err(());
        }
        account := account.(balance := chainBalance.value);
      }
      account := account.(burned := account.burned + amount);
      accounts := accounts[payer := account];
      return Ok(Some(account.balance - account.burned));
    }
  }

  // ---------------------------------------------------------------- burner

  /** Where a call of `burn` goes wrong, if it does. */
  datatype Fault =
    | NoFault
    | MakeFault
    | RecordFault(applied: bool)
    | SubmitFault(landed: bool)
    | SettleFault(applied: bool)

  /** Where the recovery goes wrong. */
  datatype RecoveryFault = AnswerFault | CommitFault(applied: bool)

  function CommitOf(applied: bool): Commit {
    if applied then FailedApplied else FailedLost
  }

  /** The amounts of the rows of `p` that have landed. */
  function LandedAmount(rows: seq<PendingTxn>, landed: set<Signature>, p: Payer): nat {
    if rows == [] then 0
    else LandedAmount(rows[..|rows| - 1], landed, p)
         + if rows[|rows| - 1].payer == p && rows[|rows| - 1].signature in landed then rows[|rows| - 1].amount else 0
  }

  predicate DistinctSignatures(rows: seq<PendingTxn>) {
    forall i, j :: 0 <= i < j < |rows| ==> rows[i].signature != rows[j].signature
  }

  lemma {:induction false} WithoutAbsentRow(rows: seq<PendingTxn>, sig: Signature)
    requires forall i :: 0 <= i < |rows| ==> rows[i].signature != sig
    ensures WithoutRow(rows, sig) == rows
  {
    if rows != [] {
      WithoutAbsentRow(rows[1..], sig);
      assert rows == [rows[0]] + rows[1..];
    }
  }

  lemma WithoutFirstRow(rows: seq<PendingTxn>, k: nat)
    requires k < |rows| && DistinctSignatures(rows)
    ensures WithoutRow(rows[k..], rows[k].signature) == rows[k + 1..]
  {
    assert rows[k..][1..] == rows[k + 1..];
    WithoutAbsentRow(rows[k + 1..], rows[k].signature);
  }

  /** The table once the rows of `done` are recovered: every landed row has been taken off, and nothing else has. */
  ghost predicate BurnsRecovered(
    done: seq<PendingTxn>, landed: set<Signature>, burns0: map<Payer, nat>, burns: map<Payer, nat>)
  {
    burns.Keys == burns0.Keys && forall p <- burns0 :: burns[p] == SaturatingSub(burns0[p], LandedAmount(done, landed, p))
  }

  /** The same of the cached accounts. */
  ghost predicate AccountsRecovered(
    done: seq<PendingTxn>, landed: set<Signature>, accounts0: map<Payer, PayerAccount>, accounts: map<Payer, PayerAccount>)
  {
    && accounts.Keys == accounts0.Keys
    && forall p <- accounts0 :: accounts[p] == Deduct(accounts0[p], LandedAmount(done, landed, p))
  }

  function ReduceBurns(burns: map<Payer, nat>, t: PendingTxn): map<Payer, nat> {
    if t.payer in burns then Minus(burns, t.payer, t.amount) else burns
  }

  lemma LandedAmountNext(rows: seq<PendingTxn>, k: nat, landed: set<Signature>, p: Payer)
    requires k < |rows|
    ensures LandedAmount(rows[..k + 1], landed, p)
         == LandedAmount(rows[..k], landed, p) + if rows[k].payer == p && rows[k].signature in landed then rows[k].amount else 0
  {
    assert rows[..k + 1][..k] == rows[..k];
  }

  lemma BurnsNext(rows: seq<PendingTxn>, k: nat, landed: set<Signature>, burns0: map<Payer, nat>, burns: map<Payer, nat>)
    requires k < |rows| && BurnsRecovered(rows[..k], landed, burns0, burns)
    ensures BurnsRecovered(rows[..k + 1], landed, burns0,
                           if rows[k].signature in landed then ReduceBurns(burns, rows[k]) else burns)
  {
    forall p: Payer { LandedAmountNext(rows, k, landed, p); }
  }

  lemma AccountsNext(
    rows: seq<PendingTxn>, k: nat, landed: set<Signature>,
    accounts0: map<Payer, PayerAccount>, accounts: map<Payer, PayerAccount>)
    requires k < |rows| && rows[k].payer in accounts && AccountsRecovered(rows[..k], landed, accounts0, accounts)
    ensures AccountsRecovered(rows[..k + 1], landed, accounts0,
                              if rows[k].signature in landed
                              then accounts[rows[k].payer := Deduct(accounts[rows[k].payer], rows[k].amount)] else accounts)
  {
    forall p: Payer { LandedAmountNext(rows, k, landed, p); }
  }

  class Burner {
    // the chain, as the burner sees it
    var chain: map<Payer, nat>
    var txns: map<Signature, ChainTxn>
    // the tables
    var pendingBurns: map<Payer, nat>
    var pendingTxns: seq<PendingTxn>
    // the shared balance store
    var accounts: map<Payer, PayerAccount>
    // control state and history of the whole service
    ghost var rest: State

    ghost function View(): State
      reads this
    {
      rest.(chain := chain, txns := txns, pendingBurns := pendingBurns, pendingTxns := pendingTxns, cache := accounts)
    }

    // Each method up to `DeductAccount` is what `burn` does between two points where other tasks can run.

    method FetchNextBurn(payer: Payer) returns (amount: nat)
      requires Inv(View()) && Enabled(View(), Burn(FetchBurn(payer)))
      modifies this
      ensures amount == old(pendingBurns[payer])
      ensures View() == Step(old(View()), Burn(FetchBurn(payer))) && Inv(View())
    {
      StepKeepsInv(View(), Burn(FetchBurn(payer)));
      amount := pendingBurns[payer];
      rest := Step(View(), Burn(FetchBurn(payer)));
    }

    method AddPendingTransaction(txn: PendingTxn, commit: Commit)
      requires Inv(View()) && Enabled(View(), Burn(RecordTxn(txn.signature, commit)))
      requires View().burner == Fetched(txn.payer, txn.amount)
      modifies this
      ensures View() == Step(old(View()), Burn(RecordTxn(txn.signature, commit))) && Inv(View())
    {
      ghost var s := Step(View(), Burn(RecordTxn(txn.signature, commit)));
      StepKeepsInv(View(), Burn(RecordTxn(txn.signature, commit)));
      if !commit.FailedLost? {
        pendingTxns := pendingTxns + [txn];
      }
      rest := s;
    }

    method SendTransaction(txn: PendingTxn)
      requires Inv(View()) && View().burner == Recorded(txn)
      modifies this
      ensures View() == Step(old(View()), Burn(Send)) && Inv(View())
    {
      ghost var s := Step(View(), Burn(Send));
      StepKeepsInv(View(), Burn(Send));
      txns := txns[txn.signature := ChainTxn(txn, InFlight)];
      rest := s;
    }

    /** The network executes the transaction. It can always pay for it. */
    method LandTransaction(txn: PendingTxn)
      requires Inv(View()) && View().burner == Awaiting(txn) && !HasLanded(txns, txn.signature)
      modifies this
      ensures LandsNow(old(View()), txn.signature)
      ensures View() == Step(old(View()), Chain(Land(txn.signature))) && Inv(View())
    {
      assert Balanced(HoldingsOf(View(), txn.payer));
      LandedOfOneRow(txns, pendingTxns, txn.payer);
      ghost var s := Step(View(), Chain(Land(txn.signature)));
      StepKeepsInv(View(), Chain(Land(txn.signature)));
      chain := Minus(chain, txn.payer, txn.amount);
      txns := txns[txn.signature := ChainTxn(txn, Landed)];
      rest := s;
    }

    ghost method Move(e: BurnEvent)
      requires Inv(View()) && BurnEnabled(View(), e) && (e.MakeTxnFails? || e.SubmitSucceeds? || e.SubmitFails?)
      modifies this`rest
      ensures View() == Step(old(View()), Burn(e)) && Inv(View())
    {
      StepKeepsInv(View(), Burn(e));
      rest := Step(View(), Burn(e));
    }

    method CommitSettlement(txn: PendingTxn, commit: Commit)
      requires Inv(View()) && View().burner == Submitted(txn)
      modifies this
      ensures View() == Step(old(View()), Burn(SettleTables(commit))) && Inv(View())
    {
      ghost var s := Step(View(), Burn(SettleTables(commit)));
      StepKeepsInv(View(), Burn(SettleTables(commit)));
      if !commit.FailedLost? {
        pendingTxns := WithoutRow(pendingTxns, txn.signature);
        pendingBurns := Minus(pendingBurns, txn.payer, txn.amount);
      }
      rest := s;
    }

    method DeductAccount(txn: PendingTxn)
      requires Inv(View()) && View().burner == Settled(txn)
      modifies this
      ensures txn.payer in old(accounts)
      ensures View() == Step(old(View()), Burn(SettleCache)) && Inv(View())
    {
      ghost var s := Step(View(), Burn(SettleCache));
      StepKeepsInv(View(), Burn(SettleCache));
      var account := accounts[txn.payer];
      account := account.(burned := SaturatingSub(account.burned, txn.amount));
      account := account.(balance := SaturatingSub(account.balance, txn.amount));
      accounts := accounts[txn.payer := account];
      rest := s;
    }

    /** The tail of `burn`, once the transaction is confirmed. */
    method SettleBurn(txn: PendingTxn, fault: Fault) returns (ok: bool)
      requires Inv(View()) && View().burner == Submitted(txn)
      modifies this
      ensures Inv(View()) && (ok <==> !fault.SettleFault?) && chain == old(chain)
      ensures ok ==> txn.payer in old(accounts) && View().burner == Idle && pendingTxns == []
      ensures ok ==> pendingBurns == Minus(old(pendingBurns), txn.payer, txn.amount)
      ensures ok ==> accounts == old(accounts)[txn.payer := Deduct(old(accounts[txn.payer]), txn.amount)]
      ensures !ok ==> View().burner == Recovering(pendingTxns) && accounts == old(accounts)
      ensures !ok ==> pendingTxns == if fault.applied then [] else old(pendingTxns)
      ensures !ok ==> pendingBurns == if fault.applied then Minus(old(pendingBurns), txn.payer, txn.amount) else old(pendingBurns)
    {
      if fault.SettleFault? {
        WithoutOnlyRow(txn);
        CommitSettlement(txn, CommitOf(fault.applied));
        return false;
      }
      SettleOk(txn);
      return true;
    }

    method SettleOk(txn: PendingTxn)
      requires Inv(View()) && View().burner == Submitted(txn)
      modifies this
      ensures Inv(View()) && chain == old(chain)
      ensures txn.payer in old(accounts) && View().burner == Idle && pendingTxns == []
      ensures pendingBurns == Minus(old(pendingBurns), txn.payer, txn.amount)
      ensures accounts == old(accounts)[txn.payer := Deduct(old(accounts[txn.payer]), txn.amount)]
    {
      WithoutOnlyRow(txn);
      CommitSettlement(txn, Done);
      DeductAccount(txn);
    }

    /** The middle of `burn`: the recorded transaction goes to the network. */
    method SubmitBurn(txn: PendingTxn, fault: Fault) returns (ok: bool)
      requires Inv(View()) && View().burner == Recorded(txn)
      modifies this
      ensures Inv(View()) && (ok <==> !fault.SubmitFault?)
      ensures pendingBurns == old(pendingBurns) && accounts == old(accounts)
      ensures ok ==> View().burner == Submitted(txn)
      ensures ok ==> chain == Minus(old(chain), txn.payer, txn.amount) && txn.amount <= Get(old(chain), txn.payer)
      ensures !ok ==> View().burner == Recovering(pendingTxns)
    {
      if fault.SubmitFault? {
        SubmitFailing(txn, fault.landed);
        return false;
      }
      SubmitOk(txn);
      return true;
    }

    method SubmitOk(txn: PendingTxn)
      requires Inv(View()) && View().burner == Recorded(txn)
      modifies this
      ensures Inv(View()) && View().burner == Submitted(txn)
      ensures pendingBurns == old(pendingBurns) && accounts == old(accounts)
      ensures chain == Minus(old(chain), txn.payer, txn.amount) && txn.amount <= Get(old(chain), txn.payer)
    {
      SendTransaction(txn);
      LandTransaction(txn);
      Move(SubmitSucceeds);
    }

    /** The submission reports an error, although the transaction may land. */
    method SubmitFailing(txn: PendingTxn, landed: bool)
      requires Inv(View()) && View().burner == Recorded(txn)
      modifies this
      ensures Inv(View()) && View().burner == Recovering(pendingTxns)
      ensures pendingBurns == old(pendingBurns) && accounts == old(accounts)
    {
      if landed {
        SubmitLate(txn);
      } else {
        SendTransaction(txn);
        Move(SubmitFails);
      }
    }

    method SubmitLate(txn: PendingTxn)
      requires Inv(View()) && View().burner == Recorded(txn)
      modifies this
      ensures Inv(View()) && View().burner == Recovering(pendingTxns)
      ensures pendingBurns == old(pendingBurns) && accounts == old(accounts)
    {
      SendTransaction(txn);
      LandTransaction(txn);
      Move(SubmitFails);
    }

    /** A burn that no other task interrupts. A successful one takes the payer's whole pending amount off the chain,
        the tables and the account; a failed one does not touch the account, and leaves the recovery to look at the
        rows in the table. */
    method BurnPayer(payer: Payer, sig: Signature, fault: Fault) returns (ok: bool)
      requires Inv(View()) && Enabled(View(), Burn(FetchBurn(payer))) && SignatureUnused(View(), sig)
      modifies this
      ensures Inv(View()) && (ok <==> fault.NoFault?)
      ensures ok ==> var amount := old(pendingBurns[payer]);
                && payer in old(accounts)
                && View().burner == Idle && pendingTxns == []
                && pendingBurns == old(pendingBurns)[payer := 0]
                && chain == Minus(old(chain), payer, amount) && amount <= Get(old(chain), payer)
                && accounts == old(accounts)[payer := Deduct(old(accounts[payer]), amount)]
      ensures !ok ==> View().burner == Recovering(pendingTxns)
      ensures !ok ==> accounts == old(accounts)
      ensures !ok ==> pendingBurns == if fault == SettleFault(true) then old(pendingBurns)[payer := 0] else old(pendingBurns)
      ensures fault == SettleFault(true) ==> pendingTxns == []
    {
      var txn;
      ok, txn := RecordBurn(payer, sig, fault);
      if ok {
        ok := SubmitBurn(txn, fault);
      }
      if ok {
        ok := SettleBurn(txn, fault);
      }
    }

    /** The head of `burn`, up to the row of its transaction. */
    method RecordBurn(payer: Payer, sig: Signature, fault: Fault) returns (ok: bool, txn: PendingTxn)
      requires Inv(View()) && Enabled(View(), Burn(FetchBurn(payer))) && SignatureUnused(View(), sig)
      modifies this
      ensures Inv(View()) && (ok <==> !fault.MakeFault? && !fault.RecordFault?)
      ensures txn == PendingTxn(sig, payer, old(pendingBurns[payer]))
      ensures pendingBurns == old(pendingBurns) && accounts == old(accounts) && chain == old(chain)
      ensures View().burner == if ok then Recorded(txn) else Recovering(pendingTxns)
    {
      var amount := FetchNextBurn(payer);
      txn := PendingTxn(sig, payer, amount);
      if fault.MakeFault? {
        Move(MakeTxnFails);
        return false, txn;
      }
      AddPendingTransaction(txn, if fault.RecordFault? then CommitOf(fault.applied) else Done);
      return !fault.RecordFault?, txn;
    }

    /** The account is reduced before the table transaction commits. */
    method ConfirmRow(t: PendingTxn, landed: bool, commit: Commit)
      requires t.payer in accounts
      modifies this`pendingTxns, this`pendingBurns, this`accounts
      ensures accounts == if landed then old(accounts)[t.payer := Deduct(old(accounts[t.payer]), t.amount)] else old(accounts)
      ensures commit.FailedLost? ==> pendingTxns == old(pendingTxns) && pendingBurns == old(pendingBurns)
      ensures !commit.FailedLost? ==>
                && pendingTxns == WithoutRow(old(pendingTxns), t.signature)
                && pendingBurns == if landed then ReduceBurns(old(pendingBurns), t) else old(pendingBurns)
    {
      var burns := pendingBurns;
      if landed {
        if t.payer in burns {
          burns := Minus(burns, t.payer, t.amount);
        }
        var account := accounts[t.payer];
        account := account.(burned := SaturatingSub(account.burned, t.amount));
        account := account.(balance := SaturatingSub(account.balance, t.amount));
        accounts := accounts[t.payer := account];
      }
      if !commit.FailedLost? {
        pendingTxns, pendingBurns := WithoutRow(pendingTxns, t.signature), burns;
      }
    }

    /** Recovery over any number of rows. The row at index `stop` is where it goes wrong, if there is one: the question
        whether it landed is not answered, or its table transaction fails. */
    method ConfirmPendingTxns(landed: set<Signature>, stop: nat, fault: RecoveryFault) returns (ok: bool)
      requires DistinctSignatures(pendingTxns)
      requires forall i :: 0 <= i < |pendingTxns| ==> pendingTxns[i].payer in accounts
      modifies this`pendingTxns, this`pendingBurns, this`accounts
      ensures ok <==> |old(pendingTxns)| <= stop
      ensures var inTables := if ok then |old(pendingTxns)| else if fault == CommitFault(true) then stop + 1 else stop;
              var inCache := if ok then |old(pendingTxns)| else if fault.CommitFault? then stop + 1 else stop;
              && pendingTxns == old(pendingTxns)[inTables..]
              && BurnsRecovered(old(pendingTxns)[..inTables], landed, old(pendingBurns), pendingBurns)
              && AccountsRecovered(old(pendingTxns)[..inCache], landed, old(accounts), accounts)
    {
      var rows := pendingTxns;
      var k := 0;
      while k < |rows|
        invariant k <= |rows| && k <= stop
        invariant pendingTxns == rows[k..]
        invariant BurnsRecovered(rows[..k], landed, old(pendingBurns), pendingBurns)
        invariant AccountsRecovered(rows[..k], landed, old(accounts), accounts)
      {
        if k == stop && fault.AnswerFault? {
          return false;
        }
        WithoutFirstRow(rows, k);
        BurnsNext(rows, k, landed, old(pendingBurns), pendingBurns);
        AccountsNext(rows, k, landed, old(accounts), accounts);
        ConfirmRow(rows[k], rows[k].signature in landed, if k == stop then CommitOf(fault.applied) else Done);
        if k == stop {
          return false;
        }
        k := k + 1;
      }
      return true;
    }
  }
}
