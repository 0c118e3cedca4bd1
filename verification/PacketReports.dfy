/** Verification of a stream of packet reports: who pays, what is written out, and how far the three records of
    what was debited (cache, open table transaction, valid packets) agree. */
module PacketReports {
  import opened Wrappers
  import opened BurnProtocol
  import opened PacketVerifier

  const BYTES_PER_DC: nat := 24
  const U32: nat := 0x1_0000_0000

  datatype Report = Report(uplink: bool, oui: nat, payloadSize: nat, gateway: nat, payloadHash: nat, timestamp: nat)

  datatype ValidPacket = ValidPacket(payloadSize: nat, gateway: nat, payloadHash: nat, timestamp: nat, numDcs: nat)

  datatype InvalidPacket = InvalidPacket(payloadSize: nat, gateway: nat, payloadHash: nat)

  /** The fewest data credits, at least one, that cover the payload. */
  function PayloadSizeToDc(payloadSize: nat): (dc: nat)
    ensures 1 <= dc && payloadSize <= BYTES_PER_DC * dc
    ensures forall fewer: nat :: 1 <= fewer < dc ==> BYTES_PER_DC * fewer < payloadSize
  {
    var size := if payloadSize < BYTES_PER_DC then BYTES_PER_DC else payloadSize;
    (size + BYTES_PER_DC - 1) / BYTES_PER_DC
  }

  function ToValid(r: Report): ValidPacket {
    ValidPacket(r.payloadSize, r.gateway, r.payloadHash, r.timestamp, PayloadSizeToDc(r.payloadSize))
  }

  function ToInvalid(r: Report): InvalidPacket {
    InvalidPacket(r.payloadSize, r.gateway, r.payloadHash)
  }

  function Uplinks(reports: seq<Report>): seq<Report> {
    if reports == [] then []
    else
      var last := reports[|reports| - 1];
      Uplinks(reports[..|reports| - 1]) + if last.uplink then [last] else []
  }

  lemma UplinksNext(reports: seq<Report>, k: nat)
    requires k < |reports|
    ensures Uplinks(reports[..k + 1])
         == if reports[k].uplink then Uplinks(reports[..k]) + [reports[k]] else Uplinks(reports[..k])
  {
    assert reports[..k + 1][..k] == reports[..k];
  }

  /** The reports whose verdict is `wanted`, in order. */
  function Picked(reports: seq<Report>, verdicts: seq<bool>, wanted: bool): seq<Report>
    requires |reports| == |verdicts|
  {
    if reports == [] then []
    else
      var n := |reports| - 1;
      Picked(reports[..n], verdicts[..n], wanted) + if verdicts[n] == wanted then [reports[n]] else []
  }

  lemma PickedSnoc(reports: seq<Report>, verdicts: seq<bool>, r: Report, v: bool, wanted: bool)
    requires |reports| == |verdicts|
    ensures Picked(reports + [r], verdicts + [v], wanted)
         == if v == wanted then Picked(reports, verdicts, wanted) + [r] else Picked(reports, verdicts, wanted)
  {
    assert (reports + [r])[..|reports|] == reports && (verdicts + [v])[..|verdicts|] == verdicts;
  }

  predicate Known(orgs: map<nat, Payer>, reports: seq<Report>) {
    forall i :: 0 <= i < |reports| ==> reports[i].oui in orgs
  }

  /** The credits that payer `p` owes for the reports. */
  function Charges(reports: seq<Report>, orgs: map<nat, Payer>, p: Payer): nat
    requires Known(orgs, reports)
  {
    if reports == [] then 0
    else
      var n := |reports| - 1;
      Charges(reports[..n], orgs, p)
      + if orgs[reports[n].oui] == p then PayloadSizeToDc(reports[n].payloadSize) else 0
  }

  lemma ChargesSnoc(reports: seq<Report>, r: Report, orgs: map<nat, Payer>, p: Payer)
    requires Known(orgs, reports) && r.oui in orgs
    ensures Known(orgs, reports + [r])
    ensures Charges(reports + [r], orgs, p)
         == Charges(reports, orgs, p) + if orgs[r.oui] == p then PayloadSizeToDc(r.payloadSize) else 0
  {
    assert (reports + [r])[..|reports|] == reports;
  }

  /** The written packets are the reports with that verdict, one each and in order. */
  predicate Written(valid: seq<ValidPacket>, invalid: seq<InvalidPacket>, uplinks: seq<Report>, verdicts: seq<bool>) {
    && |uplinks| == |verdicts|
    && |valid| == |Picked(uplinks, verdicts, true)| && |invalid| == |Picked(uplinks, verdicts, false)|
    && (forall i :: 0 <= i < |valid| ==> valid[i] == ToValid(Picked(uplinks, verdicts, true)[i]))
    && (forall i :: 0 <= i < |invalid| ==> invalid[i] == ToInvalid(Picked(uplinks, verdicts, false)[i]))
  }

  lemma WrittenSnoc(valid: seq<ValidPacket>, invalid: seq<InvalidPacket>, uplinks: seq<Report>, verdicts: seq<bool>,
                    r: Report, accepted: bool)
    requires Written(valid, invalid, uplinks, verdicts)
    ensures accepted ==> Written(valid + [ToValid(r)], invalid, uplinks + [r], verdicts + [true])
    ensures !accepted ==> Written(valid, invalid + [ToInvalid(r)], uplinks + [r], verdicts + [false])
  {
    PickedSnoc(uplinks, verdicts, r, accepted, true);
    PickedSnoc(uplinks, verdicts, r, accepted, false);
  }

  /** The table transaction holds what each payer was charged for the reports. */
  ghost predicate InTable(charged: seq<Report>, orgs: map<nat, Payer>, burns0: map<Payer, nat>, burns: map<Payer, nat>) {
    Known(orgs, charged) && forall p: Payer :: Get(burns, p) == Get(burns0, p) + Charges(charged, orgs, p)
  }

  /** The cached accounts hold what each payer was charged for the reports. */
  ghost predicate InCache(
    charged: seq<Report>, orgs: map<nat, Payer>, accounts0: map<Payer, PayerAccount>, accounts: map<Payer, PayerAccount>)
  {
    Known(orgs, charged) && forall p: Payer :: BurnedIn(accounts, p) == BurnedIn(accounts0, p) + Charges(charged, orgs, p)
  }

  function BurnedIn(accounts: map<Payer, PayerAccount>, p: Payer): nat {
    if p in accounts then accounts[p].burned else 0
  }

  ghost predicate DebitedBy(
    accounts: map<Payer, PayerAccount>, accounts': map<Payer, PayerAccount>, payer: Payer, amount: nat)
  {
    forall p: Payer :: BurnedIn(accounts', p) == BurnedIn(accounts, p) + if p == payer then amount else 0
  }

  lemma InTableSnoc(charged: seq<Report>, r: Report, orgs: map<nat, Payer>, burns0: map<Payer, nat>, burns: map<Payer, nat>)
    requires InTable(charged, orgs, burns0, burns) && r.oui in orgs
    ensures InTable(charged + [r], orgs, burns0, Plus(burns, orgs[r.oui], PayloadSizeToDc(r.payloadSize)))
  {
    forall p: Payer
      ensures Known(orgs, charged + [r])
      ensures Charges(charged + [r], orgs, p)
           == Charges(charged, orgs, p) + if orgs[r.oui] == p then PayloadSizeToDc(r.payloadSize) else 0
    {
      ChargesSnoc(charged, r, orgs, p);
    }
  }

  lemma InCacheSnoc(
    charged: seq<Report>, r: Report, orgs: map<nat, Payer>,
    accounts0: map<Payer, PayerAccount>, accounts: map<Payer, PayerAccount>, accounts': map<Payer, PayerAccount>)
    requires InCache(charged, orgs, accounts0, accounts) && r.oui in orgs
    requires DebitedBy(accounts, accounts', orgs[r.oui], PayloadSizeToDc(r.payloadSize))
    ensures InCache(charged + [r], orgs, accounts0, accounts')
  {
    forall p: Payer
      ensures Known(orgs, charged + [r])
      ensures Charges(charged + [r], orgs, p)
           == Charges(charged, orgs, p) + if orgs[r.oui] == p then PayloadSizeToDc(r.payloadSize) else 0
    {
      ChargesSnoc(charged, r, orgs, p);
    }
  }

  /** What happens while one report is handled: the org lookup, the balance the chain answers if asked, the table
      write, the packet write and the request to disable the org. */
  datatype Answer = Answer(org: bool, balance: Option<nat>, table: bool, packet: bool, disable: bool)

  /** The first thing that went wrong. */
  datatype Failure = NoFailure | LookupFails | BalanceFails | TableFails | PacketFails(accepted: bool) | DisableFails

  /** The debit that the account of the payer decides; the chain's answer is there if it was needed. */
  function DebitFor(accounts: map<Payer, PayerAccount>, payer: Payer, r: Report, answer: Answer, minimumBalance: nat)
    : DebitOutcome
  {
    Debit(if payer in accounts then Some(accounts[payer]) else None,
          if answer.balance.Some? then answer.balance.value else 0, PayloadSizeToDc(r.payloadSize), minimumBalance)
  }

  /** The accounts after the debits of the uplink reports, one after the other. */
  function AccountsAfter(accounts: map<Payer, PayerAccount>, reports: seq<Report>, answers: seq<Answer>,
                         orgs: map<nat, Payer>, minimumBalance: nat): map<Payer, PayerAccount>
    requires |answers| == |reports|
  {
    if reports == [] then accounts
    else
      var n := |reports| - 1;
      var before := AccountsAfter(accounts, reports[..n], answers[..n], orgs, minimumBalance);
      if !reports[n].uplink || reports[n].oui !in orgs then before
      else
        var payer := orgs[reports[n].oui];
        before[payer := DebitFor(before, payer, reports[n], answers[n], minimumBalance).account]
  }

  /** Which uplink reports their payers can pay for, each after the debits of those before it. */
  function Verdicts(accounts: map<Payer, PayerAccount>, reports: seq<Report>, answers: seq<Answer>,
                    orgs: map<nat, Payer>, minimumBalance: nat): seq<bool>
    requires |answers| == |reports|
  {
    if reports == [] then []
    else
      var n := |reports| - 1;
      var before := AccountsAfter(accounts, reports[..n], answers[..n], orgs, minimumBalance);
      Verdicts(accounts, reports[..n], answers[..n], orgs, minimumBalance) +
      if !reports[n].uplink || reports[n].oui !in orgs then []
      else [DebitFor(before, orgs[reports[n].oui], reports[n], answers[n], minimumBalance).remaining.Some?]
  }

  lemma VerdictsNext(accounts: map<Payer, PayerAccount>, reports: seq<Report>, answers: seq<Answer>,
                     orgs: map<nat, Payer>, minimumBalance: nat, k: nat)
    requires |answers| == |reports| && k < |reports|
    ensures var before := AccountsAfter(accounts, reports[..k], answers[..k], orgs, minimumBalance);
            var after := AccountsAfter(accounts, reports[..k + 1], answers[..k + 1], orgs, minimumBalance);
            var verdicts := Verdicts(accounts, reports[..k], answers[..k], orgs, minimumBalance);
            var verdicts' := Verdicts(accounts, reports[..k + 1], answers[..k + 1], orgs, minimumBalance);
            if !reports[k].uplink || reports[k].oui !in orgs then after == before && verdicts' == verdicts
            else
              var payer := orgs[reports[k].oui];
              var d := DebitFor(before, payer, reports[k], answers[k], minimumBalance);
              after == before[payer := d.account] && verdicts' == verdicts + [d.remaining.Some?]
  {
    assert reports[..k + 1][..k] == reports[..k] && answers[..k + 1][..k] == answers[..k];
  }

  /** The debit of one uplink report and its entry in the table transaction, which comes second. */
  method DebitReport(cache: BalanceCache, minimumBalance: nat, burns: map<Payer, nat>, payer: Payer, report: Report,
                     answer: Answer)
    returns (failure: Failure, remaining: Option<int>, burns': map<Payer, nat>)
    modifies cache
    ensures failure in {NoFailure, BalanceFails, TableFails}
    ensures answer.balance.Some? && answer.table ==> failure == NoFailure
    ensures failure == BalanceFails ==> cache.accounts == old(cache.accounts)
    ensures failure == TableFails ==> remaining.Some? && !answer.table
    ensures failure != BalanceFails ==>
              DebitedBy(old(cache.accounts), cache.accounts, payer,
                        if remaining.Some? then PayloadSizeToDc(report.payloadSize) else 0)
    ensures failure != BalanceFails ==>
              var d := DebitFor(old(cache.accounts), payer, report, answer, minimumBalance);
              remaining == d.remaining && cache.accounts == old(cache.accounts)[payer := d.account]
    ensures burns' == if failure == NoFailure && remaining.Some? then Plus(burns, payer, PayloadSizeToDc(report.payloadSize))
                      else burns
  {
    var amount := PayloadSizeToDc(report.payloadSize);
    var debit := cache.DebitIfSufficient(payer, amount, minimumBalance, answer.balance);
    if debit.Err? {
      return BalanceFails, None, burns;
    }
    forall p: Payer | p != payer ensures BurnedIn(cache.accounts, p) == old(BurnedIn(cache.accounts, p)) {
      assert cache.Find(p) == old(cache.Find(p));
    }
    assert cache.Burned(payer) == BurnedIn(cache.accounts, payer);
    if debit.value.None? {
      return NoFailure, None, burns;
    }
    if !answer.table {
      return TableFails, debit.value, burns;
    }
    return NoFailure, debit.value, Plus(burns, payer, amount);
  }

  /** What has been written for the uplinks, and charged for the accepted ones and those that are `late`: charged
      already, although their packets are not written. */
  ghost predicate Recorded(
    valid: seq<ValidPacket>, invalid: seq<InvalidPacket>, uplinks: seq<Report>, verdicts: seq<bool>, orgs: map<nat, Payer>,
    lateInTable: seq<Report>, burns0: map<Payer, nat>, burns: map<Payer, nat>,
    lateInCache: seq<Report>, accounts0: map<Payer, PayerAccount>, accounts: map<Payer, PayerAccount>)
  {
    && Written(valid, invalid, uplinks, verdicts)
    && InTable(Picked(uplinks, verdicts, true) + lateInTable, orgs, burns0, burns)
    && InCache(Picked(uplinks, verdicts, true) + lateInCache, orgs, accounts0, accounts)
  }

  lemma CacheCharged(
    valid: seq<ValidPacket>, invalid: seq<InvalidPacket>, uplinks: seq<Report>, verdicts: seq<bool>, orgs: map<nat, Payer>,
    burns0: map<Payer, nat>, burns: map<Payer, nat>,
    accounts0: map<Payer, PayerAccount>, accounts: map<Payer, PayerAccount>, accounts': map<Payer, PayerAccount>, r: Report)
    requires Recorded(valid, invalid, uplinks, verdicts, orgs, [], burns0, burns, [], accounts0, accounts) && r.oui in orgs
    requires DebitedBy(accounts, accounts', orgs[r.oui], PayloadSizeToDc(r.payloadSize))
    ensures Recorded(valid, invalid, uplinks, verdicts, orgs, [], burns0, burns, [r], accounts0, accounts')
  {
    var picked := Picked(uplinks, verdicts, true);
    assert picked + [] == picked;
    InCacheSnoc(picked, r, orgs, accounts0, accounts, accounts');
  }

  lemma TableCharged(
    valid: seq<ValidPacket>, invalid: seq<InvalidPacket>, uplinks: seq<Report>, verdicts: seq<bool>, orgs: map<nat, Payer>,
    burns0: map<Payer, nat>, burns: map<Payer, nat>,
    accounts0: map<Payer, PayerAccount>, accounts: map<Payer, PayerAccount>, r: Report)
    requires Recorded(valid, invalid, uplinks, verdicts, orgs, [], burns0, burns, [r], accounts0, accounts) && r.oui in orgs
    ensures Recorded(valid, invalid, uplinks, verdicts, orgs,
                     [r], burns0, Plus(burns, orgs[r.oui], PayloadSizeToDc(r.payloadSize)), [r], accounts0, accounts)
  {
    var picked := Picked(uplinks, verdicts, true);
    assert picked + [] == picked;
    InTableSnoc(picked, r, orgs, burns0, burns);
  }

  lemma ValidWritten(
    valid: seq<ValidPacket>, invalid: seq<InvalidPacket>, uplinks: seq<Report>, verdicts: seq<bool>, orgs: map<nat, Payer>,
    burns0: map<Payer, nat>, burns: map<Payer, nat>,
    accounts0: map<Payer, PayerAccount>, accounts: map<Payer, PayerAccount>, r: Report)
    requires Recorded(valid, invalid, uplinks, verdicts, orgs, [r], burns0, burns, [r], accounts0, accounts)
    ensures Recorded(valid + [ToValid(r)], invalid, uplinks + [r], verdicts + [true], orgs,
                     [], burns0, burns, [], accounts0, accounts)
  {
    PickedSnoc(uplinks, verdicts, r, true, true);
    WrittenSnoc(valid, invalid, uplinks, verdicts, r, true);
    var picked := Picked(uplinks, verdicts, true);
    assert (picked + [r]) + [] == picked + [r];
  }

  lemma InvalidWritten(
    valid: seq<ValidPacket>, invalid: seq<InvalidPacket>, uplinks: seq<Report>, verdicts: seq<bool>, orgs: map<nat, Payer>,
    burns0: map<Payer, nat>, burns: map<Payer, nat>,
    accounts0: map<Payer, PayerAccount>, accounts: map<Payer, PayerAccount>, r: Report)
    requires Recorded(valid, invalid, uplinks, verdicts, orgs, [], burns0, burns, [], accounts0, accounts)
    ensures Recorded(valid, invalid + [ToInvalid(r)], uplinks + [r], verdicts + [false], orgs,
                     [], burns0, burns, [], accounts0, accounts)
  {
    PickedSnoc(uplinks, verdicts, r, false, true);
    WrittenSnoc(valid, invalid, uplinks, verdicts, r, false);
  }

  lemma NotCharged(charged: seq<Report>, orgs: map<nat, Payer>, payer: Payer,
    accounts0: map<Payer, PayerAccount>, accounts: map<Payer, PayerAccount>, accounts': map<Payer, PayerAccount>)
    requires InCache(charged, orgs, accounts0, accounts) && DebitedBy(accounts, accounts', payer, 0)
    ensures InCache(charged, orgs, accounts0, accounts')
  {}

  /** The packet of the report was written. */
  predicate IsWritten(failure: Failure) {
    failure == NoFailure || failure == DisableFails
  }

  /** The account of the payer was asked. */
  predicate IsDebited(failure: Failure) {
    failure != LookupFails && failure != BalanceFails
  }

  /** The report that is charged in the table although its packet is not written. */
  function LateInTable(failure: Failure, r: Report): seq<Report> {
    if failure == PacketFails(true) then [r] else []
  }

  /** The report that is charged in the cache although its packet is not written. */
  function LateInCache(failure: Failure, r: Report): seq<Report> {
    if failure == TableFails || failure == PacketFails(true) then [r] else []
  }

  /** The packet that is written for an accepted report; its credits are cut to 32 bits. */
  function Packet(r: Report): ValidPacket {
    ValidPacket(r.payloadSize, r.gateway, r.payloadHash, r.timestamp, PayloadSizeToDc(r.payloadSize) % U32)
  }

  lemma PacketIsExact(r: Report)
    requires r.payloadSize < U32
    ensures Packet(r) == ToValid(r)
  {}

  /** The org is disabled after a refusal and when little is left. A balance below zero wraps around to a large one. */
  predicate Disables(remaining: Option<int>, minimumBalance: nat) {
    remaining.None? || 0 <= remaining.value < minimumBalance
  }

  /** The uplink report that comes after `uplinks`. Its packet is written unless something fails before; then it may
      already be charged, in the cache or in both cache and table. */
  method HandleReport(
    cache: BalanceCache, minimumBalance: nat, orgs: map<nat, Payer>, report: Report, answer: Answer,
    burns: map<Payer, nat>, valid: seq<ValidPacket>, invalid: seq<InvalidPacket>,
    ghost uplinks: seq<Report>, ghost verdicts: seq<bool>,
    ghost burns0: map<Payer, nat>, ghost accounts0: map<Payer, PayerAccount>)
    returns (failure: Failure, burns': map<Payer, nat>, valid': seq<ValidPacket>, invalid': seq<InvalidPacket>,
             accepted: bool)
    requires report.payloadSize < U32
    requires Recorded(valid, invalid, uplinks, verdicts, orgs, [], burns0, burns, [], accounts0, cache.accounts)
    modifies cache
    ensures report.oui in orgs && GoesWell(answer) ==> failure == NoFailure
    ensures !IsDebited(failure) ==> cache.accounts == old(cache.accounts)
    ensures IsDebited(failure) ==>
              && report.oui in orgs
              && var d := DebitFor(old(cache.accounts), orgs[report.oui], report, answer, minimumBalance);
                 accepted == d.remaining.Some? && cache.accounts == old(cache.accounts)[orgs[report.oui] := d.account]
    ensures IsWritten(failure) ==> Recorded(valid', invalid', uplinks + [report], verdicts + [accepted], orgs,
                                 [], burns0, burns', [], accounts0, cache.accounts)
    ensures !IsWritten(failure) ==>
              Recorded(valid', invalid', uplinks, verdicts, orgs, LateInTable(failure, report), burns0, burns',
                       LateInCache(failure, report), accounts0, cache.accounts)
  {
    burns', valid', invalid', accepted := burns, valid, invalid, false;
    if report.oui !in orgs || !answer.org {
      return LookupFails, burns', valid', invalid', accepted;
    }
    ghost var accounts := cache.accounts;
    var remaining;
    failure, remaining, burns' := DebitReport(cache, minimumBalance, burns, orgs[report.oui], report, answer);
    if failure == BalanceFails {
      return;
    }
    accepted := remaining.Some?;
    if accepted {
      CacheCharged(valid, invalid, uplinks, verdicts, orgs, burns0, burns, accounts0, accounts, cache.accounts, report);
      if failure == TableFails {
        return;
      }
      TableCharged(valid, invalid, uplinks, verdicts, orgs, burns0, burns, accounts0, cache.accounts, report);
    } else {
      NotCharged(Picked(uplinks, verdicts, true) + [], orgs, orgs[report.oui], accounts0, accounts, cache.accounts);
    }
    if !answer.packet {
      failure := PacketFails(accepted);
      return;
    }
    if accepted {
      ValidWritten(valid, invalid, uplinks, verdicts, orgs, burns0, burns', accounts0, cache.accounts, report);
      PacketIsExact(report);
      valid' := valid + [Packet(report)];
    } else {
      InvalidWritten(valid, invalid, uplinks, verdicts, orgs, burns0, burns', accounts0, cache.accounts, report);
      invalid' := invalid + [ToInvalid(report)];
    }
    if Disables(remaining, minimumBalance) && !answer.disable {
      failure := DisableFails;
    }
  }

  predicate GoesWell(answer: Answer) {
    answer.org && answer.balance.Some? && answer.table && answer.packet && answer.disable
  }

  /** The first `done` reports are recorded, the first `handled` ones have been debited as far as they can be paid. */
  ghost predicate Progress(
    reports: seq<Report>, answers: seq<Answer>, orgs: map<nat, Payer>, minimumBalance: nat, done: nat, handled: nat,
    valid: seq<ValidPacket>, invalid: seq<InvalidPacket>,
    lateInTable: seq<Report>, burns0: map<Payer, nat>, burns: map<Payer, nat>,
    lateInCache: seq<Report>, accounts0: map<Payer, PayerAccount>, accounts: map<Payer, PayerAccount>)
  {
    && |answers| == |reports| && done <= handled <= |reports|
    && accounts == AccountsAfter(accounts0, reports[..handled], answers[..handled], orgs, minimumBalance)
    && Recorded(valid, invalid, Uplinks(reports[..done]),
                Verdicts(accounts0, reports[..done], answers[..done], orgs, minimumBalance), orgs,
                lateInTable, burns0, burns, lateInCache, accounts0, accounts)
  }

  lemma SkipReport(
    reports: seq<Report>, answers: seq<Answer>, orgs: map<nat, Payer>, minimumBalance: nat, done: nat,
    valid: seq<ValidPacket>, invalid: seq<InvalidPacket>, burns0: map<Payer, nat>, burns: map<Payer, nat>,
    accounts0: map<Payer, PayerAccount>, accounts: map<Payer, PayerAccount>)
    requires done < |reports| && !reports[done].uplink
    requires Progress(reports, answers, orgs, minimumBalance, done, done, valid, invalid,
                      [], burns0, burns, [], accounts0, accounts)
    ensures Progress(reports, answers, orgs, minimumBalance, done + 1, done + 1, valid, invalid,
                     [], burns0, burns, [], accounts0, accounts)
  {
    UplinksNext(reports, done);
    VerdictsNext(accounts0, reports, answers, orgs, minimumBalance, done);
  }

  /** One turn of the loop for an uplink report. */
  method HandleNext(
    cache: BalanceCache, minimumBalance: nat, orgs: map<nat, Payer>, reports: seq<Report>, answers: seq<Answer>, done: nat,
    burns: map<Payer, nat>, valid: seq<ValidPacket>, invalid: seq<InvalidPacket>,
    ghost burns0: map<Payer, nat>, ghost accounts0: map<Payer, PayerAccount>)
    returns (failure: Failure, burns': map<Payer, nat>, valid': seq<ValidPacket>, invalid': seq<InvalidPacket>)
    requires done < |reports| && reports[done].uplink && reports[done].payloadSize < U32
    requires Progress(reports, answers, orgs, minimumBalance, done, done, valid, invalid,
                      [], burns0, burns, [], accounts0, cache.accounts)
    modifies cache
    ensures reports[done].oui in orgs && GoesWell(answers[done]) ==> failure == NoFailure
    ensures IsWritten(failure) ==>
              Progress(reports, answers, orgs, minimumBalance, done + 1, done + 1, valid', invalid',
                       [], burns0, burns', [], accounts0, cache.accounts)
    ensures !IsWritten(failure) ==>
              Progress(reports, answers, orgs, minimumBalance, done, if IsDebited(failure) then done + 1 else done, valid',
                       invalid', LateInTable(failure, reports[done]), burns0, burns', LateInCache(failure, reports[done]),
                       accounts0, cache.accounts)
  {
    UplinksNext(reports, done);
    VerdictsNext(accounts0, reports, answers, orgs, minimumBalance, done);
    var accepted;
    failure, burns', valid', invalid', accepted :=
      HandleReport(cache, minimumBalance, orgs, reports[done], answers[done], burns, valid, invalid, Uplinks(reports[..done]),
                   Verdicts(accounts0, reports[..done], answers[..done], orgs, minimumBalance), burns0, accounts0);
  }

  /** `Verifier::verify`: `answers[i]` is what happens while report i is handled. The packets of the first `done`
      reports are written, and only those are charged, except for the next one after an error. */
  method Verify(cache: BalanceCache, minimumBalance: nat, burns0: map<Payer, nat>, orgs: map<nat, Payer>,
                reports: seq<Report>, answers: seq<Answer>)
    returns (failure: Failure, done: nat, burns: map<Payer, nat>, valid: seq<ValidPacket>, invalid: seq<InvalidPacket>)
    requires |answers| == |reports|
    requires forall i :: 0 <= i < |reports| ==> reports[i].payloadSize < U32
    modifies cache
    ensures failure == NoFailure ==> done == |reports|
    ensures (forall i :: 0 <= i < |reports| && reports[i].uplink ==> reports[i].oui in orgs && GoesWell(answers[i]))
              ==> failure == NoFailure
    ensures IsWritten(failure) ==>
              Progress(reports, answers, orgs, minimumBalance, done, done, valid, invalid,
                       [], burns0, burns, [], old(cache.accounts), cache.accounts)
    ensures !IsWritten(failure) ==>
              && done < |reports| && reports[done].uplink
              && Progress(reports, answers, orgs, minimumBalance, done, if IsDebited(failure) then done + 1 else done, valid,
                          invalid, LateInTable(failure, reports[done]), burns0, burns, LateInCache(failure, reports[done]),
                          old(cache.accounts), cache.accounts)
  {
    failure, done, burns, valid, invalid := NoFailure, 0, burns0, [], [];
    ghost var accounts0 := cache.accounts;
    while done < |reports|
      invariant done <= |reports| && failure == NoFailure
      invariant Progress(reports, answers, orgs, minimumBalance, done, done, valid, invalid,
                         [], burns0, burns, [], accounts0, cache.accounts)
    {
      if reports[done].uplink {
        failure, burns, valid, invalid :=
          HandleNext(cache, minimumBalance, orgs, reports, answers, done, burns, valid, invalid, burns0, accounts0);
        if !IsWritten(failure) {
          return;
        }
      } else {
        SkipReport(reports, answers, orgs, minimumBalance, done, valid, invalid, burns0, burns, accounts0, cache.accounts);
      }
      done := done + 1;
      if failure == DisableFails {
        return;
      }
    }
  }

  /** Whatever is late, each payer is charged at least the packets in the table and at least the table in the cache; the
      difference is the report that was being handled, and it concerns its payer only. */
  lemma LateIsOneReport(failure: Failure, accepted: seq<Report>, r: Report, orgs: map<nat, Payer>, p: Payer)
    requires Known(orgs, accepted) && r.oui in orgs
    ensures Known(orgs, accepted + LateInTable(failure, r)) && Known(orgs, accepted + LateInCache(failure, r))
    ensures var packets := Charges(accepted, orgs, p);
            var table := Charges(accepted + LateInTable(failure, r), orgs, p);
            var cache := Charges(accepted + LateInCache(failure, r), orgs, p);
            && packets <= table <= cache <= packets + PayloadSizeToDc(r.payloadSize)
            && (p != orgs[r.oui] ==> cache == packets)
  {
    ChargesSnoc(accepted, r, orgs, p);
    if LateInTable(failure, r) == [] { assert accepted + LateInTable(failure, r) == accepted; }
    if LateInCache(failure, r) == [] { assert accepted + LateInCache(failure, r) == accepted; }
  }
}
