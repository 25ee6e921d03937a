/**
  What the reward protocol brings about: payments of the right amount to the right user,
  completed rows behind finished payments, and reservations that are given back.
 */
module RewardLaws {
  import opened Wrappers
  import opened ByteStrings
  import opened Tx
  import opened LedgerState
  import opened LedgerLaws
  import opened RewardTable
  import opened Rewards

  // ---------- What is paid ----------

  // The signed payload of every payment of every run decodes to the job's payee and amount.
  lemma PaymentsDecode(env: Env, wallet: Wallet, actions: seq<Action>, i: nat)
    requires Canonical(env, wallet)
    ensures var sys := Reached(env, wallet, actions);
      i < |sys.payments| ==>
        var p := sys.payments[i];
        var r := p.entry.request;
        && p.entry in sys.ledger.log && p.worker in sys.workers
        && r.txType == Transfer && r.signer == wallet.pub && r.sig == wallet.sign(r.payload)
        && env.transferOf(r.payload) == Some(
             TransferPayload(wallet.pub, sys.workers[p.worker].toId, sys.workers[p.worker].amount, p.nonce))
  {
    var sys := Reached(env, wallet, actions);
    if i < |sys.payments| {
      var p := sys.payments[i];
      assert PaymentOk(wallet, sys.ledger.log, sys.workers, p);
      var job := sys.workers[p.worker];
      var payload := TransferPayload(wallet.pub, job.toId, job.amount, p.nonce);
      assert p.entry.request.payload == wallet.encode(payload);
    }
  }

  // ---------- Retries ----------

  // A stale nonce is tried again, eight times in all; any other refusal ends the attempts.
  lemma StaleIsRetried(env: Env, wallet: Wallet, sys: System, w: nat)
    requires Good(env, wallet, sys) && w in sys.workers && sys.workers[w].phase.Looked?
    ensures var (job, sys') := (sys.workers[w], Step(env, wallet, sys, Send(w)));
      var k := job.phase.attempt;
      w in sys'.workers &&
      match ApplyTo(env, true, sys.ledger, TransferRequest(wallet, job.toId, job.amount, job.phase.nonce))
      case Ok(st) => sys'.workers[w].phase.Applied? && sys'.ledger == st
      case Err(BadNonce) => sys'.workers[w].phase == (if k < 7 then Reserved(k + 1) else Refused)
      case Err(_) => sys'.workers[w].phase == Refused && sys'.ledger == sys.ledger
  {
  }

  // Looking up finds the next nonce exactly if the admin account is there and can afford it.
  lemma LookupExact(wallet: Wallet, sys: System, w: nat)
    requires w in sys.workers && sys.workers[w].phase.Reserved? && wallet.pub != []
    ensures var (st, job) := (sys.ledger, sys.workers[w]);
      var sys' := TableStep(wallet, sys, Lookup(w));
      w in sys'.workers &&
      if wallet.pub in st.index && st.index[wallet.pub] in st.accounts
         && job.amount <= st.accounts[st.index[wallet.pub]].balance
      then sys'.workers[w].phase == Looked(job.phase.attempt, Wrap64(st.accounts[st.index[wallet.pub]].nonce + 1))
      else sys'.workers[w].phase == Refused
  {
  }

  // ---------- Reservations ----------

  // Inserting takes a free event, and leaves a taken one to others.
  lemma InsertExact(wallet: Wallet, sys: System, w: nat)
    requires w in sys.workers && sys.workers[w].phase.Cleared?
    ensures var (key, sys') := (sys.workers[w].key, TableStep(wallet, sys, Insert(w)));
      w in sys'.workers &&
      if key in sys.rows then sys'.workers[w].phase == Finished && sys'.rows == sys.rows
      else sys'.workers[w].phase == Reserved(0) && sys'.rows == sys.rows[key := Row(None, sys.now)]
  {
  }

  // Nobody takes over a reservation in its first fifteen minutes, and anybody can after them.
  lemma ReservationLasts(sys: System, w: nat, key: Key, toId: int64, amount: int64)
    requires w !in sys.workers && toId > TREASURY && amount > 0
    requires key in sys.rows && sys.rows[key].txHash.None?
    ensures key in ClearStep(sys, w, key, toId, amount).rows <==> sys.now - sys.rows[key].paidAt <= 900_000
  {
  }

  // A worker that was refused leaves no reservation behind when it finishes.
  lemma RefusedGivesBack(env: Env, wallet: Wallet, sys: System, w: nat)
    requires Inv(env, sys.ledger) && w in sys.workers && sys.workers[w].phase.Refused?
    ensures var (sys', key) := (Step(env, wallet, sys, Finish(w)), sys.workers[w].key);
      && w in sys'.workers && sys'.workers[w].phase.Finished?
      && (key in sys'.rows ==> key in sys.rows && sys.rows[key].txHash.Some? && sys'.rows[key] == sys.rows[key])
  {
  }

  // ---------- A finished payment has completed its row ----------

  ghost predicate Completed(sys: System) {
    forall i :: 0 <= i < |sys.payments| ==> PaidRow(sys, sys.payments[i])
  }

  ghost predicate PaidRow(sys: System, p: Payment) {
    p.worker in sys.workers && sys.workers[p.worker].phase.Finished? ==>
      p.key in sys.rows && sys.rows[p.key].txHash.Some?
  }

  lemma StepPaidRow(env: Env, wallet: Wallet, sys: System, a: Action, p: Payment)
    requires Good(env, wallet, sys) && PaymentOk(wallet, sys.ledger.log, sys.workers, p) && PaidRow(sys, p)
    ensures PaidRow(Step(env, wallet, sys, a), p)
  {
    StepKeepsRow(env, wallet, sys, a, p.key);
  }

  lemma StepCompletes(env: Env, wallet: Wallet, sys: System, a: Action)
    requires Good(env, wallet, sys) && Completed(sys)
    ensures Completed(Step(env, wallet, sys, a))
  {
    var sys' := Step(env, wallet, sys, a);
    forall i | 0 <= i < |sys'.payments|
      ensures PaidRow(sys', sys'.payments[i])
    {
      if i < |sys.payments| {
        assert PaymentOk(wallet, sys.ledger.log, sys.workers, sys.payments[i]);
        StepPaidRow(env, wallet, sys, a, sys.payments[i]);
      }
    }
  }

  // In every run, whoever has paid and finished has left a completed row.
  lemma {:induction false} FinishedIsCompleted(env: Env, wallet: Wallet, actions: seq<Action>)
    ensures Completed(Reached(env, wallet, actions))
  {
    EmptyInv(env);
    if actions != [] {
      var i := |actions| - 1;
      FinishedIsCompleted(env, wallet, actions[..i]);
      StepCompletes(env, wallet, Reached(env, wallet, actions[..i]), actions[i]);
    }
  }

  // ---------- Nobody pays a completed event but who held it then ----------

  ghost predicate OnlyHolders(sys: System, sys': System, key: Key) {
    && key in sys'.rows && sys'.rows[key].txHash.Some?
    && Holders(sys'.workers, key) <= Holders(sys.workers, key)
    && sys.payments <= sys'.payments
    && forall i :: |sys.payments| <= i < |sys'.payments| && sys'.payments[i].key == key ==>
         sys'.payments[i].worker in Holders(sys.workers, key)
  }

  lemma StepByHolders(env: Env, wallet: Wallet, sys: System, mid: System, a: Action, key: Key)
    requires Inv(env, mid.ledger) && OnlyHolders(sys, mid, key)
    ensures OnlyHolders(sys, Step(env, wallet, mid, a), key)
  {
    StepKeepsRow(env, wallet, mid, a, key);
    var sys' := Step(env, wallet, mid, a);
    assert Holders(sys'.workers, key) <= Holders(mid.workers, key);
    if a.Send? && a.w in mid.workers && mid.workers[a.w].phase.Looked? && mid.workers[a.w].key == key {
      assert a.w in Holders(mid.workers, key);
    }
  }

  ghost predicate RunByHolders(env: Env, wallet: Wallet, sys: System, actions: seq<Action>, key: Key)
    requires Good(env, wallet, sys)
  {
    OnlyHolders(sys, Run(env, wallet, sys, actions), key)
  }

  // Once an event is completed, only workers that held a reservation of it at that moment
  // can still pay it: whoever comes later never does.
  lemma {:induction false} LaterWorkersDoNotPay(env: Env, wallet: Wallet, sys: System, actions: seq<Action>, key: Key)
    requires Good(env, wallet, sys) && key in sys.rows && sys.rows[key].txHash.Some?
    ensures RunByHolders(env, wallet, sys, actions, key)
  {
    if actions != [] {
      var i := |actions| - 1;
      LaterWorkersDoNotPay(env, wallet, sys, actions[..i], key);
      StepByHolders(env, wallet, sys, Run(env, wallet, sys, actions[..i]), actions[i], key);
    }
  }
}
