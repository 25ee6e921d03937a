/**
  The reward protocol: any number of workers reserve an event, pay it through the ledger
  with up to eight attempts, and complete or release the reservation, while reservations
  expire and other writers use the ledger. Every SQL statement and every Apply is one step.
 */
module Rewards {
  import opened Wrappers
  import opened ByteStrings
  import opened Tx
  import opened LedgerState
  import opened LedgerLaws
  import LedgerRuns
  import opened RewardTable

  const MAX_ATTEMPTS: nat := 8

  // The admin's key pair, and the canonical bytes of a payload.
  datatype Wallet = Wallet(pub: Bytes, encode: TransferPayload -> Bytes, sign: Bytes -> Bytes)

  function TransferRequest(w: Wallet, toId: int64, amount: int64, nonce: int64): Request {
    var payload := w.encode(TransferPayload(w.pub, toId, amount, nonce));
    Request(Transfer, payload, w.sign(payload), w.pub)
  }

  // Decoding gives back the payload that the wallet encoded.
  ghost predicate Canonical(env: Env, w: Wallet) {
    forall p :: env.transferOf(w.encode(p)) == Some(p)
  }

  // Where a worker stands. Reserved and Looked count the attempts refused so far.
  datatype Phase =
    | Cleared
    | Reserved(attempt: nat)
    | Looked(attempt: nat, nonce: int64)
    | Applied(entry: Entry)
    | Refused
    | Finished

  datatype Job = Job(key: Key, toId: int64, amount: int64, phase: Phase)

  type Workers = map<nat, Job>

  // One committed transfer, with the worker that sent it.
  datatype Payment = Payment(worker: nat, key: Key, nonce: int64, entry: Entry)

  // `payments` and `expired` are history: the committed payments and the keys whose
  // reservation was deleted as expired.
  datatype System = System(
    now: int,
    ledger: Ledger,
    rows: Rows,
    workers: Workers,
    payments: seq<Payment>,
    expired: seq<Key>)

  const INITIAL: System := System(0, EMPTY, map[], map[], [], [])

  datatype Action =
    | Tick(ms: nat)
    | Write(step: LedgerRuns.Step)
    | Clear(w: nat, key: Key, toId: int64, amount: int64)
    | Insert(w: nat)
    | Lookup(w: nat)
    | Send(w: nat)
    | Abort(w: nat)
    | Finish(w: nat)

  predicate At(sys: System, w: nat, stage: Phase -> bool) {
    w in sys.workers && stage(sys.workers[w].phase)
  }

  function Moved(sys: System, w: nat, phase: Phase): System
    requires w in sys.workers
  {
    sys.(workers := sys.workers[w := sys.workers[w].(phase := phase)])
  }

  // An attempt refused for its nonce is repeated up to the limit.
  function AfterRefusal(attempt: nat, e: Error): Phase {
    if e == BadNonce && attempt + 1 < MAX_ATTEMPTS then Reserved(attempt + 1) else Refused
  }

  function LookupStep(wallet: Wallet, sys: System, w: nat): System
    requires w in sys.workers && sys.workers[w].phase.Reserved?
  {
    var job := sys.workers[w];
    match AccountByPubKey(sys.ledger, wallet.pub)
    case None => Moved(sys, w, Refused)
    case Some(admin) =>
      if admin.balance < job.amount then Moved(sys, w, Refused)
      else Moved(sys, w, Looked(job.phase.attempt, Wrap64(admin.nonce + 1)))
  }

  ghost function SendStep(env: Env, wallet: Wallet, sys: System, w: nat): System
    requires Inv(env, sys.ledger) && w in sys.workers && sys.workers[w].phase.Looked?
  {
    var job := sys.workers[w];
    var r := TransferRequest(wallet, job.toId, job.amount, job.phase.nonce);
    match ApplyTo(env, true, sys.ledger, r)
    case Err(e) => Moved(sys, w, AfterRefusal(job.phase.attempt, e))
    case Ok(st) =>
      var entry := NewEntry(env, sys.ledger.log, r);
      Moved(sys, w, Applied(entry)).(
        ledger := st, payments := sys.payments + [Payment(w, job.key, job.phase.nonce, entry)])
  }

  // The first statement of a reservation, by a worker that has just been started.
  function ClearStep(sys: System, w: nat, key: Key, toId: int64, amount: int64): System {
    if w in sys.workers || toId <= TREASURY || amount <= 0 then sys else
    sys.(rows := Expire(sys.rows, key, sys.now),
         workers := sys.workers[w := Job(key, toId, amount, Cleared)],
         expired := if Expired(sys.rows, key, sys.now) then sys.expired + [key] else sys.expired)
  }

  function InsertStep(sys: System, w: nat): System
    requires w in sys.workers && sys.workers[w].phase.Cleared?
  {
    if sys.workers[w].key in sys.rows then Moved(sys, w, Finished)
    else Moved(sys, w, Reserved(0)).(rows := Reserve(sys.rows, sys.workers[w].key, sys.now))
  }

  function FinishStep(sys: System, w: nat): System
    requires w in sys.workers && (sys.workers[w].phase.Applied? || sys.workers[w].phase.Refused?)
  {
    var job := sys.workers[w];
    Moved(sys, w, Finished).(rows :=
      if job.phase.Applied? then Complete(sys.rows, job.key, job.phase.entry.txHash, sys.now)
      else Release(sys.rows, job.key))
  }

  // The steps that leave the ledger alone; an action whose worker is elsewhere does nothing.
  // Abort is any other failure between reserving and committing.
  function TableStep(wallet: Wallet, sys: System, a: Action): System {
    match a
    case Tick(ms) => sys.(now := sys.now + ms)
    case Clear(w, key, toId, amount) => ClearStep(sys, w, key, toId, amount)
    case Insert(w) => if At(sys, w, (p: Phase) => p.Cleared?) then InsertStep(sys, w) else sys
    case Lookup(w) => if At(sys, w, (p: Phase) => p.Reserved?) then LookupStep(wallet, sys, w) else sys
    case Abort(w) => if At(sys, w, (p: Phase) => p.Reserved? || p.Looked?) then Moved(sys, w, Refused) else sys
    case Finish(w) => if At(sys, w, (p: Phase) => p.Applied? || p.Refused?) then FinishStep(sys, w) else sys
    case Write(_) => sys
    case Send(_) => sys
  }

  // One atomic step.
  ghost function Step(env: Env, wallet: Wallet, sys: System, a: Action): System
    requires Inv(env, sys.ledger)
  {
    match a
    case Write(step) => sys.(ledger := LedgerRuns.Next(env, true, sys.ledger, step))
    case Send(w) => if At(sys, w, (p: Phase) => p.Looked?) then SendStep(env, wallet, sys, w) else sys
    case _ => TableStep(wallet, sys, a)
  }

  // ---------- The account kept for one key ----------

  function PaidFor(payments: seq<Payment>, key: Key): nat {
    if payments == [] then 0 else
    PaidFor(payments[..|payments| - 1], key) + if payments[|payments| - 1].key == key then 1 else 0
  }

  function Expiries(expired: seq<Key>, key: Key): nat {
    if expired == [] then 0 else
    Expiries(expired[..|expired| - 1], key) + if expired[|expired| - 1] == key then 1 else 0
  }

  // Workers that have inserted a reservation and neither paid nor given it back.
  predicate Holds(workers: Workers, w: nat, key: Key) {
    && w in workers && workers[w].key == key
    && (workers[w].phase.Reserved? || workers[w].phase.Looked? || workers[w].phase.Refused?)
  }

  function Holders(workers: Workers, key: Key): set<nat> {
    set w | w in workers && Holds(workers, w, key)
  }

  // Every reservation that was ever inserted is held, was paid, was given back, or expired.
  predicate Accounted(sys: System, key: Key) {
    PaidFor(sys.payments, key) + |Holders(sys.workers, key)|
      <= Expiries(sys.expired, key) + if key in sys.rows then 1 else 0
  }

  function One(b: bool): nat {
    if b then 1 else 0
  }

  lemma WithoutOne(s: set<nat>, w: nat)
    ensures |s| == |s - {w}| + One(w in s)
  {
    if w in s {
      assert s == (s - {w}) + {w};
    } else {
      assert s == s - {w};
    }
  }

  lemma HoldersAfter(workers: Workers, w: nat, job: Job, key: Key)
    ensures |Holders(workers[w := job], key)| + One(Holds(workers, w, key))
      == |Holders(workers, key)| + One(Holds(workers[w := job], w, key))
  {
    var before, after := Holders(workers, key), Holders(workers[w := job], key);
    assert after - {w} == before - {w};
    WithoutOne(before, w);
    WithoutOne(after, w);
  }

  lemma PaidSnoc(payments: seq<Payment>, p: Payment, key: Key)
    ensures PaidFor(payments + [p], key) == PaidFor(payments, key) + One(p.key == key)
  {
    assert (payments + [p])[..|payments|] == payments;
  }

  lemma ExpiriesSnoc(expired: seq<Key>, k: Key, key: Key)
    ensures Expiries(expired + [k], key) == Expiries(expired, key) + One(k == key)
  {
    assert (expired + [k])[..|expired|] == expired;
  }

  // One worker's step that takes no more than it puts in.
  lemma WorkerAccounts(sys: System, sys': System, w: nat, paid: nat, lapsed: nat, key: Key)
    requires w in sys'.workers && sys'.workers == sys.workers[w := sys'.workers[w]]
    requires PaidFor(sys'.payments, key) == PaidFor(sys.payments, key) + paid
    requires Expiries(sys'.expired, key) == Expiries(sys.expired, key) + lapsed
    requires One(Holds(sys'.workers, w, key)) + paid + One(key in sys.rows)
      <= One(Holds(sys.workers, w, key)) + lapsed + One(key in sys'.rows)
    requires Accounted(sys, key)
    ensures Accounted(sys', key)
  {
    HoldersAfter(sys.workers, w, sys'.workers[w], key);
  }

  lemma ClearAccounts(sys: System, w: nat, k: Key, toId: int64, amount: int64, key: Key)
    requires Accounted(sys, key)
    ensures Accounted(ClearStep(sys, w, k, toId, amount), key)
  {
    var sys' := ClearStep(sys, w, k, toId, amount);
    if w in sys.workers || toId <= TREASURY || amount <= 0 {
      assert sys' == sys;
    } else {
      ExpiriesSnoc(sys.expired, k, key);
      WorkerAccounts(sys, sys', w, 0, One(Expired(sys.rows, k, sys.now) && k == key), key);
    }
  }

  lemma InsertAccounts(sys: System, w: nat, key: Key)
    requires Accounted(sys, key) && w in sys.workers && sys.workers[w].phase.Cleared?
    ensures Accounted(InsertStep(sys, w), key)
  {
    WorkerAccounts(sys, InsertStep(sys, w), w, 0, 0, key);
  }

  lemma FinishAccounts(sys: System, w: nat, key: Key)
    requires Accounted(sys, key) && w in sys.workers && (sys.workers[w].phase.Applied? || sys.workers[w].phase.Refused?)
    ensures Accounted(FinishStep(sys, w), key)
  {
    WorkerAccounts(sys, FinishStep(sys, w), w, 0, 0, key);
  }

  lemma SendAccounts(env: Env, wallet: Wallet, sys: System, w: nat, key: Key)
    requires Inv(env, sys.ledger) && w in sys.workers && sys.workers[w].phase.Looked? && Accounted(sys, key)
    ensures Accounted(SendStep(env, wallet, sys, w), key)
  {
    var sys' := SendStep(env, wallet, sys, w);
    if sys'.payments == sys.payments {
      WorkerAccounts(sys, sys', w, 0, 0, key);
    } else {
      var p := sys'.payments[|sys.payments|];
      PaidSnoc(sys.payments, p, key);
      WorkerAccounts(sys, sys', w, One(p.key == key), 0, key);
    }
  }

  lemma TableStepAccounts(wallet: Wallet, sys: System, a: Action, key: Key)
    requires Accounted(sys, key)
    ensures Accounted(TableStep(wallet, sys, a), key)
  {
    var sys' := TableStep(wallet, sys, a);
    match a
    case Clear(w, k, toId, amount) => ClearAccounts(sys, w, k, toId, amount, key);
    case Insert(w) => if sys' != sys { InsertAccounts(sys, w, key); }
    case Finish(w) => if sys' != sys { FinishAccounts(sys, w, key); }
    case Lookup(w) => if sys' != sys { WorkerAccounts(sys, sys', w, 0, 0, key); }
    case Abort(w) => if sys' != sys { WorkerAccounts(sys, sys', w, 0, 0, key); }
    case _ =>
  }

  lemma StepAccounts(env: Env, wallet: Wallet, sys: System, a: Action, key: Key)
    requires Inv(env, sys.ledger) && Accounted(sys, key)
    ensures Accounted(Step(env, wallet, sys, a), key)
  {
    match a
    case Write(_) =>
    case Send(w) => if At(sys, w, (p: Phase) => p.Looked?) { SendAccounts(env, wallet, sys, w, key); }
    case _ => TableStepAccounts(wallet, sys, a, key);
  }

  // ---------- What the table and the log say about a payment ----------

  // A payment is a logged transfer of the job's amount to the job's payee.
  ghost predicate PaymentOk(wallet: Wallet, log: seq<Entry>, workers: Workers, p: Payment) {
    && p.entry in log
    && p.worker in workers
    && var job := workers[p.worker];
       && job.key == p.key && (job.phase == Applied(p.entry) || job.phase.Finished?)
       && p.entry.request == TransferRequest(wallet, job.toId, job.amount, p.nonce)
  }

  predicate WorkerOk(payments: seq<Payment>, w: nat, job: Job) {
    match job.phase
    case Reserved(attempt) => attempt < MAX_ATTEMPTS
    case Looked(attempt, _) => attempt < MAX_ATTEMPTS
    case Applied(entry) => HasPaid(payments, job.key, entry.txHash)
    case _ => true
  }

  predicate HasPaid(payments: seq<Payment>, key: Key, txHash: Bytes) {
    exists i :: 0 <= i < |payments| && payments[i].key == key && payments[i].entry.txHash == txHash
  }

  // Different payments come from different workers and are different log entries.
  predicate Apart(payments: seq<Payment>) {
    forall i, j :: 0 <= i < j < |payments| ==>
      payments[i].worker != payments[j].worker && payments[i].entry.txHash != payments[j].entry.txHash
  }

  ghost predicate Orderly(wallet: Wallet, sys: System) {
    && (forall i :: 0 <= i < |sys.payments| ==> PaymentOk(wallet, sys.ledger.log, sys.workers, sys.payments[i]))
    && Apart(sys.payments)
    && (forall w :: w in sys.workers ==> WorkerOk(sys.payments, w, sys.workers[w]))
    && (forall k :: k in sys.rows && sys.rows[k].txHash.Some? ==> HasPaid(sys.payments, k, sys.rows[k].txHash.value))
  }

  // A worker that has not paid moves on, or one that has paid finishes.
  lemma MoveOrderly(wallet: Wallet, sys: System, w: nat, phase: Phase)
    requires Orderly(wallet, sys) && w in sys.workers
    requires phase.Finished? || (!sys.workers[w].phase.Applied? && !sys.workers[w].phase.Finished?)
    requires WorkerOk(sys.payments, w, sys.workers[w].(phase := phase))
    ensures Orderly(wallet, Moved(sys, w, phase))
  {
    var sys' := Moved(sys, w, phase);
    forall i | 0 <= i < |sys'.payments|
      ensures PaymentOk(wallet, sys'.ledger.log, sys'.workers, sys'.payments[i])
    {
      assert PaymentOk(wallet, sys.ledger.log, sys.workers, sys.payments[i]);
    }
  }

  // The table gains no hash without a payment.
  lemma RowsOrderly(wallet: Wallet, sys: System, rows: Rows)
    requires Orderly(wallet, sys)
    requires forall k :: k in rows && rows[k].txHash.Some? ==>
      (k in sys.rows && sys.rows[k] == rows[k]) || HasPaid(sys.payments, k, rows[k].txHash.value)
    ensures Orderly(wallet, sys.(rows := rows))
  {
  }

  lemma StartOrderly(wallet: Wallet, sys: System, w: nat, job: Job)
    requires Orderly(wallet, sys) && w !in sys.workers && job.phase.Cleared?
    ensures Orderly(wallet, sys.(workers := sys.workers[w := job]))
  {
    var sys' := sys.(workers := sys.workers[w := job]);
    forall i | 0 <= i < |sys'.payments|
      ensures PaymentOk(wallet, sys'.ledger.log, sys'.workers, sys'.payments[i])
    {
      assert PaymentOk(wallet, sys.ledger.log, sys.workers, sys.payments[i]);
    }
  }

  lemma LogOrderly(wallet: Wallet, sys: System, st: Ledger)
    requires Orderly(wallet, sys) && sys.ledger.log <= st.log
    ensures Orderly(wallet, sys.(ledger := st))
  {
    forall i | 0 <= i < |sys.payments|
      ensures PaymentOk(wallet, st.log, sys.workers, sys.payments[i])
    {
      assert PaymentOk(wallet, sys.ledger.log, sys.workers, sys.payments[i]);
    }
  }

  lemma PaidOrderly(wallet: Wallet, sys: System, w: nat, nonce: int64, entry: Entry)
    requires Orderly(wallet, sys) && w in sys.workers && sys.workers[w].phase.Looked?
    requires entry in sys.ledger.log
    requires entry.request == TransferRequest(wallet, sys.workers[w].toId, sys.workers[w].amount, nonce)
    requires forall i :: 0 <= i < |sys.payments| ==> sys.payments[i].entry.txHash != entry.txHash
    ensures Orderly(wallet, Moved(sys, w, Applied(entry)).(
      payments := sys.payments + [Payment(w, sys.workers[w].key, nonce, entry)]))
  {
    var p := Payment(w, sys.workers[w].key, nonce, entry);
    var sys' := Moved(sys, w, Applied(entry)).(payments := sys.payments + [p]);
    forall i | 0 <= i < |sys'.payments|
      ensures PaymentOk(wallet, sys'.ledger.log, sys'.workers, sys'.payments[i])
      ensures i < |sys.payments| ==> sys.payments[i].worker != w
    {
      assert i < |sys.payments| ==> PaymentOk(wallet, sys.ledger.log, sys.workers, sys.payments[i]);
    }
    forall key, h | HasPaid(sys.payments, key, h)
      ensures HasPaid(sys'.payments, key, h)
    {
      var i :| 0 <= i < |sys.payments| && sys.payments[i].key == key && sys.payments[i].entry.txHash == h;
      assert sys'.payments[i] == sys.payments[i];
    }
    assert sys'.payments[|sys.payments|] == p;
  }

  lemma SendOrderly(env: Env, wallet: Wallet, sys: System, w: nat)
    requires Inv(env, sys.ledger) && w in sys.workers && sys.workers[w].phase.Looked? && Orderly(wallet, sys)
    ensures Orderly(wallet, SendStep(env, wallet, sys, w)) && Inv(env, SendStep(env, wallet, sys, w).ledger)
  {
    var job := sys.workers[w];
    var r := TransferRequest(wallet, job.toId, job.amount, job.phase.nonce);
    match ApplyTo(env, true, sys.ledger, r)
    case Err(e) => MoveOrderly(wallet, sys, w, AfterRefusal(job.phase.attempt, e));
    case Ok(st) =>
      ApplyAppends(env, true, sys.ledger, r, false);
      ghost var entry := NewEntry(env, sys.ledger.log, r);
      assert st.log == sys.ledger.log + [entry] && !HasHash(sys.ledger.log, entry.txHash);
      LogOrderly(wallet, sys, st);
      forall i | 0 <= i < |sys.payments|
        ensures sys.payments[i].entry.txHash != entry.txHash
      {
        assert PaymentOk(wallet, sys.ledger.log, sys.workers, sys.payments[i]);
      }
      assert st.log[|sys.ledger.log|] == entry;
      PaidOrderly(wallet, sys.(ledger := st), w, job.phase.nonce, entry);
  }

  lemma TableStepOrderly(wallet: Wallet, sys: System, a: Action)
    requires Orderly(wallet, sys)
    ensures Orderly(wallet, TableStep(wallet, sys, a))
  {
    var sys' := TableStep(wallet, sys, a);
    match a
    case Tick(_) =>
    case Clear(w, k, toId, amount) =>
      if sys' != sys {
        RowsOrderly(wallet, sys, sys'.rows);
        StartOrderly(wallet, sys.(rows := sys'.rows), w, sys'.workers[w]);
      }
    case Write(_) =>
    case Send(_) =>
    case _ =>
      if sys' != sys {
        RowsOrderly(wallet, sys, sys'.rows);
        MoveOrderly(wallet, sys.(rows := sys'.rows), a.w, sys'.workers[a.w].phase);
        assert sys' == Moved(sys.(rows := sys'.rows), a.w, sys'.workers[a.w].phase);
      }
  }

  ghost predicate Good(env: Env, wallet: Wallet, sys: System) {
    Inv(env, sys.ledger) && Orderly(wallet, sys)
  }

  lemma StepGood(env: Env, wallet: Wallet, sys: System, a: Action)
    requires Good(env, wallet, sys)
    ensures Good(env, wallet, Step(env, wallet, sys, a))
  {
    match a
    case Write(step) =>
      LedgerRuns.NextGrows(env, true, sys.ledger, step);
      LogOrderly(wallet, sys, Step(env, wallet, sys, a).ledger);
    case Send(w) => if At(sys, w, (p: Phase) => p.Looked?) { SendOrderly(env, wallet, sys, w); }
    case _ => TableStepOrderly(wallet, sys, a);
  }

  // ---------- Runs ----------

  ghost function Run(env: Env, wallet: Wallet, sys: System, actions: seq<Action>): (sys': System)
    requires Good(env, wallet, sys)
    ensures Good(env, wallet, sys')
  {
    if actions == [] then sys else
    var before := Run(env, wallet, sys, actions[..|actions| - 1]);
    StepGood(env, wallet, before, actions[|actions| - 1]);
    Step(env, wallet, before, actions[|actions| - 1])
  }

  // What a run from the empty store reaches.
  ghost function Reached(env: Env, wallet: Wallet, actions: seq<Action>): System {
    EmptyInv(env);
    Run(env, wallet, INITIAL, actions)
  }

  ghost predicate RunAccounted(env: Env, wallet: Wallet, sys: System, actions: seq<Action>, key: Key)
    requires Good(env, wallet, sys)
  {
    Accounted(Run(env, wallet, sys, actions), key)
  }

  lemma {:induction false} RunAccounts(env: Env, wallet: Wallet, sys: System, actions: seq<Action>, key: Key)
    requires Good(env, wallet, sys) && Accounted(sys, key)
    ensures RunAccounted(env, wallet, sys, actions, key)
  {
    if actions != [] {
      var i := |actions| - 1;
      RunAccounts(env, wallet, sys, actions[..i], key);
      StepAccounts(env, wallet, Run(env, wallet, sys, actions[..i]), actions[i], key);
    }
  }

  // Over every interleaving of any number of workers: one event is paid at most once more
  // often than its reservation has expired. If it never expired and has been paid, the row
  // is there and nobody holds a reservation for it.
  lemma PaidAtMostOnce(env: Env, wallet: Wallet, actions: seq<Action>, key: Key)
    ensures var sys := Reached(env, wallet, actions);
      && PaidFor(sys.payments, key) <= 1 + Expiries(sys.expired, key)
      && (Expiries(sys.expired, key) == 0 && PaidFor(sys.payments, key) == 1 ==>
          key in sys.rows && Holders(sys.workers, key) == {})
  {
    EmptyInv(env);
    assert Holders(map[], key) == {};
    RunAccounts(env, wallet, INITIAL, actions, key);
  }

  function PaidBy(payments: seq<Payment>, w: nat): nat {
    if payments == [] then 0 else PaidBy(payments[..|payments| - 1], w) + One(payments[|payments| - 1].worker == w)
  }

  lemma {:induction false} PaidByOnce(payments: seq<Payment>, w: nat)
    requires Apart(payments)
    ensures PaidBy(payments, w) <= 1
    ensures PaidBy(payments, w) == 1 ==> exists i :: 0 <= i < |payments| && payments[i].worker == w
  {
    if payments != [] {
      PaidByOnce(payments[..|payments| - 1], w);
    }
  }

  // A worker, whatever it meets in its at most eight attempts, commits at most one transfer;
  // that transfer is in the log and pays the job's amount to the job's payee. A completed
  // row carries the hash of such a transfer, and no two payments are the same log entry.
  lemma WorkerPaysOnce(env: Env, wallet: Wallet, actions: seq<Action>, w: nat)
    ensures var sys := Reached(env, wallet, actions);
      && PaidBy(sys.payments, w) <= 1
      && (w in sys.workers && sys.workers[w].phase.Reserved? ==> sys.workers[w].phase.attempt < MAX_ATTEMPTS)
      && Apart(sys.payments)
      && (forall i :: 0 <= i < |sys.payments| ==> PaymentOk(wallet, sys.ledger.log, sys.workers, sys.payments[i]))
      && (forall k :: k in sys.rows && sys.rows[k].txHash.Some? ==> HasPaid(sys.payments, k, sys.rows[k].txHash.value))
  {
    var sys := Reached(env, wallet, actions);
    PaidByOnce(sys.payments, w);
    assert w in sys.workers ==> WorkerOk(sys.payments, w, sys.workers[w]);
  }

  // ---------- A completed row is final ----------

  ghost predicate RowKept(sys: System, sys': System, key: Key) {
    key in sys.rows && sys.rows[key].txHash.Some? ==> key in sys'.rows && sys'.rows[key] == sys.rows[key]
  }

  lemma StepKeepsRow(env: Env, wallet: Wallet, sys: System, a: Action, key: Key)
    requires Inv(env, sys.ledger)
    ensures RowKept(sys, Step(env, wallet, sys, a), key)
  {
  }

  // Whatever runs on, a completed row neither changes its hash or time nor disappears.
  lemma {:induction false} CompletedIsFinal(env: Env, wallet: Wallet, sys: System, actions: seq<Action>, key: Key)
    requires Good(env, wallet, sys)
    ensures RowKept(sys, Run(env, wallet, sys, actions), key)
  {
    if actions != [] {
      var i := |actions| - 1;
      CompletedIsFinal(env, wallet, sys, actions[..i], key);
      StepKeepsRow(env, wallet, Run(env, wallet, sys, actions[..i]), actions[i], key);
    }
  }

  // ---------- The bound is met ----------

  lemma RunSnoc(env: Env, wallet: Wallet, sys: System, actions: seq<Action>, a: Action)
    requires Good(env, wallet, sys)
    ensures Run(env, wallet, sys, actions + [a]) == Step(env, wallet, Run(env, wallet, sys, actions), a)
  {
    assert (actions + [a])[..|actions|] == actions;
  }

  // A lookup now finds the admin account with enough points, and this next nonce.
  predicate Offered(wallet: Wallet, st: Ledger, amount: int64, nonce: int64) {
    var admin := AccountByPubKey(st, wallet.pub);
    admin.Some? && amount <= admin.value.balance && nonce == Wrap64(admin.value.nonce + 1)
  }

  ghost predicate Accepted(env: Env, st: Ledger, r: Request, st': Ledger) {
    Sound(st) && ApplyTo(env, true, st, r) == Ok(st')
  }

  // What looking up and sending does for a worker that holds a reservation.
  ghost predicate PaysOnce(sys: System, sys': System, w: nat, st': Ledger) {
    && sys'.ledger == st' && sys'.rows == sys.rows && sys'.expired == sys.expired
    && w in sys'.workers && sys'.workers == sys.workers[w := sys'.workers[w]]
    && w in sys.workers && PaidFor(sys'.payments, sys.workers[w].key) == PaidFor(sys.payments, sys.workers[w].key) + 1
  }

  lemma SendPays(env: Env, wallet: Wallet, sys: System, w: nat, job: Job, st': Ledger)
    requires Inv(env, sys.ledger) && w in sys.workers && sys.workers[w] == job && job.phase.Looked?
    ensures Accepted(env, sys.ledger, TransferRequest(wallet, job.toId, job.amount, job.phase.nonce), st') ==>
      PaysOnce(sys, Step(env, wallet, sys, Send(w)), w, st')
  {
    if Accepted(env, sys.ledger, TransferRequest(wallet, job.toId, job.amount, job.phase.nonce), st') {
      var sys' := SendStep(env, wallet, sys, w);
      PaidSnoc(sys.payments, sys'.payments[|sys.payments|], job.key);
    }
  }

  lemma RunPair(env: Env, wallet: Wallet, sys: System, a: Action, b: Action)
    requires Good(env, wallet, sys)
    ensures Good(env, wallet, Step(env, wallet, sys, a))
    ensures Run(env, wallet, sys, [a, b]) == Step(env, wallet, Step(env, wallet, sys, a), b)
  {
    StepGood(env, wallet, sys, a);
    assert [a, b][..1] == [a] && [a][..0] == [];
    assert Run(env, wallet, sys, [a]) == Step(env, wallet, Run(env, wallet, sys, []), a);
  }

  lemma PaysOnceFromLooked(sys: System, looked: System, sys': System, w: nat, phase: Phase, st': Ledger)
    requires w in sys.workers && looked == Moved(sys, w, phase)
    ensures PaysOnce(looked, sys', w, st') ==> PaysOnce(sys, sys', w, st')
  {
  }

  lemma LookupLooks(env: Env, wallet: Wallet, sys: System, w: nat, job: Job, nonce: int64)
    requires Inv(env, sys.ledger) && w in sys.workers && sys.workers[w] == job && job.phase.Reserved?
    requires Offered(wallet, sys.ledger, job.amount, nonce)
    ensures Step(env, wallet, sys, Lookup(w)) == Moved(sys, w, Looked(job.phase.attempt, nonce))
  {
  }

  lemma LookedPays(env: Env, wallet: Wallet, sys: System, looked: System, w: nat, job: Job, nonce: int64, st': Ledger)
    requires Inv(env, sys.ledger) && w in sys.workers && sys.workers[w] == job && job.phase.Reserved?
    requires looked == Moved(sys, w, Looked(job.phase.attempt, nonce))
    ensures Accepted(env, sys.ledger, TransferRequest(wallet, job.toId, job.amount, nonce), st') ==>
      PaysOnce(sys, Step(env, wallet, looked, Send(w)), w, st')
  {
    SendPays(env, wallet, looked, w, job.(phase := Looked(job.phase.attempt, nonce)), st');
    PaysOnceFromLooked(sys, looked, Step(env, wallet, looked, Send(w)), w, Looked(job.phase.attempt, nonce), st');
  }

  lemma LookupThenSend(env: Env, wallet: Wallet, sys: System, w: nat, job: Job, nonce: int64, st': Ledger)
    requires Good(env, wallet, sys) && w in sys.workers && sys.workers[w] == job && job.phase.Reserved?
    requires Offered(wallet, sys.ledger, job.amount, nonce)
    ensures Accepted(env, sys.ledger, TransferRequest(wallet, job.toId, job.amount, nonce), st') ==>
      PaysOnce(sys, Run(env, wallet, sys, [Lookup(w), Send(w)]), w, st')
  {
    LookupLooks(env, wallet, sys, w, job, nonce);
    RunPair(env, wallet, sys, Lookup(w), Send(w));
    LookedPays(env, wallet, sys, Step(env, wallet, sys, Lookup(w)), w, job, nonce, st');
  }

  ghost predicate RunsOn(env: Env, wallet: Wallet, sys: System, first: seq<Action>, then_: seq<Action>)
    requires Good(env, wallet, sys)
  {
    Run(env, wallet, sys, first + then_) == Run(env, wallet, Run(env, wallet, sys, first), then_)
  }

  lemma AppendSnoc<T>(a: seq<T>, b: seq<T>)
    requires b != []
    ensures var i := |b| - 1; a + b == (a + b[..i]) + [b[i]] && b == b[..i] + [b[i]]
  {
  }

  lemma {:induction false} RunAppend(env: Env, wallet: Wallet, sys: System, first: seq<Action>, then_: seq<Action>)
    requires Good(env, wallet, sys)
    ensures RunsOn(env, wallet, sys, first, then_)
  {
    if then_ == [] {
      assert first + then_ == first;
    } else {
      var i := |then_| - 1;
      RunAppend(env, wallet, sys, first, then_[..i]);
      RunSnoc(env, wallet, sys, first + then_[..i], then_[i]);
      RunSnoc(env, wallet, Run(env, wallet, sys, first), then_[..i], then_[i]);
      AppendSnoc(first, then_);
    }
  }

  function Reservation(w: nat, key: Key, toId: int64, amount: int64): seq<Action> {
    [Clear(w, key, toId, amount), Insert(w)]
  }

  function WithReservation(sys: System, w: nat, key: Key, toId: int64, amount: int64): System {
    sys.(workers := sys.workers[w := Job(key, toId, amount, Reserved(0))],
         rows := sys.rows[key := Row(None, sys.now)],
         expired := if key in sys.rows then sys.expired + [key] else sys.expired)
  }

  lemma ClearThenInsert(wallet: Wallet, sys: System, w: nat, key: Key, toId: int64, amount: int64)
    requires w !in sys.workers && toId > TREASURY && amount > 0
    requires key !in sys.rows || Expired(sys.rows, key, sys.now)
    ensures TableStep(wallet, TableStep(wallet, sys, Clear(w, key, toId, amount)), Insert(w))
      == WithReservation(sys, w, key, toId, amount)
  {
    assert Expire(sys.rows, key, sys.now)[key := Row(None, sys.now)] == sys.rows[key := Row(None, sys.now)];
  }

  lemma ReservesNow(env: Env, wallet: Wallet, sys: System, w: nat, key: Key, toId: int64, amount: int64)
    requires Good(env, wallet, sys) && w !in sys.workers && toId > TREASURY && amount > 0
    requires key !in sys.rows || Expired(sys.rows, key, sys.now)
    ensures Run(env, wallet, sys, Reservation(w, key, toId, amount)) == WithReservation(sys, w, key, toId, amount)
  {
    ClearThenInsert(wallet, sys, w, key, toId, amount);
    RunPair(env, wallet, sys, Clear(w, key, toId, amount), Insert(w));
  }

  // Worker a reserves and stalls until its reservation has lapsed; then b reserves.
  function LapsedReservations(a: nat, b: nat, key: Key, toId: int64, amount: int64): seq<Action> {
    Reservation(a, key, toId, amount) + [Tick(RESERVATION_MS + 1)] + Reservation(b, key, toId, amount)
  }

  lemma BothReserve(env: Env, wallet: Wallet, sys: System, a: nat, b: nat, key: Key, toId: int64, amount: int64)
    requires Good(env, wallet, sys) && a !in sys.workers && b !in sys.workers && a != b
    requires key !in sys.rows && toId > TREASURY && amount > 0
    ensures var held := Run(env, wallet, sys, LapsedReservations(a, b, key, toId, amount));
      && held.ledger == sys.ledger && held.payments == sys.payments && held.expired == sys.expired + [key]
      && a in held.workers && held.workers[a] == Job(key, toId, amount, Reserved(0))
      && b in held.workers && held.workers[b] == Job(key, toId, amount, Reserved(0))
  {
    var first := Reservation(a, key, toId, amount);
    ReservesNow(env, wallet, sys, a, key, toId, amount);
    RunSnoc(env, wallet, sys, first, Tick(RESERVATION_MS + 1));
    var late := Run(env, wallet, sys, first + [Tick(RESERVATION_MS + 1)]);
    ReservesNow(env, wallet, late, b, key, toId, amount);
    RunAppend(env, wallet, sys, first + [Tick(RESERVATION_MS + 1)], Reservation(b, key, toId, amount));
  }

  lemma PaysNext(env: Env, wallet: Wallet, sys: System, actions: seq<Action>, w: nat, job: Job, nonce: int64,
                 st': Ledger)
    requires Good(env, wallet, sys)
    requires var held := Run(env, wallet, sys, actions);
      && w in held.workers && held.workers[w] == job && job.phase.Reserved?
      && Offered(wallet, held.ledger, job.amount, nonce)
    ensures var held := Run(env, wallet, sys, actions);
      Accepted(env, held.ledger, TransferRequest(wallet, job.toId, job.amount, nonce), st') ==>
      PaysOnce(held, Run(env, wallet, sys, actions + [Lookup(w), Send(w)]), w, st')
  {
    LookupThenSend(env, wallet, Run(env, wallet, sys, actions), w, job, nonce, st');
    RunAppend(env, wallet, sys, actions, [Lookup(w), Send(w)]);
  }

  ghost predicate PaidTwice(sys: System, sys': System, key: Key) {
    sys'.expired == sys.expired && PaidFor(sys'.payments, key) == PaidFor(sys.payments, key) + 2
  }

  lemma PaysInTurn(env: Env, wallet: Wallet, sys: System, actions: seq<Action>, a: nat, b: nat, job: Job,
                   n1: int64, st1: Ledger, n2: int64, st2: Ledger)
    requires Good(env, wallet, sys) && a != b && job.phase.Reserved?
    requires var held := Run(env, wallet, sys, actions);
      && a in held.workers && b in held.workers && held.workers[a] == job == held.workers[b]
      && Offered(wallet, held.ledger, job.amount, n1) && Offered(wallet, st1, job.amount, n2)
    ensures var held := Run(env, wallet, sys, actions);
      && Accepted(env, held.ledger, TransferRequest(wallet, job.toId, job.amount, n1), st1)
      && Accepted(env, st1, TransferRequest(wallet, job.toId, job.amount, n2), st2) ==>
        PaidTwice(held, Run(env, wallet, sys, actions + [Lookup(a), Send(a)] + [Lookup(b), Send(b)]), job.key)
  {
    PaysNext(env, wallet, sys, actions, a, job, n1, st1);
    if PaysOnce(Run(env, wallet, sys, actions), Run(env, wallet, sys, actions + [Lookup(a), Send(a)]), a, st1) {
      PaysNext(env, wallet, sys, actions + [Lookup(a), Send(a)], b, job, n2, st2);
    }
  }

  // The bound of PaidAtMostOnce is met: one expiry lets one event be paid twice, whenever the
  // ledger would accept the two transfers in succession.
  lemma ExpiryPaysTwice(env: Env, wallet: Wallet, sys: System, a: nat, b: nat, key: Key, toId: int64, amount: int64,
                        n1: int64, st1: Ledger, n2: int64, st2: Ledger)
    requires Good(env, wallet, sys) && a !in sys.workers && b !in sys.workers && a != b
    requires key !in sys.rows && toId > TREASURY && amount > 0
    requires Offered(wallet, sys.ledger, amount, n1) && Offered(wallet, st1, amount, n2)
    ensures
      && Accepted(env, sys.ledger, TransferRequest(wallet, toId, amount, n1), st1)
      && Accepted(env, st1, TransferRequest(wallet, toId, amount, n2), st2) ==>
        var lapsed := LapsedReservations(a, b, key, toId, amount);
        var sys' := Run(env, wallet, sys, lapsed + [Lookup(a), Send(a)] + [Lookup(b), Send(b)]);
        && PaidFor(sys'.payments, key) == PaidFor(sys.payments, key) + 2
        && Expiries(sys'.expired, key) == Expiries(sys.expired, key) + 1
  {
    BothReserve(env, wallet, sys, a, b, key, toId, amount);
    ExpiriesSnoc(sys.expired, key, key);
    var (lapsed, job) := (LapsedReservations(a, b, key, toId, amount), Job(key, toId, amount, Reserved(0)));
    PaysInTurn(env, wallet, sys, lapsed, a, b, job, n1, st1, n2, st2);
  }
}
