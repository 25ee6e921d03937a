/**
  Paying one reward as the service runs it on the in-memory store. `others` is what other
  writers submit between an attempt's nonce lookup and its Apply, one list per attempt.
 */
module PayReward {
  import opened Wrappers
  import opened ByteStrings
  import opened Tx
  import opened LedgerState
  import opened LedgerLaws
  import LedgerRuns
  import LedgerAcceptance
  import opened MemStores
  import opened RewardTable
  import R = Rewards

  datatype Failure = NoAdmin | Underfunded | Refused(error: Error)

  datatype PaymentResult = Skipped | Paid(tx: Transaction) | Failed(failure: Failure)

  // ---------- What a payout comes to, as a function of the ledger ----------

  // What one or more attempts lead to: the entry logged or the failure, and the ledger.
  datatype Outcome = Outcome(result: Result<Entry, Failure>, st: Ledger)

  function Submits(requests: seq<Request>): (steps: seq<LedgerRuns.Step>)
    ensures |steps| == |requests|
    ensures forall i :: 0 <= i < |requests| ==> steps[i] == LedgerRuns.Submit(requests[i])
  {
    seq(|requests|, i requires 0 <= i < |requests| => LedgerRuns.Submit(requests[i]))
  }

  // The ledger after others have submitted their requests.
  ghost function Meanwhile(env: Env, st: Ledger, others: seq<Request>): (st': Ledger)
    requires Inv(env, st)
    ensures Inv(env, st')
  {
    LedgerRuns.Run(env, false, st, Submits(others))
  }

  ghost function Sent(env: Env, st: Ledger, r: Request): (o: Outcome)
    requires Inv(env, st)
    ensures Inv(env, o.st)
  {
    ApplyKeepsInv(env, st, r);
    match ApplyTo(env, false, st, r)
    case Ok(st') => Outcome(Ok(NewEntry(env, st.log, r)), st')
    case Err(e) => Outcome(Err(Refused(e)), st)
  }

  // The nonce that the admin account calls for before others have moved on.
  function Lookup(wallet: R.Wallet, st: Ledger, amount: int64): Result<int64, Failure> {
    match AccountByPubKey(st, wallet.pub)
    case None => Err(NoAdmin)
    case Some(admin) => if admin.balance < amount then Err(Underfunded) else Ok(Wrap64(admin.nonce + 1))
  }

  ghost function Attempt(env: Env, wallet: R.Wallet, st: Ledger, toId: int64, amount: int64, others: seq<Request>)
    : (o: Outcome)
    requires Inv(env, st)
    ensures Inv(env, o.st)
  {
    match Lookup(wallet, st, amount)
    case Err(f) => Outcome(Err(f), st)
    case Ok(nonce) => Sent(env, Meanwhile(env, st, others), R.TransferRequest(wallet, toId, amount, nonce))
  }

  const STALE: Result<Entry, Failure> := Err(Refused(BadNonce))

  // From attempt k on: repeated while the answer is a stale nonce and attempts are left.
  ghost function Attempts(env: Env, wallet: R.Wallet, st: Ledger, toId: int64, amount: int64,
                          others: seq<seq<Request>>, k: nat): (r: (Outcome, nat))
    requires Inv(env, st) && k <= |others|
    ensures Inv(env, r.0.st) && k <= r.1 <= |others|
    ensures r.0.result == STALE ==> r.1 == |others|
    decreases |others| - k
  {
    if k == |others| then (Outcome(STALE, st), k) else
    var o := Attempt(env, wallet, st, toId, amount, others[k]);
    if o.result == STALE then Attempts(env, wallet, o.st, toId, amount, others, k + 1) else (o, k + 1)
  }

  lemma ApplyKeepsInv(env: Env, st: Ledger, r: Request)
    requires Inv(env, st)
    ensures var e := ApplyTo(env, false, st, r); e.Ok? ==> Inv(env, e.value)
  {
    ApplyAppends(env, false, st, r, RequiresFullSupplyCheck(r.txType));
  }

  // An attempt succeeds exactly when the account is found with enough points and the ledger,
  // as others have left it, accepts the transfer with the nonce that was looked up.
  lemma AttemptSucceeds(env: Env, wallet: R.Wallet, st: Ledger, toId: int64, amount: int64, others: seq<Request>)
    requires Inv(env, st)
    ensures Attempt(env, wallet, st, toId, amount, others).result.Ok? <==>
      exists nonce :: R.Offered(wallet, st, amount, nonce)
        && ApplyTo(env, false, Meanwhile(env, st, others), R.TransferRequest(wallet, toId, amount, nonce)).Ok?
  {
    var next := Lookup(wallet, st, amount);
    assert next.Ok? ==> R.Offered(wallet, st, amount, next.value);
  }

  lemma UndisturbedAttempt(env: Env, wallet: R.Wallet, st: Ledger, toId: int64, amount: int64, nonce: int64)
    requires Inv(env, st) && R.Offered(wallet, st, amount, nonce)
    ensures Attempt(env, wallet, st, toId, amount, []) == Sent(env, st, R.TransferRequest(wallet, toId, amount, nonce))
  {
    assert Submits([]) == [];
    assert Lookup(wallet, st, amount) == Ok(nonce);
  }

  // A payment that the ledger accepts and nobody disturbs succeeds at the first attempt.
  lemma UndisturbedSucceeds(env: Env, wallet: R.Wallet, st: Ledger, toId: int64, amount: int64,
                            others: seq<seq<Request>>, nonce: int64)
    requires Inv(env, st) && |others| > 0 && others[0] == [] && R.Offered(wallet, st, amount, nonce)
    ensures var sent := Sent(env, st, R.TransferRequest(wallet, toId, amount, nonce));
      sent.result.Ok? ==> Attempts(env, wallet, st, toId, amount, others, 0) == (sent, 1)
  {
    UndisturbedAttempt(env, wallet, st, toId, amount, nonce);
  }

  // The nonce just looked up is not refused as stale.
  lemma FreshNonce(env: Env, wallet: R.Wallet, st: Ledger, toId: int64, amount: int64, nonce: int64)
    requires Inv(env, st) && R.Canonical(env, wallet) && R.Offered(wallet, st, amount, nonce)
    ensures ApplyTo(env, false, st, R.TransferRequest(wallet, toId, amount, nonce)) != Err(BadNonce)
  {
    var r := R.TransferRequest(wallet, toId, amount, nonce);
    var p := TransferPayload(wallet.pub, toId, amount, nonce);
    assert env.transferOf(wallet.encode(p)) == Some(p) && r.payload == wallet.encode(p);
    assert TransferEffect(env, false, st, r) != Err(BadNonce);
  }

  // The amount has gone from the admin's account to the payee's, and nothing else has moved.
  ghost predicate Transferred(wallet: R.Wallet, st: Ledger, st': Ledger, toId: int64, amount: int64) {
    var admin := AccountByPubKey(st, wallet.pub);
    && admin.Some? && admin.value.id != toId
    && LedgerAcceptance.MovesPoints(st, st', admin.value.id, toId, amount)
    && Balance(st', toId) == Balance(st, toId) + amount
    && Balance(st', admin.value.id) == Balance(st, admin.value.id) - amount
  }

  lemma SentMoves(env: Env, wallet: R.Wallet, st: Ledger, toId: int64, amount: int64, nonce: int64)
    requires Inv(env, st) && R.Canonical(env, wallet) && R.Offered(wallet, st, amount, nonce)
    ensures var o := Sent(env, st, R.TransferRequest(wallet, toId, amount, nonce));
      o.result.Ok? ==> Transferred(wallet, st, o.st, toId, amount)
  {
    var r := R.TransferRequest(wallet, toId, amount, nonce);
    var p := TransferPayload(wallet.pub, toId, amount, nonce);
    assert env.transferOf(wallet.encode(p)) == Some(p) && r.payload == wallet.encode(p);
    if ApplyTo(env, false, st, r).Ok? {
      LedgerAcceptance.TransferMoves(env, false, st, r);
      assert TransferEffect(env, false, st, r).Ok?;
    }
  }

  // An undisturbed payment that is made moves the amount from the admin to the payee.
  lemma UndisturbedMoves(env: Env, wallet: R.Wallet, st: Ledger, toId: int64, amount: int64, others: seq<seq<Request>>)
    requires Inv(env, st) && R.Canonical(env, wallet) && |others| > 0 && others[0] == []
    ensures var (o, attempts) := Attempts(env, wallet, st, toId, amount, others, 0);
      o.result.Ok? ==> attempts == 1 && Transferred(wallet, st, o.st, toId, amount)
  {
    var next := Lookup(wallet, st, amount);
    if next.Ok? {
      UndisturbedAttempt(env, wallet, st, toId, amount, next.value);
      FreshNonce(env, wallet, st, toId, amount, next.value);
      SentMoves(env, wallet, st, toId, amount, next.value);
    }
  }

  lemma MeanwhileSnoc(env: Env, st: Ledger, others: seq<Request>, r: Request)
    requires Inv(env, st)
    ensures Meanwhile(env, st, others + [r]) == Sent(env, Meanwhile(env, st, others), r).st
  {
    LedgerRuns.RunSnoc(env, false, st, Submits(others), LedgerRuns.Submit(r));
    assert Submits(others + [r]) == Submits(others) + [LedgerRuns.Submit(r)];
  }

  lemma SentLogs(env: Env, st: Ledger, r: Request)
    requires Inv(env, st)
    ensures var o := Sent(env, st, r);
      |o.st.log| == |st.log| + (if o.result.Ok? then 1 else 0) && (o.result.Err? ==> o.st == st)
  {
    ApplyAppends(env, false, st, r, RequiresFullSupplyCheck(r.txType));
  }

  // Others change the ledger by committing entries, or not at all.
  lemma {:induction false} MeanwhileLogs(env: Env, st: Ledger, others: seq<Request>)
    requires Inv(env, st)
    ensures |Meanwhile(env, st, others).log| > |st.log| || Meanwhile(env, st, others) == st
  {
    if others == [] {
      assert Submits(others) == [];
    } else {
      var (init, last) := (others[..|others| - 1], others[|others| - 1]);
      assert others == init + [last];
      MeanwhileLogs(env, st, init);
      MeanwhileSnoc(env, st, init, last);
      SentLogs(env, Meanwhile(env, st, init), last);
    }
  }

  // So a stale nonce means that others committed something during the attempt.
  lemma AttemptDisturbed(env: Env, wallet: R.Wallet, st: Ledger, toId: int64, amount: int64, others: seq<Request>)
    requires Inv(env, st) && R.Canonical(env, wallet)
    requires Attempt(env, wallet, st, toId, amount, others).result == STALE
    ensures |Meanwhile(env, st, others).log| > |st.log|
  {
    MeanwhileLogs(env, st, others);
    var next := Lookup(wallet, st, amount);
    if next.Ok? && Meanwhile(env, st, others) == st {
      FreshNonce(env, wallet, st, toId, amount, next.value);
    }
  }

  // From attempt k on, others commit something during every attempt.
  ghost predicate AllDisturbed(env: Env, wallet: R.Wallet, st: Ledger, toId: int64, amount: int64,
                               others: seq<seq<Request>>, k: nat)
    requires Inv(env, st) && k <= |others|
    decreases |others| - k
  {
    k < |others| ==>
      && |Meanwhile(env, st, others[k]).log| > |st.log|
      && AllDisturbed(env, wallet, Attempt(env, wallet, st, toId, amount, others[k]).st, toId, amount, others, k + 1)
  }

  ghost predicate StaleOnlyIfDisturbed(env: Env, wallet: R.Wallet, st: Ledger, toId: int64, amount: int64,
                                       others: seq<seq<Request>>, k: nat)
    requires Inv(env, st) && k <= |others|
  {
    var (o, attempts) := Attempts(env, wallet, st, toId, amount, others, k);
    o.result == STALE ==> attempts == |others| && AllDisturbed(env, wallet, st, toId, amount, others, k)
  }

  // Ending in a stale nonce means that every attempt was used, and disturbed by a commit.
  lemma {:induction false} StaleIsDisturbed(env: Env, wallet: R.Wallet, st: Ledger, toId: int64, amount: int64,
                                            others: seq<seq<Request>>, k: nat)
    requires Inv(env, st) && R.Canonical(env, wallet) && k <= |others|
    ensures StaleOnlyIfDisturbed(env, wallet, st, toId, amount, others, k)
    decreases |others| - k
  {
    if k < |others| {
      var o := Attempt(env, wallet, st, toId, amount, others[k]);
      if o.result == STALE {
        AttemptDisturbed(env, wallet, st, toId, amount, others[k]);
        StaleIsDisturbed(env, wallet, o.st, toId, amount, others, k + 1);
      }
    }
  }

  // ---------- The imperative service ----------

  // Others submit their requests; how many were committed.
  method Interleave(env: Env, s: MemStore, requests: seq<Request>) returns (committed: nat)
    requires Inv(env, s.View())
    modifies s
    ensures s.View() == Meanwhile(env, old(s.View()), requests)
    ensures old(s.txs) <= s.txs && |s.txs| == |old(s.txs)| + committed
  {
    committed := 0;
    ghost var st := s.View();
    assert Submits(requests[..0]) == [];
    for i := 0 to |requests|
      invariant s.View() == Meanwhile(env, st, requests[..i])
      invariant old(s.txs) <= s.txs && |s.txs| == |old(s.txs)| + committed
    {
      ghost var mid := s.View();
      var tx := new Transaction(requests[i]);
      assert s.View() == mid;
      assert requests[..i + 1] == requests[..i] + [requests[i]];
      MeanwhileSnoc(env, st, requests[..i], requests[i]);
      var r := Apply(env, s, tx);
      if r.Ok? {
        committed := committed + 1;
      }
    }
    assert requests[..|requests|] == requests;
  }

  // The store and the answer are those of the specified outcome.
  ghost predicate Reports(o: Outcome, r: Result<Transaction, Failure>, after: Ledger)
    reads if r.Ok? then {r.value} else {}
  {
    after == o.st &&
    match r
    case Ok(tx) => o.result == Ok(tx.Value())
    case Err(f) => o.result == Err(f)
  }

  // The log gained what others committed and, exactly if r is a transaction, that one last.
  predicate Gained(before: seq<Transaction>, after: seq<Transaction>, foreign: nat, r: Option<Transaction>) {
    && before <= after
    && |after| == |before| + foreign + (if r.Some? then 1 else 0)
    && (r.Some? ==> after[|after| - 1] == r.value)
  }

  function Committed(r: Result<Transaction, Failure>): Option<Transaction> {
    if r.Ok? then Some(r.value) else None
  }

  predicate SentAs(wallet: R.Wallet, toId: int64, amount: int64, nonce: int64, tx: Transaction) {
    tx.request == R.TransferRequest(wallet, toId, amount, nonce)
  }

  // The admin's next nonce, if it can afford the amount; the transaction is rolled back.
  method NextNonce(wallet: R.Wallet, s: MemStore, amount: int64) returns (r: Result<int64, Failure>)
    ensures r == Lookup(wallet, s.View(), amount)
    ensures match r
      case Ok(nonce) => R.Offered(wallet, s.View(), amount, nonce)
      case Err(_) => forall nonce :: !R.Offered(wallet, s.View(), amount, nonce)
  {
    var t := s.Begin();
    assert t.View() == s.View();
    var admin := t.GetAccountByPubKey(wallet.pub);
    if admin.None? {
      return Err(NoAdmin);
    }
    if admin.value.balance < amount {
      return Err(Underfunded);
    }
    r := Ok(Wrap64(admin.value.nonce + 1));
  }

  // One attempt: lookup, whatever others do meanwhile, and Apply.
  method SignAndApplyTransferOnce(env: Env, wallet: R.Wallet, s: MemStore, toId: int64, amount: int64,
                                  others: seq<Request>)
    returns (r: Result<Transaction, Failure>, nonce: int64, foreign: nat)
    requires Inv(env, s.View())
    modifies s
    ensures Reports(Attempt(env, wallet, old(s.View()), toId, amount, others), r, s.View())
    ensures Gained(old(s.txs), s.txs, foreign, Committed(r))
    ensures r.Ok? ==> fresh(r.value) && SentAs(wallet, toId, amount, nonce, r.value)
  {
    foreign, nonce := 0, 0;
    var next := NextNonce(wallet, s, amount);
    if next.Err? {
      r := Err(next.error);
      return;
    }
    nonce := next.value;
    foreign := Interleave(env, s, others);
    ghost var mid := s.View();
    var tx := new Transaction(R.TransferRequest(wallet, toId, amount, nonce));
    assert s.View() == mid;
    var applied := Apply(env, s, tx);
    r := if applied.Ok? then Ok(tx) else Err(Refused(applied.error));
    assert Reports(Sent(env, mid, tx.request), r, s.View());
  }

  // The outcome of all attempts is that of the attempts from k on, made from this ledger.
  ghost predicate Continues(env: Env, wallet: R.Wallet, st: Ledger, toId: int64, amount: int64,
                            others: seq<seq<Request>>,
                            whole: (Outcome, nat), k: nat) {
    Inv(env, st) && k <= |others| && whole == Attempts(env, wallet, st, toId, amount, others, k)
  }

  lemma AttemptContinues(env: Env, wallet: R.Wallet, st: Ledger, toId: int64, amount: int64, others: seq<seq<Request>>,
                         whole: (Outcome, nat), k: nat, o: Outcome)
    requires Continues(env, wallet, st, toId, amount, others, whole, k) && k < |others|
    requires o == Attempt(env, wallet, st, toId, amount, others[k])
    ensures if o.result == STALE then Continues(env, wallet, o.st, toId, amount, others, whole, k + 1)
            else whole == (o, k + 1)
  {
  }

  // Where attempt k leaves the whole: to be continued after a stale nonce, or over.
  ghost predicate Advanced(env: Env, wallet: R.Wallet, st: Ledger, toId: int64, amount: int64,
                           others: seq<seq<Request>>,
                           whole: (Outcome, nat), k: nat, r: Result<Transaction, Failure>)
    reads if r.Ok? then {r.value} else {}
  {
    if r == Err(Refused(BadNonce)) then Continues(env, wallet, st, toId, amount, others, whole, k)
    else Reports(whole.0, r, st) && k == whole.1
  }

  // One turn of the loop.
  method RetryOnce(env: Env, wallet: R.Wallet, s: MemStore, toId: int64, amount: int64, others: seq<seq<Request>>,
                   k: nat, ghost whole: (Outcome, nat))
    returns (r: Result<Transaction, Failure>, nonce: int64, foreign: nat)
    requires k < |others| && Continues(env, wallet, s.View(), toId, amount, others, whole, k)
    modifies s
    ensures Advanced(env, wallet, s.View(), toId, amount, others, whole, k + 1, r)
    ensures Gained(old(s.txs), s.txs, foreign, Committed(r))
    ensures r.Ok? ==> fresh(r.value) && SentAs(wallet, toId, amount, nonce, r.value)
  {
    ghost var st := s.View();
    ghost var o := Attempt(env, wallet, st, toId, amount, others[k]);
    AttemptContinues(env, wallet, st, toId, amount, others, whole, k, o);
    r, nonce, foreign := SignAndApplyTransferOnce(env, wallet, s, toId, amount, others[k]);
  }

  // The loop under the signing lock.
  method Retry(env: Env, wallet: R.Wallet, s: MemStore, toId: int64, amount: int64, others: seq<seq<Request>>)
    returns (r: Result<Transaction, Failure>, nonce: int64, attempts: nat, foreign: nat)
    requires Inv(env, s.View()) && |others| == R.MAX_ATTEMPTS
    modifies s
    ensures Reports(Attempts(env, wallet, old(s.View()), toId, amount, others, 0).0, r, s.View())
    ensures attempts == Attempts(env, wallet, old(s.View()), toId, amount, others, 0).1
    ensures Gained(old(s.txs), s.txs, foreign, Committed(r))
    ensures r.Ok? ==> fresh(r.value) && SentAs(wallet, toId, amount, nonce, r.value)
  {
    r, nonce, attempts, foreign := Err(Refused(BadNonce)), 0, 0, 0;
    ghost var whole := Attempts(env, wallet, s.View(), toId, amount, others, 0);
    ghost var st := s.View();
    while attempts < R.MAX_ATTEMPTS
      invariant attempts <= R.MAX_ATTEMPTS && r == Err(Refused(BadNonce)) && s.View() == st
      invariant Continues(env, wallet, st, toId, amount, others, whole, attempts)
      invariant Gained(old(s.txs), s.txs, foreign, None)
    {
      var more: nat;
      r, nonce, more := RetryOnce(env, wallet, s, toId, amount, others, attempts, whole);
      foreign, attempts, st := foreign + more, attempts + 1, s.View();
      if r != Err(Refused(BadNonce)) {
        return;
      }
    }
  }

  // At most eight attempts, repeated only after a stale nonce. Whatever others do meanwhile,
  // the log gains exactly one transfer of ours if a transaction is returned, none otherwise.
  method SignAndApplyTransfer(env: Env, wallet: R.Wallet, s: MemStore, toId: int64, amount: int64,
                              others: seq<seq<Request>>)
    returns (r: Result<Transaction, Failure>, nonce: int64, attempts: nat, foreign: nat)
    requires Inv(env, s.View()) && |others| == R.MAX_ATTEMPTS
    modifies s
    ensures toId > TREASURY ==>
      var (o, n) := Attempts(env, wallet, old(s.View()), toId, amount, others, 0);
      Reports(o, r, s.View()) && attempts == n
    ensures toId <= TREASURY ==> r == Err(Refused(BadDiscourseID)) && attempts == 0 && unchanged(s)
    ensures Gained(old(s.txs), s.txs, foreign, Committed(r))
    ensures r.Ok? ==> fresh(r.value) && SentAs(wallet, toId, amount, nonce, r.value)
  {
    r, nonce, attempts, foreign := Err(Refused(BadDiscourseID)), 0, 0, 0;
    if toId > TREASURY {
      r, nonce, attempts, foreign := Retry(env, wallet, s, toId, amount, others);
    }
  }

  // The event is paid, or reserved and not yet lapsed.
  predicate Taken(rows: Rows, key: Key, now: int) {
    key in rows && !Expired(rows, key, now)
  }

  // The result of a payout is that of its attempts.
  ghost predicate Settles(o: Outcome, r: PaymentResult, after: Ledger)
    reads if r.Paid? then {r.tx} else {}
  {
    match r
    case Skipped => false
    case Paid(tx) => Reports(o, Ok(tx), after)
    case Failed(f) => Reports(o, Err(f), after)
  }

  // The part of PayRewardOnce after its reservation: pay, then complete or release.
  method PayReserved(env: Env, wallet: R.Wallet, s: MemStore, events: RewardEvents, key: Key, toId: int64,
                     amount: int64, now: int, others: seq<seq<Request>>)
    returns (r: PaymentResult, nonce: int64, foreign: nat)
    requires Inv(env, s.View()) && |others| == R.MAX_ATTEMPTS
    requires key in events.rows && events.rows[key].txHash.None? && toId > TREASURY
    modifies s, events
    ensures Settles(Attempts(env, wallet, old(s.View()), toId, amount, others, 0).0, r, s.View())
    ensures Gained(old(s.txs), s.txs, foreign, if r.Paid? then Some(r.tx) else None)
    ensures r.Paid? ==> SentAs(wallet, toId, amount, nonce, r.tx)
    ensures r.Paid? ==> events.rows == old(events.rows)[key := Row(Some(r.tx.txHash), now)]
    ensures r.Failed? ==> events.rows == old(events.rows) - {key}
  {
    var sent, attempts;
    sent, nonce, attempts, foreign := SignAndApplyTransfer(env, wallet, s, toId, amount, others);
    ghost var after := s.View();
    if sent.Err? {
      events.ReleaseEvent(key);
      r := Failed(sent.error);
    } else {
      var completed := events.CompleteEvent(key, sent.value.txHash, now);
      assert completed.Ok?;
      r := Paid(sent.value);
    }
    assert s.View() == after;
  }

  // Writing or deleting the row hides the reservation before it.
  lemma ReservationHidden(rows: Rows, key: Key, now: int, row: Row)
    ensures Taken(rows, key, now) ==> Reserve(Expire(rows, key, now), key, now) == rows
    ensures Reserve(Expire(rows, key, now), key, now) - {key} == rows - {key}
    ensures Reserve(Expire(rows, key, now), key, now)[key := row] == rows[key := row]
  {
  }

  // Reserve, pay, and complete or release. No other worker touches the table here; with
  // others the table is the one of Rewards.dfy.
  method PayRewardOnce(env: Env, wallet: R.Wallet, s: MemStore, events: RewardEvents, key: Key, toId: int64,
                       amount: int64, enabled: bool, now: int, others: seq<seq<Request>>)
    returns (r: PaymentResult, nonce: int64, foreign: nat)
    requires Inv(env, s.View()) && |others| == R.MAX_ATTEMPTS
    modifies s, events
    ensures !r.Skipped? ==> Settles(Attempts(env, wallet, old(s.View()), toId, amount, others, 0).0, r, s.View())
    ensures Gained(old(s.txs), s.txs, foreign, if r.Paid? then Some(r.tx) else None)
    ensures r.Skipped? == (toId <= TREASURY || !enabled || amount <= 0 || Taken(old(events.rows), key, now))
    ensures r.Paid? && R.Canonical(env, wallet) && others[0] == [] ==>
      Transferred(wallet, old(s.View()), s.View(), toId, amount)
    ensures r.Skipped? ==> unchanged(s) && events.rows == old(events.rows)
    ensures r.Paid? ==> SentAs(wallet, toId, amount, nonce, r.tx)
    ensures r.Paid? ==> events.rows == old(events.rows)[key := Row(Some(r.tx.txHash), now)]
    ensures r.Failed? ==> events.rows == old(events.rows) - {key}
  {
    r, nonce, foreign := Skipped, 0, 0;
    if toId > TREASURY && enabled && amount > 0 {
      ghost var before := s.View();
      ghost var rows := events.rows;
      ReservationHidden(rows, key, now, Row(None, now));
      var reserved := events.TryReserve(key, now);
      assert s.View() == before;
      if reserved {
        r, nonce, foreign := PayReserved(env, wallet, s, events, key, toId, amount, now, others);
        if R.Canonical(env, wallet) && others[0] == [] {
          UndisturbedMoves(env, wallet, before, toId, amount, others);
        }
        ReservationHidden(rows, key, now, if r.Paid? then Row(Some(r.tx.txHash), now) else Row(None, now));
      }
    }
  }
}
