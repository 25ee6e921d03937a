/**
  Whole runs of the ledger: any sequence of submissions and registrations, accepted or
  refused. The state is at every moment the replay of the log, and the supply is the cap.
 */
module LedgerRuns {
  import opened Wrappers
  import opened ByteStrings
  import opened Tx
  import opened LedgerState
  import opened LedgerLaws

  datatype Step = Submit(request: Request) | Register(id: int64, pub: Bytes)

  // A logged request with the account that its signer's key led to at that moment.
  datatype Posting = Posting(sender: int64, request: Request)

  // ---------- Registration ----------

  lemma RegisterBooks(env: Env, unique: bool, st: Ledger, id: int64, pub: Bytes)
    requires Inv(env, st)
    ensures var e := RegisterTo(unique, st, id, pub); e.Ok? ==>
      SameBooks(st, e.value) && e.value.log == st.log && Inv(env, e.value)
  {
    if id in st.accounts {
      SetPubKeyBooks(unique, st, id, pub);
    } else {
      UpsertSound(unique, st, Account(id, Some(pub), 0, 0));
      TotalAfter(st.accounts, Account(id, Some(pub), 0, 0));
    }
  }

  // The account has no key yet, or is not there.
  predicate Unbound(st: Ledger, id: int64) {
    id in st.accounts ==> st.accounts[id].pubkey in {None, Some([])}
  }

  // Registration succeeds exactly for a full key and a user other than the treasury, if the
  // account has this very key, or none and nobody else holds it where keys are unique. The key
  // then leads to the user.
  lemma RegisterOutcome(unique: bool, st: Ledger, id: int64, pub: Bytes)
    requires Inverse(st)
    ensures var e := RegisterTo(unique, st, id, pub);
      && (e.Ok? <==>
          && |pub| == 32 && id != 0
          && ((id in st.accounts && st.accounts[id].pubkey == Some(pub))
              || (Unbound(st, id) && (unique ==> !HeldByOther(st, id, pub)))))
      && (e.Ok? ==> AccountByPubKey(e.value, pub).Some? && AccountByPubKey(e.value, pub).value.id == id)
      && (|pub| == 32 && id != 0 && !Unbound(st, id) && e.Err? ==> e == Err(PubKeyConflict))
  {
  }

  // ---------- Runs ----------

  ghost function Next(env: Env, unique: bool, st: Ledger, step: Step): (st': Ledger)
    requires Inv(env, st)
    ensures Inv(env, st')
  {
    match step
    case Submit(r) =>
      ApplyAppends(env, unique, st, r, RequiresFullSupplyCheck(r.txType));
      (match ApplyTo(env, unique, st, r) case Ok(st') => st' case Err(_) => st)
    case Register(id, pub) =>
      RegisterBooks(env, unique, st, id, pub);
      (match RegisterTo(unique, st, id, pub) case Ok(st') => st' case Err(_) => st)
  }

  ghost function Postings(env: Env, unique: bool, st: Ledger, step: Step): seq<Posting>
    requires Inv(env, st)
  {
    if step.Submit? && ApplyTo(env, unique, st, step.request).Ok?
    then [Posting(Sender(st, step.request), step.request)] else []
  }

  ghost function Run(env: Env, unique: bool, st: Ledger, steps: seq<Step>): (st': Ledger)
    requires Inv(env, st)
    ensures Inv(env, st')
  {
    if steps == [] then st else
    Next(env, unique, Run(env, unique, st, steps[..|steps| - 1]), steps[|steps| - 1])
  }

  // What a run from the empty store reaches.
  ghost function Reached(env: Env, unique: bool, steps: seq<Step>): (st: Ledger)
    ensures Inv(env, st)
  {
    EmptyInv(env);
    Run(env, unique, EMPTY, steps)
  }

  ghost function Journal(env: Env, unique: bool, st: Ledger, steps: seq<Step>): seq<Posting>
    requires Inv(env, st)
  {
    if steps == [] then [] else
    var before := steps[..|steps| - 1];
    Journal(env, unique, st, before) + Postings(env, unique, Run(env, unique, st, before), steps[|steps| - 1])
  }

  // ---------- Replay ----------

  function FlowSum(env: Env, journal: seq<Posting>, id: int64): int {
    if journal == [] then 0 else
    var last := journal[|journal| - 1];
    FlowSum(env, journal[..|journal| - 1], id) + Flow(env, last.sender, last.request, id)
  }

  // The nonces claimed by one sender, in log order.
  function SentNonces(env: Env, journal: seq<Posting>, id: int64): seq<int64> {
    if journal == [] then [] else
    var last := journal[|journal| - 1];
    var claimed := ClaimedNonce(env, last.request);
    SentNonces(env, journal[..|journal| - 1], id) + if last.sender == id && claimed.Some? then [claimed.value] else []
  }

  ghost predicate Replays(env: Env, st: Ledger, st': Ledger, journal: seq<Posting>, id: int64) {
    var sent := SentNonces(env, journal, id);
    && Balance(st', id) == Balance(st, id) + FlowSum(env, journal, id)
    && Nonce(st', id) == Wrap64(Nonce(st, id) + |sent|)
    && Consecutive(Nonce(st, id), sent)
  }

  // The values n + 1, n + 2, ... in order.
  ghost predicate Consecutive(n: int64, sent: seq<int64>) {
    forall i :: 0 <= i < |sent| ==> sent[i] == Wrap64(n + i + 1)
  }

  lemma ConsecutiveSnoc(n: int64, sent: seq<int64>, more: seq<int64>)
    requires Consecutive(n, sent)
    requires more == [] || more == [Wrap64(Wrap64(n + |sent|) + 1)]
    ensures Consecutive(n, sent + more)
    ensures Wrap64(n + |sent + more|) == if more == [] then Wrap64(n + |sent|) else more[0]
  {
  }

  // The journal is the part of the log that the run has added.
  ghost predicate Logs(st: Ledger, st': Ledger, journal: seq<Posting>) {
    && |st'.log| == |st.log| + |journal|
    && st.log == st'.log[..|st.log|]
    && forall i :: 0 <= i < |journal| ==> st'.log[|st.log| + i].request == journal[i].request
  }

  // What a booking does to one account.
  predicate BookedFor(env: Env, st: Ledger, st': Ledger, r: Request, id: int64) {
    var sender := Sender(st, r);
    && Balance(st', id) == Balance(st, id) + Flow(env, sender, r, id)
    && Nonce(st', id) ==
         (if id == sender && ClaimedNonce(env, r).Some? then Wrap64(Nonce(st, id) + 1) else Nonce(st, id))
    && (id == sender && ClaimedNonce(env, r).Some? ==> ClaimedNonce(env, r) == Some(Wrap64(Nonce(st, id) + 1)))
  }

  lemma JournalSnoc(env: Env, journal: seq<Posting>, p: Posting, id: int64)
    ensures FlowSum(env, journal + [p], id) == FlowSum(env, journal, id) + Flow(env, p.sender, p.request, id)
    ensures SentNonces(env, journal + [p], id) == SentNonces(env, journal, id) +
      var claimed := ClaimedNonce(env, p.request);
      if p.sender == id && claimed.Some? then [claimed.value] else []
  {
    assert (journal + [p])[..|journal|] == journal;
  }

  lemma ReplayExtends(env: Env, st: Ledger, mid: Ledger, st': Ledger, journal: seq<Posting>, r: Request, id: int64)
    requires Replays(env, st, mid, journal, id) && BookedFor(env, mid, st', r, id)
    ensures Replays(env, st, st', journal + [Posting(Sender(mid, r), r)], id)
  {
    var claimed := ClaimedNonce(env, r);
    JournalSnoc(env, journal, Posting(Sender(mid, r), r), id);
    ConsecutiveSnoc(Nonce(st, id), SentNonces(env, journal, id),
                    if Sender(mid, r) == id && claimed.Some? then [claimed.value] else []);
  }

  // One step either leaves log, balances and nonces alone, or logs and books one request.
  predicate StepBooked(env: Env, st: Ledger, st': Ledger, posted: seq<Posting>, id: int64) {
    if posted == [] then st'.log == st.log && Balance(st', id) == Balance(st, id) && Nonce(st', id) == Nonce(st, id)
    else
      && |posted| == 1 && posted[0].sender == Sender(st, posted[0].request)
      && st'.log == st.log + [NewEntry(env, st.log, posted[0].request)]
      && BookedFor(env, st, st', posted[0].request, id)
  }

  lemma NextBooks(env: Env, unique: bool, st: Ledger, step: Step, id: int64)
    requires Inv(env, st)
    ensures StepBooked(env, st, Next(env, unique, st, step), Postings(env, unique, st, step), id)
  {
    match step
    case Submit(r) => ApplyAppends(env, unique, st, r, RequiresFullSupplyCheck(r.txType));
    case Register(d, pub) => RegisterBooks(env, unique, st, d, pub);
  }

  ghost predicate RunReplays(env: Env, unique: bool, st: Ledger, steps: seq<Step>, id: int64)
    requires Inv(env, st)
  {
    var st', journal := Run(env, unique, st, steps), Journal(env, unique, st, steps);
    Replays(env, st, st', journal, id) && Logs(st, st', journal)
  }

  lemma ReplayStep(env: Env, st: Ledger, mid: Ledger, st': Ledger, journal: seq<Posting>, posted: seq<Posting>,
                   id: int64)
    requires Replays(env, st, mid, journal, id) && Logs(st, mid, journal) && StepBooked(env, mid, st', posted, id)
    ensures Replays(env, st, st', journal + posted, id) && Logs(st, st', journal + posted)
  {
    if posted == [] {
      assert journal + posted == journal;
    } else {
      ReplayExtends(env, st, mid, st', journal, posted[0].request, id);
      assert posted == [posted[0]];
    }
  }

  // After any run from any good state, each balance is the starting balance plus the flow of
  // the entries logged since; each account's nonces continue its count without gap or repeat.
  lemma {:induction false} StateIsReplay(env: Env, unique: bool, st: Ledger, steps: seq<Step>, id: int64)
    requires Inv(env, st)
    ensures RunReplays(env, unique, st, steps, id)
  {
    if steps != [] {
      var i := |steps| - 1;
      StateIsReplay(env, unique, st, steps[..i], id);
      var mid := Run(env, unique, st, steps[..i]);
      NextBooks(env, unique, mid, steps[i], id);
      ReplayStep(env, st, mid, Next(env, unique, mid, steps[i]),
                 Journal(env, unique, st, steps[..i]), Postings(env, unique, mid, steps[i]), id);
    }
  }

  // From the empty store: the supply, and the whole state as the fold of the whole log.
  lemma RunFromEmpty(env: Env, unique: bool, steps: seq<Step>, id: int64)
    ensures Inv(env, EMPTY)
    ensures var st, journal := Reached(env, unique, steps), Journal(env, unique, EMPTY, steps);
      && Total(st.accounts) == (if st.log == [] then 0 else SUPPLY_CAP)
      && 0 <= Balance(st, id) == FlowSum(env, journal, id) <= SUPPLY_CAP
      && |st.log| == |journal| && (forall i :: 0 <= i < |journal| ==> st.log[i].request == journal[i].request)
      && var sent := SentNonces(env, journal, id);
         Nonce(st, id) == Wrap64(|sent|) && Consecutive(0, sent)
  {
    EmptyInv(env);
    StateIsReplay(env, unique, EMPTY, steps, id);
    var st := Reached(env, unique, steps);
    PairWithinTotal(st, id, if id == 0 then 1 else 0);
  }

  lemma NextGrows(env: Env, unique: bool, st: Ledger, step: Step)
    requires Inv(env, st)
    ensures st.log <= Next(env, unique, st, step).log
  {
    NextBooks(env, unique, st, step, 0);
  }

  lemma RunSnoc(env: Env, unique: bool, st: Ledger, steps: seq<Step>, step: Step)
    requires Inv(env, st)
    ensures Run(env, unique, st, steps + [step]) == Next(env, unique, Run(env, unique, st, steps), step)
  {
    assert (steps + [step])[..|steps|] == steps;
  }

  ghost predicate LogKept(env: Env, unique: bool, st: Ledger, steps: seq<Step>, more: seq<Step>)
    requires Inv(env, st)
  {
    Run(env, unique, st, steps).log <= Run(env, unique, st, steps + more).log
  }

  lemma LogKeptSnoc(env: Env, unique: bool, st: Ledger, steps: seq<Step>, more: seq<Step>, step: Step)
    requires Inv(env, st) && LogKept(env, unique, st, steps, more)
    ensures LogKept(env, unique, st, steps, more + [step])
  {
    RunSnoc(env, unique, st, steps + more, step);
    assert steps + (more + [step]) == (steps + more) + [step];
    NextGrows(env, unique, Run(env, unique, st, steps + more), step);
  }

  // The log is append-only: what a shorter run has logged, every longer run still has.
  lemma {:induction false} LogOnlyGrows(env: Env, unique: bool, st: Ledger, steps: seq<Step>, more: seq<Step>)
    requires Inv(env, st)
    ensures LogKept(env, unique, st, steps, more)
  {
    if more == [] {
      assert steps + more == steps;
    } else {
      var (init, last) := (more[..|more| - 1], more[|more| - 1]);
      assert more == init + [last];
      LogOnlyGrows(env, unique, st, steps, init);
      LogKeptSnoc(env, unique, st, steps, init, last);
    }
  }

  // ---------- The pubkey index ----------

  predicate FullKey(a: Account) {
    a.pubkey.Some? ==> |a.pubkey.value| == PUBKEY_LEN
  }

  // Keys are of full length and the index is their exact inverse.
  ghost predicate Indexed(st: Ledger) {
    && Inverse(st)
    && forall d :: d in st.accounts ==> FullKey(st.accounts[d])
  }

  // Writing an account keeps the index inverse exactly when nobody else holds its key.
  lemma UpsertKeepsIndexed(st: Ledger, a: Account)
    requires Indexed(st) && FullKey(a)
    ensures Indexed(Upsert(false, st, a).value)
       <==> a.pubkey.None? || !HeldByOther(st, a.id, a.pubkey.value)
  {
    var st' := Upsert(false, st, a).value;
    if a.pubkey.Some? && HeldByOther(st, a.id, a.pubkey.value) {
      var d :| d in st.accounts && d != a.id && st.accounts[d].pubkey == a.pubkey;
      assert st'.accounts[d].pubkey == a.pubkey && st'.index[a.pubkey.value] == a.id;
    }
  }

  // Rotating a key keeps the index inverse exactly when nobody else holds the new key.
  lemma UpdatePubKeyKeepsIndexed(st: Ledger, oldPub: Bytes, newPub: Bytes)
    requires Indexed(st) && oldPub in st.index && |newPub| == PUBKEY_LEN
    ensures Indexed(UpdatePubKey(false, st, oldPub, newPub).value)
       <==> !HeldByOther(st, st.index[oldPub], newPub)
  {
    var id, st' := st.index[oldPub], UpdatePubKey(false, st, oldPub, newPub).value;
    if HeldByOther(st, id, newPub) {
      var d :| d in st.accounts && d != id && st.accounts[d].pubkey == Some(newPub);
      assert st'.accounts[d].pubkey == Some(newPub) && st'.index[newPub] == id;
    }
  }

  // Binding a key at activation keeps the index inverse exactly when nobody else holds it.
  lemma SetPubKeyKeepsIndexed(st: Ledger, id: int64, pub: Bytes)
    requires Indexed(st) && id in st.accounts && |pub| == PUBKEY_LEN
    ensures Indexed(SetPubKey(false, st, id, pub).value) <==> !HeldByOther(st, id, pub)
  {
    var st' := SetPubKey(false, st, id, pub).value;
    if HeldByOther(st, id, pub) {
      var d :| d in st.accounts && d != id && st.accounts[d].pubkey == Some(pub);
      assert st'.accounts[d].pubkey == Some(pub) && st'.index[pub] == id;
    }
  }

  // Without the guard the property is false: two users register one key, and the first of
  // them can no longer be found by it.
  lemma MemStoreLosesKey(env: Env, pub: Bytes)
    requires |pub| == PUBKEY_LEN
    ensures var st := Reached(env, false, [Register(1, pub), Register(2, pub)]);
      && !Indexed(st)
      && AccountById(st, 1) == Some(Account(1, Some(pub), 0, 0))
      && AccountByPubKey(st, pub) == Some(Account(2, Some(pub), 0, 0))
  {
    EmptyInv(env);
    var (one, two) := (Account(1, Some(pub), 0, 0), Account(2, Some(pub), 0, 0));
    RunSnoc(env, false, EMPTY, [], Register(1, pub));
    assert [] + [Register(1, pub)] == [Register(1, pub)];
    var first := Run(env, false, EMPTY, [Register(1, pub)]);
    assert first == Ledger(map[1 := one], map[pub := 1], []);
    RunSnoc(env, false, EMPTY, [Register(1, pub)], Register(2, pub));
    assert [Register(1, pub)] + [Register(2, pub)] == [Register(1, pub), Register(2, pub)];
    var second := Reached(env, false, [Register(1, pub), Register(2, pub)]);
    assert second == Upsert(false, first, two).value;
    UpsertKeepsIndexed(first, two);
    assert first.accounts[1].pubkey == Some(pub);
  }

  // With the guard, every effect keeps the index inverse.
  lemma EffectKeepsIndexed(env: Env, st: Ledger, r: Request)
    requires Indexed(st)
    ensures var e := Effect(env, true, st, r); e.Ok? ==> Indexed(e.value)
  {
    match r.txType
    case Genesis =>
      var p := env.genesisOf(r.payload);
      if p.Some? && |p.value.to| == PUBKEY_LEN {
        UpsertKeepsIndexed(st, Account(TREASURY, Some(p.value.to), 0, SUPPLY_CAP));
      }
    case Transfer => TransferKeepsIndexed(env, st, r);
    case RotateKey => RotateKeepsIndexed(env, st, r);
    case ReclaimInvalid => ReclaimKeepsIndexed(env, st, r);
    case Other(_) =>
  }

  // Two writes that the guard lets through keep the index.
  lemma UpsertBothKeepsIndexed(st: Ledger, a: Account, b: Account)
    requires Indexed(st) && FullKey(a) && FullKey(b)
    ensures UpsertBoth(true, st, a, b).Ok? ==> Indexed(UpsertBoth(true, st, a, b).value)
  {
    if UpsertBoth(true, st, a, b).Ok? {
      UpsertKeepsIndexed(st, a);
      UpsertKeepsIndexed(Upsert(true, st, a).value, b);
    }
  }

  lemma TransferKeepsIndexed(env: Env, st: Ledger, r: Request)
    requires Indexed(st)
    ensures var e := TransferEffect(env, true, st, r); e.Ok? ==> Indexed(e.value)
  {
    var e := TransferEffect(env, true, st, r);
    if e.Ok? {
      var p := env.transferOf(r.payload).value;
      var from := st.accounts[st.index[p.from]];
      var payee := if p.toId in st.accounts then st.accounts[p.toId] else Account(p.toId, None, 0, 0);
      var a := from.(balance := Wrap64(from.balance - p.amount), nonce := p.nonce);
      var b := payee.(balance := Wrap64(payee.balance + p.amount));
      assert e == UpsertBoth(true, st, a, b);
      UpsertBothKeepsIndexed(st, a, b);
    }
  }

  lemma ReclaimKeepsIndexed(env: Env, st: Ledger, r: Request)
    requires Indexed(st)
    ensures var e := ReclaimEffect(env, true, st, r); e.Ok? ==> Indexed(e.value)
  {
    var e := ReclaimEffect(env, true, st, r);
    if e.Ok? {
      var p := env.reclaimOf(r.payload).value;
      var admin, from := st.accounts[st.index[p.admin]], st.accounts[p.fromId];
      var a := from.(balance := Wrap64(from.balance - p.amount));
      var b := admin.(balance := Wrap64(admin.balance + p.amount), nonce := p.nonce);
      assert e == UpsertBoth(true, st, a, b);
      UpsertBothKeepsIndexed(st, a, b);
    }
  }

  // A rotation retires the old key and makes the new one lead to the same account.
  lemma RotateKeepsIndexed(env: Env, st: Ledger, r: Request)
    requires Indexed(st)
    ensures var e := RotateEffect(env, true, st, r); e.Ok? ==>
      var p := env.rotateOf(r.payload).value;
      && Indexed(e.value)
      && (p.oldPub != p.newPub ==> AccountByPubKey(e.value, p.oldPub) == None)
      && AccountByPubKey(e.value, p.newPub).Some?
      && AccountByPubKey(e.value, p.newPub).value.id == AccountByPubKey(st, p.oldPub).value.id
  {
    var e := RotateEffect(env, true, st, r);
    if e.Ok? {
      var p := env.rotateOf(r.payload).value;
      var bumped := st.accounts[st.index[p.oldPub]].(nonce := p.nonce);
      var mid := Upsert(true, st, bumped).value;
      UpsertKeepsIndexed(st, bumped);
      assert e == UpdatePubKey(true, mid, p.oldPub, p.newPub);
      UpdatePubKeyKeepsIndexed(mid, p.oldPub, p.newPub);
    }
  }

  lemma NextKeepsIndexed(env: Env, st: Ledger, step: Step)
    requires Inv(env, st) && Indexed(st)
    ensures Indexed(Next(env, true, st, step))
  {
    match step
    case Submit(r) =>
      EffectKeepsIndexed(env, st, r);
    case Register(id, pub) =>
      if |pub| == PUBKEY_LEN {
        if id in st.accounts {
          SetPubKeyKeepsIndexed(st, id, pub);
        } else {
          UpsertKeepsIndexed(st, Account(id, Some(pub), 0, 0));
        }
      }
  }

  ghost predicate RunIndexed(env: Env, st: Ledger, steps: seq<Step>)
    requires Inv(env, st)
  {
    Indexed(Run(env, true, st, steps))
  }

  // Over every run with the guard: no dangling index entry, no account behind an old key.
  lemma {:induction false} IndexStaysInverse(env: Env, st: Ledger, steps: seq<Step>)
    requires Inv(env, st) && Indexed(st)
    ensures RunIndexed(env, st, steps)
  {
    if steps != [] {
      var i := |steps| - 1;
      IndexStaysInverse(env, st, steps[..i]);
      NextKeepsIndexed(env, Run(env, true, st, steps[..i]), steps[i]);
    }
  }
}
