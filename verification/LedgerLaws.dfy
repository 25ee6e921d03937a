/**
  What Apply and registration keep, over every run: the supply, the hash chain, the
  replay of balances and nonces from the log, and the pubkey index.
 */
module LedgerLaws {
  import opened Wrappers
  import opened ByteStrings
  import opened Tx
  import opened LedgerState

  function Balance(st: Ledger, id: int64): int {
    if id in st.accounts then st.accounts[id].balance else 0
  }

  function Nonce(st: Ledger, id: int64): int64 {
    if id in st.accounts then st.accounts[id].nonce else 0
  }

  // ---------- Sums ----------

  lemma {:induction false} SumRemove(accounts: Accounts, ids: set<int64>, d: int64)
    requires ids <= accounts.Keys && d in ids
    ensures SumOver(accounts, ids) == accounts[d].balance + SumOver(accounts, ids - {d})
    decreases |ids|
  {
    var e :| e in ids && SumOver(accounts, ids) == accounts[e].balance + SumOver(accounts, ids - {e});
    if e != d {
      SumRemove(accounts, ids - {e}, d);
      SumRemove(accounts, ids - {d}, e);
      assert ids - {e} - {d} == ids - {d} - {e};
    }
  }

  lemma {:induction false} SumAgrees(a: Accounts, b: Accounts, ids: set<int64>)
    requires ids <= a.Keys && ids <= b.Keys
    requires forall d | d in ids :: a[d].balance == b[d].balance
    ensures SumOver(a, ids) == SumOver(b, ids)
    decreases |ids|
  {
    if ids != {} {
      var d :| d in ids;
      SumRemove(a, ids, d);
      SumRemove(b, ids, d);
      SumAgrees(a, b, ids - {d});
    }
  }

  // Replacing one account moves the total by the change of its balance.
  lemma TotalAfter(accounts: Accounts, a: Account)
    ensures Total(accounts[a.id := a])
         == Total(accounts) + a.balance - (if a.id in accounts then accounts[a.id].balance else 0)
  {
    var after := accounts[a.id := a];
    var others := accounts.Keys - {a.id};
    SumRemove(after, after.Keys, a.id);
    assert after.Keys - {a.id} == others;
    SumAgrees(accounts, after, others);
    if a.id in accounts {
      SumRemove(accounts, accounts.Keys, a.id);
    } else {
      assert others == accounts.Keys;
    }
  }

  ghost predicate NonNegative(accounts: Accounts) {
    forall d :: d in accounts ==> accounts[d].balance >= 0
  }

  lemma {:induction false} SumNonNegative(accounts: Accounts, ids: set<int64>)
    requires ids <= accounts.Keys && NonNegative(accounts)
    ensures SumOver(accounts, ids) >= 0
    decreases |ids|
  {
    if ids != {} {
      var d :| d in ids;
      SumRemove(accounts, ids, d);
      SumNonNegative(accounts, ids - {d});
    }
  }

  // Two different accounts together never hold more than the total.
  lemma PairWithinTotal(st: Ledger, d: int64, e: int64)
    requires NonNegative(st.accounts) && d != e
    ensures Balance(st, d) + Balance(st, e) <= Total(st.accounts)
  {
    var ids := st.accounts.Keys;
    if d in ids {
      SumRemove(st.accounts, ids, d);
      ids := ids - {d};
    }
    if e in ids {
      SumRemove(st.accounts, ids, e);
      ids := ids - {e};
    }
    SumNonNegative(st.accounts, ids);
  }

  // ---------- The invariant ----------

  // What the audit tool decodes and checks in each payload.
  predicate PayloadOk(env: Env, r: Request) {
    match r.txType
    case Genesis => env.genesisOf(r.payload).Some? && env.genesisOf(r.payload).value.amount == SUPPLY_CAP
    case Transfer => env.transferOf(r.payload).Some? && env.transferOf(r.payload).value.amount > 0
    case RotateKey => env.rotateOf(r.payload).Some?
    case ReclaimInvalid =>
      && env.reclaimOf(r.payload).Some?
      && env.reclaimOf(r.payload).value.fromId < 0 && env.reclaimOf(r.payload).value.amount > 0
    case Other(_) => false
  }

  // Entry i continues the chain, carries a valid signature, and only entry 0 is genesis.
  predicate EntryOk(env: Env, log: seq<Entry>, i: nat)
    requires i < |log|
  {
    && log[i].leafIndex == Wrap64(i)
    && log[i].prevHash == (if i == 0 then Zeros(HASH_LEN) else log[i - 1].txHash)
    && log[i].txHash == TxHash(env, log[i].request.payload, log[i].request.sig, log[i].prevHash)
    && VerifySig(env, log[i].request)
    && (log[i].request.txType == Genesis <==> i == 0)
    && PayloadOk(env, log[i].request)
  }

  ghost predicate LogOk(env: Env, log: seq<Entry>) {
    && (forall i :: 0 <= i < |log| ==> EntryOk(env, log, i))
    && (forall i, j :: 0 <= i < j < |log| ==> log[i].txHash != log[j].txHash)
  }

  // The supply: nothing before genesis, exactly the cap ever after.
  ghost predicate Supply(st: Ledger) {
    && NonNegative(st.accounts)
    && Total(st.accounts) == (if st.log == [] then 0 else SUPPLY_CAP)
    && (st.log == [] ==> TREASURY !in st.accounts)
  }

  ghost predicate Inv(env: Env, st: Ledger) {
    Sound(st) && Supply(st) && LogOk(env, st.log)
  }

  lemma EmptyInv(env: Env)
    ensures Inv(env, EMPTY) && Inverse(EMPTY)
  {
  }

  // ---------- One effect ----------

  // The account that a request is booked to.
  function Sender(st: Ledger, r: Request): int64 {
    if r.txType != Genesis && r.signer in st.index then st.index[r.signer] else TREASURY
  }

  // The change of one balance, read off the payload and the sender alone.
  function Flow(env: Env, sender: int64, r: Request, id: int64): int {
    match r.txType
    case Genesis => if id == TREASURY then SUPPLY_CAP else 0
    case Transfer =>
      var p := env.transferOf(r.payload);
      if p.None? then 0
      else (if id == p.value.toId then p.value.amount else 0) - (if id == sender then p.value.amount else 0)
    case ReclaimInvalid =>
      var p := env.reclaimOf(r.payload);
      if p.None? then 0
      else (if id == sender then p.value.amount else 0) - (if id == p.value.fromId then p.value.amount else 0)
    case RotateKey => 0
    case Other(_) => 0
  }

  // The sequence number a request claims for its sender; genesis claims none.
  function ClaimedNonce(env: Env, r: Request): Option<int64> {
    match r.txType
    case Transfer => (match env.transferOf(r.payload) case None => None case Some(p) => Some(p.nonce))
    case RotateKey => (match env.rotateOf(r.payload) case None => None case Some(p) => Some(p.nonce))
    case ReclaimInvalid => (match env.reclaimOf(r.payload) case None => None case Some(p) => Some(p.nonce))
    case _ => None
  }

  // The accounts after a booking: balances move by the flow, unwrapped; the sender's nonce
  // becomes the claimed one, which is the next; the total is kept except by genesis.
  ghost predicate Booked(env: Env, st: Ledger, st': Ledger, r: Request) {
    var sender := Sender(st, r);
    && Sound(st') && NonNegative(st'.accounts)
    && (forall id: int64 :: Balance(st', id) == Balance(st, id) + Flow(env, sender, r, id))
    && (forall id: int64 :: Nonce(st', id) ==
         if id == sender && r.txType != Genesis then Wrap64(Nonce(st, id) + 1) else Nonce(st, id))
    && (r.txType != Genesis ==> ClaimedNonce(env, r) == Some(Wrap64(Nonce(st, sender) + 1)))
    && Total(st'.accounts) == Total(st.accounts) + (if r.txType == Genesis then SUPPLY_CAP else 0)
    && PayloadOk(env, r)
  }

  lemma GenesisBooks(env: Env, unique: bool, st: Ledger, r: Request)
    requires Inv(env, st) && st.log == [] && r.txType == Genesis
    ensures var e := GenesisEffect(env, unique, st, r); e.Ok? ==> Booked(env, st, e.value, r)
  {
    var e := GenesisEffect(env, unique, st, r);
    if e.Ok? {
      var a := Account(TREASURY, Some(env.genesisOf(r.payload).value.to), 0, SUPPLY_CAP);
      UpsertSound(unique, st, a);
      TotalAfter(st.accounts, a);
    }
  }

  // Two different accounts have been written; nobody else's balance or nonce has changed.
  ghost predicate PairWritten(st: Ledger, st': Ledger, a: Account, b: Account) {
    && Sound(st')
    && (forall id: int64 :: Balance(st', id) ==
         if id == a.id then a.balance else if id == b.id then b.balance else Balance(st, id))
    && (forall id: int64 :: Nonce(st', id) ==
         if id == a.id then a.nonce else if id == b.id then b.nonce else Nonce(st, id))
    && (NonNegative(st.accounts) && a.balance >= 0 && b.balance >= 0 ==> NonNegative(st'.accounts))
    && Total(st'.accounts) == Total(st.accounts) + a.balance - Balance(st, a.id) + b.balance - Balance(st, b.id)
  }

  lemma UpsertBothWrites(unique: bool, st: Ledger, a: Account, b: Account)
    requires Sound(st) && a.id != b.id
    ensures var e := UpsertBoth(unique, st, a, b); e.Ok? ==> PairWritten(st, e.value, a, b)
  {
    var e := Upsert(unique, st, a);
    if e.Ok? {
      UpsertSound(unique, st, a);
      TotalAfter(st.accounts, a);
      UpsertSound(unique, e.value, b);
      TotalAfter(e.value.accounts, b);
    }
  }

  // A payment from one account to another; `payer` also uses up its next nonce or `payee` does.
  ghost predicate Paid(st: Ledger, st': Ledger, payer: int64, payee: int64, amount: int, signer: int64) {
    && payer != payee && (signer == payer || signer == payee)
    && Sound(st') && NonNegative(st'.accounts) && Total(st'.accounts) == Total(st.accounts)
    && (forall id: int64 :: Balance(st', id) ==
         Balance(st, id) + (if id == payee then amount else 0) - (if id == payer then amount else 0))
    && (forall id: int64 :: Nonce(st', id) == if id == signer then Wrap64(Nonce(st, id) + 1) else Nonce(st, id))
  }

  // One side of a payment as the code writes it, with wrap-around.
  predicate Side(st: Ledger, x: Account, payee: int64, amount: int, signer: int64) {
    && x.balance == Wrap64(Balance(st, x.id) + (if x.id == payee then amount else -amount))
    && x.nonce == if x.id == signer then Wrap64(Nonce(st, x.id) + 1) else Nonce(st, x.id)
  }

  // Within the supply neither side wraps.
  lemma SideIsExact(st: Ledger, x: Account, payer: int64, payee: int64, amount: int, signer: int64)
    requires NonNegative(st.accounts) && Supply(st) && payer != payee && 0 < amount <= Balance(st, payer)
    requires (x.id == payer || x.id == payee) && Side(st, x, payee, amount, signer)
    ensures x.balance == Balance(st, x.id) + (if x.id == payee then amount else -amount) && x.balance >= 0
  {
    PairWithinTotal(st, payer, payee);
    assert Balance(st, payee) >= 0;
  }

  lemma PairWrittenPays(st: Ledger, st': Ledger, payer: int64, payee: int64, amount: int, signer: int64, a: Account,
                        b: Account)
    requires payer != payee && (signer == payer || signer == payee) && NonNegative(st.accounts)
    requires (a.id == payer && b.id == payee) || (a.id == payee && b.id == payer)
    requires Side(st, a, payee, amount, signer) && Side(st, b, payee, amount, signer)
    requires a.balance >= 0 && b.balance >= 0
    requires a.balance == Balance(st, a.id) + (if a.id == payee then amount else -amount)
    requires b.balance == Balance(st, b.id) + (if b.id == payee then amount else -amount)
    ensures PairWritten(st, st', a, b) ==> Paid(st, st', payer, payee, amount, signer)
  {
  }

  // Writing the two sides of a payment, in either order, pays it; no balance wraps.
  lemma PairPays(unique: bool, st: Ledger, payer: int64, payee: int64, amount: int, signer: int64, a: Account,
                 b: Account)
    requires Sound(st) && Supply(st) && payer != payee && 0 < amount <= Balance(st, payer)
    requires signer == payer || signer == payee
    requires (a.id == payer && b.id == payee) || (a.id == payee && b.id == payer)
    requires Side(st, a, payee, amount, signer) && Side(st, b, payee, amount, signer)
    ensures var e := UpsertBoth(unique, st, a, b); e.Ok? ==> Paid(st, e.value, payer, payee, amount, signer)
  {
    SideIsExact(st, a, payer, payee, amount, signer);
    SideIsExact(st, b, payer, payee, amount, signer);
    UpsertBothWrites(unique, st, a, b);
    var e := UpsertBoth(unique, st, a, b);
    if e.Ok? {
      PairWrittenPays(st, e.value, payer, payee, amount, signer, a, b);
    }
  }

  lemma TransferPays(env: Env, unique: bool, st: Ledger, r: Request)
    requires Sound(st) && Supply(st)
    ensures var e := TransferEffect(env, unique, st, r); e.Ok? ==>
      var p := env.transferOf(r.payload).value;
      && env.transferOf(r.payload).Some? && p.amount > 0 && p.from == r.signer && r.signer in st.index
      && Paid(st, e.value, st.index[r.signer], p.toId, p.amount, st.index[r.signer])
      && p.nonce == Wrap64(Nonce(st, st.index[r.signer]) + 1)
  {
    var e := TransferEffect(env, unique, st, r);
    if e.Ok? {
      var p := env.transferOf(r.payload).value;
      var from := st.accounts[st.index[p.from]];
      var payee := if p.toId in st.accounts then st.accounts[p.toId] else Account(p.toId, None, 0, 0);
      var a := from.(balance := Wrap64(from.balance - p.amount), nonce := p.nonce);
      var b := payee.(balance := Wrap64(payee.balance + p.amount));
      assert e == UpsertBoth(unique, st, a, b);
      PairPays(unique, st, from.id, p.toId, p.amount, from.id, a, b);
    }
  }

  lemma TransferBooks(env: Env, unique: bool, st: Ledger, r: Request)
    requires Inv(env, st) && r.txType == Transfer
    ensures var e := TransferEffect(env, unique, st, r); e.Ok? ==> Booked(env, st, e.value, r)
  {
    TransferPays(env, unique, st, r);
  }

  lemma ReclaimPays(env: Env, unique: bool, st: Ledger, r: Request)
    requires Sound(st) && Supply(st)
    ensures var e := ReclaimEffect(env, unique, st, r); e.Ok? ==>
      var p := env.reclaimOf(r.payload).value;
      && env.reclaimOf(r.payload).Some? && p.amount > 0 && p.fromId < 0 && p.admin == r.signer && r.signer in st.index
      && Paid(st, e.value, p.fromId, st.index[r.signer], p.amount, st.index[r.signer])
      && p.nonce == Wrap64(Nonce(st, st.index[r.signer]) + 1)
  {
    var e := ReclaimEffect(env, unique, st, r);
    if e.Ok? {
      var p := env.reclaimOf(r.payload).value;
      var admin, from := st.accounts[st.index[p.admin]], st.accounts[p.fromId];
      var a := from.(balance := Wrap64(from.balance - p.amount));
      var b := admin.(balance := Wrap64(admin.balance + p.amount), nonce := p.nonce);
      assert e == UpsertBoth(unique, st, a, b);
      PairPays(unique, st, from.id, admin.id, p.amount, admin.id, a, b);
    }
  }

  lemma ReclaimBooks(env: Env, unique: bool, st: Ledger, r: Request)
    requires Inv(env, st) && r.txType == ReclaimInvalid
    ensures var e := ReclaimEffect(env, unique, st, r); e.Ok? ==> Booked(env, st, e.value, r)
  {
    ReclaimPays(env, unique, st, r);
  }

  // Only keys differ: no balance, no nonce and no total.
  ghost predicate SameBooks(st: Ledger, st': Ledger) {
    && Sound(st')
    && (forall id: int64 :: Balance(st', id) == Balance(st, id) && Nonce(st', id) == Nonce(st, id))
    && Total(st'.accounts) == Total(st.accounts)
    && (NonNegative(st.accounts) ==> NonNegative(st'.accounts))
  }

  lemma UpdatePubKeyBooks(unique: bool, st: Ledger, oldPub: Bytes, newPub: Bytes)
    requires Sound(st)
    ensures var e := UpdatePubKey(unique, st, oldPub, newPub); e.Ok? ==> SameBooks(st, e.value)
  {
    UpdatePubKeySound(unique, st, oldPub, newPub);
    if oldPub in st.index {
      TotalAfter(st.accounts, st.accounts[st.index[oldPub]].(pubkey := Some(newPub)));
    }
  }

  lemma SetPubKeyBooks(unique: bool, st: Ledger, id: int64, pub: Bytes)
    requires Sound(st)
    ensures var e := SetPubKey(unique, st, id, pub); e.Ok? ==> SameBooks(st, e.value)
  {
    SetPubKeySound(unique, st, id, pub);
    if id in st.accounts {
      TotalAfter(st.accounts, st.accounts[id].(pubkey := Some(pub)));
    }
  }

  // One account's nonce has changed and nothing else in the books.
  ghost predicate NonceSet(st: Ledger, st': Ledger, id: int64, nonce: int64) {
    && Sound(st')
    && (forall d: int64 ::
         Balance(st', d) == Balance(st, d) && Nonce(st', d) == if d == id then nonce else Nonce(st, d))
    && Total(st'.accounts) == Total(st.accounts)
    && (NonNegative(st.accounts) ==> NonNegative(st'.accounts))
  }

  lemma BumpSetsNonce(unique: bool, st: Ledger, id: int64, nonce: int64)
    requires Sound(st) && id in st.accounts
    ensures var e := Upsert(unique, st, st.accounts[id].(nonce := nonce)); e.Ok? ==> NonceSet(st, e.value, id, nonce)
  {
    var a := st.accounts[id].(nonce := nonce);
    UpsertSound(unique, st, a);
    TotalAfter(st.accounts, a);
  }

  lemma RotateSetsNonce(env: Env, unique: bool, st: Ledger, r: Request)
    requires Sound(st)
    ensures var e := RotateEffect(env, unique, st, r); e.Ok? ==>
      var p := env.rotateOf(r.payload).value;
      && env.rotateOf(r.payload).Some? && p.oldPub == r.signer && r.signer in st.index
      && p.nonce == Wrap64(Nonce(st, st.index[r.signer]) + 1)
      && NonceSet(st, e.value, st.index[r.signer], p.nonce)
  {
    var e := RotateEffect(env, unique, st, r);
    if e.Ok? {
      var p := env.rotateOf(r.payload).value;
      var id := st.index[p.oldPub];
      var bumped := st.accounts[id].(nonce := p.nonce);
      var mid := Upsert(unique, st, bumped).value;
      BumpSetsNonce(unique, st, id, p.nonce);
      assert e == UpdatePubKey(unique, mid, p.oldPub, p.newPub);
      UpdatePubKeyBooks(unique, mid, p.oldPub, p.newPub);
    }
  }

  lemma RotateBooks(env: Env, unique: bool, st: Ledger, r: Request)
    requires Inv(env, st) && r.txType == RotateKey
    ensures var e := RotateEffect(env, unique, st, r); e.Ok? ==> Booked(env, st, e.value, r)
  {
    RotateSetsNonce(env, unique, st, r);
  }

  lemma EffectBooks(env: Env, unique: bool, st: Ledger, r: Request)
    requires Inv(env, st) && (r.txType == Genesis <==> st.log == [])
    ensures var e := Effect(env, unique, st, r); e.Ok? ==> Booked(env, st, e.value, r)
  {
    match r.txType
    case Genesis => GenesisBooks(env, unique, st, r);
    case Transfer => TransferBooks(env, unique, st, r);
    case RotateKey => RotateBooks(env, unique, st, r);
    case ReclaimInvalid => ReclaimBooks(env, unique, st, r);
    case Other(_) =>
  }

  // ---------- One Apply ----------

  // An accepted Apply appends exactly one entry, chained to the last, and books it.
  ghost predicate Appended(env: Env, st: Ledger, st': Ledger, r: Request) {
    && Inv(env, st') && Booked(env, st, st', r)
    && st'.log == st.log + [NewEntry(env, st.log, r)]
    && NextIndex(st.log) == Wrap64(|st.log|)
  }

  lemma EntryKept(env: Env, log: seq<Entry>, e: Entry, i: nat)
    requires i < |log| && EntryOk(env, log, i)
    ensures EntryOk(env, log + [e], i)
  {
  }

  lemma EntryAdded(env: Env, log: seq<Entry>, r: Request)
    requires VerifySig(env, r) && PayloadOk(env, r) && (r.txType == Genesis <==> log == [])
    requires log == [] || log[|log| - 1].leafIndex == Wrap64(|log| - 1)
    ensures EntryOk(env, log + [NewEntry(env, log, r)], |log|) && NextIndex(log) == Wrap64(|log|)
  {
  }

  lemma LogGrows(env: Env, log: seq<Entry>, r: Request)
    requires LogOk(env, log) && VerifySig(env, r) && PayloadOk(env, r) && (r.txType == Genesis <==> log == [])
    requires !HasHash(log, TxHash(env, r.payload, r.sig, PrevHash(log)))
    ensures LogOk(env, log + [NewEntry(env, log, r)]) && NextIndex(log) == Wrap64(|log|)
  {
    var (n, e) := (|log|, NewEntry(env, log, r));
    if n > 0 {
      assert EntryOk(env, log, n - 1);
    }
    EntryAdded(env, log, r);
    forall i | 0 <= i < n
      ensures EntryOk(env, log + [e], i)
    {
      EntryKept(env, log, e, i);
    }
  }

  lemma ApplyAppends(env: Env, unique: bool, st: Ledger, r: Request, recheck: bool)
    requires Inv(env, st)
    ensures var e := ApplyChecking(env, unique, st, r, recheck); e.Ok? ==> Appended(env, st, e.value, r)
  {
    var e := ApplyChecking(env, unique, st, r, recheck);
    if e.Ok? {
      EffectBooks(env, unique, st, r);
      LogGrows(env, st.log, r);
    }
  }

  // Re-summing the supply only after genesis and reclaim refuses exactly what re-summing
  // after every transaction would refuse.
  lemma PartialCheckIsFullCheck(env: Env, unique: bool, st: Ledger, r: Request)
    requires Inv(env, st)
    ensures ApplyTo(env, unique, st, r) == ApplyChecking(env, unique, st, r, true)
    ensures ApplyTo(env, unique, st, r) == ApplyChecking(env, unique, st, r, false)
  {
    if r.txType == Genesis <==> st.log == [] {
      EffectBooks(env, unique, st, r);
    }
  }
}
