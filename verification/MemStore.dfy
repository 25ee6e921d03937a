/**
  The in-memory store and Apply as the code runs them: a transaction is a private copy of
  the store, and Apply writes the caller's transaction object before it is known whether
  it will be accepted. Every method is proved to have the effect of LedgerState.dfy.
 */
module MemStores {
  import opened Wrappers
  import opened ByteStrings
  import opened Tx
  import opened LedgerState
  import opened LedgerLaws

  class Transaction {
    const request: Request
    var leafIndex: int64
    var prevHash: Bytes
    var txHash: Bytes

    constructor (r: Request)
      ensures request == r
    {
      request, leafIndex, prevHash, txHash := r, 0, [], [];
    }

    ghost function Value(): Entry
      reads this
    {
      Entry(leafIndex, request, prevHash, txHash)
    }
  }

  ghost function Entries(txs: seq<Transaction>): (log: seq<Entry>)
    reads txs
    ensures |log| == |txs| && forall i :: 0 <= i < |txs| ==> log[i] == txs[i].Value()
  {
    if txs == [] then [] else Entries(txs[..|txs| - 1]) + [txs[|txs| - 1].Value()]
  }

  class MemStore {
    var accounts: Accounts
    var index: map<Bytes, int64>
    var txs: seq<Transaction>

    constructor ()
      ensures View() == EMPTY && txs == []
    {
      accounts, index, txs := map[], map[], [];
    }

    ghost function View(): Ledger
      reads this, txs
    {
      Ledger(accounts, index, Entries(txs))
    }

    method Begin() returns (t: MemTx)
      ensures fresh(t) && t.parent == this && !t.done
      ensures t.accounts == accounts && t.index == index && t.txs == txs
    {
      t := new MemTx(this);
    }
  }

  class MemTx {
    const parent: MemStore
    var accounts: Accounts
    var index: map<Bytes, int64>
    var txs: seq<Transaction>
    var done: bool

    constructor (s: MemStore)
      ensures parent == s && !done
      ensures accounts == s.accounts && index == s.index && txs == s.txs
    {
      parent, accounts, index, txs, done := s, s.accounts, s.index, s.txs, false;
    }

    ghost function View(): Ledger
      reads this, txs
    {
      Ledger(accounts, index, Entries(txs))
    }

    method Commit() returns (r: Result<(), Error>)
      modifies this`done, parent
      ensures old(done) ==> r == Err(TxDone) && unchanged(parent)
      ensures !old(done) ==>
        && r == Ok(()) && parent.View() == old(View())
        && parent.accounts == accounts && parent.index == index && parent.txs == txs
    {
      if done {
        return Err(TxDone);
      }
      done := true;
      parent.accounts, parent.index, parent.txs := accounts, index, txs;
      r := Ok(());
    }

    method GetAccountByPubKey(pub: Bytes) returns (a: Option<Account>)
      ensures a == AccountByPubKey(View(), pub)
    {
      if |pub| == 0 || pub !in index || index[pub] !in accounts {
        return None;
      }
      a := Some(accounts[index[pub]]);
    }

    method GetAccountByDiscourseID(id: int64) returns (a: Option<Account>)
      ensures a == AccountById(View(), id)
    {
      if id !in accounts {
        return None;
      }
      a := Some(accounts[id]);
    }

    method UpsertAccount(a: Account)
      modifies this`accounts, this`index
      ensures Upsert(false, old(View()), a) == Ok(View())
    {
      if a.id in accounts && accounts[a.id].pubkey.Some? {
        index := index - {accounts[a.id].pubkey.value};
      }
      accounts := accounts[a.id := a];
      if a.pubkey.Some? && |a.pubkey.value| > 0 {
        index := index[a.pubkey.value := a.id];
      }
    }

    method ReplacePubKey(oldPub: Bytes, newPub: Bytes) returns (r: Result<(), Error>)
      requires Sound(View())
      modifies this`accounts, this`index
      ensures match UpdatePubKey(false, old(View()), oldPub, newPub)
        case Ok(st) => r == Ok(()) && View() == st
        case Err(e) => r == Err(e) && View() == old(View())
    {
      if oldPub !in index {
        return Err(UnknownAccount);
      }
      var id := index[oldPub];
      index := index - {oldPub};
      accounts := accounts[id := accounts[id].(pubkey := Some(newPub))];
      index := index[newPub := id];
      r := Ok(());
    }

    method BindPubKey(id: int64, pub: Bytes) returns (r: Result<(), Error>)
      modifies this`accounts, this`index
      ensures match SetPubKey(false, old(View()), id, pub)
        case Ok(st) => r == Ok(()) && View() == st
        case Err(e) => r == Err(e) && View() == old(View())
    {
      if id !in accounts {
        return Err(UnknownAccount);
      }
      if accounts[id].pubkey.Some? {
        index := index - {accounts[id].pubkey.value};
      }
      accounts := accounts[id := accounts[id].(pubkey := Some(pub))];
      index := index[pub := id];
      r := Ok(());
    }

    method InsertTx(tx: Transaction) returns (r: Result<(), Error>)
      modifies this`txs
      ensures r == if HasHash(Entries(old(txs)), tx.txHash) then Err(DuplicateTxHash) else Ok(())
      ensures txs == if r.Ok? then old(txs) + [tx] else old(txs)
    {
      ghost var log := Entries(txs);
      for i := 0 to |txs|
        invariant forall j :: 0 <= j < i ==> log[j].txHash != tx.txHash
      {
        assert log[i] == txs[i].Value();
        if txs[i].txHash == tx.txHash {
          return Err(DuplicateTxHash);
        }
      }
      txs := txs + [tx];
      r := Ok(());
    }

    method GenesisExists() returns (found: bool)
      ensures found == HasGenesis(Entries(txs))
    {
      ghost var log := Entries(txs);
      for i := 0 to |txs|
        invariant forall j :: 0 <= j < i ==> log[j].request.txType != Genesis
      {
        assert log[i] == txs[i].Value();
        if txs[i].request.txType == Genesis {
          return true;
        }
      }
      found := false;
    }

    // Sums in any order, wrapping at every addition.
    method TotalBalance() returns (total: int64)
      ensures total == Wrap64(Total(accounts))
    {
      total := 0;
      var rest := accounts.Keys;
      while rest != {}
        invariant rest <= accounts.Keys
        invariant Wrap64(total + SumOver(accounts, rest)) == Wrap64(Total(accounts))
      {
        var d :| d in rest;
        SumRemove(accounts, rest, d);
        WrapAdds(total + accounts[d].balance, SumOver(accounts, rest - {d}));
        total := Wrap64(total + accounts[d].balance);
        rest := rest - {d};
      }
    }
  }

  // How a payload step reports: the effect on success; on refusal only the error counts,
  // because the transaction is then dropped.
  ghost predicate Did(e: Result<Ledger, Error>, r: Result<(), Error>, st: Ledger) {
    match e
    case Ok(st') => r == Ok(()) && st == st'
    case Err(error) => r == Err(error)
  }

  method ApplyGenesis(env: Env, t: MemTx, tx: Transaction) returns (r: Result<(), Error>)
    modifies t`accounts, t`index
    ensures Did(GenesisEffect(env, false, old(t.View()), tx.request), r, t.View())
  {
    var found := t.GenesisExists();
    if found {
      return Err(Error.GenesisExists);
    }
    var decoded := env.genesisOf(tx.request.payload);
    if decoded.None? {
      return Err(BadPayload);
    }
    var p := decoded.value;
    if |p.to| != PUBKEY_LEN {
      return Err(BadPubKey);
    }
    if p.amount != SUPPLY_CAP {
      return Err(GenesisAmount);
    }
    if tx.request.signer != p.to {
      return Err(GenesisSigner);
    }
    t.UpsertAccount(Account(TREASURY, Some(p.to), 0, SUPPLY_CAP));
    r := Ok(());
  }

  method UpsertPair(t: MemTx, a: Account, b: Account)
    modifies t`accounts, t`index
    ensures UpsertBoth(false, old(t.View()), a, b) == Ok(t.View())
  {
    t.UpsertAccount(a);
    t.UpsertAccount(b);
  }

  method ApplyTransfer(env: Env, t: MemTx, tx: Transaction) returns (r: Result<(), Error>)
    modifies t`accounts, t`index
    ensures Did(TransferEffect(env, false, old(t.View()), tx.request), r, t.View())
  {
    var decoded := env.transferOf(tx.request.payload);
    if decoded.None? {
      return Err(BadPayload);
    }
    var p := decoded.value;
    if p.amount <= 0 {
      return Err(BadAmount);
    }
    if p.toId <= TREASURY {
      return Err(BadDiscourseID);
    }
    if p.from != tx.request.signer {
      return Err(SignerMismatch);
    }
    if |p.from| != PUBKEY_LEN {
      return Err(BadPubKey);
    }
    var sender := t.GetAccountByPubKey(p.from);
    if sender.None? {
      return Err(UnknownAccount);
    }
    var from := sender.value;
    if from.id == p.toId {
      return Err(SelfTransfer);
    }
    if p.nonce != Wrap64(from.nonce + 1) {
      return Err(BadNonce);
    }
    if from.balance < p.amount {
      return Err(InsufficientFunds);
    }
    var found := t.GetAccountByDiscourseID(p.toId);
    var to := if found.Some? then found.value else Account(p.toId, None, 0, 0);
    from := from.(balance := Wrap64(from.balance - p.amount), nonce := p.nonce);
    to := to.(balance := Wrap64(to.balance + p.amount));
    assert TransferEffect(env, false, t.View(), tx.request) == UpsertBoth(false, t.View(), from, to);
    UpsertPair(t, from, to);
    r := Ok(());
  }

  method ApplyRotateKey(env: Env, t: MemTx, tx: Transaction) returns (r: Result<(), Error>)
    requires Sound(t.View())
    modifies t`accounts, t`index
    ensures Did(RotateEffect(env, false, old(t.View()), tx.request), r, t.View())
  {
    var decoded := env.rotateOf(tx.request.payload);
    if decoded.None? {
      return Err(BadPayload);
    }
    var p := decoded.value;
    if |p.oldPub| != PUBKEY_LEN || |p.newPub| != PUBKEY_LEN {
      return Err(BadPubKey);
    }
    if tx.request.signer != p.oldPub {
      return Err(SignerMismatch);
    }
    var found := t.GetAccountByPubKey(p.oldPub);
    if found.None? {
      return Err(UnknownAccount);
    }
    if p.nonce != Wrap64(found.value.nonce + 1) {
      return Err(BadNonce);
    }
    var bumped := found.value.(nonce := p.nonce);
    UpsertSound(false, t.View(), bumped);
    t.UpsertAccount(bumped);
    r := t.ReplacePubKey(p.oldPub, p.newPub);
  }

  // The checks of a reclaim, in their order, and the two accounts as they are to be written.
  method ReclaimSides(env: Env, t: MemTx, tx: Transaction) returns (r: Result<(Account, Account), Error>)
    ensures ReclaimEffect(env, false, t.View(), tx.request) ==
      if r.Err? then Err(r.error) else UpsertBoth(false, t.View(), r.value.0, r.value.1)
  {
    var decoded := env.reclaimOf(tx.request.payload);
    if decoded.None? {
      return Err(BadPayload);
    }
    var p := decoded.value;
    if p.amount <= 0 {
      return Err(BadAmount);
    }
    if p.fromId >= TREASURY {
      return Err(BadDiscourseID);
    }
    if |p.admin| != PUBKEY_LEN {
      return Err(BadPubKey);
    }
    if tx.request.signer != p.admin {
      return Err(SignerMismatch);
    }
    var foundAdmin := t.GetAccountByPubKey(p.admin);
    if foundAdmin.None? || foundAdmin.value.id != TREASURY {
      return Err(UnknownAccount);
    }
    var admin := foundAdmin.value;
    if p.nonce != Wrap64(admin.nonce + 1) {
      return Err(BadNonce);
    }
    var found := t.GetAccountByDiscourseID(p.fromId);
    if found.None? {
      return Err(UnknownAccount);
    }
    var from := found.value;
    if from.pubkey.Some? && |from.pubkey.value| > 0 {
      return Err(BadDiscourseID);
    }
    if from.balance < p.amount {
      return Err(InsufficientFunds);
    }
    r := Ok((from.(balance := Wrap64(from.balance - p.amount)),
             admin.(balance := Wrap64(admin.balance + p.amount), nonce := p.nonce)));
  }

  method ApplyReclaimInvalid(env: Env, t: MemTx, tx: Transaction) returns (r: Result<(), Error>)
    modifies t`accounts, t`index
    ensures Did(ReclaimEffect(env, false, old(t.View()), tx.request), r, t.View())
  {
    var sides := ReclaimSides(env, t, tx);
    if sides.Err? {
      return Err(sides.error);
    }
    UpsertPair(t, sides.value.0, sides.value.1);
    r := Ok(());
  }

  lemma EntriesSnoc(txs: seq<Transaction>, tx: Transaction)
    ensures Entries(txs + [tx]) == Entries(txs) + [tx.Value()]
  {
    assert (txs + [tx])[..|txs|] == txs;
  }

  // Position and hashes of the new entry, written into the caller's object.
  method Chain(env: Env, t: MemTx, tx: Transaction) returns (r: Result<(), Error>)
    requires tx !in t.txs
    modifies tx
    ensures Entries(t.txs) == old(Entries(t.txs))
    ensures r == Chained(env, Entries(t.txs), tx.request)
    ensures r.Ok? ==> tx.Value() == NewEntry(env, Entries(t.txs), tx.request)
  {
    ghost var log := Entries(t.txs);
    if |t.txs| == 0 {
      if tx.request.txType != Genesis {
        return Err(FirstMustBeGenesis);
      }
      tx.leafIndex, tx.prevHash := 0, Zeros(HASH_LEN);
    } else {
      var last := t.txs[|t.txs| - 1];
      assert last.Value() == log[|log| - 1];
      if tx.request.txType == Genesis {
        return Err(Error.GenesisExists);
      }
      tx.leafIndex, tx.prevHash := Wrap64(last.leafIndex + 1), last.txHash;
    }
    assert Entries(t.txs) == log;
    var built := Build(env, tx.request, tx.prevHash);
    if built.Err? {
      return Err(built.error);
    }
    tx.txHash := built.value;
    assert Entries(t.txs) == log;
    r := Ok(());
  }

  method ApplyPayload(env: Env, t: MemTx, tx: Transaction) returns (r: Result<(), Error>)
    requires Sound(t.View())
    modifies t`accounts, t`index
    ensures Did(Effect(env, false, old(t.View()), tx.request), r, t.View())
  {
    match tx.request.txType {
      case Genesis => r := ApplyGenesis(env, t, tx);
      case Transfer => r := ApplyTransfer(env, t, tx);
      case RotateKey => r := ApplyRotateKey(env, t, tx);
      case ReclaimInvalid => r := ApplyReclaimInvalid(env, t, tx);
      case Other(_) => r := Err(UnknownTxType);
    }
  }

  // Appends the object, re-sums the supply where the type asks for it, and commits.
  method Finish(t: MemTx, tx: Transaction) returns (r: Result<(), Error>)
    requires !t.done && tx !in t.txs
    modifies t, t.parent
    ensures r == Admitted(old(Entries(t.txs)), tx.txHash, RequiresFullSupplyCheck(tx.request.txType), old(t.accounts))
    ensures r.Err? ==> unchanged(t.parent)
    ensures r.Ok? ==>
      t.parent.accounts == old(t.accounts) && t.parent.index == old(t.index) && t.parent.txs == old(t.txs) + [tx]
  {
    r := t.InsertTx(tx);
    if r.Err? {
      return;
    }
    if RequiresFullSupplyCheck(tx.request.txType) {
      var total := t.TotalBalance();
      if total != SUPPLY_CAP {
        return Err(SupplyViolated);
      }
    }
    r := t.Commit();
  }

  // The whole outcome of Apply on the store: the specified next state, or no change.
  ghost predicate Outcome(e: Result<Ledger, Error>, r: Result<(), Error>, before: Ledger, after: Ledger) {
    match e
    case Ok(st) => r == Ok(()) && after == st
    case Err(error) => r == Err(error) && after == before
  }

  // How the specified outcome is put together, for a request that continues the log.
  lemma ApplyConcludes(env: Env, st: Ledger, r: Request, e: Result<Ledger, Error>, entry: Entry,
                       answer: Result<(), Error>, after: Ledger)
    requires Sound(st) && VerifySig(env, r) && Chained(env, st.log, r) == Ok(()) && e == Effect(env, false, st, r)
    requires entry == NewEntry(env, st.log, r)
    requires e.Err? ==> answer == Err(e.error)
    requires e.Ok? ==> answer == Admitted(st.log, entry.txHash, RequiresFullSupplyCheck(r.txType), e.value.accounts)
    requires after == if answer.Ok? then Ledger(e.value.accounts, e.value.index, st.log + [entry]) else st
    ensures Outcome(ApplyTo(env, false, st, r), answer, st, after)
  {
  }

  // The part of Apply that runs on a chained transaction object: the payload takes effect on
  // the copy, the object is appended, and the copy replaces the store.
  method Persist(env: Env, s: MemStore, t: MemTx, tx: Transaction, ghost e: Result<Ledger, Error>)
    returns (r: Result<(), Error>)
    requires t.parent == s && !t.done && t.View() == s.View() && t.txs == s.txs && tx !in s.txs && Sound(s.View())
    requires e == Effect(env, false, s.View(), tx.request)
    modifies s, t
    ensures e.Err? ==> r == Err(e.error)
    ensures e.Ok? ==>
      r == Admitted(old(s.View()).log, tx.txHash, RequiresFullSupplyCheck(tx.request.txType), e.value.accounts)
    ensures r.Ok? ==> s.View() == Ledger(e.value.accounts, e.value.index, old(s.View()).log + [tx.Value()])
    ensures if r.Ok? then s.txs == old(s.txs) + [tx] else unchanged(s)
  {
    ghost var st := s.View();
    r := ApplyPayload(env, t, tx);
    assert s.View() == st && Entries(t.txs) == st.log && Did(e, r, t.View());
    if r.Err? {
      return;
    }
    EntriesSnoc(s.txs, tx);
    r := Finish(t, tx);
  }

  // Apply after its signature check.
  method ApplySigned(env: Env, s: MemStore, tx: Transaction) returns (r: Result<(), Error>)
    requires Sound(s.View()) && tx !in s.txs && VerifySig(env, tx.request)
    modifies s, tx
    ensures Outcome(ApplyTo(env, false, old(s.View()), tx.request), r, old(s.View()), s.View())
    ensures if r.Ok? then s.txs == old(s.txs) + [tx] else unchanged(s)
    ensures r.Ok? ==> tx.Value() == NewEntry(env, old(s.View()).log, tx.request)
  {
    var t := s.Begin();
    ghost var st := s.View();
    r := Chain(env, t, tx);
    assert s.View() == st && t.View() == st;
    if r.Err? {
      return;
    }
    ghost var e := Effect(env, false, st, tx.request);
    r := Persist(env, s, t, tx, e);
    ApplyConcludes(env, st, tx.request, e, tx.Value(), r, s.View());
  }

  // Validates and persists a transaction object that is not yet in the log. Either it is
  // refused and the store is as before, or exactly this one entry is appended. The object's
  // own index and hashes are overwritten in both cases once the signature has been checked.
  method Apply(env: Env, s: MemStore, tx: Transaction) returns (r: Result<(), Error>)
    requires Sound(s.View()) && tx !in s.txs
    modifies s, tx
    ensures Outcome(ApplyTo(env, false, old(s.View()), tx.request), r, old(s.View()), s.View())
    ensures if r.Ok? then s.txs == old(s.txs) + [tx] else unchanged(s)
    ensures r.Ok? ==> tx.Value() == NewEntry(env, old(s.View()).log, tx.request)
    ensures !env.verify(tx.request.signer, tx.request.payload, tx.request.sig) ==> r == Err(BadSig)
    ensures |tx.request.signer| != 32 || |tx.request.sig| != 64 ==> r == Err(BadSig)
  {
    if !VerifySig(env, tx.request) {
      return Err(BadSig);
    }
    r := ApplySigned(env, s, tx);
  }

  // Binds a wallet key to a resolved user: create, activate, repeat or conflict.
  method Register(s: MemStore, id: int64, pub: Bytes) returns (r: Result<(), Error>)
    modifies s
    ensures Outcome(RegisterTo(false, old(s.View()), id, pub), r, old(s.View()), s.View())
    ensures s.txs == old(s.txs)
  {
    if |pub| != PUBKEY_LEN {
      return Err(BadPubKey);
    }
    if id == TREASURY {
      return Err(BadDiscourseID);
    }
    var t := s.Begin();
    assert t.View() == s.View();
    ghost var e := RegisterTo(false, s.View(), id, pub);
    var existing := t.GetAccountByDiscourseID(id);
    if existing.None? {
      t.UpsertAccount(Account(id, Some(pub), 0, 0));
      assert e == Ok(t.View());
      r := t.Commit();
    } else if existing.value.pubkey.None? || |existing.value.pubkey.value| == 0 {
      r := t.BindPubKey(id, pub);
      if r.Err? {
        return;
      }
      assert e == Ok(t.View());
      r := t.Commit();
    } else if existing.value.pubkey.value == pub {
      r := Ok(());
    } else {
      r := Err(PubKeyConflict);
    }
  }
}
