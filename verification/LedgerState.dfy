/**
  The ledger as a value: accounts, the pubkey index and the log, with the effect of every
  store operation, of Apply and of registration. MemStore.dfy proves that the mutable
  store does exactly this; LedgerLaws.dfy proves what it keeps.

  `unique` says whether the store refuses a pubkey that another account holds: the
  Postgres schema does, MemStore does not.
 */
module LedgerState {
  import opened Wrappers
  import opened ByteStrings
  import opened Tx

  // Usernames are left out: they are for display only.
  datatype Account = Account(id: int64, pubkey: Option<Bytes>, nonce: int64, balance: int64)

  type Accounts = map<int64, Account>

  datatype Ledger = Ledger(accounts: Accounts, index: map<Bytes, int64>, log: seq<Entry>)

  const EMPTY: Ledger := Ledger(map[], map[], [])

  // Every account is filed under its id, and every index entry leads to an account that
  // carries that key. Holds of every store, with or without the unique-pubkey guard.
  ghost predicate Sound(st: Ledger) {
    && (forall d :: d in st.accounts ==> st.accounts[d].id == d)
    && (forall p :: p in st.index ==> st.index[p] in st.accounts && st.accounts[st.index[p]].pubkey == Some(p))
  }

  // The index is the exact inverse of the accounts' keys.
  ghost predicate Inverse(st: Ledger) {
    && Sound(st)
    && forall d :: d in st.accounts && st.accounts[d].pubkey.Some? ==>
         var p := st.accounts[d].pubkey.value; p in st.index && st.index[p] == d
  }

  ghost predicate HeldByOther(st: Ledger, id: int64, pub: Bytes) {
    exists d :: d in st.accounts && d != id && st.accounts[d].pubkey == Some(pub)
  }

  // ---------- Sums over the accounts ----------

  ghost function SumOver(accounts: Accounts, ids: set<int64>): int
    requires ids <= accounts.Keys
    decreases |ids|
  {
    if ids == {} then 0 else var d :| d in ids; accounts[d].balance + SumOver(accounts, ids - {d})
  }

  ghost function Total(accounts: Accounts): int {
    SumOver(accounts, accounts.Keys)
  }

  // ---------- Store operations ----------

  function AccountByPubKey(st: Ledger, pub: Bytes): Option<Account> {
    if pub != [] && pub in st.index && st.index[pub] in st.accounts then Some(st.accounts[st.index[pub]]) else None
  }

  function AccountById(st: Ledger, id: int64): Option<Account> {
    if id in st.accounts then Some(st.accounts[id]) else None
  }

  function Unindex(st: Ledger, id: int64): map<Bytes, int64> {
    if id in st.accounts && st.accounts[id].pubkey.Some? then st.index - {st.accounts[id].pubkey.value} else st.index
  }

  ghost function Upsert(unique: bool, st: Ledger, a: Account): Result<Ledger, Error> {
    if unique && a.pubkey.Some? && HeldByOther(st, a.id, a.pubkey.value) then Err(DuplicatePubKey) else
    var index := Unindex(st, a.id);
    Ok(Ledger(
      st.accounts[a.id := a],
      if a.pubkey.Some? && a.pubkey.value != [] then index[a.pubkey.value := a.id] else index,
      st.log))
  }

  ghost function UpdatePubKey(unique: bool, st: Ledger, oldPub: Bytes, newPub: Bytes): Result<Ledger, Error>
    requires Sound(st)
  {
    if oldPub !in st.index then Err(UnknownAccount) else
    var id := st.index[oldPub];
    if unique && HeldByOther(st, id, newPub) then Err(DuplicatePubKey) else
    Ok(Ledger(
      st.accounts[id := st.accounts[id].(pubkey := Some(newPub))],
      (st.index - {oldPub})[newPub := id],
      st.log))
  }

  ghost function SetPubKey(unique: bool, st: Ledger, id: int64, pub: Bytes): Result<Ledger, Error> {
    if id !in st.accounts then Err(UnknownAccount)
    else if unique && HeldByOther(st, id, pub) then Err(DuplicatePubKey)
    else Ok(Ledger(
      st.accounts[id := st.accounts[id].(pubkey := Some(pub))],
      Unindex(st, id)[pub := id],
      st.log))
  }

  // ---------- Apply ----------

  function PrevHash(log: seq<Entry>): Bytes {
    if log == [] then Zeros(HASH_LEN) else log[|log| - 1].txHash
  }

  function NextIndex(log: seq<Entry>): int64 {
    if log == [] then 0 else Wrap64(log[|log| - 1].leafIndex + 1)
  }

  function NewEntry(env: Env, log: seq<Entry>, r: Request): Entry {
    Entry(NextIndex(log), r, PrevHash(log), TxHash(env, r.payload, r.sig, PrevHash(log)))
  }

  predicate HasHash(log: seq<Entry>, txHash: Bytes) {
    exists i :: 0 <= i < |log| && log[i].txHash == txHash
  }

  predicate HasGenesis(log: seq<Entry>) {
    exists i :: 0 <= i < |log| && log[i].request.txType == Genesis
  }

  ghost function GenesisEffect(env: Env, unique: bool, st: Ledger, r: Request): Result<Ledger, Error> {
    if HasGenesis(st.log) then Err(GenesisExists) else
    match env.genesisOf(r.payload)
    case None => Err(BadPayload)
    case Some(p) =>
      if |p.to| != PUBKEY_LEN then Err(BadPubKey)
      else if p.amount != SUPPLY_CAP then Err(GenesisAmount)
      else if r.signer != p.to then Err(GenesisSigner)
      else Upsert(unique, st, Account(TREASURY, Some(p.to), 0, SUPPLY_CAP))
  }

  ghost function UpsertBoth(unique: bool, st: Ledger, a: Account, b: Account): Result<Ledger, Error> {
    match Upsert(unique, st, a)
    case Err(e) => Err(e)
    case Ok(st') => Upsert(unique, st', b)
  }

  ghost function TransferEffect(env: Env, unique: bool, st: Ledger, r: Request): Result<Ledger, Error> {
    match env.transferOf(r.payload)
    case None => Err(BadPayload)
    case Some(p) =>
      if p.amount <= 0 then Err(BadAmount)
      else if p.toId <= TREASURY then Err(BadDiscourseID)
      else if p.from != r.signer then Err(SignerMismatch)
      else if |p.from| != PUBKEY_LEN then Err(BadPubKey)
      else match AccountByPubKey(st, p.from)
      case None => Err(UnknownAccount)
      case Some(from) =>
        if from.id == p.toId then Err(SelfTransfer)
        else if p.nonce != Wrap64(from.nonce + 1) then Err(BadNonce)
        else if from.balance < p.amount then Err(InsufficientFunds)
        else
          var to := AccountById(st, p.toId);
          var payee := if to.Some? then to.value else Account(p.toId, None, 0, 0);
          UpsertBoth(unique, st,
                     from.(balance := Wrap64(from.balance - p.amount), nonce := p.nonce),
                     payee.(balance := Wrap64(payee.balance + p.amount)))
  }

  ghost function RotateEffect(env: Env, unique: bool, st: Ledger, r: Request): Result<Ledger, Error>
    requires Sound(st)
  {
    match env.rotateOf(r.payload)
    case None => Err(BadPayload)
    case Some(p) =>
      if |p.oldPub| != PUBKEY_LEN || |p.newPub| != PUBKEY_LEN then Err(BadPubKey)
      else if r.signer != p.oldPub then Err(SignerMismatch)
      else match AccountByPubKey(st, p.oldPub)
      case None => Err(UnknownAccount)
      case Some(owner) =>
        if p.nonce != Wrap64(owner.nonce + 1) then Err(BadNonce)
        else match Upsert(unique, st, owner.(nonce := p.nonce))
        case Err(e) => Err(e)
        case Ok(st') =>
          UpsertSound(unique, st, owner.(nonce := p.nonce));
          UpdatePubKey(unique, st', p.oldPub, p.newPub)
  }

  ghost function ReclaimEffect(env: Env, unique: bool, st: Ledger, r: Request): Result<Ledger, Error> {
    match env.reclaimOf(r.payload)
    case None => Err(BadPayload)
    case Some(p) =>
      if p.amount <= 0 then Err(BadAmount)
      else if p.fromId >= TREASURY then Err(BadDiscourseID)
      else if |p.admin| != PUBKEY_LEN then Err(BadPubKey)
      else if r.signer != p.admin then Err(SignerMismatch)
      else match AccountByPubKey(st, p.admin)
      case None => Err(UnknownAccount)
      case Some(admin) =>
        if admin.id != TREASURY then Err(UnknownAccount)
        else if p.nonce != Wrap64(admin.nonce + 1) then Err(BadNonce)
        else match AccountById(st, p.fromId)
        case None => Err(UnknownAccount)
        case Some(from) =>
          if from.pubkey.Some? && from.pubkey.value != [] then Err(BadDiscourseID)
          else if from.balance < p.amount then Err(InsufficientFunds)
          else UpsertBoth(unique, st,
                          from.(balance := Wrap64(from.balance - p.amount)),
                          admin.(balance := Wrap64(admin.balance + p.amount), nonce := p.nonce))
  }

  ghost function Effect(env: Env, unique: bool, st: Ledger, r: Request): Result<Ledger, Error>
    requires Sound(st)
  {
    match r.txType
    case Genesis => GenesisEffect(env, unique, st, r)
    case Transfer => TransferEffect(env, unique, st, r)
    case RotateKey => RotateEffect(env, unique, st, r)
    case ReclaimInvalid => ReclaimEffect(env, unique, st, r)
    case Other(_) => Err(UnknownTxType)
  }

  predicate RequiresFullSupplyCheck(t: TxType) {
    t == Genesis || t == ReclaimInvalid
  }

  // The checks against the end of the log, before the payload is looked at.
  function Chained(env: Env, log: seq<Entry>, r: Request): Result<(), Error> {
    if log == [] && r.txType != Genesis then Err(FirstMustBeGenesis)
    else if log != [] && r.txType == Genesis then Err(GenesisExists)
    else match Build(env, r, PrevHash(log))
    case Err(e) => Err(e)
    case Ok(_) => Ok(())
  }

  // The checks after the payload has taken effect, before the commit.
  ghost function Admitted(log: seq<Entry>, txHash: Bytes, recheck: bool, accounts: Accounts): Result<(), Error> {
    if HasHash(log, txHash) then Err(DuplicateTxHash)
    else if recheck && Wrap64(Total(accounts)) != SUPPLY_CAP then Err(SupplyViolated)
    else Ok(())
  }

  // Apply, with the decision to re-sum the supply as a parameter.
  ghost function ApplyChecking(env: Env, unique: bool, st: Ledger, r: Request, recheck: bool): Result<Ledger, Error>
    requires Sound(st)
  {
    if !VerifySig(env, r) then Err(BadSig)
    else match Chained(env, st.log, r)
    case Err(e) => Err(e)
    case Ok(_) =>
      match Effect(env, unique, st, r)
      case Err(e) => Err(e)
      case Ok(st') =>
        var entry := NewEntry(env, st.log, r);
        match Admitted(st.log, entry.txHash, recheck, st'.accounts)
        case Err(e) => Err(e)
        case Ok(_) => Ok(Ledger(st'.accounts, st'.index, st.log + [entry]))
  }

  ghost function ApplyTo(env: Env, unique: bool, st: Ledger, r: Request): Result<Ledger, Error>
    requires Sound(st)
  {
    ApplyChecking(env, unique, st, r, RequiresFullSupplyCheck(r.txType))
  }

  // ---------- Registration ----------

  // The four branches of register, for an already resolved user.
  ghost function RegisterTo(unique: bool, st: Ledger, id: int64, pub: Bytes): Result<Ledger, Error> {
    if |pub| != PUBKEY_LEN then Err(BadPubKey)
    else if id == TREASURY then Err(BadDiscourseID)
    else match AccountById(st, id)
    case None => Upsert(unique, st, Account(id, Some(pub), 0, 0))
    case Some(a) =>
      if a.pubkey.None? || a.pubkey.value == [] then SetPubKey(unique, st, id, pub)
      else if a.pubkey.value == pub then Ok(st)
      else Err(PubKeyConflict)
  }

  // ---------- Soundness of the store operations ----------

  lemma UpsertSound(unique: bool, st: Ledger, a: Account)
    requires Sound(st)
    ensures var r := Upsert(unique, st, a); r.Ok? ==> Sound(r.value)
  {
  }

  lemma UpdatePubKeySound(unique: bool, st: Ledger, oldPub: Bytes, newPub: Bytes)
    requires Sound(st)
    ensures var r := UpdatePubKey(unique, st, oldPub, newPub); r.Ok? ==> Sound(r.value)
  {
  }

  lemma SetPubKeySound(unique: bool, st: Ledger, id: int64, pub: Bytes)
    requires Sound(st)
    ensures var r := SetPubKey(unique, st, id, pub); r.Ok? ==> Sound(r.value)
  {
  }
}
