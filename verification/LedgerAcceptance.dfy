/**
  Which requests the ledger accepts, spelled out condition by condition, and what an
  accepted one proves: signatures, key changes and the re-summed supply.
 */
module LedgerAcceptance {
  import opened Wrappers
  import opened ByteStrings
  import opened Tx
  import opened LedgerState
  import opened LedgerLaws
  import LedgerRuns

  // ---------- Signatures ----------

  // Nothing is accepted, and nothing is looked at, without a valid signature of full length.
  lemma UnsignedIsRefused(env: Env, unique: bool, st: Ledger, r: Request)
    requires Sound(st)
    ensures ApplyTo(env, unique, st, r) == Err(BadSig)
      <==> |r.signer| != 32 || |r.sig| != 64 || !env.verify(r.signer, r.payload, r.sig)
  {
  }

  // Every entry of every log a run reaches is signed, hashed and chained as the log shows it.
  lemma LogIsSigned(env: Env, unique: bool, steps: seq<LedgerRuns.Step>, i: nat)
    ensures var log := LedgerRuns.Reached(env, unique, steps).log;
      i < |log| ==>
        var (e, r) := (log[i], log[i].request);
        && |r.signer| == 32 && |r.sig| == 64 && env.verify(r.signer, r.payload, r.sig)
        && e.txHash == env.sha(r.payload + r.sig + e.prevHash)
        && e.prevHash == (if i == 0 then seq(32, j => 0 as byte) else log[i - 1].txHash)
  {
    var log := LedgerRuns.Reached(env, unique, steps).log;
    if i < |log| {
      assert EntryOk(env, log, i);
      assert Zeros(HASH_LEN) == seq(32, j => 0 as byte);
    }
  }

  // ---------- What is accepted ----------

  // The signature, and a hash that no entry has yet.
  ghost predicate Admissible(env: Env, log: seq<Entry>, r: Request) {
    && |r.signer| == 32 && |r.sig| == 64 && env.verify(r.signer, r.payload, r.sig)
    && forall i :: 0 <= i < |log| ==>
         log[i].txHash != env.sha(r.payload + r.sig + (if log == [] then Zeros(32) else log[|log| - 1].txHash))
  }

  // The account that the signer's key leads to, if any.
  ghost predicate SignedBy(st: Ledger, r: Request, a: Account) {
    r.signer in st.index && st.index[r.signer] in st.accounts && st.accounts[st.index[r.signer]] == a
  }

  // An account that keeps its key meets no other holder of it.
  lemma KeepsOwnKey(st: Ledger, a: Account)
    requires Inverse(st) && a.id in st.accounts && a.pubkey == st.accounts[a.id].pubkey
    ensures a.pubkey.Some? ==> !HeldByOther(st, a.id, a.pubkey.value)
  {
  }

  predicate OwnKey(st: Ledger, a: Account) {
    if a.id in st.accounts then a.pubkey == st.accounts[a.id].pubkey else a.pubkey.None?
  }

  lemma OwnKeysUpsert(unique: bool, st: Ledger, a: Account, b: Account)
    requires Inverse(st) && OwnKey(st, a) && OwnKey(st, b) && a.id != b.id && a.id in st.accounts
    ensures UpsertBoth(unique, st, a, b).Ok?
  {
    KeepsOwnKey(st, a);
    var mid := Upsert(unique, st, a).value;
    assert forall d :: d in mid.accounts ==> mid.accounts[d].pubkey == st.accounts[d].pubkey;
  }

  // On a good ledger an effect that succeeds is accepted if the request is admissible.
  lemma EffectDecides(env: Env, unique: bool, st: Ledger, r: Request)
    requires Inv(env, st) && (r.txType == Genesis <==> st.log == [])
    ensures ApplyTo(env, unique, st, r).Ok? <==> Admissible(env, st.log, r) && Effect(env, unique, st, r).Ok?
  {
    PartialCheckIsFullCheck(env, unique, st, r);
    if st.log != [] {
      assert EntryOk(env, st.log, |st.log| - 1);
    }
  }

  predicate TransferFits(env: Env, st: Ledger, r: Request, from: Account) {
    && env.transferOf(r.payload).Some?
    && var p := env.transferOf(r.payload).value;
       && p.from == r.signer && p.toId > 0 && p.toId != from.id
       && 0 < p.amount <= from.balance && p.nonce == Wrap64(from.nonce + 1)
  }

  // A transfer is accepted exactly if it is admissible after genesis, its payer signed it
  // with the next nonce, has the amount, and pays another user.
  lemma TransferAccepted(env: Env, unique: bool, st: Ledger, r: Request)
    requires Inv(env, st) && Inverse(st) && r.txType == Transfer
    ensures ApplyTo(env, unique, st, r).Ok? <==>
      && st.log != [] && Admissible(env, st.log, r)
      && exists from :: SignedBy(st, r, from) && TransferFits(env, st, r, from)
  {
    if st.log != [] && Admissible(env, st.log, r) {
      EffectDecides(env, unique, st, r);
      TransferEffectOk(env, unique, st, r);
    }
  }

  lemma TransferEffectOk(env: Env, unique: bool, st: Ledger, r: Request)
    requires Inverse(st) && |r.signer| == 32
    ensures TransferEffect(env, unique, st, r).Ok? <==>
      exists from :: SignedBy(st, r, from) && TransferFits(env, st, r, from)
  {
    if r.signer in st.index {
      var from := st.accounts[st.index[r.signer]];
      assert SignedBy(st, r, from);
      if TransferFits(env, st, r, from) {
        var p := env.transferOf(r.payload).value;
        var to := AccountById(st, p.toId);
        var payee := if to.Some? then to.value else Account(p.toId, None, 0, 0);
        OwnKeysUpsert(unique, st, from.(balance := Wrap64(from.balance - p.amount), nonce := p.nonce),
                      payee.(balance := Wrap64(payee.balance + p.amount)));
      }
    }
  }

  // Why a transfer is refused: each reason, all reasons before it being met.
  lemma TransferRefusals(env: Env, unique: bool, st: Ledger, r: Request, p: TransferPayload)
    requires Inv(env, st) && r.txType == Transfer && st.log != []
    requires |r.signer| == 32 && |r.sig| == 64 && env.verify(r.signer, r.payload, r.sig)
    requires env.transferOf(r.payload) == Some(p)
    ensures var e := ApplyTo(env, unique, st, r);
      && (p.amount <= 0 ==> e == Err(BadAmount))
      && (p.amount > 0 && p.toId <= 0 ==> e == Err(BadDiscourseID))
      && (p.amount > 0 && p.toId > 0 ==>
           && (p.from != r.signer ==> e == Err(SignerMismatch))
           && (p.from == r.signer && r.signer !in st.index ==> e == Err(UnknownAccount))
           && (p.from == r.signer && r.signer in st.index ==>
                var from := st.accounts[st.index[r.signer]];
                && (from.id == p.toId ==> e == Err(SelfTransfer))
                && (from.id != p.toId && p.nonce != Wrap64(from.nonce + 1) ==> e == Err(BadNonce))
                && (from.id != p.toId && p.nonce == Wrap64(from.nonce + 1) && from.balance < p.amount ==>
                      e == Err(InsufficientFunds))))
  {
    assert EntryOk(env, st.log, |st.log| - 1);
  }

  predicate ReclaimFits(env: Env, st: Ledger, r: Request, admin: Account) {
    && env.reclaimOf(r.payload).Some?
    && var p := env.reclaimOf(r.payload).value;
       && p.admin == r.signer && admin.id == 0 && p.nonce == Wrap64(admin.nonce + 1)
       && p.fromId < 0 && p.fromId in st.accounts
       && st.accounts[p.fromId].pubkey in {None, Some([])} && 0 < p.amount <= st.accounts[p.fromId].balance
  }

  // A reclaim is accepted exactly if it is admissible after genesis, the treasury signed it
  // with its next nonce, and the keyless account with a negative id has the amount.
  lemma ReclaimAccepted(env: Env, unique: bool, st: Ledger, r: Request)
    requires Inv(env, st) && Inverse(st) && r.txType == ReclaimInvalid
    ensures ApplyTo(env, unique, st, r).Ok? <==>
      && st.log != [] && Admissible(env, st.log, r)
      && exists admin :: SignedBy(st, r, admin) && ReclaimFits(env, st, r, admin)
  {
    if st.log != [] && Admissible(env, st.log, r) {
      EffectDecides(env, unique, st, r);
      ReclaimEffectOk(env, unique, st, r);
    }
  }

  lemma ReclaimEffectOk(env: Env, unique: bool, st: Ledger, r: Request)
    requires Inverse(st) && |r.signer| == 32
    ensures ReclaimEffect(env, unique, st, r).Ok? <==>
      exists admin :: SignedBy(st, r, admin) && ReclaimFits(env, st, r, admin)
  {
    if r.signer in st.index {
      var admin := st.accounts[st.index[r.signer]];
      assert SignedBy(st, r, admin);
      if ReclaimFits(env, st, r, admin) {
        var p := env.reclaimOf(r.payload).value;
        var from := st.accounts[p.fromId];
        OwnKeysUpsert(unique, st, from.(balance := Wrap64(from.balance - p.amount)),
                      admin.(balance := Wrap64(admin.balance + p.amount), nonce := p.nonce));
      }
    }
  }

  // The new key is free, where keys must be.
  ghost predicate RotateFits(env: Env, unique: bool, st: Ledger, r: Request, owner: Account) {
    && env.rotateOf(r.payload).Some?
    && var p := env.rotateOf(r.payload).value;
       && p.oldPub == r.signer && |p.newPub| == 32 && p.nonce == Wrap64(owner.nonce + 1)
       && (unique ==> !HeldByOther(st, owner.id, p.newPub))
  }

  // A rotation is accepted exactly if it is admissible after genesis and the owner of the old
  // key signed it with the next nonce, for a key that nobody else holds if keys are unique.
  lemma RotateAccepted(env: Env, unique: bool, st: Ledger, r: Request)
    requires Inv(env, st) && Inverse(st) && r.txType == RotateKey
    ensures ApplyTo(env, unique, st, r).Ok? <==>
      && st.log != [] && Admissible(env, st.log, r)
      && exists owner :: SignedBy(st, r, owner) && RotateFits(env, unique, st, r, owner)
  {
    if st.log != [] && Admissible(env, st.log, r) {
      EffectDecides(env, unique, st, r);
      RotateEffectOk(env, unique, st, r);
    }
  }

  lemma RotateEffectOk(env: Env, unique: bool, st: Ledger, r: Request)
    requires Inverse(st) && |r.signer| == 32
    ensures RotateEffect(env, unique, st, r).Ok? <==>
      exists owner :: SignedBy(st, r, owner) && RotateFits(env, unique, st, r, owner)
  {
    if r.signer in st.index {
      var owner := st.accounts[st.index[r.signer]];
      assert SignedBy(st, r, owner);
      if env.rotateOf(r.payload).Some? {
        var p := env.rotateOf(r.payload).value;
        var bumped := owner.(nonce := p.nonce);
        KeepsOwnKey(st, bumped);
        var mid := Upsert(unique, st, bumped).value;
        assert HeldByOther(mid, owner.id, p.newPub) <==> HeldByOther(st, owner.id, p.newPub) by {
          assert forall d :: d in mid.accounts ==> mid.accounts[d].pubkey == st.accounts[d].pubkey;
        }
      }
    }
  }

  // After a rotation the new key leads to the account of the old one, and the old key, if it
  // is another one, leads nowhere.
  lemma RotationMovesKey(env: Env, unique: bool, st: Ledger, r: Request)
    requires Inv(env, st) && Inverse(st) && r.txType == RotateKey && ApplyTo(env, unique, st, r).Ok?
    ensures env.rotateOf(r.payload).Some? && r.signer in st.index
    ensures var (st', p) := (ApplyTo(env, unique, st, r).value, env.rotateOf(r.payload).value);
      && p.newPub in st'.index && st'.index[p.newPub] == st.index[r.signer]
      && (p.newPub != r.signer ==> r.signer !in st'.index)
      && st.index[r.signer] in st'.accounts && st'.accounts[st.index[r.signer]].pubkey == Some(p.newPub)
  {
    var p := env.rotateOf(r.payload).value;
    var owner := st.accounts[st.index[r.signer]];
    var mid := Upsert(unique, st, owner.(nonce := p.nonce)).value;
    assert RotateEffect(env, unique, st, r) == UpdatePubKey(unique, mid, p.oldPub, p.newPub);
  }

  predicate GenesisFits(env: Env, r: Request) {
    && env.genesisOf(r.payload).Some?
    && env.genesisOf(r.payload).value.to == r.signer && env.genesisOf(r.payload).value.amount == 50_000_000
  }

  // A genesis is accepted exactly on an empty log, if it is admissible, gives the whole supply
  // to its signer, and no user holds that key where keys must be unique.
  lemma GenesisAccepted(env: Env, unique: bool, st: Ledger, r: Request)
    requires Inv(env, st) && r.txType == Genesis
    ensures ApplyTo(env, unique, st, r).Ok? <==>
      && st.log == [] && Admissible(env, st.log, r) && GenesisFits(env, r)
      && (unique ==> !HeldByOther(st, 0, r.signer))
  {
    if st.log == [] && Admissible(env, st.log, r) {
      EffectDecides(env, unique, st, r);
    }
  }

  // No other type is ever accepted.
  lemma OthersRefused(env: Env, unique: bool, st: Ledger, r: Request)
    requires Sound(st) && r.txType.Other?
    ensures ApplyTo(env, unique, st, r).Err?
  {
  }

  // Even on a ledger whose sum is wrong, genesis and reclaim are accepted only onto the cap.
  lemma SupplyRechecked(env: Env, unique: bool, st: Ledger, r: Request)
    requires Sound(st) && (r.txType == Genesis || r.txType == ReclaimInvalid)
    ensures ApplyTo(env, unique, st, r).Ok? ==> Wrap64(Total(ApplyTo(env, unique, st, r).value.accounts)) == 50_000_000
  {
  }

  // ---------- What is moved ----------

  // The only balances that change, and by how much.
  ghost predicate MovesPoints(st: Ledger, st': Ledger, from: int64, to: int64, amount: int) {
    forall id: int64 :: Balance(st', id) ==
      Balance(st, id) + (if id == to then amount else 0) - (if id == from then amount else 0)
  }

  lemma TransferMoves(env: Env, unique: bool, st: Ledger, r: Request)
    requires Inv(env, st) && r.txType == Transfer && ApplyTo(env, unique, st, r).Ok?
    ensures env.transferOf(r.payload).Some? && r.signer in st.index
    ensures var (st', p) := (ApplyTo(env, unique, st, r).value, env.transferOf(r.payload).value);
      && MovesPoints(st, st', st.index[r.signer], p.toId, p.amount)
      && (forall id: int64 :: Nonce(st', id) == if id == st.index[r.signer] then p.nonce else Nonce(st, id))
  {
    ApplyAppends(env, unique, st, r, false);
    TransferPays(env, unique, st, r);
  }

  lemma ReclaimMoves(env: Env, unique: bool, st: Ledger, r: Request)
    requires Inv(env, st) && r.txType == ReclaimInvalid && ApplyTo(env, unique, st, r).Ok?
    ensures env.reclaimOf(r.payload).Some?
    ensures var (st', p) := (ApplyTo(env, unique, st, r).value, env.reclaimOf(r.payload).value);
      && MovesPoints(st, st', p.fromId, 0, p.amount)
      && (forall id: int64 :: Nonce(st', id) == if id == 0 then p.nonce else Nonce(st, id))
  {
    ApplyAppends(env, unique, st, r, true);
    ReclaimPays(env, unique, st, r);
  }

  // ---------- What happens to keys ----------

  // After genesis the signer's key leads to the treasury, which has the whole supply.
  lemma GenesisGrants(env: Env, unique: bool, st: Ledger, r: Request)
    requires Inv(env, st) && r.txType == Genesis && ApplyTo(env, unique, st, r).Ok?
    ensures AccountByPubKey(ApplyTo(env, unique, st, r).value, r.signer)
      == Some(Account(0, Some(r.signer), 0, 50_000_000))
  {
    var p := env.genesisOf(r.payload).value;
    assert GenesisEffect(env, unique, st, r) == Upsert(unique, st, Account(TREASURY, Some(p.to), 0, SUPPLY_CAP));
  }

  // No key moves, and accounts that come in have none.
  ghost predicate KeysKept(st: Ledger, st': Ledger) {
    && st'.index == st.index
    && (forall d :: d in st.accounts ==> d in st'.accounts && st'.accounts[d].pubkey == st.accounts[d].pubkey)
    && (forall d :: d in st'.accounts && d !in st.accounts ==> st'.accounts[d].pubkey.None?)
  }

  lemma OwnKeyKept(unique: bool, st: Ledger, a: Account)
    requires Inverse(st) && OwnKey(st, a) && (a.pubkey.Some? ==> a.pubkey.value != [])
    ensures var e := Upsert(unique, st, a); e.Ok? ==> KeysKept(st, e.value) && Inverse(e.value)
  {
  }

  lemma PairKeepsKeys(unique: bool, st: Ledger, a: Account, b: Account)
    requires LedgerRuns.Indexed(st) && OwnKey(st, a) && OwnKey(st, b) && a.id != b.id
    ensures var e := UpsertBoth(unique, st, a, b); e.Ok? ==> KeysKept(st, e.value)
  {
    var e := Upsert(unique, st, a);
    if e.Ok? {
      OwnKeyKept(unique, st, a);
      OwnKeyKept(unique, e.value, b);
    }
  }

  lemma TransferKeepsKeys(env: Env, unique: bool, st: Ledger, r: Request)
    requires LedgerRuns.Indexed(st)
    ensures var e := TransferEffect(env, unique, st, r); e.Ok? ==> KeysKept(st, e.value)
  {
    if TransferEffect(env, unique, st, r).Ok? {
      var p := env.transferOf(r.payload).value;
      var from := st.accounts[st.index[p.from]];
      var payee := if p.toId in st.accounts then st.accounts[p.toId] else Account(p.toId, None, 0, 0);
      var a := from.(balance := Wrap64(from.balance - p.amount), nonce := p.nonce);
      var b := payee.(balance := Wrap64(payee.balance + p.amount));
      assert TransferEffect(env, unique, st, r) == UpsertBoth(unique, st, a, b);
      PairKeepsKeys(unique, st, a, b);
    }
  }

  lemma ReclaimKeepsKeys(env: Env, unique: bool, st: Ledger, r: Request)
    requires LedgerRuns.Indexed(st)
    ensures var e := ReclaimEffect(env, unique, st, r); e.Ok? ==> KeysKept(st, e.value)
  {
    if ReclaimEffect(env, unique, st, r).Ok? {
      var p := env.reclaimOf(r.payload).value;
      var (admin, from) := (st.accounts[st.index[p.admin]], st.accounts[p.fromId]);
      var a := from.(balance := Wrap64(from.balance - p.amount));
      var b := admin.(balance := Wrap64(admin.balance + p.amount), nonce := p.nonce);
      assert ReclaimEffect(env, unique, st, r) == UpsertBoth(unique, st, a, b);
      PairKeepsKeys(unique, st, a, b);
    }
  }

  // Payments leave every key with its account.
  lemma PaymentsKeepKeys(env: Env, unique: bool, st: Ledger, r: Request)
    requires LedgerRuns.Indexed(st) && (r.txType == Transfer || r.txType == ReclaimInvalid)
    ensures var e := ApplyTo(env, unique, st, r); e.Ok? ==> KeysKept(st, e.value)
  {
    if r.txType == Transfer {
      TransferKeepsKeys(env, unique, st, r);
    } else {
      ReclaimKeepsKeys(env, unique, st, r);
    }
  }
}
