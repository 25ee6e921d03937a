/**
  The accounts table under READ COMMITTED: one registration that activates an existing
  account, interleaved statement by statement with Applies that the ledger lock serializes.
  A statement reads committed rows, a write holds its row until commit. Whatever the
  interleaving, the table is the serial replay of the transactions in commit order.
 */
module Activation {
  import opened Wrappers
  import opened ByteStrings
  import opened LedgerState

  // ---------- The row effect of each statement ----------

  // What a row becomes by the upsert: the stored key survives an upsert without one.
  function Merged(row: Option<Account>, a: Account): Account {
    var key := if a.pubkey.Some? && a.pubkey.value != [] then a.pubkey else None;
    if row.None? then a.(pubkey := key)
    else a.(pubkey := if key.Some? then key else row.value.pubkey)
  }

  function RowOf(rows: Accounts, id: int64): Option<Account> {
    if id in rows then Some(rows[id]) else None
  }

  class AccountTable {
    var rows: Accounts

    method UpsertAccount(a: Account)
      modifies this
      ensures rows == old(rows)[a.id := Merged(RowOf(old(rows), a.id), a)]
    {
      var pubArg: Option<Bytes> := None;
      if a.pubkey.Some? && |a.pubkey.value| > 0 {
        pubArg := a.pubkey;
      }
      if a.id !in rows {
        rows := rows[a.id := Account(a.id, pubArg, a.nonce, a.balance)];
      } else {
        var coalesced := if pubArg.Some? then pubArg else rows[a.id].pubkey;
        rows := rows[a.id := Account(a.id, coalesced, a.nonce, a.balance)];
      }
    }

    method SetPubKey(id: int64, pub: Bytes) returns (r: Result<(), ()>)
      modifies this
      ensures r.Ok? <==> id in old(rows)
      ensures rows == if r.Ok? then old(rows)[id := old(rows)[id].(pubkey := Some(pub))] else old(rows)
    {
      if id !in rows {
        return Err(());
      }
      rows := rows[id := rows[id].(pubkey := Some(pub))];
      r := Ok(());
    }
  }

  // The two stores' upserts agree exactly when the upsert brings a key or finds none.
  lemma UpsertsAgree(st: Ledger, a: Account)
    requires a.id in st.accounts && (a.pubkey.Some? ==> a.pubkey.value != [])
    ensures Upsert(false, st, a).value.accounts == st.accounts[a.id := Merged(RowOf(st.accounts, a.id), a)]
      <==> a.pubkey.Some? || st.accounts[a.id].pubkey.None?
  {
    var merged := Merged(RowOf(st.accounts, a.id), a);
    assert st.accounts[a.id := a][a.id] == a && st.accounts[a.id := merged][a.id] == merged;
  }

  // ---------- Transactions ----------

  // A payment moves `amount` from the signer to the other account and sets the signer's
  // nonce; a reclaim moves it the other way and writes the other account first.
  datatype Kind = Pay(amount: int64) | Reclaim(amount: int64)

  datatype Event =
    | Activated(pub: Bytes)
    | Moved(kind: Kind, signer: int64, other: int64, nonce: int64)
    | Rotated(owner: int64, newPub: Bytes, nonce: int64)

  function Signers(kind: Kind, signer: Account, nonce: int64): Account {
    signer.(balance := Wrap64(if kind.Pay? then signer.balance - kind.amount else signer.balance + kind.amount),
            nonce := nonce)
  }

  function Others(kind: Kind, other: Account): Account {
    other.(balance := Wrap64(if kind.Pay? then other.balance + kind.amount else other.balance - kind.amount))
  }

  function OrNew(row: Option<Account>, id: int64): Account {
    if row.Some? then row.value else Account(id, None, 0, 0)
  }

  // The rows that a transaction writes when it runs alone, for the registration of `id`.
  function Writes(id: int64, rows: Accounts, e: Event): Accounts {
    match e
    case Activated(pub) => if id in rows then map[id := rows[id].(pubkey := Some(pub))] else map[]
    case Moved(kind, signer, other, nonce) =>
      if signer !in rows then map[] else
      map[signer := Signers(kind, rows[signer], nonce), other := Others(kind, OrNew(RowOf(rows, other), other))]
    case Rotated(owner, newPub, nonce) =>
      if owner in rows then map[owner := rows[owner].(pubkey := Some(newPub), nonce := nonce)] else map[]
  }

  function Effected(id: int64, rows: Accounts, e: Event): Accounts {
    rows + Writes(id, rows, e)
  }

  function Replay(id: int64, rows: Accounts, events: seq<Event>): Accounts {
    if events == [] then rows else
    Effected(id, Replay(id, rows, events[..|events| - 1]), events[|events| - 1])
  }

  // ---------- The interleaving ----------

  datatype Registration =
    | Begun
    | Seen
    | Holding(row: Account)
    | Bound
    | Unchanged
    | Conflict

  // The Apply that holds the ledger lock. `written` are its uncommitted rows.
  datatype Applying =
    | Idle
    | HasSigner(kind: Kind, signer: Account)
    | HasBoth(kind: Kind, signer: Account, other: Account)
    | Wrote(kind: Kind, signer: Account, other: Account, written: Accounts)
    | HasOwner(owner: Account, newPub: Bytes)
    | Bumped(owner: Account, newPub: Bytes, written: Accounts)
    | Ready(event: Event, written: Accounts)

  datatype System = System(rows: Accounts, reg: Registration, tx: Applying, events: seq<Event>)

  datatype Action =
    | RegRead
    | RegUpdate
    | RegCommit
    | BeginMove(kind: Kind, pub: Bytes)
    | ReadOther(other: int64)
    | WriteFirst
    | WriteSecond
    | BeginRotate(oldPub: Bytes, newPub: Bytes)
    | WriteNonce
    | WriteKey
    | Commit
    | Rollback

  ghost predicate Has(rows: Accounts, id: int64, pub: Bytes) {
    id in rows && rows[id].pubkey == Some(pub)
  }

  predicate Written(tx: Applying, id: int64) {
    (tx.Wrote? || tx.Bumped? || tx.Ready?) && id in tx.written
  }

  // The upsert of one account, blocked while the registration holds its row.
  function Upserted(id: int64, sys: System, a: Account, written: Accounts): Option<Accounts> {
    if sys.reg.Holding? && a.id == id then None
    else Some(written[a.id := Merged(RowOf(sys.rows, a.id), a)])
  }

  function NextNonce(a: Account): int64 {
    Wrap64(a.nonce + 1)
  }

  ghost function RegStep(id: int64, pub: Bytes, sys: System, a: Action): System {
    match a
    case RegRead =>
      if !sys.reg.Begun? || id !in sys.rows then sys
      else if Keyless(sys.rows[id]) then sys.(reg := Seen)
      else sys.(reg := if sys.rows[id].pubkey == Some(pub) then Unchanged else Conflict)
    case RegUpdate =>
      if !sys.reg.Seen? || id !in sys.rows || Written(sys.tx, id) then sys
      else if exists d :: d != id && Has(sys.rows, d, pub) then sys.(reg := Conflict)
      else sys.(reg := Holding(sys.rows[id].(pubkey := Some(pub))))
    case RegCommit =>
      if !sys.reg.Holding? then sys
      else sys.(reg := Bound, rows := sys.rows[id := sys.reg.row], events := sys.events + [Activated(pub)])
    case _ => sys
  }

  // The statements of a transfer or reclaim.
  ghost function MoveStep(id: int64, sys: System, a: Action): System {
    match a
    case BeginMove(kind, pub) =>
      if sys.tx.Idle? && pub != [] && exists d :: Has(sys.rows, d, pub) then
        var d :| Has(sys.rows, d, pub);
        sys.(tx := HasSigner(kind, sys.rows[d]))
      else sys
    case ReadOther(other) =>
      if !sys.tx.HasSigner? || other == sys.tx.signer.id then sys
      else sys.(tx := HasBoth(sys.tx.kind, sys.tx.signer, OrNew(RowOf(sys.rows, other), other)))
    case WriteFirst =>
      if !sys.tx.HasBoth? then sys else
      var (kind, signer, other) := (sys.tx.kind, sys.tx.signer, sys.tx.other);
      var first := if kind.Pay? then Signers(kind, signer, NextNonce(signer)) else Others(kind, other);
      var written := Upserted(id, sys, first, map[]);
      if written.None? then sys else sys.(tx := Wrote(kind, signer, other, written.value))
    case WriteSecond =>
      if !sys.tx.Wrote? then sys else
      var (kind, signer, other) := (sys.tx.kind, sys.tx.signer, sys.tx.other);
      var second := if kind.Pay? then Others(kind, other) else Signers(kind, signer, NextNonce(signer));
      var written := Upserted(id, sys, second, sys.tx.written);
      if written.None? then sys
      else sys.(tx := Ready(Event.Moved(kind, signer.id, other.id, NextNonce(signer)), written.value))
    case _ => sys
  }

  // The statements of a rotation, whose key update finds the row it has just written.
  ghost function RotateStep(id: int64, sys: System, a: Action): System {
    match a
    case BeginRotate(oldPub, newPub) =>
      if sys.tx.Idle? && oldPub != [] && exists d :: Has(sys.rows, d, oldPub) then
        var d :| Has(sys.rows, d, oldPub);
        sys.(tx := HasOwner(sys.rows[d], newPub))
      else sys
    case WriteNonce =>
      if !sys.tx.HasOwner? then sys else
      var owner := sys.tx.owner;
      var written := Upserted(id, sys, owner.(nonce := NextNonce(owner)), map[]);
      if written.None? then sys else sys.(tx := Bumped(owner, sys.tx.newPub, written.value))
    case WriteKey =>
      if !sys.tx.Bumped? || sys.tx.owner.id !in sys.tx.written then sys else
      var (owner, newPub, written) := (sys.tx.owner, sys.tx.newPub, sys.tx.written);
      var keyed := written[owner.id].(pubkey := Some(newPub));
      sys.(tx := Ready(Rotated(owner.id, newPub, NextNonce(owner)), written[owner.id := keyed]))
    case _ => sys
  }

  // One statement; a statement out of turn or waiting for a row does nothing. Rollback
  // stands for every check that fails.
  ghost function Step(id: int64, pub: Bytes, sys: System, a: Action): System {
    match a
    case RegRead => RegStep(id, pub, sys, a)
    case RegUpdate => RegStep(id, pub, sys, a)
    case RegCommit => RegStep(id, pub, sys, a)
    case BeginRotate(_, _) => RotateStep(id, sys, a)
    case WriteNonce => RotateStep(id, sys, a)
    case WriteKey => RotateStep(id, sys, a)
    case Commit =>
      if !sys.tx.Ready? then sys
      else sys.(tx := Idle, rows := sys.rows + sys.tx.written, events := sys.events + [sys.tx.event])
    case Rollback => sys.(tx := Idle)
    case _ => MoveStep(id, sys, a)
  }

  ghost function Run(id: int64, pub: Bytes, sys: System, actions: seq<Action>): System {
    if actions == [] then sys else
    Step(id, pub, Run(id, pub, sys, actions[..|actions| - 1]), actions[|actions| - 1])
  }

  // ---------- What every statement keeps ----------

  predicate Keyless(a: Account) {
    a.pubkey in {None, Some([])}
  }

  predicate Filed(rows: Accounts) {
    forall d :: d in rows ==> rows[d].id == d
  }

  // A row read earlier still has its balance and nonce; only a missing key may have come in.
  predicate Current(rows: Accounts, a: Account) {
    if a.id in rows then
      rows[a.id].balance == a.balance && rows[a.id].nonce == a.nonce && (Keyless(a) || a.pubkey == rows[a.id].pubkey)
    else a == Account(a.id, None, 0, 0)
  }

  predicate BothCurrent(rows: Accounts, signer: Account, other: Account) {
    signer.id in rows && Current(rows, signer) && Current(rows, other) && signer.id != other.id
  }

  // The owner of a rotation is unchanged, and it has a key.
  predicate OwnerOk(rows: Accounts, owner: Account) {
    owner.id in rows && rows[owner.id] == owner && !Keyless(owner)
  }

  // What may still be committed is right for the rows as they are now.
  predicate TxOk(rows: Accounts, tx: Applying) {
    match tx
    case Idle => true
    case HasSigner(_, signer) => signer.id in rows && Current(rows, signer)
    case HasBoth(_, signer, other) => BothCurrent(rows, signer, other)
    case Wrote(kind, signer, other, written) =>
      && BothCurrent(rows, signer, other)
      && written == FirstWrite(kind, rows, signer, other)
    case HasOwner(owner, _) => OwnerOk(rows, owner)
    case Bumped(owner, _, written) =>
      OwnerOk(rows, owner) && written == map[owner.id := owner.(nonce := NextNonce(owner))]
    case Ready(event, written) => EventOk(rows, event) && written == Writes(0, rows, event)
  }

  function FirstWrite(kind: Kind, rows: Accounts, signer: Account, other: Account): Accounts
    requires signer.id in rows
  {
    if kind.Pay? then map[signer.id := Signers(kind, rows[signer.id], NextNonce(signer))]
    else map[other.id := Others(kind, OrNew(RowOf(rows, other.id), other.id))]
  }

  predicate EventOk(rows: Accounts, e: Event) {
    match e
    case Activated(_) => false
    case Moved(_, signer, other, nonce) =>
      signer in rows && signer != other && nonce == Wrap64(rows[signer].nonce + 1)
    case Rotated(owner, newPub, nonce) =>
      owner in rows && !Keyless(rows[owner]) && nonce == Wrap64(rows[owner].nonce + 1)
  }

  // A registration that has seen no key is right about it until it commits.
  predicate RegOk(id: int64, pub: Bytes, sys: System)
    requires id in sys.rows
  {
    match sys.reg
    case Seen => Keyless(sys.rows[id])
    case Holding(row) => Keyless(sys.rows[id]) && row == sys.rows[id].(pubkey := Some(pub)) && !Written(sys.tx, id)
    case _ => true
  }

  predicate Good(id: int64, pub: Bytes, sys: System) {
    && id in sys.rows && Filed(sys.rows)
    && TxOk(sys.rows, sys.tx)
    && RegOk(id, pub, sys)
  }

  // The upsert of a current account has the effect of the serial transaction on its row.
  lemma MergeSigner(kind: Kind, rows: Accounts, a: Account, nonce: int64)
    requires Filed(rows) && a.id in rows && Current(rows, a)
    ensures Merged(RowOf(rows, a.id), Signers(kind, a, nonce)) == Signers(kind, rows[a.id], nonce)
  {
  }

  lemma MergeOther(kind: Kind, rows: Accounts, a: Account)
    requires Filed(rows) && Current(rows, a)
    ensures Merged(RowOf(rows, a.id), Others(kind, a)) == Others(kind, OrNew(RowOf(rows, a.id), a.id))
  {
  }

  lemma MoveStepGood(id: int64, pub: Bytes, sys: System, a: Action)
    requires Good(id, pub, sys)
    ensures Good(id, pub, MoveStep(id, sys, a))
  {
    var tx := sys.tx;
    match a
    case WriteFirst =>
      if tx.HasBoth? {
        MergeSigner(tx.kind, sys.rows, tx.signer, NextNonce(tx.signer));
        MergeOther(tx.kind, sys.rows, tx.other);
      }
    case WriteSecond =>
      if tx.Wrote? {
        MergeSigner(tx.kind, sys.rows, tx.signer, NextNonce(tx.signer));
        MergeOther(tx.kind, sys.rows, tx.other);
      }
    case _ =>
  }

  lemma RotateStepGood(id: int64, pub: Bytes, sys: System, a: Action)
    requires Good(id, pub, sys)
    ensures Good(id, pub, RotateStep(id, sys, a))
  {
  }

  // Giving a keyless row a key spoils nothing that was read, and no row under its lock.
  lemma KeyComesIn(rows: Accounts, id: int64, pub: Bytes, tx: Applying)
    requires id in rows && Keyless(rows[id]) && TxOk(rows, tx) && !Written(tx, id)
    ensures TxOk(rows[id := rows[id].(pubkey := Some(pub))], tx)
  {
  }

  lemma RegStepGood(id: int64, pub: Bytes, sys: System, a: Action)
    requires Good(id, pub, sys)
    ensures Good(id, pub, RegStep(id, pub, sys, a))
  {
    if a.RegCommit? && sys.reg.Holding? {
      KeyComesIn(sys.rows, id, pub, sys.tx);
    }
  }

  lemma StepGood(id: int64, pub: Bytes, sys: System, a: Action)
    requires Good(id, pub, sys)
    ensures Good(id, pub, Step(id, pub, sys, a))
  {
    match a
    case RegRead => RegStepGood(id, pub, sys, a);
    case RegUpdate => RegStepGood(id, pub, sys, a);
    case RegCommit => RegStepGood(id, pub, sys, a);
    case BeginRotate(_, _) => RotateStepGood(id, pub, sys, a);
    case WriteNonce => RotateStepGood(id, pub, sys, a);
    case WriteKey => RotateStepGood(id, pub, sys, a);
    case Commit =>
    case Rollback =>
    case _ => MoveStepGood(id, pub, sys, a);
  }

  // ---------- Serializability ----------

  // Every event acts on rows that are there when its turn comes in the serial replay.
  predicate Proper(id: int64, rows: Accounts, events: seq<Event>) {
    events == [] ||
      var i := |events| - 1;
      && Proper(id, rows, events[..i])
      && (events[i].Activated? || EventOk(Replay(id, rows, events[..i]), events[i]))
  }

  predicate Serial(id: int64, rows: Accounts, sys: System) {
    sys.rows == Replay(id, rows, sys.events) && Proper(id, rows, sys.events)
  }

  // The registration is bound exactly when it has committed, once, its key.
  predicate Told(pub: Bytes, sys: System) {
    && (sys.reg.Bound? <==> Activations(sys.events) == 1)
    && Activations(sys.events) <= 1
    && forall i :: 0 <= i < |sys.events| && sys.events[i].Activated? ==> sys.events[i] == Activated(pub)
  }

  function Activations(events: seq<Event>): nat {
    if events == [] then 0 else Activations(events[..|events| - 1]) + if events[|events| - 1].Activated? then 1 else 0
  }

  lemma EventCommits(id: int64, pub: Bytes, rows: Accounts, sys: System, e: Event)
    requires id in sys.rows && Serial(id, rows, sys) && (e.Activated? || EventOk(sys.rows, e))
    ensures Serial(id, rows, sys.(rows := Effected(id, sys.rows, e), events := sys.events + [e]))
    ensures Activations(sys.events + [e]) == Activations(sys.events) + if e.Activated? then 1 else 0
  {
    assert (sys.events + [e])[..|sys.events|] == sys.events;
  }

  // Nothing but a commit changes the rows or the history.
  lemma Uncommitted(id: int64, pub: Bytes, sys: System, a: Action)
    requires id in sys.rows && !(a.RegCommit? && sys.reg.Holding?) && !(a.Commit? && sys.tx.Ready?)
    ensures var sys' := Step(id, pub, sys, a);
      sys'.rows == sys.rows && sys'.events == sys.events && sys'.reg.Bound? == sys.reg.Bound?
  {
  }

  lemma RegCommitSerial(id: int64, pub: Bytes, rows: Accounts, sys: System)
    requires id in sys.rows && Serial(id, rows, sys) && Told(pub, sys)
    requires sys.reg == Holding(sys.rows[id].(pubkey := Some(pub)))
    ensures Serial(id, rows, RegStep(id, pub, sys, RegCommit)) && Told(pub, RegStep(id, pub, sys, RegCommit))
  {
    EventCommits(id, pub, rows, sys, Activated(pub));
    assert sys.rows + map[id := sys.reg.row] == sys.rows[id := sys.reg.row];
  }

  lemma CommitSerial(id: int64, pub: Bytes, rows: Accounts, sys: System)
    requires id in sys.rows && Serial(id, rows, sys) && Told(pub, sys)
    requires sys.tx.Ready? && EventOk(sys.rows, sys.tx.event) && sys.tx.written == Writes(0, sys.rows, sys.tx.event)
    ensures Serial(id, rows, Step(id, pub, sys, Commit)) && Told(pub, Step(id, pub, sys, Commit))
  {
    EventCommits(id, pub, rows, sys, sys.tx.event);
  }

  lemma StepSerial(id: int64, pub: Bytes, rows: Accounts, sys: System, a: Action)
    requires Good(id, pub, sys) && Serial(id, rows, sys) && Told(pub, sys)
    ensures Serial(id, rows, Step(id, pub, sys, a)) && Told(pub, Step(id, pub, sys, a))
  {
    if a.RegCommit? && sys.reg.Holding? {
      RegCommitSerial(id, pub, rows, sys);
    } else if a.Commit? && sys.tx.Ready? {
      CommitSerial(id, pub, rows, sys);
    } else {
      Uncommitted(id, pub, sys, a);
    }
  }

  function Initial(rows: Accounts): System {
    System(rows, Begun, Idle, [])
  }

  ghost predicate RunOk(id: int64, pub: Bytes, rows: Accounts, actions: seq<Action>) {
    var sys := Run(id, pub, Initial(rows), actions);
    Good(id, pub, sys) && Serial(id, rows, sys) && Told(pub, sys)
  }

  // Every interleaving leaves the table as the serial replay in commit order.
  lemma {:induction false} RunIsSerial(id: int64, pub: Bytes, rows: Accounts, actions: seq<Action>)
    requires id in rows && Filed(rows)
    ensures RunOk(id, pub, rows, actions)
  {
    if actions != [] {
      var i := |actions| - 1;
      RunIsSerial(id, pub, rows, actions[..i]);
      var sys := Run(id, pub, Initial(rows), actions[..i]);
      StepGood(id, pub, sys, actions[i]);
      StepSerial(id, pub, rows, sys, actions[i]);
    }
  }

  // ---------- Nothing is lost ----------

  // What the signer gives to the other account.
  function Given(kind: Kind): int {
    if kind.Pay? then kind.amount else -(kind.amount as int)
  }

  // What the committed transactions add to one account.
  function Net(events: seq<Event>, d: int64): int {
    if events == [] then 0 else
    var e := events[|events| - 1];
    Net(events[..|events| - 1], d) +
    if !e.Moved? then 0
    else if d == e.signer then -Given(e.kind)
    else if d == e.other then Given(e.kind)
    else 0
  }

  // The last key that a committed transaction has given to the registered account.
  function LastKey(id: int64, key: Option<Bytes>, events: seq<Event>): Option<Bytes> {
    if events == [] then key else
    match events[|events| - 1]
    case Activated(pub) => Some(pub)
    case Rotated(owner, newPub, _) => if owner == id then Some(newPub) else LastKey(id, key, events[..|events| - 1])
    case Moved(_, _, _, _) => LastKey(id, key, events[..|events| - 1])
  }

  // The wrapped sum of the postings, as every later addition sees it.
  lemma WrapStep(x: int, n: int, amount: int)
    ensures Wrap64(Wrap64(x + n) + amount) == Wrap64(x + (n + amount))
  {
    WrapAdds(x + n, amount);
  }

  // An account that is not there yet holds nothing.
  function Held(rows: Accounts, d: int64): int {
    if d in rows then rows[d].balance else 0
  }

  function NonceHeld(rows: Accounts, d: int64): int {
    if d in rows then rows[d].nonce else 0
  }

  // How many committed transactions this account has signed.
  function Signed(events: seq<Event>, d: int64): nat {
    if events == [] then 0 else
    var e := events[|events| - 1];
    Signed(events[..|events| - 1], d)
    + if (e.Moved? && e.signer == d) || (e.Rotated? && e.owner == d) then 1 else 0
  }

  // The balance, and the nonce, of one account is the first one plus what these events add.
  predicate BalanceAdds(rows: Accounts, after: Accounts, events: seq<Event>, d: int64) {
    Held(after, d) == Wrap64(Held(rows, d) + Net(events, d))
  }

  predicate NonceCounts(rows: Accounts, after: Accounts, events: seq<Event>, d: int64) {
    NonceHeld(after, d) == Wrap64(NonceHeld(rows, d) + Signed(events, d))
  }

  // No account goes, and the registered one has the last key.
  predicate Keyed(id: int64, rows: Accounts, after: Accounts, events: seq<Event>, d: int64)
    requires id in rows
  {
    (d in rows ==> d in after) && id in after && after[id].pubkey == LastKey(id, rows[id].pubkey, events)
  }

  // From the first rows to the last, what these events do to one account and one key.
  predicate Posted(id: int64, rows: Accounts, after: Accounts, events: seq<Event>, d: int64)
    requires id in rows
  {
    BalanceAdds(rows, after, events, d) && NonceCounts(rows, after, events, d) && Keyed(id, rows, after, events, d)
  }

  predicate RowReplayed(id: int64, rows: Accounts, events: seq<Event>, d: int64)
    requires id in rows
  {
    Posted(id, rows, Replay(id, rows, events), events, d)
  }

  lemma EventPosts(id: int64, rows: Accounts, e: Event, d: int64)
    requires id in rows && (e.Activated? || EventOk(rows, e))
    ensures Posted(id, rows, Effected(id, rows, e), [e], d)
  {
    assert [e][..0] == [];
  }

  lemma NetSnoc(id: int64, key: Option<Bytes>, events: seq<Event>, e: Event, d: int64)
    ensures Net(events + [e], d) == Net(events, d) + Net([e], d)
    ensures Signed(events + [e], d) == Signed(events, d) + Signed([e], d)
    ensures LastKey(id, key, events + [e]) == LastKey(id, LastKey(id, key, events), [e])
  {
    assert (events + [e])[..|events|] == events && [e][..0] == [];
  }

  lemma BalanceSnoc(rows: Accounts, mid: Accounts, after: Accounts, before: seq<Event>, e: Event, d: int64)
    requires BalanceAdds(rows, mid, before, d) && BalanceAdds(mid, after, [e], d)
    ensures BalanceAdds(rows, after, before + [e], d)
  {
    NetSnoc(0, None, before, e, d);
    WrapStep(Held(rows, d), Net(before, d), Net([e], d));
  }

  lemma NonceSnoc(rows: Accounts, mid: Accounts, after: Accounts, before: seq<Event>, e: Event, d: int64)
    requires NonceCounts(rows, mid, before, d) && NonceCounts(mid, after, [e], d)
    ensures NonceCounts(rows, after, before + [e], d)
  {
    NetSnoc(0, None, before, e, d);
    WrapStep(NonceHeld(rows, d), Signed(before, d), Signed([e], d));
  }

  lemma PostedSnoc(id: int64, rows: Accounts, mid: Accounts, after: Accounts, before: seq<Event>, e: Event, d: int64)
    requires id in rows && Posted(id, rows, mid, before, d) && Posted(id, mid, after, [e], d)
    ensures Posted(id, rows, after, before + [e], d)
  {
    BalanceSnoc(rows, mid, after, before, e, d);
    NonceSnoc(rows, mid, after, before, e, d);
    NetSnoc(id, rows[id].pubkey, before, e, d);
  }

  lemma {:induction false} ReplayRow(id: int64, rows: Accounts, events: seq<Event>, d: int64)
    requires id in rows && Proper(id, rows, events)
    ensures RowReplayed(id, rows, events, d)
  {
    if events != [] {
      var i := |events| - 1;
      var (before, e) := (events[..i], events[i]);
      ReplayRow(id, rows, before, d);
      var mid := Replay(id, rows, before);
      EventPosts(id, mid, e, d);
      PostedSnoc(id, rows, mid, Effected(id, mid, e), before, e, d);
      assert events == before + [e];
    }
  }

  lemma {:induction false} ActivatedOnce(events: seq<Event>)
    ensures Activations(events) > 0 <==> exists i :: 0 <= i < |events| && events[i].Activated?
  {
    if events != [] {
      var i := |events| - 1;
      ActivatedOnce(events[..i]);
      if Activations(events) > 0 && !events[i].Activated? {
        var j :| 0 <= j < i && events[..i][j].Activated?;
        assert events[j].Activated?;
      }
    }
  }

  lemma BoundMeansActivated(pub: Bytes, sys: System)
    requires Told(pub, sys)
    ensures sys.reg.Bound? <==> Activated(pub) in sys.events
  {
    ActivatedOnce(sys.events);
    if Activated(pub) in sys.events {
      var i :| 0 <= i < |sys.events| && sys.events[i] == Activated(pub);
      assert sys.events[i].Activated?;
    }
  }

  ghost predicate Settled(id: int64, pub: Bytes, rows: Accounts, sys: System, d: int64)
    requires id in rows
  {
    && sys.rows == Replay(id, rows, sys.events)
    && Posted(id, rows, sys.rows, sys.events, d)
    && (sys.reg.Bound? <==> Activated(pub) in sys.events)
  }

  lemma SerialSettles(id: int64, pub: Bytes, rows: Accounts, sys: System, d: int64)
    requires id in rows && Serial(id, rows, sys) && Told(pub, sys)
    ensures Settled(id, pub, rows, sys, d)
  {
    ReplayRow(id, rows, sys.events, d);
    BoundMeansActivated(pub, sys);
  }

  // However its statements fall between those of the Applies, a registration that reports
  // success has bound its key, which stays until the owner rotates it; and every account,
  // those that a payment has created included, has every amount that a committed
  // transaction has moved, and a nonce for every one that it has signed.
  lemma NothingIsLost(id: int64, pub: Bytes, rows: Accounts, actions: seq<Action>, d: int64)
    requires id in rows && Filed(rows)
    ensures Settled(id, pub, rows, Run(id, pub, Initial(rows), actions), d)
  {
    RunIsSerial(id, pub, rows, actions);
    SerialSettles(id, pub, rows, Run(id, pub, Initial(rows), actions), d);
  }

  // ---------- A registration that nobody disturbs ----------

  // What registering this key comes to, read off the account as it stands.
  ghost predicate Registered(id: int64, pub: Bytes, rows: Accounts, sys: System) {
    && sys.tx == Idle && id in rows
    && if rows[id].pubkey == Some(pub) && pub != [] then sys.reg.Unchanged? && sys.rows == rows
       else if rows[id].pubkey.Some? && rows[id].pubkey.value != [] then sys.reg.Conflict? && sys.rows == rows
       else if exists d :: d != id && Has(rows, d, pub) then sys.reg.Conflict? && sys.rows == rows
       else
         && sys.reg.Bound? && sys.rows == rows[id := rows[id].(pubkey := Some(pub))]
         && sys.events == [Activated(pub)]
  }

  // Alone, it binds the key to an account without one, unless another account holds the key.
  lemma UndisturbedRegisters(id: int64, pub: Bytes, rows: Accounts)
    requires id in rows && Filed(rows)
    ensures Registered(id, pub, rows, Run(id, pub, Initial(rows), [RegRead, RegUpdate, RegCommit]))
  {
    var read := Step(id, pub, Initial(rows), RegRead);
    var updated := Step(id, pub, read, RegUpdate);
    var actions := [RegRead, RegUpdate, RegCommit];
    assert actions[..2] == [RegRead, RegUpdate] && [RegRead, RegUpdate][..1] == [RegRead] && [RegRead][..0] == [];
    assert Run(id, pub, Initial(rows), [RegRead]) == read;
    assert Run(id, pub, Initial(rows), [RegRead, RegUpdate]) == updated;
    assert Run(id, pub, Initial(rows), actions) == Step(id, pub, updated, RegCommit);
  }

  // ---------- Transactions that nobody disturbs ----------

  // The key leads to this account only.
  ghost predicate Leads(rows: Accounts, pub: Bytes, d: int64) {
    pub != [] && Has(rows, d, pub) && forall e :: Has(rows, e, pub) ==> e == d
  }

  lemma RunOne(id: int64, pub: Bytes, sys: System, actions: seq<Action>, a: Action)
    ensures Run(id, pub, sys, actions + [a]) == Step(id, pub, Run(id, pub, sys, actions), a)
  {
    assert (actions + [a])[..|actions|] == actions;
  }

  // The statements of one payment or reclaim, or of one rotation, in order.
  function MoveCall(kind: Kind, key: Bytes, other: int64): seq<Action> {
    [] + [BeginMove(kind, key)] + [ReadOther(other)] + [WriteFirst] + [WriteSecond] + [Commit]
  }

  function RotateCall(oldPub: Bytes, newPub: Bytes): seq<Action> {
    [] + [BeginRotate(oldPub, newPub)] + [WriteNonce] + [WriteKey] + [Commit]
  }

  // The transaction has committed, and its event is the last.
  predicate Committed(id: int64, sys: System, sys': System, e: Event) {
    sys'.tx.Idle? && sys'.rows == Effected(id, sys.rows, e) && sys'.events == sys.events + [e]
  }

  // The five statements of a payment, one after the other.
  ghost function MoveSteps(id: int64, pub: Bytes, sys: System, kind: Kind, key: Bytes, other: int64): System {
    var read := Step(id, pub, Step(id, pub, sys, BeginMove(kind, key)), ReadOther(other));
    Step(id, pub, Step(id, pub, Step(id, pub, read, WriteFirst), WriteSecond), Commit)
  }

  lemma MoveCallSteps(id: int64, pub: Bytes, sys: System, kind: Kind, key: Bytes, other: int64)
    ensures Run(id, pub, sys, MoveCall(kind, key, other)) == MoveSteps(id, pub, sys, kind, key, other)
  {
    var a2 := [] + [BeginMove(kind, key)] + [ReadOther(other)];
    RunOne(id, pub, sys, [], BeginMove(kind, key));
    RunOne(id, pub, sys, [] + [BeginMove(kind, key)], ReadOther(other));
    RunOne(id, pub, sys, a2, WriteFirst);
    RunOne(id, pub, sys, a2 + [WriteFirst], WriteSecond);
    RunOne(id, pub, sys, a2 + [WriteFirst] + [WriteSecond], Commit);
  }

  lemma MoveIsRead(id: int64, pub: Bytes, sys: System, kind: Kind, key: Bytes, d: int64, other: int64)
    requires Filed(sys.rows) && sys.tx.Idle? && Leads(sys.rows, key, d) && other != d
    ensures Step(id, pub, Step(id, pub, sys, BeginMove(kind, key)), ReadOther(other))
      == sys.(tx := HasBoth(kind, sys.rows[d], OrNew(RowOf(sys.rows, other), other)))
  {
  }

  lemma MoveIsWritten(id: int64, pub: Bytes, sys: System)
    requires Good(id, pub, sys) && sys.tx.HasBoth? && !sys.reg.Holding?
    ensures var sys' := Step(id, pub, Step(id, pub, sys, WriteFirst), WriteSecond);
      Good(id, pub, sys') && sys' == sys.(tx := sys'.tx) && sys'.tx.Ready?
      && sys'.tx.event == Event.Moved(sys.tx.kind, sys.tx.signer.id, sys.tx.other.id, Wrap64(sys.tx.signer.nonce + 1))
  {
    StepGood(id, pub, sys, WriteFirst);
    StepGood(id, pub, Step(id, pub, sys, WriteFirst), WriteSecond);
  }

  lemma ReadyCommits(id: int64, pub: Bytes, sys: System, ready: System, e: Event)
    requires ready.rows == sys.rows && ready.events == sys.events && ready.tx.Ready? && ready.tx.event == e
    requires TxOk(ready.rows, ready.tx)
    ensures Committed(id, sys, Step(id, pub, ready, Commit), e)
  {
  }

  // A payment with no registration under way commits: it moves the amount between the owner
  // of the key and the other account, and uses the owner's next nonce.
  lemma UndisturbedMoveCommits(id: int64, pub: Bytes, sys: System, kind: Kind, key: Bytes, d: int64, other: int64)
    requires Good(id, pub, sys) && sys.tx.Idle? && !sys.reg.Holding? && Leads(sys.rows, key, d) && other != d
    ensures Committed(id, sys, Run(id, pub, sys, MoveCall(kind, key, other)),
                      Event.Moved(kind, d, other, Wrap64(sys.rows[d].nonce + 1)))
  {
    MoveCallSteps(id, pub, sys, kind, key, other);
    MoveIsRead(id, pub, sys, kind, key, d, other);
    var read := sys.(tx := HasBoth(kind, sys.rows[d], OrNew(RowOf(sys.rows, other), other)));
    MoveIsWritten(id, pub, read);
    ReadyCommits(id, pub, sys, Step(id, pub, Step(id, pub, read, WriteFirst), WriteSecond),
                 Event.Moved(kind, d, other, Wrap64(sys.rows[d].nonce + 1)));
  }

  ghost function RotateSteps(id: int64, pub: Bytes, sys: System, oldPub: Bytes, newPub: Bytes): System {
    var read := Step(id, pub, sys, BeginRotate(oldPub, newPub));
    Step(id, pub, Step(id, pub, Step(id, pub, read, WriteNonce), WriteKey), Commit)
  }

  lemma RotateCallSteps(id: int64, pub: Bytes, sys: System, oldPub: Bytes, newPub: Bytes)
    ensures Run(id, pub, sys, RotateCall(oldPub, newPub)) == RotateSteps(id, pub, sys, oldPub, newPub)
  {
    var a2 := [] + [BeginRotate(oldPub, newPub)] + [WriteNonce];
    RunOne(id, pub, sys, [], BeginRotate(oldPub, newPub));
    RunOne(id, pub, sys, [] + [BeginRotate(oldPub, newPub)], WriteNonce);
    RunOne(id, pub, sys, a2, WriteKey);
    RunOne(id, pub, sys, a2 + [WriteKey], Commit);
  }

  lemma RotationIsWritten(id: int64, pub: Bytes, sys: System)
    requires Good(id, pub, sys) && sys.tx.HasOwner? && !sys.reg.Holding?
    ensures var sys' := Step(id, pub, Step(id, pub, sys, WriteNonce), WriteKey);
      Good(id, pub, sys') && sys' == sys.(tx := sys'.tx) && sys'.tx.Ready?
      && sys'.tx.event == Rotated(sys.tx.owner.id, sys.tx.newPub, Wrap64(sys.tx.owner.nonce + 1))
  {
    StepGood(id, pub, sys, WriteNonce);
    StepGood(id, pub, Step(id, pub, sys, WriteNonce), WriteKey);
  }

  // A rotation with no registration under way commits: the owner has the new key and the
  // next nonce.
  lemma UndisturbedRotationCommits(id: int64, pub: Bytes, sys: System, oldPub: Bytes, newPub: Bytes, d: int64)
    requires Good(id, pub, sys) && sys.tx.Idle? && !sys.reg.Holding? && Leads(sys.rows, oldPub, d)
    ensures Committed(id, sys, Run(id, pub, sys, RotateCall(oldPub, newPub)),
                      Rotated(d, newPub, Wrap64(sys.rows[d].nonce + 1)))
  {
    RotateCallSteps(id, pub, sys, oldPub, newPub);
    var read := sys.(tx := HasOwner(sys.rows[d], newPub));
    assert Step(id, pub, sys, BeginRotate(oldPub, newPub)) == read;
    RotationIsWritten(id, pub, read);
    ReadyCommits(id, pub, sys, Step(id, pub, Step(id, pub, read, WriteNonce), WriteKey),
                 Rotated(d, newPub, Wrap64(sys.rows[d].nonce + 1)));
  }
}
