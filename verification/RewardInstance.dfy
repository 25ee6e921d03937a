/**
  One concrete run of the reward protocol in which an event is paid twice: the bound of
  Rewards.PaidAtMostOnce is met from the empty store, with two workers and one expiry.
 */
module RewardInstance {
  import opened Wrappers
  import opened ByteStrings
  import opened Tx
  import opened LedgerState
  import opened Rewards

  const PUB: Bytes := Zeros(PUBKEY_LEN)
  const SIG: Bytes := Zeros(SIG_LEN)
  const USER: int64 := 7
  const AMOUNT: int64 := 10
  const KEY: RewardTable.Key := RewardTable.Key("signup_bonus", "user:7")

  // The hash is the first byte of its input, which for a transfer is the nonce.
  function FirstByte(x: Bytes): Digest {
    [if x == [] then 0 else x[0]] + Zeros(HASH_LEN - 1)
  }

  function Decoded(payload: Bytes): Option<TransferPayload> {
    if |payload| == 1 then Some(TransferPayload(PUB, USER, AMOUNT, payload[0] as int64)) else None
  }

  function Encoded(p: TransferPayload): Bytes {
    [(p.nonce % 256) as byte]
  }

  const ENV: Env := Env(
    FirstByte, (k, m, s) => true, p => Some(GenesisPayload(PUB, SUPPLY_CAP)), Decoded, p => None, p => None)
  const WALLET: Wallet := Wallet(PUB, Encoded, m => SIG)
  const GENESIS: Request := Request(Genesis, [0], SIG, PUB)

  function TransferOf(nonce: int64): Request {
    TransferRequest(WALLET, USER, AMOUNT, nonce)
  }

  // The ledger after genesis and n transfers, with this log.
  function After(n: int64, log: seq<Entry>): Ledger
    requires 0 <= n <= 2
  {
    var accounts: Accounts := map[TREASURY := Account(TREASURY, Some(PUB), n, SUPPLY_CAP - n * AMOUNT)];
    Ledger(if n == 0 then accounts else accounts[USER := Account(USER, None, 0, n * AMOUNT)], map[PUB := TREASURY], log)
  }

  // The log holds genesis and n transfers, told apart by their hashes.
  predicate LogOf(n: int64, log: seq<Entry>) {
    |log| == n as int + 1 && forall i :: 0 <= i < |log| ==> |log[i].txHash| == HASH_LEN && log[i].txHash[0] as int == i
  }

  lemma GenesisAccepted()
    ensures var log := [NewEntry(ENV, [], GENESIS)];
      LogOf(0, log) && ApplyTo(ENV, true, EMPTY, GENESIS) == Ok(After(0, log))
  {
    var treasury := Account(TREASURY, Some(PUB), 0, SUPPLY_CAP);
    var accounts := EMPTY.accounts[TREASURY := treasury];
    LedgerLaws.TotalAfter(EMPTY.accounts, treasury);
    assert GenesisEffect(ENV, true, EMPTY, GENESIS) == Ok(Ledger(accounts, map[PUB := TREASURY], []));
    assert Total(EMPTY.accounts) == 0 && Wrap64(Total(accounts)) == SUPPLY_CAP;
    assert accounts == After(0, []).accounts;
    assert VerifySig(ENV, GENESIS) && Chained(ENV, [], GENESIS) == Ok(());
    assert EMPTY.log + [NewEntry(ENV, [], GENESIS)] == [NewEntry(ENV, [], GENESIS)];
  }

  lemma TransferEffects(n: int64, log: seq<Entry>)
    requires 0 <= n < 2
    ensures TransferEffect(ENV, true, After(n, log), TransferOf(n + 1)) == Ok(After(n + 1, log))
  {
    var (st, r) := (After(n, log), TransferOf(n + 1));
    assert ENV.transferOf(r.payload) == Some(TransferPayload(PUB, USER, AMOUNT, n + 1));
    var payer := Account(TREASURY, Some(PUB), n + 1, SUPPLY_CAP - (n + 1) * AMOUNT);
    var payee := Account(USER, None, 0, (n + 1) * AMOUNT);
    assert TransferEffect(ENV, true, st, r) == UpsertBoth(true, st, payer, payee);
    var mid := Ledger(st.accounts[TREASURY := payer], map[PUB := TREASURY], log);
    assert Upsert(true, st, payer) == Ok(mid);
    assert mid.accounts[USER := payee] == After(n + 1, log).accounts;
  }

  function Extended(log: seq<Entry>, nonce: int64): seq<Entry> {
    log + [NewEntry(ENV, log, TransferOf(nonce))]
  }

  lemma TransferAccepted(n: int64, log: seq<Entry>)
    requires 0 <= n < 2 && LogOf(n, log)
    ensures Offered(WALLET, After(n, log), AMOUNT, n + 1)
    ensures var log' := Extended(log, n + 1);
      LogOf(n + 1, log') && Accepted(ENV, After(n, log), TransferOf(n + 1), After(n + 1, log'))
  {
    var entry := NewEntry(ENV, log, TransferOf(n + 1));
    TransferEffects(n, log);
    assert entry.txHash[0] as int == n + 1;
    assert !HasHash(log, entry.txHash);
  }

  // The store after genesis, seen by the reward protocol.
  lemma Started(log: seq<Entry>)
    requires log == [NewEntry(ENV, [], GENESIS)]
    ensures Reached(ENV, WALLET, [Write(LedgerRuns.Submit(GENESIS))]) == INITIAL.(ledger := After(0, log))
  {
    var genesis := Write(LedgerRuns.Submit(GENESIS));
    LedgerLaws.EmptyInv(ENV);
    GenesisAccepted();
    RunSnoc(ENV, WALLET, INITIAL, [], genesis);
    assert [] + [genesis] == [genesis];
    assert LedgerRuns.Next(ENV, true, EMPTY, LedgerRuns.Submit(GENESIS)) == After(0, log);
  }

  // Two workers, of which the first stalls past the end of its reservation.
  const LAPSE: seq<Action> :=
    LapsedReservations(0, 1, KEY, USER, AMOUNT) + [Lookup(0), Send(0)] + [Lookup(1), Send(1)]

  lemma BothAccepted(log: seq<Entry>)
    requires LogOf(0, log)
    ensures var log1 := Extended(log, 1);
      && Offered(WALLET, After(0, log), AMOUNT, 1) && Offered(WALLET, After(1, log1), AMOUNT, 2)
      && Accepted(ENV, After(0, log), TransferOf(1), After(1, log1))
      && Accepted(ENV, After(1, log1), TransferOf(2), After(2, Extended(log1, 2)))
  {
    TransferAccepted(0, log);
    TransferAccepted(1, Extended(log, 1));
  }

  lemma PaidTwiceAfterGenesis(sys: System, log: seq<Entry>)
    requires Good(ENV, WALLET, sys) && sys == INITIAL.(ledger := After(0, log)) && LogOf(0, log)
    ensures var sys' := Run(ENV, WALLET, sys, LAPSE);
      PaidFor(sys'.payments, KEY) == 2 && Expiries(sys'.expired, KEY) == 1
  {
    var log1 := Extended(log, 1);
    BothAccepted(log);
    ExpiryPaysTwice(ENV, WALLET, sys, 0, 1, KEY, USER, AMOUNT, 1, After(1, log1), 2, After(2, Extended(log1, 2)));
  }

  // One event, one expiry, two payments.
  lemma PaidTwiceFromEmpty()
    ensures var sys := Reached(ENV, WALLET, [Write(LedgerRuns.Submit(GENESIS))] + LAPSE);
      PaidFor(sys.payments, KEY) == 2 && Expiries(sys.expired, KEY) == 1
  {
    var (genesis, log) := ([Write(LedgerRuns.Submit(GENESIS))], [NewEntry(ENV, [], GENESIS)]);
    LedgerLaws.EmptyInv(ENV);
    GenesisAccepted();
    Started(log);
    PaidTwiceAfterGenesis(Reached(ENV, WALLET, genesis), log);
    RunAppend(ENV, WALLET, INITIAL, genesis, LAPSE);
  }
}
