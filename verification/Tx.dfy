/** Transactions: payload types, the entry hash, and the signature check. */
module Tx {
  import opened Wrappers
  import opened ByteStrings

  const SUPPLY_CAP: int64 := 50_000_000
  const TREASURY: int64 := 0
  const PUBKEY_LEN: nat := 32
  const SIG_LEN: nat := 64

  // rotate_admin, reward_config and any unknown name are Other.
  datatype TxType = Genesis | Transfer | RotateKey | ReclaimInvalid | Other(name: string)

  datatype GenesisPayload = GenesisPayload(to: Bytes, amount: int64)
  datatype TransferPayload = TransferPayload(from: Bytes, toId: int64, amount: int64, nonce: int64)
  datatype RotateKeyPayload = RotateKeyPayload(oldPub: Bytes, newPub: Bytes, nonce: int64)
  datatype ReclaimPayload = ReclaimPayload(admin: Bytes, fromId: int64, amount: int64, nonce: int64)

  // What the ledger calls but does not define: SHA-256, Ed25519 verification and JSON
  // decoding. A decoder answers None on malformed bytes.
  datatype Env = Env(
    sha: Bytes -> Digest,
    verify: (Bytes, Bytes, Bytes) -> bool,
    genesisOf: Bytes -> Option<GenesisPayload>,
    transferOf: Bytes -> Option<TransferPayload>,
    rotateOf: Bytes -> Option<RotateKeyPayload>,
    reclaimOf: Bytes -> Option<ReclaimPayload>)

  // What a submitter sends.
  datatype Request = Request(txType: TxType, payload: Bytes, sig: Bytes, signer: Bytes)

  // What the log stores.
  datatype Entry = Entry(leafIndex: int64, request: Request, prevHash: Bytes, txHash: Bytes)

  datatype Error =
    | BadSig
    | BadSigLength
    | BadPubKey
    | BadHash
    | UnknownAccount
    | InsufficientFunds
    | BadNonce
    | BadAmount
    | BadDiscourseID
    | GenesisExists
    | FirstMustBeGenesis
    | GenesisAmount
    | GenesisSigner
    | BadPayload
    | SupplyViolated
    | UnknownTxType
    | SelfTransfer
    | SignerMismatch
    | DuplicateTxHash
    | DuplicatePubKey
    | PubKeyConflict
    | TxDone

  function TxHash(env: Env, payload: Bytes, sig: Bytes, prevHash: Bytes): Digest {
    env.sha(payload + sig + prevHash)
  }

  function Build(env: Env, r: Request, prevHash: Bytes): Result<Digest, Error> {
    if |r.signer| != PUBKEY_LEN then Err(BadPubKey)
    else if |r.sig| != SIG_LEN then Err(BadSigLength)
    else if |prevHash| != HASH_LEN then Err(BadHash)
    else Ok(TxHash(env, r.payload, r.sig, prevHash))
  }

  predicate VerifySig(env: Env, r: Request) {
    |r.signer| == PUBKEY_LEN && |r.sig| == SIG_LEN && env.verify(r.signer, r.payload, r.sig)
  }

  // With a fixed-length signature and previous hash, the hashed bytes split in one way.
  lemma HashInputSplits(p1: Bytes, s1: Bytes, h1: Bytes, p2: Bytes, s2: Bytes, h2: Bytes)
    requires |s1| == |s2| && |h1| == |h2|
    ensures p1 + s1 + h1 == p2 + s2 + h2 <==> p1 == p2 && s1 == s2 && h1 == h2
  {
    var a, b := p1 + s1 + h1, p2 + s2 + h2;
    if a == b {
      assert |p1| == |p2|;
      assert p1 == a[..|p1|] && p2 == b[..|p2|];
      assert s1 == a[|p1|..|p1| + |s1|] && s2 == b[|p2|..|p2| + |s2|];
      assert h1 == a[|p1| + |s1|..] && h2 == b[|p2| + |s2|..];
    }
  }
}
