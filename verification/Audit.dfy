/**
  The third-party audit: fetch the log that a signed tree head covers, recheck every leaf,
  the root, the payloads, sampled inclusion proofs and one consistency proof. What the
  server says is a parameter; Audits.dfy proves what passing means.
 */
module Audit {
  import opened Wrappers
  import opened ByteStrings
  import opened Tx
  import opened LedgerState
  import opened TreeHead
  import opened Merkle
  import opened Consistency
  import opened Sha

  const BATCH: nat := 10_000

  datatype Failure =
    | HeadSignature
    | NoLeaves(from: int)
    | WrongCount
    | BadLeaf(at: nat)
    | RootDiffers
    | PayloadRefused(at: nat)
    | NoGenesis
    | BadSample(sample: nat)
    | BadConsistency

  // ---------- Fetching ----------

  // The rows of one query: those with an index in range, in order, at most BATCH of them.
  function RowsBetween(log: seq<Entry>, from: int, to: int): seq<Entry> {
    if log == [] then [] else
    var i := |log| - 1;
    RowsBetween(log[..i], from, to)
    + if from <= log[i].leafIndex && (to < 0 || log[i].leafIndex < to) then [log[i]] else []
  }

  function RangeLeaves(log: seq<Entry>, from: int, to: int): seq<Entry> {
    var rows := RowsBetween(log, from, to);
    if |rows| <= BATCH then rows else rows[..BATCH]
  }

  predicate Indexed(log: seq<Entry>) {
    forall i :: 0 <= i < |log| ==> log[i].leafIndex == i
  }

  // The stretch of the log between two bounds.
  function Stretch(log: seq<Entry>, from: nat, to: nat): (s: seq<Entry>)
    ensures |s| <= |log|
  {
    if from < Least(to, |log|) then log[from..Least(to, |log|)] else []
  }

  lemma StretchSnoc(log: seq<Entry>, from: nat, to: nat)
    requires log != []
    ensures var i := |log| - 1;
      Stretch(log, from, to) == Stretch(log[..i], from, to) + if from <= i < to then [log[i]] else []
  {
  }

  lemma {:induction false} RowsAreStretch(log: seq<Entry>, from: nat, to: nat)
    requires Indexed(log) && from <= to
    ensures RowsBetween(log, from, to) == Stretch(log, from, to)
  {
    if log != [] {
      RowsAreStretch(log[..|log| - 1], from, to);
      StretchSnoc(log, from, to);
    }
  }

  // A negative bound is none.
  lemma {:induction false} UnboundedRows(log: seq<Entry>, from: nat, to: int)
    requires Indexed(log) && to < 0
    ensures RowsBetween(log, from, to) == Stretch(log, from, |log|)
  {
    if log != [] {
      UnboundedRows(log[..|log| - 1], from, to);
      StretchSnoc(log, from, |log|);
      assert Stretch(log[..|log| - 1], from, |log|) == Stretch(log[..|log| - 1], from, |log| - 1);
    }
  }

  // A batch is the next stretch of the log, up to its limit, and empty only at the log's end.
  lemma BatchIsSlice(log: seq<Entry>, from: nat, to: nat)
    requires Indexed(log) && from < to
    ensures var batch := RangeLeaves(log, from, to);
      && |batch| == Least(10_000, |Stretch(log, from, to)|)
      && (batch == [] <==> from >= |log|)
      && from + |batch| <= (if batch == [] then from else Least(to, |log|))
      && (batch != [] ==> batch == log[from..from + |batch|] && batch[|batch| - 1].leafIndex == from + |batch| - 1)
  {
    RowsAreStretch(log, from, to);
  }

  // What the server's table holds at each request: longer and longer, nothing rewritten.
  ghost predicate Growing(logAt: nat -> seq<Entry>) {
    && (forall k :: Indexed(logAt(k)))
    && (forall j: nat, k: nat :: j <= k ==> logAt(j) <= logAt(k))
  }

  lemma NextBatch(logAt: nat -> seq<Entry>, k: nat, from: nat, batch: seq<Entry>)
    requires Growing(logAt) && from + |batch| <= |logAt(k)| && batch == logAt(k)[from..from + |batch|]
    ensures from + |batch| <= |logAt(k + 1)| && logAt(k + 1)[..from + |batch|] == logAt(k)[..from] + batch
  {
    assert logAt(k) <= logAt(k + 1);
    assert logAt(k)[..from + |batch|] == logAt(k)[..from] + batch;
  }

  // Batch after batch while the log grows; the result is the log up to the head's size.
  method FetchAllLeaves(logAt: nat -> seq<Entry>, treeSize: int) returns (r: Result<seq<Entry>, Failure>)
    requires Growing(logAt)
    ensures 0 <= treeSize <= |logAt(0)| ==> r == Ok(logAt(0)[..treeSize])
    ensures r.Ok? && treeSize > 0 ==> exists k: nat :: treeSize <= |logAt(k)| && r.value == logAt(k)[..treeSize]
  {
    var all: seq<Entry>, from: int, request: nat := [], 0, 0;
    while from < treeSize
      invariant 0 <= from && (from <= treeSize || from == 0)
      invariant from <= |logAt(request)| && all == logAt(request)[..from]
    {
      BatchIsSlice(logAt(request), from, treeSize);
      var batch := RangeLeaves(logAt(request), from, treeSize);
      if |batch| == 0 {
        assert logAt(0) <= logAt(request);
        return Err(NoLeaves(from));
      }
      NextBatch(logAt, request, from, batch);
      all := all + batch;
      from := batch[|batch| - 1].leafIndex + 1;
      request := request + 1;
    }
    assert logAt(0) <= logAt(request);
    assert 0 <= treeSize <= |logAt(0)| ==> all == logAt(0)[..treeSize];
    r := Ok(all);
  }

  // ---------- The leaves ----------

  // Leaf i continues the chain, hashes to what it claims, and is signed by its signer.
  predicate LeafOk(env: Env, leaves: seq<Entry>, i: nat)
    requires i < |leaves|
  {
    var leaf := leaves[i];
    && leaf.prevHash == (if i == 0 then Zeros(HASH_LEN) else leaves[i - 1].txHash)
    && leaf.txHash == TxHash(env, leaf.request.payload, leaf.request.sig, leaf.prevHash)
    && VerifySig(env, leaf.request)
  }

  predicate LeavesOk(env: Env, leaves: seq<Entry>) {
    forall i :: 0 <= i < |leaves| ==> LeafOk(env, leaves, i)
  }

  method VerifyLeaves(env: Env, leaves: seq<Entry>) returns (r: Result<(), Failure>)
    ensures r.Ok? <==> LeavesOk(env, leaves)
    ensures r.Ok? ==> forall i :: 0 <= i < |leaves| ==>
      env.verify(leaves[i].request.signer, leaves[i].request.payload, leaves[i].request.sig)
    ensures r.Err? ==> r.error.BadLeaf? && r.error.at < |leaves| && !LeafOk(env, leaves, r.error.at)
    ensures r.Err? ==> forall j :: 0 <= j < r.error.at ==> LeafOk(env, leaves, j)
  {
    var prevHash := Zeros(HASH_LEN);
    for i := 0 to |leaves|
      invariant forall j :: 0 <= j < i ==> LeafOk(env, leaves, j)
      invariant forall j :: 0 <= j < i ==>
        env.verify(leaves[j].request.signer, leaves[j].request.payload, leaves[j].request.sig)
      invariant prevHash == if i == 0 then Zeros(HASH_LEN) else leaves[i - 1].txHash
    {
      var leaf := leaves[i];
      if leaf.prevHash != prevHash {
        assert !LeafOk(env, leaves, i);
        return Err(BadLeaf(i));
      }
      if env.sha(leaf.request.payload + leaf.request.sig + leaf.prevHash) != leaf.txHash {
        assert !LeafOk(env, leaves, i);
        return Err(BadLeaf(i));
      }
      if !VerifySig(env, leaf.request) {
        assert !LeafOk(env, leaves, i);
        return Err(BadLeaf(i));
      }
      prevHash := leaf.txHash;
    }
    r := Ok(());
  }

  // ---------- The payloads ----------

  // Types that the audit does not know are let through; a rotation is only counted.
  predicate PayloadPasses(env: Env, r: Request) {
    match r.txType
    case Genesis => env.genesisOf(r.payload).Some? && env.genesisOf(r.payload).value.amount == SUPPLY_CAP
    case Transfer => env.transferOf(r.payload).Some? && env.transferOf(r.payload).value.amount > 0
    case ReclaimInvalid =>
      && env.reclaimOf(r.payload).Some?
      && env.reclaimOf(r.payload).value.fromId < 0 && env.reclaimOf(r.payload).value.amount > 0
    case _ => true
  }

  predicate PayloadsOk(env: Env, leaves: seq<Entry>) {
    && (forall i :: 0 <= i < |leaves| ==> PayloadPasses(env, leaves[i].request))
    && HasGenesis(leaves)
  }

  method VerifyPayloads(env: Env, leaves: seq<Entry>) returns (r: Result<(), Failure>)
    ensures r.Ok? <==> PayloadsOk(env, leaves)
    ensures r.Err? && r.error.PayloadRefused? ==>
      r.error.at < |leaves| && !PayloadPasses(env, leaves[r.error.at].request)
    ensures r.Err? && !r.error.PayloadRefused? ==> r.error == NoGenesis && !HasGenesis(leaves)
  {
    var genesisAmount: int64 := 0;
    for i := 0 to |leaves|
      invariant forall j :: 0 <= j < i ==> PayloadPasses(env, leaves[j].request)
      invariant genesisAmount == SUPPLY_CAP || genesisAmount == 0
      invariant genesisAmount == SUPPLY_CAP <==> exists j :: 0 <= j < i && leaves[j].request.txType == Genesis
    {
      var request := leaves[i].request;
      match request.txType {
        case Genesis =>
          var p := env.genesisOf(request.payload);
          if p.None? || p.value.amount != SUPPLY_CAP {
            return Err(PayloadRefused(i));
          }
          genesisAmount := p.value.amount;
        case Transfer =>
          var p := env.transferOf(request.payload);
          if p.None? || p.value.amount <= 0 {
            return Err(PayloadRefused(i));
          }
        case ReclaimInvalid =>
          var p := env.reclaimOf(request.payload);
          if p.None? || p.value.fromId >= 0 || p.value.amount <= 0 {
            return Err(PayloadRefused(i));
          }
        case _ =>
      }
    }
    if genesisAmount != SUPPLY_CAP {
      return Err(NoGenesis);
    }
    r := Ok(());
  }

  // ---------- The whole audit ----------

  // A signed tree head with the key that is said to have signed it.
  datatype SignedHead = SignedHead(treeSize: int, rootHash: Bytes, timestampMS: int, sig: Bytes, pub: Bytes)

  datatype Inclusion = Inclusion(leafHash: Digest, path: seq<Digest>)

  // Everything the server answers. `inclusion` and `consistency` answer for the head's size.
  datatype Answers = Answers(
    head: SignedHead,
    leaves: Result<seq<Entry>, Failure>,
    inclusion: nat -> Inclusion,
    consistency: nat -> seq<Digest>)

  function TxHashes(leaves: seq<Entry>): (hashes: seq<Bytes>)
    ensures |hashes| == |leaves| && forall i :: 0 <= i < |leaves| ==> hashes[i] == leaves[i].txHash
  {
    seq(|leaves|, i requires 0 <= i < |leaves| => leaves[i].txHash)
  }

  predicate HeadSigned(env: Env, h: SignedHead) {
    |h.pub| == PUBKEY_LEN && |h.sig| == SIG_LEN
    && env.verify(h.pub, ToBytes(SignedSTHBytes(h.treeSize, h.rootHash, h.timestampMS)), h.sig)
  }

  predicate SamplePasses(env: Env, root: Digest, leaves: seq<Entry>, index: nat, answer: Inclusion) {
    && index < |leaves|
    && answer.leafHash == LeafHash(env.sha, leaves[index].txHash)
    && VerifyInclusion(NodeHash(env.sha), root, answer.leafHash, index, |leaves|, answer.path) == Ok(())
  }

  predicate SamplesPass(env: Env, root: Digest, leaves: seq<Entry>, samples: seq<nat>, inclusion: nat -> Inclusion) {
    forall s :: 0 <= s < |samples| ==> SamplePasses(env, root, leaves, samples[s], inclusion(samples[s]))
  }

  predicate MidpointPasses(env: Env, root: Digest, leaves: seq<Entry>, consistency: nat -> seq<Digest>) {
    |leaves| >= 2 ==>
      var mid := |leaves| / 2;
      var midRoot := Root(env.sha, TxHashes(leaves)[..mid]);
      Verdict(NodeHash(env.sha), midRoot, root, mid, |leaves|, consistency(mid)) == Ok(())
  }

  // What the audit accepts, each check at its place.
  predicate Passes(env: Env, a: Answers, samples: seq<nat>) {
    && HeadSigned(env, a.head)
    && (a.head.treeSize != 0 ==>
         && a.leaves.Ok? && |a.leaves.value| == a.head.treeSize
         && var (leaves, root) := (a.leaves.value, Root(env.sha, TxHashes(a.leaves.value)));
            && LeavesOk(env, leaves)
            && root == a.head.rootHash
            && PayloadsOk(env, leaves)
            && SamplesPass(env, root, leaves, samples, a.inclusion)
            && MidpointPasses(env, root, leaves, a.consistency))
  }

  method VerifySamples(env: Env, root: Digest, leaves: seq<Entry>, samples: seq<nat>, inclusion: nat -> Inclusion)
    returns (r: Result<(), Failure>)
    requires forall s :: 0 <= s < |samples| ==> samples[s] < |leaves|
    ensures r.Ok? <==> SamplesPass(env, root, leaves, samples, inclusion)
  {
    for s := 0 to |samples|
      invariant SamplesPass(env, root, leaves, samples[..s], inclusion)
    {
      var answer := inclusion(samples[s]);
      if answer.leafHash != LeafHash(env.sha, leaves[samples[s]].txHash) {
        return Err(BadSample(s));
      }
      if VerifyInclusion(NodeHash(env.sha), root, answer.leafHash, samples[s], |leaves|, answer.path).Err? {
        return Err(BadSample(s));
      }
    }
    assert samples[..|samples|] == samples;
    r := Ok(());
  }

  method VerifyMidpoint(env: Env, root: Digest, leaves: seq<Entry>, consistency: nat -> seq<Digest>)
    returns (r: Result<(), Failure>)
    ensures r.Ok? <==> MidpointPasses(env, root, leaves, consistency)
  {
    if |leaves| >= 2 {
      var mid := |leaves| / 2;
      var midRoot := Root(env.sha, TxHashes(leaves)[..mid]);
      var verdict := VerifyConsistency(NodeHash(env.sha), midRoot, root, mid, |leaves|, consistency(mid));
      if verdict.Err? {
        return Err(BadConsistency);
      }
    }
    r := Ok(());
  }

  // The audit as the tool runs it; the indices to sample have been drawn below the size.
  method Verify(env: Env, a: Answers, samples: seq<nat>) returns (r: Result<(), Failure>)
    requires a.head.treeSize > 0 ==> forall s :: 0 <= s < |samples| ==> samples[s] < a.head.treeSize
    ensures r.Ok? <==> Passes(env, a, samples)
  {
    if !HeadSigned(env, a.head) {
      return Err(HeadSignature);
    }
    if a.head.treeSize == 0 {
      return Ok(());
    }
    if a.leaves.Err? {
      return Err(a.leaves.error);
    }
    var leaves := a.leaves.value;
    if |leaves| != a.head.treeSize {
      return Err(WrongCount);
    }
    r := VerifyLeaves(env, leaves);
    if r.Err? {
      return;
    }
    var root := Root(env.sha, TxHashes(leaves));
    if root != a.head.rootHash {
      return Err(RootDiffers);
    }
    r := VerifyPayloads(env, leaves);
    if r.Err? {
      return;
    }
    r := VerifySamples(env, root, leaves, samples, a.inclusion);
    if r.Err? {
      return;
    }
    r := VerifyMidpoint(env, root, leaves, a.consistency);
  }
}
