/**
  What passing the audit means: every honest ledger passes, even while it grows, and two
  logs that pass under one signed head have the same content.
 */
module Audits {
  import opened Wrappers
  import opened ByteStrings
  import opened Tx
  import opened LedgerState
  import opened LedgerLaws
  import LedgerRuns
  import opened TreeHead
  import opened Merkle
  import opened Consistency
  import opened Sha
  import TxLog
  import opened Audit

  // ---------- Completeness ----------

  // The admin key signs messages so that they verify.
  ghost predicate SignsRight(env: Env, sign: TxLog.Signer, pub: Bytes) {
    |pub| == PUBKEY_LEN && forall m :: |sign(m)| == SIG_LEN && env.verify(pub, ToBytes(m), sign(m))
  }

  // The states of one ledger run at the moments of the audit's requests.
  ghost predicate RunAt(env: Env, unique: bool, stepsAt: nat -> seq<LedgerRuns.Step>, logAt: nat -> seq<Entry>) {
    && (forall k :: logAt(k) == LedgerRuns.Reached(env, unique, stepsAt(k)).log)
    && (forall j: nat, k: nat :: j <= k ==> stepsAt(j) <= stepsAt(k))
  }

  lemma RunExtends(env: Env, unique: bool, steps: seq<LedgerRuns.Step>, more: seq<LedgerRuns.Step>)
    requires steps <= more
    ensures LedgerRuns.Reached(env, unique, steps).log <= LedgerRuns.Reached(env, unique, more).log
  {
    EmptyInv(env);
    LedgerRuns.LogOnlyGrows(env, unique, EMPTY, steps, more[|steps|..]);
    assert steps + more[|steps|..] == more;
  }

  lemma LogOkIndexed(env: Env, log: seq<Entry>)
    requires LogOk(env, log) && |log| <= 0x8000_0000_0000_0000
    ensures Indexed(log)
  {
    forall i | 0 <= i < |log|
      ensures log[i].leafIndex == i
    {
      assert EntryOk(env, log, i);
    }
  }

  // A running ledger is what the fetching loop expects of the server's table.
  lemma RunIsGrowing(env: Env, unique: bool, stepsAt: nat -> seq<LedgerRuns.Step>, logAt: nat -> seq<Entry>)
    requires RunAt(env, unique, stepsAt, logAt) && forall k :: |logAt(k)| <= 0x8000_0000_0000_0000
    ensures Growing(logAt)
  {
    forall k
      ensures Indexed(logAt(k))
    {
      LogOkIndexed(env, logAt(k));
    }
    forall j: nat, k: nat | j <= k
      ensures logAt(j) <= logAt(k)
    {
      RunExtends(env, unique, stepsAt(j), stepsAt(k));
    }
  }

  // What the inclusion and consistency requests answer for size n when the log is this one.
  function ServedInclusion(env: Env, log: seq<Entry>, n: nat, index: nat): Inclusion
    requires index < n <= |log|
  {
    var hashes := LeafHashes(env.sha, TxHashes(log)[..n]);
    Inclusion(hashes[index], PathIn(NodeHash(env.sha), hashes, 0, n, index))
  }

  function ServedConsistency(env: Env, log: seq<Entry>, m: nat, n: nat): seq<Digest>
    requires 0 < m <= n <= |log|
  {
    ConsistencyProof(NodeHash(env.sha), LeafHashes(env.sha, TxHashes(log)[..n]), m, n).value
  }

  // An answer for size n is computed from the log at some moment of the audit.
  ghost predicate TrueInclusion(env: Env, logAt: nat -> seq<Entry>, n: nat, index: nat, answer: Inclusion)
    requires index < n
  {
    exists k: nat :: n <= |logAt(k)| && answer == ServedInclusion(env, logAt(k), n, index)
  }

  ghost predicate TrueConsistency(env: Env, logAt: nat -> seq<Entry>, m: nat, n: nat, answer: seq<Digest>)
    requires 0 < m <= n
  {
    exists k: nat :: n <= |logAt(k)| && answer == ServedConsistency(env, logAt(k), m, n)
  }

  ghost predicate Honest(env: Env, logAt: nat -> seq<Entry>, n: nat, inclusion: nat -> Inclusion,
                         consistency: nat -> seq<Digest>) {
    && (forall i: nat :: i < n ==> TrueInclusion(env, logAt, n, i, inclusion(i)))
    && (forall m: nat :: 0 < m <= n ==> TrueConsistency(env, logAt, m, n, consistency(m)))
  }

  predicate HeadTrue(env: Env, sign: TxLog.Signer, log: seq<Entry>, h: SignedHead) {
    && 0 <= h.treeSize <= |log|
    && h.rootHash == Root(env.sha, TxHashes(log)[..h.treeSize])
    && h.sig == sign(SignedSTHBytes(h.treeSize, h.rootHash, h.timestampMS))
  }

  function Published(h: TxLog.Head, pub: Bytes): SignedHead {
    SignedHead(h.treeSize, h.rootHash, h.timestampMS, h.sig, pub)
  }

  // Every head that the log service returns, in any interleaving of its callers, is true.
  lemma ReturnedHeadIsTrue(env: Env, sign: TxLog.Signer, pub: Bytes, actions: seq<TxLog.Action>, i: nat,
                           log: seq<Entry>)
    requires var sys := TxLog.Reached(env.sha, sign, actions); i < |sys.heads| && sys.log == TxHashes(log)
    ensures HeadTrue(env, sign, log, Published(TxLog.Reached(env.sha, sign, actions).heads[i], pub))
  {
    TxLog.HeadsConsistent(env.sha, sign, actions, i, i);
  }

  lemma SamePrefix(log: seq<Entry>, more: seq<Entry>, n: nat)
    requires n <= |log| && log <= more
    ensures TxHashes(log)[..n] == TxHashes(more)[..n] == TxHashes(log[..n])
  {
    forall i | 0 <= i < n
      ensures TxHashes(more)[i] == log[i].txHash
    {
      assert more[i] == log[i];
    }
  }

  lemma LeavesPass(env: Env, log: seq<Entry>, n: nat)
    requires LogOk(env, log) && 0 < n <= |log|
    ensures LeavesOk(env, log[..n]) && PayloadsOk(env, log[..n])
  {
    var leaves := log[..n];
    forall i | 0 <= i < n
      ensures LeafOk(env, leaves, i) && PayloadPasses(env, leaves[i].request)
    {
      assert EntryOk(env, log, i);
    }
    assert EntryOk(env, log, 0) && leaves[0].request.txType == Genesis;
  }

  lemma SamplePassesFor(env: Env, log: seq<Entry>, n: nat, index: nat)
    requires index < n <= |log|
    ensures SamplePasses(env, Root(env.sha, TxHashes(log[..n])), log[..n], index, ServedInclusion(env, log, n, index))
  {
    SamePrefix(log, log, n);
    InclusionComplete(NodeHash(env.sha), LeafHashes(env.sha, TxHashes(log[..n])), index);
  }

  lemma MidpointPassesFor(env: Env, log: seq<Entry>, n: nat, consistency: nat -> seq<Digest>)
    requires n <= |log|
    requires n >= 2 ==> consistency(n / 2) == ServedConsistency(env, log, n / 2, n)
    ensures MidpointPasses(env, Root(env.sha, TxHashes(log[..n])), log[..n], consistency)
  {
    if n >= 2 {
      SamePrefix(log, log, n);
      assert TxHashes(log)[..n / 2] == TxHashes(log[..n])[..n / 2];
      TxLog.PrefixProofVerifies(env.sha, TxHashes(log), n / 2, n);
    }
  }

  lemma HonestSamples(env: Env, logAt: nat -> seq<Entry>, n: nat, samples: seq<nat>, inclusion: nat -> Inclusion,
                      consistency: nat -> seq<Digest>)
    requires Growing(logAt) && n <= |logAt(0)| && Honest(env, logAt, n, inclusion, consistency)
    requires forall s :: 0 <= s < |samples| ==> samples[s] < n
    ensures SamplesPass(env, Root(env.sha, TxHashes(logAt(0)[..n])), logAt(0)[..n], samples, inclusion)
  {
    var leaves := logAt(0)[..n];
    forall s | 0 <= s < |samples|
      ensures SamplePasses(env, Root(env.sha, TxHashes(leaves)), leaves, samples[s], inclusion(samples[s]))
    {
      assert TrueInclusion(env, logAt, n, samples[s], inclusion(samples[s]));
      var k: nat :| n <= |logAt(k)| && inclusion(samples[s]) == ServedInclusion(env, logAt(k), n, samples[s]);
      assert logAt(0) <= logAt(k);
      assert logAt(k)[..n] == leaves;
      SamplePassesFor(env, logAt(k), n, samples[s]);
    }
  }

  lemma HonestMidpoint(env: Env, logAt: nat -> seq<Entry>, n: nat, inclusion: nat -> Inclusion,
                       consistency: nat -> seq<Digest>)
    requires Growing(logAt) && n <= |logAt(0)| && Honest(env, logAt, n, inclusion, consistency)
    ensures MidpointPasses(env, Root(env.sha, TxHashes(logAt(0)[..n])), logAt(0)[..n], consistency)
  {
    if n >= 2 {
      var m := n / 2;
      assert TrueConsistency(env, logAt, m, n, consistency(m));
      var k: nat :| n <= |logAt(k)| && consistency(m) == ServedConsistency(env, logAt(k), m, n);
      assert logAt(0) <= logAt(k);
      assert logAt(k)[..n] == logAt(0)[..n];
      MidpointPassesFor(env, logAt(k), n, consistency);
    }
  }

  // The head's prefix of a running ledger passes every check.
  lemma HonestPasses(env: Env, unique: bool, sign: TxLog.Signer, stepsAt: nat -> seq<LedgerRuns.Step>,
                     logAt: nat -> seq<Entry>, a: Answers, samples: seq<nat>)
    requires RunAt(env, unique, stepsAt, logAt) && Growing(logAt)
    requires SignsRight(env, sign, a.head.pub) && HeadTrue(env, sign, logAt(0), a.head)
    requires a.leaves == Ok(logAt(0)[..a.head.treeSize])
    requires Honest(env, logAt, a.head.treeSize, a.inclusion, a.consistency)
    requires forall s :: 0 <= s < |samples| ==> samples[s] < a.head.treeSize
    ensures Passes(env, a, samples)
  {
    var n: nat := a.head.treeSize;
    if n > 0 {
      LeavesPass(env, logAt(0), n);
      SamePrefix(logAt(0), logAt(0), n);
      HonestSamples(env, logAt, n, samples, a.inclusion, a.consistency);
      HonestMidpoint(env, logAt, n, a.inclusion, a.consistency);
    }
  }

  // The audit from the first leaf fetched to the last check. It passes on every reachable
  // ledger, at every size it has signed, whatever indices are sampled and however much the
  // log grows between any two requests.
  method RunAudit(env: Env, ghost unique: bool, ghost sign: TxLog.Signer, ghost stepsAt: nat -> seq<LedgerRuns.Step>,
                  logAt: nat -> seq<Entry>, head: SignedHead, samples: seq<nat>,
                  inclusion: nat -> Inclusion, consistency: nat -> seq<Digest>)
    returns (r: Result<(), Failure>)
    requires RunAt(env, unique, stepsAt, logAt) && forall k :: |logAt(k)| <= 0x8000_0000_0000_0000
    requires SignsRight(env, sign, head.pub) && HeadTrue(env, sign, logAt(0), head)
    requires Honest(env, logAt, head.treeSize, inclusion, consistency)
    requires forall s :: 0 <= s < |samples| ==> samples[s] < head.treeSize
    ensures r.Ok?
  {
    RunIsGrowing(env, unique, stepsAt, logAt);
    var leaves := FetchAllLeaves(logAt, head.treeSize);
    var a := Answers(head, leaves, inclusion, consistency);
    HonestPasses(env, unique, sign, stepsAt, logAt, a, samples);
    r := Verify(env, a, samples);
  }

  // ---------- The audit of the log service ----------

  // The proofs that the endpoints compute from a snapshot of the size that was asked for.
  function InclusionFrom(env: Env, snap: TxLog.Snapshot, index: nat): Inclusion
    requires index < |snap.leafHashes|
  {
    Inclusion(snap.leafHashes[index], InclusionProof(NodeHash(env.sha), snap.leafHashes, index).value)
  }

  function ConsistencyFrom(env: Env, snap: TxLog.Snapshot, m: nat): seq<Digest>
    requires 0 < m <= |snap.leafHashes|
  {
    ConsistencyProof(NodeHash(env.sha), snap.leafHashes, m, |snap.leafHashes|).value
  }

  // At some moment of the service's run a caller has been returned this snapshot of size n.
  ghost predicate Given(env: Env, sign: TxLog.Signer, actsAt: nat -> seq<TxLog.Action>, k: nat, c: int, n: nat,
                        snap: TxLog.Snapshot) {
    var sys := TxLog.Reached(env.sha, sign, actsAt(k));
    && c in sys.callers && sys.callers[c].Returned? && sys.callers[c].snap == snap
    && snap.treeSize == |snap.leafHashes| == n
  }

  ghost predicate InclusionGiven(env: Env, sign: TxLog.Signer, actsAt: nat -> seq<TxLog.Action>, n: nat, index: nat,
                                 answer: Inclusion)
    requires index < n
  {
    exists k: nat, c, snap :: Given(env, sign, actsAt, k, c, n, snap) && answer == InclusionFrom(env, snap, index)
  }

  ghost predicate ConsistencyGiven(env: Env, sign: TxLog.Signer, actsAt: nat -> seq<TxLog.Action>, m: nat, n: nat,
                                   answer: seq<Digest>)
    requires 0 < m <= n
  {
    exists k: nat, c, snap :: Given(env, sign, actsAt, k, c, n, snap) && answer == ConsistencyFrom(env, snap, m)
  }

  // The service runs on the ledger's log, and every answer comes from a snapshot it returned.
  ghost predicate Served(env: Env, sign: TxLog.Signer, actsAt: nat -> seq<TxLog.Action>, logAt: nat -> seq<Entry>,
                         n: nat, inclusion: nat -> Inclusion, consistency: nat -> seq<Digest>) {
    && (forall k :: TxLog.Reached(env.sha, sign, actsAt(k)).log == TxHashes(logAt(k)))
    && (forall i: nat :: i < n ==> InclusionGiven(env, sign, actsAt, n, i, inclusion(i)))
    && (forall m: nat :: 0 < m <= n ==> ConsistencyGiven(env, sign, actsAt, m, n, consistency(m)))
  }

  // A returned snapshot is that of the log, so its proofs are.
  lemma GivenIsExact(env: Env, sign: TxLog.Signer, actsAt: nat -> seq<TxLog.Action>, log: seq<Entry>, k: nat, c: int,
                     n: nat, snap: TxLog.Snapshot)
    requires Given(env, sign, actsAt, k, c, n, snap) && TxLog.Reached(env.sha, sign, actsAt(k)).log == TxHashes(log)
    ensures n <= |log| && snap.leafHashes == LeafHashes(env.sha, TxHashes(log)[..n])
  {
    TxLog.SnapshotsExact(env.sha, sign, actsAt(k), [], c);
  }

  lemma ServedIsHonest(env: Env, sign: TxLog.Signer, actsAt: nat -> seq<TxLog.Action>, logAt: nat -> seq<Entry>,
                       n: nat, inclusion: nat -> Inclusion, consistency: nat -> seq<Digest>)
    requires Served(env, sign, actsAt, logAt, n, inclusion, consistency)
    ensures Honest(env, logAt, n, inclusion, consistency)
  {
    forall i: nat | i < n
      ensures TrueInclusion(env, logAt, n, i, inclusion(i))
    {
      assert InclusionGiven(env, sign, actsAt, n, i, inclusion(i));
      var k: nat, c, snap :| Given(env, sign, actsAt, k, c, n, snap) && inclusion(i) == InclusionFrom(env, snap, i);
      GivenIsExact(env, sign, actsAt, logAt(k), k, c, n, snap);
      assert inclusion(i) == ServedInclusion(env, logAt(k), n, i);
    }
    forall m: nat | 0 < m <= n
      ensures TrueConsistency(env, logAt, m, n, consistency(m))
    {
      assert ConsistencyGiven(env, sign, actsAt, m, n, consistency(m));
      var k: nat, c, snap :| Given(env, sign, actsAt, k, c, n, snap) && consistency(m) == ConsistencyFrom(env, snap, m);
      GivenIsExact(env, sign, actsAt, logAt(k), k, c, n, snap);
      assert consistency(m) == ServedConsistency(env, logAt(k), m, n);
    }
  }

  // The audit of the concurrent service: any head it had returned by the first request, and
  // every answer from a snapshot that some interleaved call was returned.
  method RunServiceAudit(env: Env, ghost unique: bool, ghost sign: TxLog.Signer,
                         ghost stepsAt: nat -> seq<LedgerRuns.Step>, ghost actsAt: nat -> seq<TxLog.Action>,
                         ghost i: nat, logAt: nat -> seq<Entry>, head: SignedHead, samples: seq<nat>,
                         inclusion: nat -> Inclusion, consistency: nat -> seq<Digest>)
    returns (r: Result<(), Failure>)
    requires RunAt(env, unique, stepsAt, logAt) && forall k :: |logAt(k)| <= 0x8000_0000_0000_0000
    requires SignsRight(env, sign, head.pub) && head.treeSize >= 0
    requires Served(env, sign, actsAt, logAt, head.treeSize, inclusion, consistency)
    requires var heads := TxLog.Reached(env.sha, sign, actsAt(0)).heads;
      i < |heads| && head == Published(heads[i], head.pub)
    requires forall s :: 0 <= s < |samples| ==> samples[s] < head.treeSize
    ensures r.Ok?
  {
    ReturnedHeadIsTrue(env, sign, head.pub, actsAt(0), i, logAt(0));
    ServedIsHonest(env, sign, actsAt, logAt, head.treeSize, inclusion, consistency);
    r := RunAudit(env, unique, sign, stepsAt, logAt, head, samples, inclusion, consistency);
  }

  // ---------- What a passing audit shows ----------

  // The head is signed, and the leaves are as many as it says, under its root.
  lemma PassingHead(env: Env, a: Answers, samples: seq<nat>)
    requires Passes(env, a, samples)
    ensures |a.head.pub| == 32 && |a.head.sig| == 64
    ensures var message := SignedSTHBytes(a.head.treeSize, a.head.rootHash, a.head.timestampMS);
      env.verify(a.head.pub, ToBytes(message), a.head.sig)
    ensures a.head.treeSize != 0 ==>
      a.leaves.Ok? && |a.leaves.value| == a.head.treeSize && a.head.rootHash == Root(env.sha, TxHashes(a.leaves.value))
  {
  }

  // What the payload of a leaf decodes to.
  predicate PayloadFits(env: Env, r: Request) {
    && (r.txType == Genesis ==>
          env.genesisOf(r.payload).Some? && env.genesisOf(r.payload).value.amount == 50_000_000)
    && (r.txType == Transfer ==>
          env.transferOf(r.payload).Some? && env.transferOf(r.payload).value.amount > 0)
    && (r.txType == ReclaimInvalid ==>
          && env.reclaimOf(r.payload).Some?
          && env.reclaimOf(r.payload).value.fromId < 0 && env.reclaimOf(r.payload).value.amount > 0)
  }

  // Every leaf is signed, hashed and chained, its payload fits, and some leaf is the genesis.
  lemma PassingLeaf(env: Env, a: Answers, samples: seq<nat>, i: nat)
    requires Passes(env, a, samples) && a.head.treeSize != 0 && i < |a.leaves.value|
    ensures var (leaves, leaf) := (a.leaves.value, a.leaves.value[i]);
      && |leaf.request.signer| == 32 && |leaf.request.sig| == 64
      && env.verify(leaf.request.signer, leaf.request.payload, leaf.request.sig)
      && leaf.txHash == env.sha(leaf.request.payload + leaf.request.sig + leaf.prevHash)
      && leaf.prevHash == (if i == 0 then seq(32, j => 0 as byte) else leaves[i - 1].txHash)
      && PayloadFits(env, leaf.request)
      && exists g :: 0 <= g < |leaves| && leaves[g].request.txType == Genesis
  {
    assert LeafOk(env, a.leaves.value, i);
    assert Zeros(HASH_LEN) == seq(32, j => 0 as byte);
  }

  predicate IsGenerated(node: (Digest, Digest) -> Digest, hashes: seq<Digest>, index: nat, answer: Inclusion) {
    && index < |hashes|
    && answer.leafHash == hashes[index]
    && InclusionProof(node, hashes, index) == Ok(answer.path)
  }

  // Without a collision, a sample passes exactly with the leaf's hash and its generated path.
  lemma SampleExact(env: Env, T: iset<Bytes>, leaves: seq<Entry>, hashes: seq<Digest>, index: nat, answer: Inclusion)
    requires index < |leaves| && CollisionFree(env.sha, T) && hashes == LeafHashes(env.sha, TxHashes(leaves))
    requires RootCovers(PairsIn(T), NodeHash(env.sha), hashes)
    requires DescendCovers(PairsIn(T), NodeHash(env.sha), answer.leafHash, index, |leaves|, answer.path)
    ensures SamplePasses(env, Root(env.sha, TxHashes(leaves)), leaves, index, answer)
      <==> IsGenerated(NodeHash(env.sha), hashes, index, answer)
  {
    var node := NodeHash(env.sha);
    NodesDoNotCollide(env.sha, T);
    InclusionExact(PairsIn(T), node, hashes, answer.leafHash, index, answer.path);
    assert Root(env.sha, TxHashes(leaves)) == RootOfHashes(node, hashes);
  }

  // Without a collision, the midpoint passes exactly with the generated proof from half the size.
  lemma MidpointExact(env: Env, T: iset<Bytes>, leaves: seq<Entry>, consistency: nat -> seq<Digest>)
    requires |leaves| >= 2 && CollisionFree(env.sha, T)
    requires var (node, hashes, m) := (NodeHash(env.sha), LeafHashes(env.sha, TxHashes(leaves)), |leaves| / 2);
      && RootCovers(PairsIn(T), node, hashes[..m]) && RootCovers(PairsIn(T), node, hashes)
      && VerdictCovers(PairsIn(T), node, RootOfHashes(node, hashes[..m]), m, |leaves|, consistency(m))
    ensures MidpointPasses(env, Root(env.sha, TxHashes(leaves)), leaves, consistency)
      <==> ConsistencyProof(NodeHash(env.sha), LeafHashes(env.sha, TxHashes(leaves)), |leaves| / 2, |leaves|)
             == Ok(consistency(|leaves| / 2))
  {
    var (hashes, m) := (LeafHashes(env.sha, TxHashes(leaves)), |leaves| / 2);
    assert LeafHashes(env.sha, TxHashes(leaves)[..m]) == hashes[..m];
    NodesDoNotCollide(env.sha, T);
    ConsistencyExact(PairsIn(T), NodeHash(env.sha), hashes[..m], hashes, consistency(m));
  }

  // ---------- Binding ----------

  // The strings that the audit hashes for these leaves lie in T.
  ghost predicate Hashed(env: Env, T: iset<Bytes>, leaves: seq<Entry>)
    requires |leaves| > 0
  {
    && (forall i :: 0 <= i < |leaves| ==> EntryString(leaves[i]) in T && [0] + leaves[i].txHash in T)
    && RootCovers(PairsIn(T), NodeHash(env.sha), LeafHashes(env.sha, TxHashes(leaves)))
  }

  function EntryString(e: Entry): Bytes {
    e.request.payload + e.request.sig + e.prevHash
  }

  predicate SameContent(a: Entry, b: Entry) {
    && a.request.payload == b.request.payload && a.request.sig == b.request.sig
    && a.prevHash == b.prevHash && a.txHash == b.txHash
  }

  lemma HashesBind(env: Env, T: iset<Bytes>, a: seq<Entry>, b: seq<Entry>)
    requires |a| == |b| > 0 && CollisionFree(env.sha, T) && Hashed(env, T, a) && Hashed(env, T, b)
    requires Root(env.sha, TxHashes(a)) == Root(env.sha, TxHashes(b))
    ensures TxHashes(a) == TxHashes(b)
  {
    NodesDoNotCollide(env.sha, T);
    RootBinds(PairsIn(T), NodeHash(env.sha), LeafHashes(env.sha, TxHashes(a)), LeafHashes(env.sha, TxHashes(b)));
    LeafHashesBind(env.sha, T, TxHashes(a), TxHashes(b));
  }

  lemma LeafBinds(env: Env, T: iset<Bytes>, a: seq<Entry>, b: seq<Entry>, i: nat)
    requires CollisionFree(env.sha, T) && i < |a| && i < |b|
    requires LeafOk(env, a, i) && LeafOk(env, b, i) && (i > 0 ==> LeafOk(env, a, i - 1) && LeafOk(env, b, i - 1))
    requires EntryString(a[i]) in T && EntryString(b[i]) in T && a[i].txHash == b[i].txHash
    ensures SameContent(a[i], b[i])
  {
    HashInputSplits(a[i].request.payload, a[i].request.sig, a[i].prevHash,
                    b[i].request.payload, b[i].request.sig, b[i].prevHash);
  }

  // Two leaf lists of one size that pass the leaf checks have one root exactly when they agree
  // at every index on payload, signature, previous hash and hash.
  lemma LeavesBind(env: Env, T: iset<Bytes>, a: seq<Entry>, b: seq<Entry>)
    requires |a| == |b| > 0 && CollisionFree(env.sha, T) && Hashed(env, T, a) && Hashed(env, T, b)
    requires LeavesOk(env, a) && LeavesOk(env, b)
    ensures Root(env.sha, TxHashes(a)) == Root(env.sha, TxHashes(b))
      <==> forall i :: 0 <= i < |a| ==> SameContent(a[i], b[i])
  {
    if forall i :: 0 <= i < |a| ==> SameContent(a[i], b[i]) {
      assert TxHashes(a) == TxHashes(b);
    }
    if Root(env.sha, TxHashes(a)) == Root(env.sha, TxHashes(b)) {
      HashesBind(env, T, a, b);
      forall i | 0 <= i < |a|
        ensures SameContent(a[i], b[i])
      {
        assert TxHashes(a)[i] == TxHashes(b)[i];
        LeafBinds(env, T, a, b, i);
      }
    }
  }

  // Two audits that pass under the same size and root have seen the same log.
  lemma AuditBinds(env: Env, T: iset<Bytes>, a: Answers, b: Answers, samplesA: seq<nat>, samplesB: seq<nat>)
    requires Passes(env, a, samplesA) && Passes(env, b, samplesB)
    requires a.head.treeSize == b.head.treeSize != 0 && a.head.rootHash == b.head.rootHash
    requires CollisionFree(env.sha, T)
    requires Hashed(env, T, a.leaves.value) && Hashed(env, T, b.leaves.value)
    ensures |a.leaves.value| == |b.leaves.value|
    ensures forall i :: 0 <= i < |a.leaves.value| ==> SameContent(a.leaves.value[i], b.leaves.value[i])
  {
    LeavesBind(env, T, a.leaves.value, b.leaves.value);
  }

  lemma SameHashSamples(env: Env, root: Digest, leaves: seq<Entry>, other: seq<Entry>, samples: seq<nat>,
                        inclusion: nat -> Inclusion)
    requires |leaves| == |other| && forall j :: 0 <= j < |leaves| ==> other[j].txHash == leaves[j].txHash
    requires SamplesPass(env, root, leaves, samples, inclusion)
    ensures SamplesPass(env, root, other, samples, inclusion)
  {
    forall s | 0 <= s < |samples|
      ensures SamplePasses(env, root, other, samples[s], inclusion(samples[s]))
    {
      assert SamplePasses(env, root, leaves, samples[s], inclusion(samples[s]));
    }
  }

  lemma SameLeaf(env: Env, a: seq<Entry>, b: seq<Entry>, i: nat)
    requires i < |a| == |b| && LeafOk(env, a, i)
    requires SameContent(a[i], b[i]) && (i > 0 ==> SameContent(a[i - 1], b[i - 1]))
    ensures LeafOk(env, b, i) <==> VerifySig(env, b[i].request)
  {
  }

  lemma SameLeavesOk(env: Env, a: seq<Entry>, b: seq<Entry>)
    requires |a| == |b| && LeavesOk(env, a) && forall i :: 0 <= i < |a| ==> SameContent(a[i], b[i])
    ensures LeavesOk(env, b) <==> forall i :: 0 <= i < |b| ==> VerifySig(env, b[i].request)
  {
    forall i | 0 <= i < |a|
      ensures LeafOk(env, b, i) <==> VerifySig(env, b[i].request)
    {
      assert LeafOk(env, a, i);
      SameLeaf(env, a, b, i);
    }
  }

  lemma SameContentPasses(env: Env, a: Answers, b: seq<Entry>, samples: seq<nat>)
    requires Passes(env, a, samples) && a.head.treeSize != 0 && |b| == |a.leaves.value|
    requires forall i :: 0 <= i < |b| ==> SameContent(a.leaves.value[i], b[i]) && VerifySig(env, b[i].request)
    requires PayloadsOk(env, b)
    ensures Passes(env, a.(leaves := Ok(b)), samples)
  {
    var leaves := a.leaves.value;
    SameLeavesOk(env, leaves, b);
    assert TxHashes(b) == TxHashes(leaves);
    SameHashSamples(env, Root(env.sha, TxHashes(leaves)), leaves, b, samples, a.inclusion);
  }

  // What an audit that passes fixes of the log, exactly: another list of the same length in
  // place of the leaves passes as well if and only if it has the same payloads, signatures
  // and hashes, its own signers verify those signatures, and its own types fit those
  // payloads. Signers and types are fixed no further.
  lemma PassingExact(env: Env, T: iset<Bytes>, a: Answers, b: seq<Entry>, samples: seq<nat>)
    requires Passes(env, a, samples) && a.head.treeSize != 0 && |b| == |a.leaves.value|
    requires CollisionFree(env.sha, T) && Hashed(env, T, a.leaves.value) && Hashed(env, T, b)
    ensures Passes(env, a.(leaves := Ok(b)), samples)
      <==> && PayloadsOk(env, b)
           && forall i :: 0 <= i < |b| ==> SameContent(a.leaves.value[i], b[i]) && VerifySig(env, b[i].request)
  {
    var changed := a.(leaves := Ok(b));
    if Passes(env, changed, samples) {
      AuditBinds(env, T, a, changed, samples, samples);
      SameLeavesOk(env, a.leaves.value, b);
    } else if && PayloadsOk(env, b)
              && forall i :: 0 <= i < |b| ==> SameContent(a.leaves.value[i], b[i]) && VerifySig(env, b[i].request) {
      SameContentPasses(env, a, b, samples);
    }
  }

  // One entry shown as a key rotation.
  function Relabelled(leaves: seq<Entry>, i: nat): seq<Entry>
    requires i < |leaves|
  {
    leaves[i := leaves[i].(request := leaves[i].request.(txType := RotateKey))]
  }

  // The witness: any entry but the genesis may as well be shown as a key rotation.
  lemma TypeIsNotBound(env: Env, a: Answers, samples: seq<nat>, i: nat)
    requires Passes(env, a, samples) && a.head.treeSize != 0
    requires i < |a.leaves.value| && a.leaves.value[i].request.txType != Genesis
    ensures Passes(env, a.(leaves := Ok(Relabelled(a.leaves.value, i))), samples)
  {
    var leaves := a.leaves.value;
    var g :| 0 <= g < |leaves| && leaves[g].request.txType == Genesis;
    assert Relabelled(leaves, i)[g] == leaves[g];
    forall j | 0 <= j < |leaves|
      ensures VerifySig(env, leaves[j].request)
    {
      assert LeafOk(env, leaves, j);
    }
    SameContentPasses(env, a, Relabelled(leaves, i), samples);
  }
}
