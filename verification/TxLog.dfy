/**
  The proof-log service: a cached Merkle snapshot, read and installed under two separate
  lock sections while the transaction table grows, and the checkpoint table of signed tree
  heads. Any number of callers interleave; each section and each SQL statement is one step.
 */
module TxLog {
  import opened Wrappers
  import opened ByteStrings
  import opened TreeHead
  import opened Consistency
  import opened Sha

  // ---------- One call ----------

  datatype Snapshot = Snapshot(treeSize: nat, txHashes: seq<Bytes>, leafHashes: seq<Digest>, rootHash: Digest)

  datatype LogError = LogEnded(at: nat, want: nat) | CheckpointMismatch

  // What the first lock section takes from the cache.
  datatype CacheRead = Hit(snap: Snapshot) | Miss(txHashes: seq<Bytes>, leafHashes: seq<Digest>)

  ghost predicate Wellformed(cache: Option<Snapshot>) {
    cache.Some? ==> |cache.value.txHashes| == |cache.value.leafHashes| == cache.value.treeSize
  }

  function ReadCache(sha: Bytes -> Digest, cache: Option<Snapshot>, target: nat): CacheRead
    requires Wellformed(cache)
  {
    if cache.None? then Miss([], [])
    else if target <= cache.value.treeSize then
      var leaves := cache.value.leafHashes[..target];
      Hit(Snapshot(target, cache.value.txHashes[..target], leaves, RootFromLeafHashes(sha, leaves)))
    else Miss(cache.value.txHashes, cache.value.leafHashes)
  }

  function RowsUpTo(log: seq<Bytes>, start: nat, stop: nat): seq<Bytes>
    requires start < stop ==> stop <= |log|
  {
    if start < stop then log[start..stop] else []
  }

  lemma RowsSnoc(sha: Bytes -> Digest, log: seq<Bytes>, start: nat, next: nat)
    requires start <= next < |log|
    ensures RowsUpTo(log, start, next + 1) == RowsUpTo(log, start, next) + [log[next]]
    ensures LeafHashes(sha, RowsUpTo(log, start, next + 1))
      == LeafHashes(sha, RowsUpTo(log, start, next)) + [LeafHash(sha, log[next])]
  {
  }

  // The rows from the cached size up to the target, appended and hashed.
  function Fetched(sha: Bytes -> Digest, log: seq<Bytes>, target: nat, txHashes: seq<Bytes>, leafHashes: seq<Digest>)
    : Result<Snapshot, LogError>
  {
    var start := |txHashes|;
    var rows := RowsUpTo(log, start, Least(target, |log|));
    if start < target && start + |rows| != target then Err(LogEnded(start + |rows|, target)) else
    var leaves := leafHashes + LeafHashes(sha, rows);
    Ok(Snapshot(target, txHashes + rows, leaves, RootFromLeafHashes(sha, leaves)))
  }

  function Installed(cache: Option<Snapshot>, snap: Snapshot): Option<Snapshot> {
    if cache.None? || snap.treeSize >= cache.value.treeSize then Some(snap) else cache
  }

  // ---------- Agreement with the log ----------

  // Recomputing the tree of the first treeSize log entries from nothing gives this snapshot.
  ghost predicate Exact(sha: Bytes -> Digest, log: seq<Bytes>, snap: Snapshot) {
    && snap.treeSize <= |log|
    && snap.txHashes == log[..snap.treeSize]
    && snap.leafHashes == LeafHashes(sha, log[..snap.treeSize])
    && snap.rootHash == Root(sha, log[..snap.treeSize])
  }

  ghost predicate CacheExact(sha: Bytes -> Digest, log: seq<Bytes>, cache: Option<Snapshot>) {
    cache.Some? ==> Exact(sha, log, cache.value)
  }

  // A miss carries the leaves of some prefix of the log, shorter than the target unless empty.
  ghost predicate PartExact(sha: Bytes -> Digest, log: seq<Bytes>, target: nat, txHashes: seq<Bytes>,
                            leafHashes: seq<Digest>) {
    && txHashes <= log && leafHashes == LeafHashes(sha, txHashes)
    && |txHashes| <= target
  }

  // A snapshot stays exact while the log grows.
  lemma ExactLasts(sha: Bytes -> Digest, log: seq<Bytes>, more: seq<Bytes>, snap: Snapshot)
    requires Exact(sha, log, snap)
    ensures Exact(sha, log + more, snap)
  {
    assert (log + more)[..snap.treeSize] == log[..snap.treeSize];
  }

  lemma ReadCacheExact(sha: Bytes -> Digest, log: seq<Bytes>, cache: Option<Snapshot>, target: nat)
    requires CacheExact(sha, log, cache)
    ensures match ReadCache(sha, cache, target)
      case Hit(snap) => Exact(sha, log, snap) && snap.treeSize == target
      case Miss(txs, leaves) => PartExact(sha, log, target, txs, leaves)
  {
    if cache.Some? && target <= cache.value.treeSize {
      assert log[..cache.value.treeSize][..target] == log[..target];
      assert LeafHashes(sha, log[..cache.value.treeSize])[..target] == LeafHashes(sha, log[..target]);
    }
  }

  lemma CacheLasts(sha: Bytes -> Digest, log: seq<Bytes>, longer: seq<Bytes>, cache: Option<Snapshot>)
    requires CacheExact(sha, log, cache) && log <= longer
    ensures CacheExact(sha, longer, cache)
  {
    if cache.Some? {
      ExactLasts(sha, log, longer[|log|..], cache.value);
      assert log + longer[|log|..] == longer;
    }
  }

  // Fetching fails exactly when the log does not reach the target.
  lemma FetchedExact(sha: Bytes -> Digest, log: seq<Bytes>, target: nat, txHashes: seq<Bytes>, leafHashes: seq<Digest>)
    requires PartExact(sha, log, target, txHashes, leafHashes)
    ensures var r := Fetched(sha, log, target, txHashes, leafHashes);
      && (r.Ok? <==> target <= |log|)
      && (r.Ok? ==> Exact(sha, log, r.value) && r.value.treeSize == target)
      && (r.Err? ==> r.error == LogEnded(|log|, target))
  {
    var start := |txHashes|;
    if target <= |log| {
      var rows := if start < target then log[start..target] else [];
      assert log[..target] == txHashes + rows;
      assert LeafHashes(sha, log[..target]) == LeafHashes(sha, txHashes) + LeafHashes(sha, rows);
    }
  }

  // ---------- The service ----------

  predicate NoSmaller(cache: Option<Snapshot>, cache': Option<Snapshot>) {
    cache.Some? ==> cache'.Some? && cache.value.treeSize <= cache'.value.treeSize
  }

  // The service object; the transaction table is passed in as the rows a query sees.
  class Service {
    var snapshot: Option<Snapshot>

    constructor ()
      ensures snapshot == None
    {
      snapshot := None;
    }

    method LockedRead(sha: Bytes -> Digest, target: nat) returns (r: CacheRead)
      requires Wellformed(snapshot)
      ensures r == ReadCache(sha, snapshot, target)
    {
      if snapshot.None? {
        return Miss([], []);
      }
      var cached := snapshot.value;
      if target <= cached.treeSize {
        var leaves := cached.leafHashes[..target];
        return Hit(Snapshot(target, cached.txHashes[..target], leaves, RootFromLeafHashes(sha, leaves)));
      }
      r := Miss(cached.txHashes, cached.leafHashes);
    }

    // The rows arrive in leaf order, each with its index.
    method Fetch(sha: Bytes -> Digest, log: seq<Bytes>, target: nat, txHashes: seq<Bytes>, leafHashes: seq<Digest>)
      returns (r: Result<Snapshot, LogError>)
      requires |txHashes| == |leafHashes|
      ensures r == Fetched(sha, log, target, txHashes, leafHashes)
    {
      var start := |txHashes|;
      var txs, leaves := txHashes, leafHashes;
      var next := start;
      while next < target && next < |log|
        invariant start <= next && (next == start || next <= Least(target, |log|))
        invariant txs == txHashes + RowsUpTo(log, start, next)
        invariant leaves == leafHashes + LeafHashes(sha, RowsUpTo(log, start, next))
      {
        RowsSnoc(sha, log, start, next);
        txs := txs + [log[next]];
        leaves := leaves + [LeafHash(sha, log[next])];
        next := next + 1;
      }
      if start < target && next != target {
        return Err(LogEnded(next, target));
      }
      r := Ok(Snapshot(target, txs, leaves, RootFromLeafHashes(sha, leaves)));
    }

    method Install(snap: Snapshot)
      modifies this
      ensures snapshot == Installed(old(snapshot), snap)
    {
      if snapshot.None? || snap.treeSize >= snapshot.value.treeSize {
        snapshot := Some(snap);
      }
    }

    // A whole call. `before` is the log when its size is read and `log` when its rows are;
    // `meanwhile` is what other callers have put last between the two lock sections.
    method MerkleSnapshot(sha: Bytes -> Digest, before: seq<Bytes>, log: seq<Bytes>, treeSize: int,
                          meanwhile: Option<Snapshot>)
      returns (r: Result<Snapshot, LogError>)
      requires CacheExact(sha, before, snapshot) && before <= log && CacheExact(sha, log, meanwhile)
      modifies this
      ensures var target := if treeSize < 0 then |before| else treeSize;
        && (r.Ok? <==> target <= |log|)
        && (r.Ok? ==> Exact(sha, log, r.value) && r.value.treeSize == target)
        && (r.Err? ==> r.error == LogEnded(|log|, target))
      ensures CacheExact(sha, log, snapshot) && NoSmaller(old(snapshot), snapshot)
      ensures r.Ok? ==> NoSmaller(Some(r.value), snapshot)
    {
      var target: nat := if treeSize < 0 then |before| else treeSize;
      CacheLasts(sha, before, log, snapshot);
      ReadCacheExact(sha, log, snapshot, target);
      var read := LockedRead(sha, target);
      if read.Hit? {
        return Ok(read.snap);
      }
      FetchedExact(sha, log, target, read.txHashes, read.leafHashes);
      r := Fetch(sha, log, target, read.txHashes, read.leafHashes);
      if meanwhile.Some? {
        Install(meanwhile.value);
      }
      if r.Ok? {
        Install(r.value);
      }
    }
  }

  // ---------- Concurrent callers ----------

  // Signing with the admin key, as a function of the message.
  type Signer = string -> Bytes

  datatype Row = Row(rootHash: Digest, timestampMS: int, sig: Bytes)
  datatype Head = Head(treeSize: nat, rootHash: Digest, timestampMS: int, sig: Bytes)

  // Where a caller stands. `head` marks CurrentSTH, which goes on to sign what it got;
  // `current` marks a target that was read from the table rather than given.
  datatype Caller =
    | Sized(target: nat, current: bool, head: bool)
    | Missed(target: nat, current: bool, head: bool, txHashes: seq<Bytes>, leafHashes: seq<Digest>)
    | Ready(snap: Snapshot, head: bool)
    | Returned(snap: Snapshot, head: bool)
    | RowExists(snap: Snapshot)
    | Signed(sth: Head)
    | Failed(error: LogError, current: bool)

  datatype System = System(
    log: seq<Bytes>,
    cache: Option<Snapshot>,
    checkpoints: map<nat, Row>,
    callers: map<int, Caller>,
    heads: seq<Head>)

  datatype Action =
    | Append(txHash: Bytes)
    | Call(c: int, treeSize: int)
    | CallHead(c: int)
    | Read(c: int)
    | Query(c: int)
    | Put(c: int)
    | InsertRow(c: int, timestampMS: int)
    | SelectRow(c: int)

  function Answer(snap: Snapshot, row: Row): Caller {
    if row.rootHash != snap.rootHash then Failed(CheckpointMismatch, true)
    else Signed(Head(snap.treeSize, row.rootHash, row.timestampMS, row.sig))
  }

  function Answered(sys: System, c: int, answer: Caller): System {
    sys.(callers := sys.callers[c := answer],
         heads := if answer.Signed? then sys.heads + [answer.sth] else sys.heads)
  }

  // One atomic step; an action whose caller is elsewhere does nothing.
  function Step(sha: Bytes -> Digest, sign: Signer, sys: System, a: Action): System
    requires Wellformed(sys.cache)
  {
    match a
    case Append(h) => sys.(log := sys.log + [h])
    case Call(c, treeSize) =>
      var target := if treeSize < 0 then |sys.log| else treeSize;
      sys.(callers := sys.callers[c := Sized(target, treeSize < 0, false)])
    case CallHead(c) => sys.(callers := sys.callers[c := Sized(|sys.log|, true, true)])
    case Read(c) =>
      if c !in sys.callers || !sys.callers[c].Sized? then sys else
      var k := sys.callers[c];
      (match ReadCache(sha, sys.cache, k.target)
       case Hit(snap) => sys.(callers := sys.callers[c := Returned(snap, k.head)])
       case Miss(txs, leaves) => sys.(callers := sys.callers[c := Missed(k.target, k.current, k.head, txs, leaves)]))
    case Query(c) =>
      if c !in sys.callers || !sys.callers[c].Missed? then sys else
      var k := sys.callers[c];
      (match Fetched(sha, sys.log, k.target, k.txHashes, k.leafHashes)
       case Ok(snap) => sys.(callers := sys.callers[c := Ready(snap, k.head)])
       case Err(e) => sys.(callers := sys.callers[c := Failed(e, k.current)]))
    case Put(c) =>
      if c !in sys.callers || !sys.callers[c].Ready? then sys else
      var k := sys.callers[c];
      sys.(cache := Installed(sys.cache, k.snap), callers := sys.callers[c := Returned(k.snap, k.head)])
    case InsertRow(c, ts) =>
      if c !in sys.callers || !sys.callers[c].Returned? || !sys.callers[c].head then sys else
      var snap := sys.callers[c].snap;
      if snap.treeSize in sys.checkpoints then sys.(callers := sys.callers[c := RowExists(snap)]) else
      var row := Row(snap.rootHash, ts, sign(SignedSTHBytes(snap.treeSize, snap.rootHash, ts)));
      Answered(sys.(checkpoints := sys.checkpoints[snap.treeSize := row]), c, Answer(snap, row))
    case SelectRow(c) =>
      if c !in sys.callers || !sys.callers[c].RowExists? then sys else
      if sys.callers[c].snap.treeSize !in sys.checkpoints then sys else
      var snap := sys.callers[c].snap;
      Answered(sys, c, Answer(snap, sys.checkpoints[snap.treeSize]))
  }

  // ---------- The invariant ----------

  ghost predicate CallerOk(sha: Bytes -> Digest, log: seq<Bytes>, checkpoints: map<nat, Row>, k: Caller) {
    match k
    case Sized(target, current, _) => current ==> target <= |log|
    case Missed(target, current, _, txs, leaves) =>
      (current ==> target <= |log|) && PartExact(sha, log, target, txs, leaves)
    case Ready(snap, _) => Exact(sha, log, snap)
    case Returned(snap, _) => Exact(sha, log, snap)
    case RowExists(snap) => Exact(sha, log, snap) && snap.treeSize in checkpoints
    case Signed(sth) => HeadOk(checkpoints, sth)
    case Failed(e, current) => e.LogEnded? && !current
  }

  predicate HeadOk(checkpoints: map<nat, Row>, h: Head) {
    h.treeSize in checkpoints && checkpoints[h.treeSize] == Row(h.rootHash, h.timestampMS, h.sig)
  }

  predicate RowOk(sha: Bytes -> Digest, sign: Signer, log: seq<Bytes>, size: nat, row: Row) {
    && size <= |log| && row.rootHash == Root(sha, log[..size])
    && row.sig == sign(SignedSTHBytes(size, row.rootHash, row.timestampMS))
  }

  predicate RowsOk(sha: Bytes -> Digest, sign: Signer, log: seq<Bytes>, checkpoints: map<nat, Row>) {
    forall n :: n in checkpoints ==> RowOk(sha, sign, log, n, checkpoints[n])
  }

  predicate HeadsOk(checkpoints: map<nat, Row>, heads: seq<Head>) {
    forall i :: 0 <= i < |heads| ==> HeadOk(checkpoints, heads[i])
  }

  ghost predicate Inv(sha: Bytes -> Digest, sign: Signer, sys: System) {
    && CacheExact(sha, sys.log, sys.cache)
    && (forall c :: c in sys.callers ==> CallerOk(sha, sys.log, sys.checkpoints, sys.callers[c]))
    && RowsOk(sha, sign, sys.log, sys.checkpoints)
    && HeadsOk(sys.checkpoints, sys.heads)
  }

  const INITIAL: System := System([], None, map[], map[], [])

  // What never goes back: the log and the checkpoints are only added to, and the cached
  // size does not shrink.
  predicate Grows(sys: System, sys': System) {
    && sys.log <= sys'.log
    && NoSmaller(sys.cache, sys'.cache)
    && (forall n :: n in sys.checkpoints ==> n in sys'.checkpoints && sys'.checkpoints[n] == sys.checkpoints[n])
    && sys.heads <= sys'.heads
  }

  lemma AppendKeeps(sha: Bytes -> Digest, sign: Signer, sys: System, h: Bytes)
    requires Inv(sha, sign, sys)
    ensures Inv(sha, sign, sys.(log := sys.log + [h]))
  {
    var log := sys.log + [h];
    forall n | n in sys.checkpoints
      ensures RowOk(sha, sign, log, n, sys.checkpoints[n])
    {
      assert log[..n] == sys.log[..n];
    }
    if sys.cache.Some? {
      ExactLasts(sha, sys.log, [h], sys.cache.value);
    }
    forall c | c in sys.callers
      ensures CallerOk(sha, log, sys.checkpoints, sys.callers[c])
    {
      match sys.callers[c]
      case Ready(snap, _) => ExactLasts(sha, sys.log, [h], snap);
      case Returned(snap, _) => ExactLasts(sha, sys.log, [h], snap);
      case RowExists(snap) => ExactLasts(sha, sys.log, [h], snap);
      case _ =>
    }
  }

  // Moving one caller to a good place keeps everything.
  lemma MoveKeeps(sha: Bytes -> Digest, sign: Signer, sys: System, c: int, k: Caller)
    requires Inv(sha, sign, sys) && CallerOk(sha, sys.log, sys.checkpoints, k)
    ensures Inv(sha, sign, sys.(callers := sys.callers[c := k]))
  {
  }

  lemma CallerKeeps(sha: Bytes -> Digest, log: seq<Bytes>, checkpoints: map<nat, Row>, n: nat, row: Row, k: Caller)
    requires n !in checkpoints
    ensures CallerOk(sha, log, checkpoints, k) ==> CallerOk(sha, log, checkpoints[n := row], k)
  {
  }

  // Adding a good row under a free size keeps everything.
  lemma TableKeeps(sha: Bytes -> Digest, sign: Signer, log: seq<Bytes>, checkpoints: map<nat, Row>, heads: seq<Head>,
                   n: nat, row: Row)
    requires RowsOk(sha, sign, log, checkpoints) && HeadsOk(checkpoints, heads)
    requires n !in checkpoints && RowOk(sha, sign, log, n, row)
    ensures RowsOk(sha, sign, log, checkpoints[n := row]) && HeadsOk(checkpoints[n := row], heads)
  {
  }

  lemma RowKeeps(sha: Bytes -> Digest, sign: Signer, sys: System, n: nat, row: Row)
    requires Inv(sha, sign, sys) && n !in sys.checkpoints && RowOk(sha, sign, sys.log, n, row)
    ensures Inv(sha, sign, sys.(checkpoints := sys.checkpoints[n := row]))
  {
    TableKeeps(sha, sign, sys.log, sys.checkpoints, sys.heads, n, row);
    forall c | c in sys.callers
      ensures CallerOk(sha, sys.log, sys.checkpoints[n := row], sys.callers[c])
    {
      CallerKeeps(sha, sys.log, sys.checkpoints, n, row, sys.callers[c]);
    }
  }

  // A caller with an exact snapshot is answered with the stored row: the roots agree.
  lemma AnswerKeeps(sha: Bytes -> Digest, sign: Signer, sys: System, c: int, snap: Snapshot)
    requires Inv(sha, sign, sys) && Exact(sha, sys.log, snap) && snap.treeSize in sys.checkpoints
    ensures Inv(sha, sign, Answered(sys, c, Answer(snap, sys.checkpoints[snap.treeSize])))
  {
    assert RowOk(sha, sign, sys.log, snap.treeSize, sys.checkpoints[snap.treeSize]);
    var answer := Answer(snap, sys.checkpoints[snap.treeSize]);
    MoveKeeps(sha, sign, sys, c, answer);
  }

  lemma ReadKeeps(sha: Bytes -> Digest, sign: Signer, sys: System, c: int)
    requires Inv(sha, sign, sys)
    ensures Inv(sha, sign, Step(sha, sign, sys, Read(c)))
  {
    if c in sys.callers && sys.callers[c].Sized? {
      assert CallerOk(sha, sys.log, sys.checkpoints, sys.callers[c]);
      ReadCacheExact(sha, sys.log, sys.cache, sys.callers[c].target);
      MoveKeeps(sha, sign, sys, c, Step(sha, sign, sys, Read(c)).callers[c]);
    }
  }

  lemma QueryKeeps(sha: Bytes -> Digest, sign: Signer, sys: System, c: int)
    requires Inv(sha, sign, sys)
    ensures Inv(sha, sign, Step(sha, sign, sys, Query(c)))
  {
    if c in sys.callers && sys.callers[c].Missed? {
      var k := sys.callers[c];
      assert CallerOk(sha, sys.log, sys.checkpoints, k);
      FetchedExact(sha, sys.log, k.target, k.txHashes, k.leafHashes);
      MoveKeeps(sha, sign, sys, c, Step(sha, sign, sys, Query(c)).callers[c]);
    }
  }

  lemma InsertKeeps(sha: Bytes -> Digest, sign: Signer, sys: System, c: int, ts: int)
    requires Inv(sha, sign, sys)
    ensures Inv(sha, sign, Step(sha, sign, sys, InsertRow(c, ts)))
  {
    if c in sys.callers && sys.callers[c].Returned? && sys.callers[c].head {
      var snap := sys.callers[c].snap;
      assert CallerOk(sha, sys.log, sys.checkpoints, sys.callers[c]);
      if snap.treeSize in sys.checkpoints {
        MoveKeeps(sha, sign, sys, c, RowExists(snap));
      } else {
        var row := Row(snap.rootHash, ts, sign(SignedSTHBytes(snap.treeSize, snap.rootHash, ts)));
        RowKeeps(sha, sign, sys, snap.treeSize, row);
        AnswerKeeps(sha, sign, sys.(checkpoints := sys.checkpoints[snap.treeSize := row]), c, snap);
      }
    }
  }

  lemma SelectKeeps(sha: Bytes -> Digest, sign: Signer, sys: System, c: int)
    requires Inv(sha, sign, sys)
    ensures Inv(sha, sign, Step(sha, sign, sys, SelectRow(c)))
  {
    if c in sys.callers && sys.callers[c].RowExists? && sys.callers[c].snap.treeSize in sys.checkpoints {
      assert CallerOk(sha, sys.log, sys.checkpoints, sys.callers[c]);
      AnswerKeeps(sha, sign, sys, c, sys.callers[c].snap);
    }
  }

  lemma StepKeeps(sha: Bytes -> Digest, sign: Signer, sys: System, a: Action)
    requires Inv(sha, sign, sys)
    ensures Inv(sha, sign, Step(sha, sign, sys, a))
  {
    match a
    case Append(h) => AppendKeeps(sha, sign, sys, h);
    case Call(c, treeSize) => MoveKeeps(sha, sign, sys, c, Step(sha, sign, sys, a).callers[c]);
    case CallHead(c) => MoveKeeps(sha, sign, sys, c, Sized(|sys.log|, true, true));
    case Read(c) => ReadKeeps(sha, sign, sys, c);
    case Query(c) => QueryKeeps(sha, sign, sys, c);
    case Put(c) =>
      if c in sys.callers && sys.callers[c].Ready? {
        var k := sys.callers[c];
        assert CallerOk(sha, sys.log, sys.checkpoints, k);
        MoveKeeps(sha, sign, sys.(cache := Installed(sys.cache, k.snap)), c, Returned(k.snap, k.head));
      }
    case InsertRow(c, ts) => InsertKeeps(sha, sign, sys, c, ts);
    case SelectRow(c) => SelectKeeps(sha, sign, sys, c);
  }

  lemma StepGrows(sha: Bytes -> Digest, sign: Signer, sys: System, a: Action)
    requires Wellformed(sys.cache)
    ensures Grows(sys, Step(sha, sign, sys, a))
  {
  }

  // ---------- Runs ----------

  ghost function Run(sha: Bytes -> Digest, sign: Signer, sys: System, actions: seq<Action>): (sys': System)
    requires Inv(sha, sign, sys)
    ensures Inv(sha, sign, sys')
  {
    if actions == [] then sys else
    var before := Run(sha, sign, sys, actions[..|actions| - 1]);
    StepKeeps(sha, sign, before, actions[|actions| - 1]);
    Step(sha, sign, before, actions[|actions| - 1])
  }

  // What a run from the empty log reaches.
  ghost function Reached(sha: Bytes -> Digest, sign: Signer, actions: seq<Action>): (sys: System)
    ensures Inv(sha, sign, sys)
  {
    Run(sha, sign, INITIAL, actions)
  }

  lemma RunSnoc(sha: Bytes -> Digest, sign: Signer, sys: System, actions: seq<Action>, a: Action)
    requires Inv(sha, sign, sys)
    ensures Run(sha, sign, sys, actions + [a]) == Step(sha, sign, Run(sha, sign, sys, actions), a)
  {
    assert (actions + [a])[..|actions|] == actions;
  }

  ghost predicate LaterGrows(sha: Bytes -> Digest, sign: Signer, actions: seq<Action>, more: seq<Action>) {
    Grows(Reached(sha, sign, actions), Reached(sha, sign, actions + more))
  }

  // Log, cached size, checkpoint rows and heads only grow from any moment of a run to a later.
  lemma {:induction false} NothingShrinks(sha: Bytes -> Digest, sign: Signer, actions: seq<Action>, more: seq<Action>)
    ensures LaterGrows(sha, sign, actions, more)
  {
    if more == [] {
      assert actions + more == actions;
    } else {
      var i := |more| - 1;
      NothingShrinks(sha, sign, actions, more[..i]);
      RunSnoc(sha, sign, INITIAL, actions + more[..i], more[i]);
      assert (actions + more[..i]) + [more[i]] == actions + more;
      StepGrows(sha, sign, Reached(sha, sign, actions + more[..i]), more[i]);
    }
  }

  // What a caller holds after some actions is exact for the log then and for ever; the calls
  // that read the current size do not fail, and no call meets a root mismatch.
  ghost predicate HoldsExact(sha: Bytes -> Digest, sys: System, later: System, c: int) {
    c in sys.callers ==>
      var k := sys.callers[c];
      && (k.Returned? ==> Exact(sha, sys.log, k.snap) && Exact(sha, later.log, k.snap))
      && (k.Failed? ==> k.error.LogEnded? && !k.current)
  }

  lemma SnapshotsExact(sha: Bytes -> Digest, sign: Signer, actions: seq<Action>, more: seq<Action>, c: int)
    ensures CacheExact(sha, Reached(sha, sign, actions).log, Reached(sha, sign, actions).cache)
    ensures HoldsExact(sha, Reached(sha, sign, actions), Reached(sha, sign, actions + more), c)
  {
    var sys, later := Reached(sha, sign, actions), Reached(sha, sign, actions + more);
    NothingShrinks(sha, sign, actions, more);
    if c in sys.callers {
      var k := sys.callers[c];
      assert CallerOk(sha, sys.log, sys.checkpoints, k);
      if k.Returned? {
        ExactLasts(sha, sys.log, later.log[|sys.log|..], k.snap);
        assert sys.log + later.log[|sys.log|..] == later.log;
      }
    }
  }

  // The two heads are signed, have the log's roots, are one head if of one size, and the
  // generated consistency proof between them verifies.
  ghost predicate HeadsFit(sha: Bytes -> Digest, sign: Signer, log: seq<Bytes>, a: Head, b: Head) {
    && a.treeSize <= |log| && b.treeSize <= |log|
    && a.rootHash == Root(sha, log[..a.treeSize]) && b.rootHash == Root(sha, log[..b.treeSize])
    && a.sig == sign(SignedSTHBytes(a.treeSize, a.rootHash, a.timestampMS))
    && (a.treeSize == b.treeSize ==> a == b)
    && (0 < a.treeSize <= b.treeSize ==>
          var proof := ConsistencyProof(NodeHash(sha), LeafHashes(sha, log[..b.treeSize]), a.treeSize, b.treeSize);
          proof.Ok? && Verdict(NodeHash(sha), a.rootHash, b.rootHash, a.treeSize, b.treeSize, proof.value) == Ok(()))
  }

  // Any two heads returned in a run fit together.
  lemma HeadsConsistent(sha: Bytes -> Digest, sign: Signer, actions: seq<Action>, i: nat, j: nat)
    ensures var sys := Reached(sha, sign, actions);
      i < |sys.heads| && j < |sys.heads| ==> HeadsFit(sha, sign, sys.log, sys.heads[i], sys.heads[j])
  {
    var sys := Reached(sha, sign, actions);
    if i < |sys.heads| && j < |sys.heads| {
      var (a, b) := (sys.heads[i], sys.heads[j]);
      assert HeadOk(sys.checkpoints, a) && HeadOk(sys.checkpoints, b);
      assert RowOk(sha, sign, sys.log, a.treeSize, sys.checkpoints[a.treeSize]);
      assert RowOk(sha, sign, sys.log, b.treeSize, sys.checkpoints[b.treeSize]);
      if 0 < a.treeSize <= b.treeSize {
        PrefixProofVerifies(sha, sys.log, a.treeSize, b.treeSize);
      }
    }
  }

  // The served consistency proof between two prefixes of one log verifies against their roots.
  lemma PrefixProofVerifies(sha: Bytes -> Digest, log: seq<Bytes>, m: nat, n: nat)
    requires 0 < m <= n <= |log|
    ensures var proof := ConsistencyProof(NodeHash(sha), LeafHashes(sha, log[..n]), m, n);
      proof.Ok? && Verdict(NodeHash(sha), Root(sha, log[..m]), Root(sha, log[..n]), m, n, proof.value) == Ok(())
  {
    var leaves := LeafHashes(sha, log[..n]);
    assert log[..n][..m] == log[..m];
    assert leaves[..m] == LeafHashes(sha, log[..m]) && leaves[..n] == leaves;
    ConsistencyComplete(NodeHash(sha), leaves, m, n);
  }
}
