/**
  What a caller of the log service gets: a snapshot or head of the size it asked for, which
  the cache then holds, and a head of the current size whenever it asks for one.
 */
module TxLogLaws {
  import opened Wrappers
  import opened ByteStrings
  import opened Sha
  import opened TreeHead
  import opened TxLog

  // ---------- The size that was asked for ----------

  // Wherever the caller stands, it is about size n.
  predicate About(sys: System, c: int, n: nat) {
    c in sys.callers &&
    match sys.callers[c]
    case Sized(target, _, _) => target == n
    case Missed(target, _, _, _, _) => target == n
    case Ready(snap, _) => snap.treeSize == n
    case Returned(snap, _) => snap.treeSize == n
    case RowExists(snap) => snap.treeSize == n
    case Signed(sth) => sth.treeSize == n
    case Failed(e, _) => e.LogEnded? ==> e.want == n
  }

  // The action starts no new call of c.
  predicate NoCallOf(a: Action, c: int) {
    (a.Call? ==> a.c != c) && (a.CallHead? ==> a.c != c)
  }

  lemma StepAbout(sha: Bytes -> Digest, sign: Signer, sys: System, a: Action, c: int, n: nat)
    requires Wellformed(sys.cache) && About(sys, c, n) && NoCallOf(a, c)
    ensures About(Step(sha, sign, sys, a), c, n)
  {
  }

  ghost predicate ReachedAbout(sha: Bytes -> Digest, sign: Signer, actions: seq<Action>, c: int, n: nat) {
    About(Reached(sha, sign, actions), c, n)
  }

  lemma AboutSnoc(sha: Bytes -> Digest, sign: Signer, actions: seq<Action>, a: Action, c: int, n: nat)
    requires ReachedAbout(sha, sign, actions, c, n) && NoCallOf(a, c)
    ensures ReachedAbout(sha, sign, actions + [a], c, n)
  {
    RunSnoc(sha, sign, INITIAL, actions, a);
    StepAbout(sha, sign, Reached(sha, sign, actions), a, c, n);
  }

  lemma {:induction false} StaysAbout(sha: Bytes -> Digest, sign: Signer, first: seq<Action>, more: seq<Action>,
                                      c: int, n: nat)
    requires ReachedAbout(sha, sign, first, c, n)
    requires forall i :: 0 <= i < |more| ==> NoCallOf(more[i], c)
    ensures ReachedAbout(sha, sign, first + more, c, n)
  {
    if more == [] {
      assert first + more == first;
    } else {
      var (init, last) := (more[..|more| - 1], more[|more| - 1]);
      assert first + more == (first + init) + [last];
      StaysAbout(sha, sign, first, init, c, n);
      AboutSnoc(sha, sign, first + init, last, c, n);
    }
  }

  // A call for the current head is, until it ends, about the size that the log had when it
  // was made: that is the size of the snapshot it is returned and of the head it signs.
  lemma HeadIsOfCurrentSize(sha: Bytes -> Digest, sign: Signer, first: seq<Action>, more: seq<Action>, c: int)
    requires forall i :: 0 <= i < |more| ==> NoCallOf(more[i], c)
    ensures ReachedAbout(sha, sign, first + [CallHead(c)] + more, c, |Reached(sha, sign, first).log|)
  {
    RunSnoc(sha, sign, INITIAL, first, CallHead(c));
    StaysAbout(sha, sign, first + [CallHead(c)], more, c, |Reached(sha, sign, first).log|);
  }

  // A call for a snapshot is about the size it names, or the current one if that is negative.
  lemma SnapshotIsOfAskedSize(sha: Bytes -> Digest, sign: Signer, first: seq<Action>, more: seq<Action>, c: int,
                              treeSize: int)
    requires forall i :: 0 <= i < |more| ==> NoCallOf(more[i], c)
    ensures ReachedAbout(sha, sign, first + [Call(c, treeSize)] + more, c,
                         if treeSize < 0 then |Reached(sha, sign, first).log| else treeSize)
  {
    RunSnoc(sha, sign, INITIAL, first, Call(c, treeSize));
    StaysAbout(sha, sign, first + [Call(c, treeSize)], more, c,
               if treeSize < 0 then |Reached(sha, sign, first).log| else treeSize);
  }

  // ---------- The cache holds what was returned ----------

  predicate Covers(cache: Option<Snapshot>, n: nat) {
    cache.Some? && n <= cache.value.treeSize
  }

  predicate Cached(sys: System) {
    forall c :: c in sys.callers && sys.callers[c].Returned? ==> Covers(sys.cache, sys.callers[c].snap.treeSize)
  }

  lemma StepCached(sha: Bytes -> Digest, sign: Signer, sys: System, a: Action)
    requires Wellformed(sys.cache) && Cached(sys)
    ensures Cached(Step(sha, sign, sys, a))
  {
    StepGrows(sha, sign, sys, a);
  }

  // In every run, what a call was returned the cache holds from then on.
  lemma {:induction false} ReturnedIsCached(sha: Bytes -> Digest, sign: Signer, actions: seq<Action>)
    ensures Cached(Reached(sha, sign, actions))
  {
    if actions != [] {
      var i := |actions| - 1;
      ReturnedIsCached(sha, sign, actions[..i]);
      StepCached(sha, sign, Reached(sha, sign, actions[..i]), actions[i]);
    }
  }

  // ---------- A head is served ----------

  // The steps of a call for the head that nobody overtakes, in order.
  function HeadAction(c: int, timestampMS: int, i: nat): Action {
    match i
    case 0 => CallHead(c)
    case 1 => Read(c)
    case 2 => Query(c)
    case 3 => Put(c)
    case 4 => InsertRow(c, timestampMS)
    case _ => SelectRow(c)
  }

  function HeadCall(c: int, timestampMS: int, steps: nat): seq<Action> {
    if steps == 0 then [] else HeadCall(c, timestampMS, steps - 1) + [HeadAction(c, timestampMS, steps - 1)]
  }

  // The states that such a call goes through.
  predicate Stage(k: Caller, stage: nat) {
    match k
    case Sized(_, current, head) => stage == 1 && current && head
    case Missed(_, current, head, _, _) => stage == 2 && current && head
    case Ready(_, head) => stage == 3 && head
    case Returned(_, head) => 2 <= stage <= 4 && head
    case RowExists(_) => stage == 5
    case Signed(_) => 5 <= stage <= 6
    case Failed(_, _) => false
  }

  lemma NextStage(sha: Bytes -> Digest, sign: Signer, sys: System, sys': System, c: int, ts: int, stage: nat)
    requires Wellformed(sys.cache) && c in sys.callers && 1 <= stage <= 5 && Stage(sys.callers[c], stage)
    requires sys' == Step(sha, sign, sys, HeadAction(c, ts, stage)) && c in sys'.callers
    requires CallerOk(sha, sys.log, sys.checkpoints, sys.callers[c])
    requires CallerOk(sha, sys'.log, sys'.checkpoints, sys'.callers[c])
    ensures Stage(sys'.callers[c], stage + 1) && sys'.log == sys.log
  {
  }

  // At this stage, on the same log, and about its size.
  ghost predicate Proceeds(sys: System, sys': System, c: int, stage: nat) {
    sys'.log == sys.log && About(sys', c, |sys.log|) && Stage(sys'.callers[c], stage)
  }

  lemma StepProceeds(sha: Bytes -> Digest, sign: Signer, sys: System, mid: System, c: int, ts: int, stage: nat)
    requires Inv(sha, sign, mid) && 1 <= stage <= 5 && Proceeds(sys, mid, c, stage)
    ensures Proceeds(sys, Step(sha, sign, mid, HeadAction(c, ts, stage)), c, stage + 1)
  {
    var a := HeadAction(c, ts, stage);
    var sys' := Step(sha, sign, mid, a);
    StepKeeps(sha, sign, mid, a);
    StepAbout(sha, sign, mid, a, c, |sys.log|);
    NextStage(sha, sign, mid, sys', c, ts, stage);
  }

  ghost predicate CallAt(sha: Bytes -> Digest, sign: Signer, sys: System, c: int, ts: int, stage: nat)
    requires Inv(sha, sign, sys)
  {
    Proceeds(sys, Run(sha, sign, sys, HeadCall(c, ts, stage)), c, stage)
  }

  lemma CallStarts(sha: Bytes -> Digest, sign: Signer, sys: System, c: int, ts: int)
    requires Inv(sha, sign, sys)
    ensures CallAt(sha, sign, sys, c, ts, 1)
  {
    RunSnoc(sha, sign, sys, [], CallHead(c));
    assert HeadCall(c, ts, 1) == [] + [CallHead(c)];
  }

  lemma CallGoesOn(sha: Bytes -> Digest, sign: Signer, sys: System, c: int, ts: int, stage: nat)
    requires Inv(sha, sign, sys) && 1 <= stage <= 5 && CallAt(sha, sign, sys, c, ts, stage)
    ensures CallAt(sha, sign, sys, c, ts, stage + 1)
  {
    var calls := HeadCall(c, ts, stage);
    RunSnoc(sha, sign, sys, calls, HeadAction(c, ts, stage));
    StepProceeds(sha, sign, sys, Run(sha, sign, sys, calls), c, ts, stage);
  }

  lemma {:induction false} CallProceeds(sha: Bytes -> Digest, sign: Signer, sys: System, c: int, ts: int, stage: nat)
    requires Inv(sha, sign, sys) && 1 <= stage <= 6
    ensures CallAt(sha, sign, sys, c, ts, stage)
  {
    if stage == 1 {
      CallStarts(sha, sign, sys, c, ts);
    } else {
      CallProceeds(sha, sign, sys, c, ts, stage - 1);
      CallGoesOn(sha, sign, sys, c, ts, stage - 1);
    }
  }

  // In every good state, a call for the head that nobody overtakes ends with a signed head of
  // the whole log as it is, which is among the heads returned.
  lemma HeadIsServed(sha: Bytes -> Digest, sign: Signer, sys: System, c: int, ts: int)
    requires Inv(sha, sign, sys)
    ensures var sys' := Run(sha, sign, sys, HeadCall(c, ts, 6));
      && c in sys'.callers && sys'.callers[c].Signed?
      && sys'.callers[c].sth.treeSize == |sys.log|
      && sys'.callers[c].sth.rootHash == Root(sha, sys.log)
  {
    CallProceeds(sha, sign, sys, c, ts, 6);
    var sys' := Run(sha, sign, sys, HeadCall(c, ts, 6));
    var h := sys'.callers[c].sth;
    assert HeadOk(sys'.checkpoints, h) && RowOk(sha, sign, sys'.log, h.treeSize, sys'.checkpoints[h.treeSize]);
    assert sys.log[..|sys.log|] == sys.log;
  }

  // The first head of a size carries the time it was signed at.
  lemma InsertStamps(sha: Bytes -> Digest, sign: Signer, sys: System, c: int, ts: int)
    requires Wellformed(sys.cache) && c in sys.callers && sys.callers[c].Returned? && sys.callers[c].head
    requires sys.callers[c].snap.treeSize !in sys.checkpoints
    ensures var (snap, sys') := (sys.callers[c].snap, Step(sha, sign, sys, InsertRow(c, ts)));
      c in sys'.callers && sys'.callers[c] == Signed(
        Head(snap.treeSize, snap.rootHash, ts, sign(SignedSTHBytes(snap.treeSize, snap.rootHash, ts))))
  {
  }
}
