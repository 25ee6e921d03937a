/**
  The per-key token bucket of the API, which forgets buckets that have been idle for ten
  minutes. Time is a real number of seconds that never goes back.
 */
module RateLimit {
  const DEFAULT_PER_MINUTE: int := 600
  const DEFAULT_BURST: int := 120
  const TRIM_EVERY: real := 300.0
  const IDLE: real := 600.0

  datatype Limits = Limits(rate: real, burst: real)

  datatype Bucket = Bucket(tokens: real, last: real)

  type Buckets = map<string, Bucket>

  datatype State = State(buckets: Buckets, lastTrim: real)

  datatype Call = Call(key: string, at: real)

  function OrDefault(configured: int, default: int): int {
    if configured <= 0 then default else configured
  }

  function LimitsOf(perMinute: int, burst: int): Limits {
    Limits(OrDefault(perMinute, DEFAULT_PER_MINUTE) as real / 60.0, OrDefault(burst, DEFAULT_BURST) as real)
  }

  function Trimmed(buckets: Buckets, now: real): Buckets {
    map k | k in buckets && now - buckets[k].last <= IDLE :: buckets[k]
  }

  function AfterTrim(st: State, now: real): State {
    if now - st.lastTrim > TRIM_EVERY then State(Trimmed(st.buckets, now), now) else st
  }

  function Min(x: real, y: real): real {
    if x <= y then x else y
  }

  // The tokens that accrue over a time.
  function Earned(l: Limits, seconds: real): real {
    seconds * l.rate
  }

  // The tokens a key has at a time, a new key having a full bucket.
  function Level(l: Limits, buckets: Buckets, key: string, now: real): real {
    if key in buckets then Min(l.burst, buckets[key].tokens + Earned(l, now - buckets[key].last)) else l.burst
  }

  // One call on the buckets alone, nothing being evicted.
  function Take(l: Limits, buckets: Buckets, c: Call): (r: (Buckets, bool)) {
    var level := Level(l, buckets, c.key, c.at);
    var ok := c.key !in buckets || level >= 1.0;
    (buckets[c.key := Bucket(if ok then level - 1.0 else level, c.at)], ok)
  }

  // A whole token, after this many seconds of refill.
  predicate Enough(l: Limits, b: Bucket, seconds: real) {
    l.burst >= 1.0 && b.tokens + seconds * l.rate >= 1.0
  }

  lemma TakeAnswers(l: Limits, buckets: Buckets, c: Call)
    ensures Take(l, buckets, c).1 <==>
      c.key !in buckets || Enough(l, buckets[c.key], c.at - buckets[c.key].last)
  {
    if c.key in buckets {
      var seconds := c.at - buckets[c.key].last;
      assert Earned(l, seconds) == seconds * l.rate;
    }
  }

  class RateLimiter {
    const limits: Limits
    var buckets: Buckets
    var lastTrim: real

    constructor (perMinute: int, burst: int, now: real)
      ensures limits == LimitsOf(perMinute, burst) && buckets == map[] && lastTrim == now
    {
      var p, b := perMinute, burst;
      if p <= 0 {
        p := DEFAULT_PER_MINUTE;
      }
      if b <= 0 {
        b := DEFAULT_BURST;
      }
      limits, buckets, lastTrim := Limits(p as real / 60.0, b as real), map[], now;
    }

    method Trim(now: real)
      modifies this`buckets
      ensures buckets == Trimmed(old(buckets), now)
    {
      var keys := buckets.Keys;
      while keys != {}
        invariant keys <= buckets.Keys <= old(buckets).Keys
        invariant forall k :: k in buckets ==> buckets[k] == old(buckets)[k]
        invariant forall k :: k in buckets && k !in keys ==> now - buckets[k].last <= IDLE
        invariant forall k :: k in old(buckets) && k !in buckets ==> now - old(buckets)[k].last > IDLE
      {
        var k :| k in keys;
        keys := keys - {k};
        if now - buckets[k].last > IDLE {
          buckets := buckets - {k};
        }
      }
    }

    method Allow(key: string, now: real) returns (ok: bool)
      modifies this
      ensures var trimmed := AfterTrim(State(old(buckets), old(lastTrim)), now);
        && (buckets, ok) == Take(limits, trimmed.buckets, Call(key, now))
        && lastTrim == trimmed.lastTrim
        && (ok <==> key !in trimmed.buckets || Enough(limits, trimmed.buckets[key], now - trimmed.buckets[key].last))
    {
      if now - lastTrim > TRIM_EVERY {
        Trim(now);
        lastTrim := now;
      }
      TakeAnswers(limits, buckets, Call(key, now));
      if key !in buckets {
        buckets := buckets[key := Bucket(limits.burst - 1.0, now)];
        return true;
      }
      var b := buckets[key];
      var tokens := b.tokens + Earned(limits, now - b.last);
      if tokens > limits.burst {
        tokens := limits.burst;
      }
      if tokens < 1.0 {
        buckets := buckets[key := Bucket(tokens, now)];
        return false;
      }
      buckets := buckets[key := Bucket(tokens - 1.0, now)];
      ok := true;
    }
  }

  // ---------- Runs, with and without eviction ----------

  function Start(now: real): State {
    State(map[], now)
  }

  // Calls in time order, none before the start.
  predicate InOrder(start: real, calls: seq<Call>) {
    && (forall i :: 0 <= i < |calls| ==> start <= calls[i].at)
    && (forall i, j :: 0 <= i <= j < |calls| ==> calls[i].at <= calls[j].at)
  }

  function Limited(l: Limits, st: State, c: Call): (State, bool) {
    var trimmed := AfterTrim(st, c.at);
    var (buckets, ok) := Take(l, trimmed.buckets, c);
    (State(buckets, trimmed.lastTrim), ok)
  }

  function RunTrimming(l: Limits, st: State, calls: seq<Call>): (r: (State, seq<bool>))
    ensures |r.1| == |calls|
  {
    if calls == [] then (st, []) else
    var (before, answers) := RunTrimming(l, st, calls[..|calls| - 1]);
    var (after, ok) := Limited(l, before, calls[|calls| - 1]);
    (after, answers + [ok])
  }

  function RunKeeping(l: Limits, buckets: Buckets, calls: seq<Call>): (r: (Buckets, seq<bool>))
    ensures |r.1| == |calls|
  {
    if calls == [] then (buckets, []) else
    var (before, answers) := RunKeeping(l, buckets, calls[..|calls| - 1]);
    var (after, ok) := Take(l, before, calls[|calls| - 1]);
    (after, answers + [ok])
  }

  // How often one key was let through, from call number `from` on.
  function Accepts(calls: seq<Call>, answers: seq<bool>, key: string, from: nat): nat
    requires |calls| == |answers|
  {
    if calls == [] then 0 else
    var i := |calls| - 1;
    Accepts(calls[..i], answers[..i], key, from) + if from <= i && calls[i].key == key && answers[i] then 1 else 0
  }

  // ---------- Eviction ----------

  predicate Sane(l: Limits) {
    l.rate > 0.0 && l.burst >= 1.0
  }

  // A bucket idle for ten minutes is full again.
  predicate Refills(l: Limits) {
    Earned(l, IDLE) >= l.burst
  }

  predicate BucketsOk(l: Limits, buckets: Buckets, now: real) {
    forall k :: k in buckets ==> 0.0 <= buckets[k].tokens <= l.burst && buckets[k].last <= now
  }

  // The trimmed buckets are the kept ones, less some that have been idle for ten minutes.
  predicate Evicted(trimmed: Buckets, kept: Buckets, now: real) {
    && (forall k :: k in trimmed ==> k in kept && trimmed[k] == kept[k])
    && (forall k :: k in kept && k !in trimmed ==> now - kept[k].last > IDLE)
  }

  lemma EarnedMonotone(l: Limits, x: real, y: real)
    requires x <= y && l.rate > 0.0
    ensures Earned(l, x) <= Earned(l, y) && Earned(l, 0.0) == 0.0
  {
  }

  lemma TakeKeepsOk(l: Limits, buckets: Buckets, c: Call, now: real)
    requires Sane(l) && BucketsOk(l, buckets, now) && now <= c.at
    ensures BucketsOk(l, Take(l, buckets, c).0, c.at)
  {
    if c.key in buckets {
      EarnedMonotone(l, 0.0, c.at - buckets[c.key].last);
    }
  }

  // Forgetting an idle bucket does not change the level.
  lemma IdleIsFull(l: Limits, kept: Buckets, key: string, now: real)
    requires Sane(l) && Refills(l) && BucketsOk(l, kept, now)
    requires key in kept && now - kept[key].last > IDLE
    ensures Level(l, kept, key, now) == l.burst
  {
    EarnedMonotone(l, IDLE, now - kept[key].last);
  }

  lemma SameAnswer(l: Limits, trimmed: Buckets, kept: Buckets, c: Call, now: real)
    requires Sane(l) && Refills(l) && BucketsOk(l, kept, now) && now <= c.at && Evicted(trimmed, kept, c.at)
    ensures Take(l, trimmed, c).1 == Take(l, kept, c).1
    ensures Evicted(Take(l, trimmed, c).0, Take(l, kept, c).0, c.at)
  {
    if c.key in kept && c.key !in trimmed {
      IdleIsFull(l, kept, c.key, c.at);
    }
  }

  // Both runs answer alike, and their buckets differ by idle ones only.
  ghost predicate Agrees(l: Limits, start: real, calls: seq<Call>) {
    var now := if calls == [] then start else calls[|calls| - 1].at;
    var (st, trimming), (kept, keeping) := RunTrimming(l, Start(start), calls), RunKeeping(l, map[], calls);
    trimming == keeping && Evicted(st.buckets, kept, now) && BucketsOk(l, kept, now)
  }

  lemma {:induction false} EvictionHarmless(l: Limits, start: real, calls: seq<Call>)
    requires Sane(l) && Refills(l) && InOrder(start, calls)
    ensures Agrees(l, start, calls)
  {
    if calls != [] {
      var i := |calls| - 1;
      EvictionHarmless(l, start, calls[..i]);
      var now := if i == 0 then start else calls[i - 1].at;
      var st, kept := RunTrimming(l, Start(start), calls[..i]).0, RunKeeping(l, map[], calls[..i]).0;
      SameAnswer(l, AfterTrim(st, calls[i].at).buckets, kept, calls[i], now);
      TakeKeepsOk(l, kept, calls[i], now);
    }
  }

  // ---------- The bound on a window ----------

  lemma EarnedAdds(l: Limits, x: real, y: real)
    ensures Earned(l, x + y) == Earned(l, x) + Earned(l, y)
  {
  }

  lemma LevelGrows(l: Limits, buckets: Buckets, key: string, t: real, u: real)
    requires Sane(l) && t <= u
    ensures Level(l, buckets, key, u) <= Level(l, buckets, key, t) + Earned(l, u - t)
    ensures Level(l, buckets, key, u) <= l.burst
  {
    EarnedMonotone(l, 0.0, u - t);
    if key in buckets {
      EarnedAdds(l, t - buckets[key].last, u - t);
      assert (t - buckets[key].last) + (u - t) == u - buckets[key].last;
    }
  }

  function OneIf(b: bool): real {
    if b then 1.0 else 0.0
  }

  // An accepted call pays one token, a refused call none; other keys are not touched.
  lemma TakePays(l: Limits, buckets: Buckets, c: Call, key: string)
    requires Sane(l)
    ensures Level(l, Take(l, buckets, c).0, key, c.at) + OneIf(c.key == key && Take(l, buckets, c).1)
      == Level(l, buckets, key, c.at)
  {
    EarnedMonotone(l, 0.0, 0.0);
    assert c.at - c.at == 0.0;
  }

  // Tokens spent since call `from`, plus tokens left, are covered by burst and refill.
  ghost predicate Covered(l: Limits, calls: seq<Call>, from: nat, key: string)
    requires from < |calls|
  {
    var (kept, answers) := RunKeeping(l, map[], calls);
    var now := calls[|calls| - 1].at;
    Accepts(calls, answers, key, from) as real + Level(l, kept, key, now) <= l.burst + Earned(l, now - calls[from].at)
  }

  lemma {:induction false} NoneBefore(calls: seq<Call>, answers: seq<bool>, key: string, from: nat)
    requires |calls| == |answers| <= from
    ensures Accepts(calls, answers, key, from) == 0
  {
    if calls != [] {
      NoneBefore(calls[..|calls| - 1], answers[..|calls| - 1], key, from);
    }
  }

  lemma {:induction false} WindowCovered(l: Limits, start: real, calls: seq<Call>, from: nat, key: string)
    requires Sane(l) && InOrder(start, calls) && from < |calls|
    ensures Covered(l, calls, from, key)
  {
    var i := |calls| - 1;
    var (before, answers) := RunKeeping(l, map[], calls[..i]);
    var c := calls[i];
    var ok := Take(l, before, c).1;
    assert (answers + [ok])[..i] == answers;
    TakePays(l, before, c, key);
    EarnedMonotone(l, 0.0, 0.0);
    if i == from {
      LevelGrows(l, before, key, c.at, c.at);
      NoneBefore(calls[..i], answers, key, from);
    } else {
      WindowCovered(l, start, calls[..i], from, key);
      var now := calls[i - 1].at;
      LevelGrows(l, before, key, now, c.at);
      EarnedAdds(l, now - calls[from].at, c.at - now);
    }
  }

  lemma {:induction false} KeptOk(l: Limits, start: real, calls: seq<Call>)
    requires Sane(l) && InOrder(start, calls)
    ensures BucketsOk(l, RunKeeping(l, map[], calls).0, if calls == [] then start else calls[|calls| - 1].at)
  {
    if calls != [] {
      var i := |calls| - 1;
      KeptOk(l, start, calls[..i]);
      TakeKeepsOk(l, RunKeeping(l, map[], calls[..i]).0, calls[i], if i == 0 then start else calls[i - 1].at);
    }
  }

  // From any call of any run to its end, one key is let through at most burst + rate * time
  // times; with eviction this needs buckets that refill within the idle time.
  lemma WindowBound(l: Limits, start: real, calls: seq<Call>, from: nat, key: string)
    requires Sane(l) && InOrder(start, calls) && from < |calls|
    ensures var bound := l.burst + Earned(l, calls[|calls| - 1].at - calls[from].at);
      && Accepts(calls, RunKeeping(l, map[], calls).1, key, from) as real <= bound
      && (Refills(l) ==> Accepts(calls, RunTrimming(l, Start(start), calls).1, key, from) as real <= bound)
  {
    var kept, now := RunKeeping(l, map[], calls).0, calls[|calls| - 1].at;
    WindowCovered(l, start, calls, from, key);
    KeptOk(l, start, calls);
    if key in kept {
      EarnedMonotone(l, 0.0, now - kept[key].last);
    }
    if Refills(l) {
      EvictionHarmless(l, start, calls);
    }
  }

  // ---------- Tokens come back ----------

  // With nothing configured: ten calls a second, and 120 at once.
  lemma Defaults(perMinute: int, burst: int)
    requires perMinute <= 0 && burst <= 0
    ensures LimitsOf(perMinute, burst) == Limits(10.0, 120.0)
  {
  }

  lemma TokenIsEnough(l: Limits, b: Bucket, seconds: real)
    requires l.burst >= 1.0 && b.tokens >= 0.0 && seconds * l.rate >= 1.0
    ensures Enough(l, b, seconds)
  {
  }

  // A key that has waited for one token is let through.
  lemma TokenReturns(l: Limits, buckets: Buckets, c: Call, now: real)
    requires Sane(l) && BucketsOk(l, buckets, now) && now <= c.at
    requires c.key in buckets && (c.at - buckets[c.key].last) * l.rate >= 1.0
    ensures Take(l, buckets, c).1
  {
    TakeAnswers(l, buckets, c);
    TokenIsEnough(l, buckets[c.key], c.at - buckets[c.key].last);
  }

  // A bucket's time is that of some call of its key.
  ghost predicate Dated(calls: seq<Call>, buckets: Buckets) {
    forall k :: k in buckets ==> CalledAt(calls, k, buckets[k].last)
  }

  predicate CalledAt(calls: seq<Call>, key: string, at: real) {
    exists i :: 0 <= i < |calls| && calls[i] == Call(key, at)
  }

  lemma TakeDated(l: Limits, calls: seq<Call>, buckets: Buckets, c: Call)
    requires Dated(calls, buckets)
    ensures Dated(calls + [c], Take(l, buckets, c).0)
  {
    var after := Take(l, buckets, c).0;
    forall k | k in after
      ensures CalledAt(calls + [c], k, after[k].last)
    {
      if k == c.key {
        assert (calls + [c])[|calls|] == c;
      } else {
        assert CalledAt(calls, k, buckets[k].last);
        var i :| 0 <= i < |calls| && calls[i] == Call(k, buckets[k].last);
        assert (calls + [c])[i] == calls[i];
      }
    }
  }

  lemma {:induction false} KeptDated(l: Limits, calls: seq<Call>)
    ensures Dated(calls, RunKeeping(l, map[], calls).0)
  {
    if calls != [] {
      var (init, last) := (calls[..|calls| - 1], calls[|calls| - 1]);
      KeptDated(l, init);
      TakeDated(l, init, RunKeeping(l, map[], init).0, last);
      assert calls == init + [last];
    }
  }

  // No earlier call of this key within the time of one token.
  predicate Waited(l: Limits, calls: seq<Call>, c: Call) {
    forall i :: 0 <= i < |calls| && calls[i].key == c.key ==> (c.at - calls[i].at) * l.rate >= 1.0
  }

  lemma WaitedSince(l: Limits, calls: seq<Call>, c: Call, last: real)
    requires Waited(l, calls, c) && CalledAt(calls, c.key, last)
    ensures (c.at - last) * l.rate >= 1.0
  {
    var i :| 0 <= i < |calls| && calls[i] == Call(c.key, last);
    assert calls[i].key == c.key;
  }

  lemma TakesAfterWait(l: Limits, calls: seq<Call>, kept: Buckets, c: Call, now: real)
    requires Sane(l) && BucketsOk(l, kept, now) && now <= c.at && Dated(calls, kept) && Waited(l, calls, c)
    ensures Take(l, kept, c).1
  {
    if c.key in kept {
      assert CalledAt(calls, c.key, kept[c.key].last);
      WaitedSince(l, calls, c, kept[c.key].last);
      TokenReturns(l, kept, c, now);
    }
  }

  lemma PatientTakes(l: Limits, start: real, calls: seq<Call>, c: Call)
    requires Sane(l) && InOrder(start, calls) && Waited(l, calls, c)
    requires start <= c.at && (calls != [] ==> calls[|calls| - 1].at <= c.at)
    ensures Take(l, RunKeeping(l, map[], calls).0, c).1
  {
    KeptOk(l, start, calls);
    KeptDated(l, calls);
    var now := if calls == [] then start else calls[|calls| - 1].at;
    TakesAfterWait(l, calls, RunKeeping(l, map[], calls).0, c, now);
  }

  lemma KeepSnoc(l: Limits, calls: seq<Call>, c: Call)
    ensures var (before, answers) := RunKeeping(l, map[], calls);
      RunKeeping(l, map[], calls + [c]) == (Take(l, before, c).0, answers + [Take(l, before, c).1])
  {
    assert (calls + [c])[..|calls|] == calls;
  }

  // In any run a call that comes one token's time after its key's calls is let through; with
  // eviction too, if buckets refill within the idle time.
  lemma PatientCallPasses(l: Limits, start: real, calls: seq<Call>, c: Call)
    requires Sane(l) && InOrder(start, calls) && Waited(l, calls, c)
    requires start <= c.at && forall i :: 0 <= i < |calls| ==> calls[i].at <= c.at
    ensures RunKeeping(l, map[], calls + [c]).1[|calls|]
    ensures Refills(l) ==> RunTrimming(l, Start(start), calls + [c]).1[|calls|]
  {
    PatientTakes(l, start, calls, c);
    KeepSnoc(l, calls, c);
    if Refills(l) {
      EvictionHarmless(l, start, calls + [c]);
    }
  }

  // More than five minutes after the last trim a call forgets every bucket that has been idle
  // for over ten minutes, and earlier it forgets none.
  lemma TrimsWhenDue(l: Limits, st: State, c: Call)
    ensures var st' := Limited(l, st, c).0;
      if c.at - st.lastTrim > 300.0
      then st'.lastTrim == c.at && forall k :: k in st'.buckets && k != c.key ==> c.at - st'.buckets[k].last <= 600.0
      else st'.lastTrim == st.lastTrim && st.buckets.Keys <= st'.buckets.Keys
  {
  }

  // ---------- Exactly when eviction is harmless ----------

  function Volley(at: real, n: nat): seq<Call> {
    seq(n, i => Call("", at))
  }

  function Trues(n: nat): seq<bool> {
    seq(n, i => true)
  }

  // A volley on a key that is not on file is let through up to the burst.
  ghost predicate Drained(l: Limits, start: real, calls: seq<Call>, at: real, n: nat) {
    var (st, answers) := RunTrimming(l, Start(start), calls + Volley(at, n));
    && answers == RunTrimming(l, Start(start), calls).1 + Trues(n)
    && Emptied(l, st, at, n)
  }

  predicate Emptied(l: Limits, st: State, at: real, n: nat) {
    0.0 <= at - st.lastTrim <= TRIM_EVERY && "" in st.buckets && st.buckets[""] == Bucket(l.burst - n as real, at)
  }

  lemma ShotTakesOne(l: Limits, st: State, at: real, n: nat)
    requires Sane(l) && n > 0 && n as real <= l.burst
    requires if n == 1 then st.lastTrim <= at && "" !in AfterTrim(st, at).buckets else Emptied(l, st, at, n - 1)
    ensures var (st', ok) := Limited(l, st, Call("", at)); ok && Emptied(l, st', at, n)
  {
    EarnedMonotone(l, 0.0, 0.0);
    assert at - at == 0.0 && n as real == (n - 1) as real + 1.0;
  }

  lemma VolleySnoc(calls: seq<Call>, at: real, n: nat)
    requires n > 0
    ensures calls + Volley(at, n) == (calls + Volley(at, n - 1)) + [Call("", at)]
    ensures Trues(n) == Trues(n - 1) + [true]
  {
  }

  lemma RunSnoc(l: Limits, st: State, calls: seq<Call>, c: Call)
    ensures var (before, answers) := RunTrimming(l, st, calls);
      var (after, ok) := Limited(l, before, c);
      RunTrimming(l, st, calls + [c]) == (after, answers + [ok])
  {
    assert (calls + [c])[..|calls|] == calls;
  }

  lemma FirstShot(l: Limits, start: real, calls: seq<Call>, at: real)
    requires Sane(l)
    requires var st := RunTrimming(l, Start(start), calls).0; st.lastTrim <= at && "" !in AfterTrim(st, at).buckets
    ensures Drained(l, start, calls, at, 1)
  {
    ShotTakesOne(l, RunTrimming(l, Start(start), calls).0, at, 1);
    RunSnoc(l, Start(start), calls, Call("", at));
    assert Volley(at, 1) == [Call("", at)] && Trues(1) == [true];
  }

  lemma NextShot(l: Limits, start: real, calls: seq<Call>, at: real, n: nat)
    requires Sane(l) && n > 1 && n as real <= l.burst && Drained(l, start, calls, at, n - 1)
    ensures Drained(l, start, calls, at, n)
  {
    ShotTakesOne(l, RunTrimming(l, Start(start), calls + Volley(at, n - 1)).0, at, n);
    VolleySnoc(calls, at, n);
    RunSnoc(l, Start(start), calls + Volley(at, n - 1), Call("", at));
  }

  lemma {:induction false} VolleyDrains(l: Limits, start: real, calls: seq<Call>, at: real, n: nat)
    requires Sane(l) && 0 < n && n as real <= l.burst
    requires var st := RunTrimming(l, Start(start), calls).0; st.lastTrim <= at && "" !in AfterTrim(st, at).buckets
    ensures Drained(l, start, calls, at, n)
  {
    if n == 1 {
      FirstShot(l, start, calls, at);
    } else {
      VolleyDrains(l, start, calls, at, n - 1);
      NextShot(l, start, calls, at, n);
    }
  }

  lemma {:induction false} AllAccepted(calls: seq<Call>)
    requires forall i :: 0 <= i < |calls| ==> calls[i].key == ""
    ensures Accepts(calls, Trues(|calls|), "", 0) == |calls|
  {
    if calls != [] {
      AllAccepted(calls[..|calls| - 1]);
      assert Trues(|calls|)[..|calls| - 1] == Trues(|calls| - 1);
    }
  }

  // Two full bursts, just over the idle time apart.
  function TwoVolleys(start: real, perMinute: int, burst: nat): seq<Call>
    requires perMinute > 0
  {
    Volley(start, burst) + Volley(start + Pause(perMinute), burst)
  }

  // The idle time, and the time in which half a token accrues.
  function Pause(perMinute: int): real
    requires perMinute > 0
  {
    IDLE + 30.0 / perMinute as real
  }

  lemma PauseEarns(perMinute: int, burst: int)
    requires perMinute > 0
    ensures Pause(perMinute) > IDLE
    ensures Earned(LimitsOf(perMinute, burst), Pause(perMinute)) == 10.0 * perMinute as real + 0.5
    ensures Earned(LimitsOf(perMinute, burst), IDLE) == 10.0 * perMinute as real
  {
    var p := perMinute as real;
    assert p * (30.0 / p) == 30.0;
    assert (p / 60.0) * (30.0 / p) == 0.5;
  }

  lemma FirstVolleyPasses(l: Limits, start: real, burst: nat)
    requires Sane(l) && burst > 0 && l.burst == burst as real
    ensures var (st, answers) := RunTrimming(l, Start(start), Volley(start, burst));
      answers == Trues(burst) && Emptied(l, st, start, burst)
  {
    VolleyDrains(l, start, [], start, burst);
    assert [] + Volley(start, burst) == Volley(start, burst);
  }

  lemma TwoVolleysPass(start: real, perMinute: int, burst: nat)
    requires perMinute > 0 && burst > 0
    ensures var (l, calls) := (LimitsOf(perMinute, burst), TwoVolleys(start, perMinute, burst));
      RunTrimming(l, Start(start), calls).1 == Trues(2 * burst)
  {
    var l := LimitsOf(perMinute, burst);
    PauseEarns(perMinute, burst);
    FirstVolleyPasses(l, start, burst);
    VolleyDrains(l, start, Volley(start, burst), start + Pause(perMinute), burst);
    assert Trues(burst) + Trues(burst) == Trues(2 * burst);
  }

  lemma TwoVolleysShape(start: real, perMinute: int, burst: nat)
    requires perMinute > 0 && burst > 0
    ensures var calls := TwoVolleys(start, perMinute, burst);
      && |calls| == 2 * burst && InOrder(start, calls) && (forall i :: 0 <= i < |calls| ==> calls[i].key == "")
      && calls[|calls| - 1].at - calls[0].at == Pause(perMinute)
  {
    PauseEarns(perMinute, burst);
  }

  lemma TwoBurstsBeatRefill(perMinute: int, burst: nat)
    requires perMinute > 0 && burst > 0 && 10 * perMinute < burst
    ensures var l := LimitsOf(perMinute, burst); (2 * burst) as real > l.burst + Earned(l, Pause(perMinute))
  {
    PauseEarns(perMinute, burst);
    assert 10.0 * perMinute as real + 1.0 <= burst as real;
  }

  // More than the bound on a window.
  predicate Exceeds(l: Limits, calls: seq<Call>, answers: seq<bool>, key: string)
    requires |calls| == |answers| > 0
  {
    Accepts(calls, answers, key, 0) as real > l.burst + Earned(l, calls[|calls| - 1].at - calls[0].at)
  }

  lemma ExceedsWhen(l: Limits, calls: seq<Call>, n: nat, span: real)
    requires |calls| == n > 0 && Accepts(calls, Trues(n), "", 0) == n
    requires calls[n - 1].at - calls[0].at == span && n as real > l.burst + Earned(l, span)
    ensures Exceeds(l, calls, Trues(n), "")
  {
  }

  lemma TwoVolleysExceed(start: real, perMinute: int, burst: nat)
    requires perMinute > 0 && burst > 0 && 10 * perMinute < burst
    ensures var (l, calls) := (LimitsOf(perMinute, burst), TwoVolleys(start, perMinute, burst));
      Exceeds(l, calls, RunTrimming(l, Start(start), calls).1, "")
  {
    TwoVolleysPass(start, perMinute, burst);
    TwoVolleysShape(start, perMinute, burst);
    AllAccepted(TwoVolleys(start, perMinute, burst));
    TwoBurstsBeatRefill(perMinute, burst);
    ExceedsWhen(LimitsOf(perMinute, burst), TwoVolleys(start, perMinute, burst), 2 * burst, Pause(perMinute));
  }

  // The two volleys beat both the kept buckets and the bound on a window.
  lemma TwoVolleysDiffer(start: real, perMinute: int, burst: nat)
    requires perMinute > 0 && burst > 0 && 10 * perMinute < burst
    ensures var (l, calls) := (LimitsOf(perMinute, burst), TwoVolleys(start, perMinute, burst));
      && InOrder(start, calls) && RunTrimming(l, Start(start), calls).1 != RunKeeping(l, map[], calls).1
      && Exceeds(l, calls, RunTrimming(l, Start(start), calls).1, "")
  {
    TwoVolleysShape(start, perMinute, burst);
    TwoVolleysExceed(start, perMinute, burst);
    WindowBound(LimitsOf(perMinute, burst), start, TwoVolleys(start, perMinute, burst), 0, "");
  }

  // Forgetting idle buckets never changes an answer exactly when a bucket refills within the
  // ten minutes, that is, when ten times the minute rate reaches the burst.
  lemma EvictionExact(start: real, perMinute: int, burst: int)
    ensures var l := LimitsOf(perMinute, burst);
      10 * OrDefault(perMinute, DEFAULT_PER_MINUTE) >= OrDefault(burst, DEFAULT_BURST) <==>
      forall calls :: InOrder(start, calls) ==> RunTrimming(l, Start(start), calls).1 == RunKeeping(l, map[], calls).1
  {
    var p, b := OrDefault(perMinute, DEFAULT_PER_MINUTE), OrDefault(burst, DEFAULT_BURST);
    var l := LimitsOf(p, b);
    PauseEarns(p, b);
    if 10 * p >= b {
      forall calls | InOrder(start, calls)
        ensures RunTrimming(l, Start(start), calls).1 == RunKeeping(l, map[], calls).1
      {
        EvictionHarmless(l, start, calls);
      }
    } else {
      TwoVolleysDiffer(start, p, b);
    }
  }
}
