/**
  RFC 6962 consistency proofs. The generator recurses from the root down; the verifier
  is the bit-shifting loop of RFC 9162 section 2.1.4.2, which climbs from the leaves up.
  The link between the two is the list of sides on which the siblings stand.

  Many lemmas state their conclusion through a named predicate; this keeps the solver
  from unrolling the recursions twice.
 */
module Consistency {
  import opened Wrappers
  import opened Bits
  import opened Merkle

  // ---------- Generator ----------

  // RFC 6962 SUBPROOF for hashes[lo:lo+n].
  function SubProof<H>(node: (H, H) -> H, hashes: seq<H>, lo: nat, m: nat, n: nat, b: bool): seq<H>
    requires 0 < m <= n && lo + n <= |hashes|
    decreases n
  {
    if m == n then
      if b then [] else [Subtree(node, hashes, lo, lo + n)]
    else
      var k := Split(n);
      if m <= k then
        SubProof(node, hashes, lo, m, k, b) + [Subtree(node, hashes, lo + k, lo + n)]
      else
        SubProof(node, hashes, lo + k, m - k, n - k, false) + [Subtree(node, hashes, lo, lo + k)]
  }

  function ConsistencyProof<H>(node: (H, H) -> H, hashes: seq<H>, m: int, n: int): Result<seq<H>, ConsistencyError>
  {
    if m <= 0 || m > n || n > |hashes| then Err(BadSizes) else Ok(SubProof(node, hashes, 0, m, n, true))
  }

  // ---------- Sides: the shape of the two walks ----------

  datatype Side = Left | Right

  // Top down: where the siblings stand on the way from the size-m boundary to the root.
  function ProofSides(m: nat, n: nat): seq<Side>
    requires 0 < m <= n
    decreases n
  {
    if m == n then [] else
    var k := Split(n);
    if m <= k then ProofSides(m, k) + [Right] else ProofSides(m - k, n - k) + [Left]
  }

  // Top down: the sides of an audit path for leaf i of s.
  function AuditSides(i: nat, s: nat): seq<Side>
    requires i < s
    decreases s
  {
    if s == 1 then [] else
    var k := Split(s);
    if i < k then AuditSides(i, k) + [Right] else AuditSides(i - k, s - k) + [Left]
  }

  // Bottom up, level by level: node i of a level whose last node is `last`. An even last
  // node has no sibling and is promoted. Beyond the last node only the shifts count.
  function LevelSides(i: nat, last: nat): seq<Side>
    decreases last
  {
    if last == 0 then []
    else if i % 2 == 1 then [Left] + LevelSides(i / 2, last / 2)
    else if i == last then LevelSides(i / 2, last / 2)
    else [Right] + LevelSides(i / 2, last / 2)
  }

  // Dropping the trailing one bits of the old size's last index.
  function StripOnes(mm: nat, nn: nat): (r: (nat, nat))
    ensures mm <= nn ==> r.0 <= r.1
  {
    if mm % 2 == 1 then StripOnes(mm / 2, nn / 2) else (mm, nn)
  }

  // The sibling of node i in a level of s nodes, if it has one.
  function BottomSide(i: nat, s: nat): seq<Side>
    requires i < s
  {
    if i % 2 == 1 then [Left] else if i == s - 1 then [] else [Right]
  }

  // Node i2 of s2 is where node i of s goes one level up.
  predicate OneUp(i: nat, s: nat, i2: nat, s2: nat) {
    i < s && i2 < s2 && (i == 2 * i2 || i == 2 * i2 + 1) && (s == 2 * s2 || s + 1 == 2 * s2)
  }

  // The audit path is its bottom step followed by the path one level up.
  predicate StepsUp(i: nat, s: nat, i2: nat, s2: nat)
    requires i < s && i2 < s2
  {
    AuditSides(i, s) == BottomSide(i, s) + AuditSides(i2, s2)
  }

  // Either turn at the top leads to a smaller tree in which the same step goes one level up.
  lemma OneUpBelow(i: nat, s: nat, i2: nat, s2: nat)
    requires OneUp(i, s, i2, s2) && s > 2
    ensures var k, k2 := Split(s), Split(s2);
      && k == 2 * k2
      && (i < k ==> OneUp(i, k, i2, k2) && BottomSide(i, k) == BottomSide(i, s))
      && (i >= k ==> i2 >= k2 && OneUp(i - k, s - k, i2 - k2, s2 - k2) && BottomSide(i - k, s - k) == BottomSide(i, s))
  {
    SplitHalves(s);
    assert (i - 2 * Split(s2)) % 2 == i % 2;
  }

  // The turn at the top is the same for both, so it can be added to a known remainder.
  lemma TurnRight(i: nat, s: nat, i2: nat, s2: nat, k: nat, k2: nat)
    requires OneUp(i, s, i2, s2) && s > 2 && k == Split(s) == 2 * k2 && k2 == Split(s2)
    requires i < k && i2 < k2 && StepsUp(i, k, i2, k2) && BottomSide(i, k) == BottomSide(i, s)
    ensures StepsUp(i, s, i2, s2)
  {
    assert AuditSides(i, s) == BottomSide(i, s) + (AuditSides(i2, k2) + [Right]);
  }

  lemma TurnLeft(i: nat, s: nat, i2: nat, s2: nat, k: nat, k2: nat)
    requires OneUp(i, s, i2, s2) && s > 2 && k == Split(s) == 2 * k2 && k2 == Split(s2)
    requires k <= i && k2 <= i2 && StepsUp(i - k, s - k, i2 - k2, s2 - k2)
    requires BottomSide(i - k, s - k) == BottomSide(i, s)
    ensures StepsUp(i, s, i2, s2)
  {
    assert AuditSides(i, s) == BottomSide(i, s) + (AuditSides(i2 - k2, s2 - k2) + [Left]);
  }

  lemma {:induction false} AuditHalves(i: nat, s: nat, i2: nat, s2: nat)
    requires OneUp(i, s, i2, s2)
    ensures StepsUp(i, s, i2, s2)
    decreases s
  {
    if s > 2 {
      var k, k2 := Split(s), Split(s2);
      OneUpBelow(i, s, i2, s2);
      if i < k {
        AuditHalves(i, k, i2, k2);
        TurnRight(i, s, i2, s2, k, k2);
      } else {
        AuditHalves(i - k, s - k, i2 - k2, s2 - k2);
        TurnLeft(i, s, i2, s2, k, k2);
      }
    }
  }

  predicate IsByLevels(i: nat, s: nat)
    requires i < s
  {
    AuditSides(i, s) == LevelSides(i, s - 1)
  }

  lemma {:induction false} AuditIsLevels(i: nat, s: nat)
    requires i < s
    ensures IsByLevels(i, s)
    decreases s
  {
    if s > 1 {
      AuditHalves(i, s, i / 2, (s + 1) / 2);
      AuditIsLevels(i / 2, (s + 1) / 2);
      assert (s + 1) / 2 - 1 == (s - 1) / 2;
    }
  }

  predicate SameSides(m: nat, n: nat, m2: nat, n2: nat)
    requires 0 < m <= n && 0 < m2 <= n2
  {
    ProofSides(m, n) == ProofSides(m2, n2)
  }

  // An even boundary sees the same siblings as half of it one level up.
  lemma {:induction false} EvenBoundary(m: nat, n: nat, n2: nat)
    requires 0 < 2 * m < n && (n == 2 * n2 || n + 1 == 2 * n2)
    ensures SameSides(2 * m, n, m, n2)
    decreases n
  {
    SplitHalves(n);
    var k, k2 := Split(n), Split(n2);
    if m < k2 {
      EvenBoundary(m, k, k2);
    } else if m > k2 {
      EvenBoundary(m - k2, n - k, n2 - k2);
    }
  }

  predicate SidesOfLastLeaf(m: nat, n: nat)
    requires 0 < m <= n
  {
    ProofSides(m, n) == AuditSides(m - 1, n)
  }

  // An odd boundary is the audit path of the old tree's last leaf.
  lemma {:induction false} OddBoundary(m: nat, n: nat)
    requires 0 < m < n && m % 2 == 1
    ensures SidesOfLastLeaf(m, n)
    decreases n
  {
    var k := Split(n);
    if n > 2 {
      SplitHalves(n);
    }
    if m < k {
      OddBoundary(m, k);
    } else if m > k {
      OddBoundary(m - k, n - k);
    }
  }

  // The recursion of the generator and the shifts of the verifier visit the same sides.
  predicate WalksAgree(m: nat, n: nat)
    requires 0 < m < n
  {
    var (mm, nn) := StripOnes(m - 1, n - 1);
    ProofSides(m, n) == LevelSides(mm, nn)
  }

  // An even size takes one shift more than its half.
  lemma WalkHalves(m: nat, n: nat, m2: nat, n2: nat)
    requires m == 2 * m2 && 0 < m < n && (n == 2 * n2 || n + 1 == 2 * n2)
    requires WalksAgree(m2, n2) && SameSides(m, n, m2, n2)
    ensures WalksAgree(m, n)
  {
    assert (m - 1) / 2 == m2 - 1 && (n - 1) / 2 == n2 - 1;
    assert StripOnes(m - 1, n - 1) == StripOnes(m2 - 1, n2 - 1);
  }

  lemma {:induction false} SidesAgree(m: nat, n: nat)
    requires 0 < m < n
    ensures WalksAgree(m, n)
    decreases n
  {
    if m % 2 == 1 {
      OddBoundary(m, n);
      AuditIsLevels(m - 1, n);
    } else {
      var m2, n2 := m / 2, (n + 1) / 2;
      EvenBoundary(m2, n, n2);
      SidesAgree(m2, n2);
      WalkHalves(m, n, m2, n2);
    }
  }

  // ---------- The walk ----------

  datatype ConsistencyError =
    | EqualSizesNeedEmptyProof
    | EqualSizesDifferentRoots
    | BadSizes
    | TooShort
    | TooLong
    | OldRootMismatch
    | NewRootMismatch

  // The hashes standing for the old and the new tree at one point of the walk.
  datatype Roots<+H> = Roots(before: H, after: H)

  function Absorb<H>(node: (H, H) -> H, h: Roots<H>, side: Side, sibling: H): Roots<H> {
    match side
    case Left => Roots(node(sibling, h.before), node(sibling, h.after))
    case Right => Roots(h.before, node(h.after, sibling))
  }

  // Folding siblings from the leaf end.
  function Climb<H>(node: (H, H) -> H, h: Roots<H>, sides: seq<Side>, proof: seq<H>): Roots<H>
    requires |sides| == |proof|
    decreases |sides|
  {
    if sides == [] then h
    else Climb(node, Absorb(node, h, sides[0], proof[0]), sides[1..], proof[1..])
  }

  // The same fold from the root down: the shape of SubProof.
  function Rebuild<H>(node: (H, H) -> H, h: Roots<H>, m: nat, n: nat, proof: seq<H>): Roots<H>
    requires 0 < m <= n && |proof| == |ProofSides(m, n)|
    decreases n
  {
    if m == n then h else
    var k, i := Split(n), |proof| - 1;
    if m <= k then
      Absorb(node, Rebuild(node, h, m, k, proof[..i]), Right, proof[i])
    else
      Absorb(node, Rebuild(node, h, m - k, n - k, proof[..i]), Left, proof[i])
  }

  predicate ClimbsLast<H(==)>(node: (H, H) -> H, h: Roots<H>, sides: seq<Side>, proof: seq<H>)
    requires |sides| == |proof| > 0
  {
    var i := |sides| - 1;
    Climb(node, h, sides, proof) == Absorb(node, Climb(node, h, sides[..i], proof[..i]), sides[i], proof[i])
  }

  lemma {:induction false} ClimbLast<H>(node: (H, H) -> H, h: Roots<H>, sides: seq<Side>, proof: seq<H>)
    requires |sides| == |proof| > 0
    ensures ClimbsLast(node, h, sides, proof)
    decreases |sides|
  {
    var i := |sides| - 1;
    if i > 0 {
      ClimbLast(node, Absorb(node, h, sides[0], proof[0]), sides[1..], proof[1..]);
      assert sides[1..][..i - 1] == sides[..i][1..] && proof[1..][..i - 1] == proof[..i][1..];
    }
  }

  predicate RebuildClimbs<H(==)>(node: (H, H) -> H, h: Roots<H>, m: nat, n: nat, proof: seq<H>)
    requires 0 < m <= n && |proof| == |ProofSides(m, n)|
  {
    Rebuild(node, h, m, n, proof) == Climb(node, h, ProofSides(m, n), proof)
  }

  lemma {:induction false} RebuildIsClimb<H>(node: (H, H) -> H, h: Roots<H>, m: nat, n: nat, proof: seq<H>)
    requires 0 < m <= n && |proof| == |ProofSides(m, n)|
    ensures RebuildClimbs(node, h, m, n, proof)
    decreases n
  {
    if m < n {
      var k, i, sides := Split(n), |proof| - 1, ProofSides(m, n);
      if m <= k {
        RebuildIsClimb(node, h, m, k, proof[..i]);
        assert sides[..i] == ProofSides(m, k);
      } else {
        RebuildIsClimb(node, h, m - k, n - k, proof[..i]);
        assert sides[..i] == ProofSides(m - k, n - k);
      }
      ClimbLast(node, h, sides, proof);
    }
  }

  // A walk takes one sibling per side and climbs.
  function WalkAlong<H>(node: (H, H) -> H, h: Roots<H>, sides: seq<Side>,
                        proof: seq<H>): Result<Roots<H>, ConsistencyError> {
    if |proof| < |sides| then Err(TooShort)
    else if |proof| > |sides| then Err(TooLong)
    else Ok(Climb(node, h, sides, proof))
  }

  // The sides that the shifts of m - 1 and n - 1 meet.
  function ShiftSides(m: nat, n: nat): seq<Side>
    requires m > 0 && n > 0
  {
    var (mm, nn) := StripOnes(m - 1, n - 1);
    LevelSides(mm, nn)
  }

  // What the loop must return.
  function Walked<H>(node: (H, H) -> H, h: Roots<H>, m: nat, n: nat, proof: seq<H>): Result<Roots<H>, ConsistencyError>
    requires m > 0 && n > 0
  {
    WalkAlong(node, h, ShiftSides(m, n), proof)
  }

  // For sizes in order that is the top-down rebuild, or the length error.
  predicate WalksTopDown<H(==)>(node: (H, H) -> H, h: Roots<H>, m: nat, n: nat, proof: seq<H>)
    requires 0 < m < n
  {
    Walked(node, h, m, n, proof) ==
      if |proof| < |ProofSides(m, n)| then Err(TooShort)
      else if |proof| > |ProofSides(m, n)| then Err(TooLong)
      else Ok(Rebuild(node, h, m, n, proof))
  }

  lemma WalkIsRebuild<H>(node: (H, H) -> H, h: Roots<H>, m: nat, n: nat, proof: seq<H>)
    requires 0 < m < n
    ensures WalksTopDown(node, h, m, n, proof)
  {
    SidesAgree(m, n);
    if |proof| == |ProofSides(m, n)| {
      RebuildIsClimb(node, h, m, n, proof);
    }
  }

  // A node above which the root is not yet reached has a sibling left to consume.
  lemma {:induction false} LevelsLeft(i: nat, last: nat)
    requires last > 0
    ensures |LevelSides(i, last)| > 0
    decreases last
  {
    if i == last && i % 2 == 0 {
      LevelsLeft(i / 2, last / 2);
    }
  }

  // The bit-shifting loop climbs along the sides of its shifts, which for sizes in order are
  // those of the top-down rebuild. The sizes are the unsigned ones the loop works on.
  method WalkConsistency<H(==)>(node: (H, H) -> H, h1: H, h2: H, proof: seq<H>, m: nat, n: nat)
    returns (r: Result<Roots<H>, ConsistencyError>)
    requires m > 0 && n > 0
    ensures r == Walked(node, Roots(h1, h2), m, n, proof)
    ensures m < n ==> WalksTopDown(node, Roots(h1, h2), m, n, proof)
  {
    if m < n {
      WalkIsRebuild(node, Roots(h1, h2), m, n, proof);
    }
    var mm: nat, nn: nat := m - 1, n - 1;
    while mm % 2 == 1
      invariant StripOnes(mm, nn) == StripOnes(m - 1, n - 1)
      decreases mm
    {
      mm, nn := mm / 2, nn / 2;
    }
    ghost var sides := LevelSides(mm, nn);
    var pi, hash1, hash2 := 0, h1, h2;
    while nn > 0
      invariant pi <= |proof| && |sides| == pi + |LevelSides(mm, nn)|
      invariant |proof| == |sides| ==>
        Climb(node, Roots(h1, h2), sides, proof) == Climb(node, Roots(hash1, hash2), LevelSides(mm, nn), proof[pi..])
      decreases nn
    {
      if pi >= |proof| {
        LevelsLeft(mm, nn);
        return Err(TooShort);
      }
      ghost var left, rest, was := LevelSides(mm, nn), proof[pi..], nn;
      var sibling := proof[pi];
      pi := pi + 1;
      if mm % 2 == 1 || mm == nn {
        hash1 := node(sibling, hash1);
        hash2 := node(sibling, hash2);
        while mm % 2 == 0 && mm > 0
          invariant nn <= was && nn > 0 && (mm % 2 == 1 || mm == nn)
          invariant LevelSides(mm, nn) == left
        {
          mm, nn := mm / 2, nn / 2;
        }
        assert left == [Left] + LevelSides(mm / 2, nn / 2);
      } else {
        hash2 := node(hash2, sibling);
        assert left == [Right] + LevelSides(mm / 2, nn / 2);
      }
      mm, nn := mm / 2, nn / 2;
      assert left[1..] == LevelSides(mm, nn) && rest[1..] == proof[pi..];
    }
    if pi != |proof| {
      return Err(TooLong);
    }
    return Ok(Roots(hash1, hash2));
  }

  // For a power of two the first proof node is implicit: it is the old root itself.
  function FullPath<H>(oldRoot: H, m: int, proof: seq<H>): seq<H> {
    if m > 0 && IsPow2(m) then [oldRoot] + proof else proof
  }

  // The size whose predecessor is the 64-bit unsigned one of x: x itself when positive.
  function Unsigned(x: int): (size: nat)
    ensures size > 0
  {
    if x > 0 then x else (x - 1) % 0x1_0000_0000_0000_0000 + 1
  }

  // What VerifyConsistency must answer.
  function Verdict<H(==)>(node: (H, H) -> H, oldRoot: H, newRoot: H, m: int, n: int, proof: seq<H>)
    : Result<(), ConsistencyError>
  {
    if m == n then
      if proof != [] then Err(EqualSizesNeedEmptyProof)
      else if oldRoot != newRoot then Err(EqualSizesDifferentRoots)
      else Ok(())
    else if m == 0 || m > n then Err(BadSizes)
    else
      var path := FullPath(oldRoot, m, proof);
      if path == [] then Err(TooShort) else
      match Walked(node, Roots(path[0], path[0]), Unsigned(m), Unsigned(n), path[1..])
      case Err(e) => Err(e)
      case Ok(roots) =>
        if roots.before != oldRoot then Err(OldRootMismatch)
        else if roots.after != newRoot then Err(NewRootMismatch)
        else Ok(())
  }

  // Negative sizes included: both loops over shifts stop on every size but 0.
  method VerifyConsistency<H(==)>(node: (H, H) -> H, oldRoot: H, newRoot: H, m: int, n: int, proof: seq<H>)
    returns (r: Result<(), ConsistencyError>)
    ensures r == Verdict(node, oldRoot, newRoot, m, n, proof)
  {
    if m == n {
      if |proof| != 0 {
        return Err(EqualSizesNeedEmptyProof);
      }
      if oldRoot != newRoot {
        return Err(EqualSizesDifferentRoots);
      }
      return Ok(());
    }
    if m == 0 || m > n {
      return Err(BadSizes);
    }
    IsPowerOfTwoExact(m);
    var path := proof;
    if IsPowerOfTwo(m) {
      path := [oldRoot] + proof;
    }
    if |path| < 1 {
      return Err(TooShort);
    }
    var mShift, nShift := m - 1, n - 1;
    while mShift % 2 == 1
      invariant mShift != -1
      decreases if mShift < 0 then -mShift else mShift
    {
      mShift, nShift := mShift / 2, nShift / 2;
    }
    var walked := WalkConsistency(node, path[0], path[0], path[1..], Unsigned(m), Unsigned(n));
    match walked {
      case Err(e) =>
        return Err(e);
      case Ok(roots) =>
        if roots.before != oldRoot {
          return Err(OldRootMismatch);
        }
        if roots.after != newRoot {
          return Err(NewRootMismatch);
        }
        return Ok(());
    }
  }

  // ---------- Completeness ----------

  predicate HeadSplits<H(==)>(node: (H, H) -> H, hashes: seq<H>, lo: nat, m: nat, n: nat)
    requires 0 < m <= n && lo + n <= |hashes|
  {
    SubProof(node, hashes, lo, m, n, false)
      == FullPath(Subtree(node, hashes, lo, lo + m), m, SubProof(node, hashes, lo, m, n, true))
  }

  // With the flag off, the proof starts at the node where the recursion stopped.
  lemma {:induction false} SubProofHead<H>(node: (H, H) -> H, hashes: seq<H>, lo: nat, m: nat, n: nat)
    requires 0 < m < n && lo + n <= |hashes|
    ensures HeadSplits(node, hashes, lo, m, n)
    decreases n
  {
    var k := Split(n);
    SplitIsPow2(n);
    if m < k {
      SubProofHead(node, hashes, lo, m, k);
    } else if m > k && IsPow2(m) {
      Pow2Gap(k, m);
    }
  }

  // The path, first node included, rebuilds these two hashes.
  predicate Rebuilds<H(==)>(node: (H, H) -> H, path: seq<H>, m: nat, n: nat, roots: Roots<H>)
    requires 0 < m <= n
  {
    && |path| == 1 + |ProofSides(m, n)|
    && Rebuild(node, Roots(path[0], path[0]), m, n, path[1..]) == roots
  }

  lemma RebuildsLast<H>(node: (H, H) -> H, sub: seq<H>, m: nat, n: nat, below: Roots<H>, sibling: H)
    requires 0 < m < n
    requires if m <= Split(n) then Rebuilds(node, sub, m, Split(n), below)
             else Rebuilds(node, sub, m - Split(n), n - Split(n), below)
    ensures Rebuilds(node, sub + [sibling], m, n, Absorb(node, below, if m <= Split(n) then Right else Left, sibling))
  {
    var inner := sub[1..];
    assert (sub + [sibling])[1..] == inner + [sibling];
    assert (inner + [sibling])[..|inner|] == inner;
  }

  // The generated path rebuilds the roots of the prefix and of the whole slice.
  predicate Complete<H(==)>(node: (H, H) -> H, hashes: seq<H>, lo: nat, m: nat, n: nat)
    requires 0 < m <= n && lo + n <= |hashes|
  {
    Rebuilds(node, SubProof(node, hashes, lo, m, n, false), m, n,
             Roots(Subtree(node, hashes, lo, lo + m), Subtree(node, hashes, lo, lo + n)))
  }

  lemma CompleteLeft<H>(node: (H, H) -> H, hashes: seq<H>, lo: nat, m: nat, n: nat)
    requires 0 < m < n && lo + n <= |hashes| && m <= Split(n) && Complete(node, hashes, lo, m, Split(n))
    ensures Complete(node, hashes, lo, m, n)
  {
    var k := Split(n);
    var (sub, sibling) := (SubProof(node, hashes, lo, m, k, false), Subtree(node, hashes, lo + k, lo + n));
    var (before, after) := (Subtree(node, hashes, lo, lo + m), Subtree(node, hashes, lo, lo + k));
    RebuildsLast(node, sub, m, n, Roots(before, after), sibling);
    assert SubProof(node, hashes, lo, m, n, false) == sub + [sibling];
    assert Subtree(node, hashes, lo, lo + n) == node(after, sibling);
  }

  lemma CompleteRight<H>(node: (H, H) -> H, hashes: seq<H>, lo: nat, m: nat, n: nat)
    requires 0 < m < n && lo + n <= |hashes| && m > Split(n)
    requires Complete(node, hashes, lo + Split(n), m - Split(n), n - Split(n))
    ensures Complete(node, hashes, lo, m, n)
  {
    var k := Split(n);
    SplitShared(m, n);
    var (sub, sibling) := (SubProof(node, hashes, lo + k, m - k, n - k, false), Subtree(node, hashes, lo, lo + k));
    var (before, after) := (Subtree(node, hashes, lo + k, lo + m), Subtree(node, hashes, lo + k, lo + n));
    RebuildsLast(node, sub, m, n, Roots(before, after), sibling);
    assert SubProof(node, hashes, lo, m, n, false) == sub + [sibling];
    assert Subtree(node, hashes, lo, lo + n) == node(sibling, after);
    assert Subtree(node, hashes, lo, lo + m) == node(sibling, before);
  }

  lemma {:induction false} RebuildComplete<H>(node: (H, H) -> H, hashes: seq<H>, lo: nat, m: nat, n: nat)
    requires 0 < m <= n && lo + n <= |hashes|
    ensures Complete(node, hashes, lo, m, n)
    decreases n
  {
    if m < n {
      var k := Split(n);
      if m <= k {
        RebuildComplete(node, hashes, lo, m, k);
        CompleteLeft(node, hashes, lo, m, n);
      } else {
        RebuildComplete(node, hashes, lo + k, m - k, n - k);
        CompleteRight(node, hashes, lo, m, n);
      }
    }
  }

  // Every generated proof is accepted, for every hash and all sizes.
  lemma ConsistencyComplete<H>(node: (H, H) -> H, hashes: seq<H>, m: nat, n: nat)
    requires 0 < m <= n <= |hashes|
    ensures Verdict(node, RootOfHashes(node, hashes[..m]), RootOfHashes(node, hashes[..n]), m, n,
                    ConsistencyProof(node, hashes, m, n).value) == Ok(())
  {
    SubtreeAgrees(node, hashes, hashes[..m], 0, m);
    SubtreeAgrees(node, hashes, hashes[..n], 0, n);
    if m < n {
      var oldRoot := Subtree(node, hashes, 0, m);
      var path := FullPath(oldRoot, m, SubProof(node, hashes, 0, m, n, true));
      SubProofHead(node, hashes, 0, m, n);
      RebuildComplete(node, hashes, 0, m, n);
      WalkIsRebuild(node, Roots(path[0], path[0]), m, n, path[1..]);
    }
  }

  lemma {:induction false} SplitBelow(n: nat, e: nat)
    requires 2 <= n <= Pow2(e)
    ensures e > 0 && Split(n) <= Pow2(e - 1)
  {
    if n > 2 {
      SplitHalves(n);
      SplitBelow((n + 1) / 2, e - 1);
    }
  }

  lemma {:induction false} SidesShort(m: nat, n: nat, e: nat)
    requires 0 < m <= n <= Pow2(e)
    ensures |ProofSides(m, n)| <= e
    decreases n
  {
    if m < n {
      var k := Split(n);
      SplitBelow(n, e);
      if m <= k {
        SidesShort(m, k, e - 1);
      } else {
        SidesShort(m - k, n - k, e - 1);
      }
    }
  }

  // At most ceil(log2 n) + 1 nodes: e is any bound with n <= 2^e.
  lemma ConsistencyProofShort<H>(node: (H, H) -> H, hashes: seq<H>, m: nat, n: nat, e: nat)
    requires 0 < m <= n <= |hashes| && n <= Pow2(e)
    ensures |ConsistencyProof(node, hashes, m, n).value| <= e + 1
  {
    SidesShort(m, n, e);
    if m < n {
      RebuildComplete(node, hashes, 0, m, n);
      SubProofHead(node, hashes, 0, m, n);
    }
  }

  // ---------- Soundness ----------

  // Every pair the walk hashes is in S.
  ghost predicate RebuildCovers<H(!new)>(S: iset<(H, H)>, node: (H, H) -> H, h: Roots<H>, m: nat, n: nat, proof: seq<H>)
    requires 0 < m <= n && |proof| == |ProofSides(m, n)|
    decreases n
  {
    m < n ==>
      var k, i := Split(n), |proof| - 1;
      if m <= k then
        && RebuildCovers(S, node, h, m, k, proof[..i])
        && (Rebuild(node, h, m, k, proof[..i]).after, proof[i]) in S
      else
        && RebuildCovers(S, node, h, m - k, n - k, proof[..i])
        && (proof[i], Rebuild(node, h, m - k, n - k, proof[..i]).before) in S
        && (proof[i], Rebuild(node, h, m - k, n - k, proof[..i]).after) in S
  }

  ghost predicate VerdictCovers<H(!new)>(S: iset<(H, H)>, node: (H, H) -> H, oldRoot: H, m: nat, n: nat,
                                         proof: seq<H>) {
    var path := FullPath(oldRoot, m, proof);
    0 < m < n && |path| == 1 + |ProofSides(m, n)| ==>
      RebuildCovers(S, node, Roots(path[0], path[0]), m, n, path[1..])
  }

  // The walk from h along the proof ends in the subtrees of a and b at lo, with all hashes in S.
  ghost predicate Accepted<H(!new)>(S: iset<(H, H)>, node: (H, H) -> H, a: seq<H>, b: seq<H>, lo: nat, m: nat, n: nat,
                                    h: H, proof: seq<H>) {
    && 0 < m <= n && lo + m <= |a| && lo + n <= |b| && |proof| == |ProofSides(m, n)|
    && NoCollision(node, S) && Covers(S, node, a, lo, lo + m) && Covers(S, node, b, lo, lo + n)
    && RebuildCovers(S, node, Roots(h, h), m, n, proof)
    && Rebuild(node, Roots(h, h), m, n, proof) == Roots(Subtree(node, a, lo, lo + m), Subtree(node, b, lo, lo + n))
  }

  lemma AcceptedLeft<H(!new)>(S: iset<(H, H)>, node: (H, H) -> H, a: seq<H>, b: seq<H>, lo: nat, m: nat, n: nat, h: H,
                              proof: seq<H>)
    requires 0 < m < n && m <= Split(n) && Accepted(S, node, a, b, lo, m, n, h, proof)
    ensures var k, i := Split(n), |proof| - 1;
      && Accepted(S, node, a, b, lo, m, k, h, proof[..i])
      && proof[i] == Subtree(node, b, lo + k, lo + n)
  {
    var k, i := Split(n), |proof| - 1;
    var below := Rebuild(node, Roots(h, h), m, k, proof[..i]);
    Uncollided(S, node, (below.after, proof[i]), (Subtree(node, b, lo, lo + k), Subtree(node, b, lo + k, lo + n)));
  }

  lemma AcceptedRight<H(!new)>(S: iset<(H, H)>, node: (H, H) -> H, a: seq<H>, b: seq<H>, lo: nat, m: nat, n: nat,
                               h: H, proof: seq<H>)
    requires 0 < m < n && Split(n) < m && Accepted(S, node, a, b, lo, m, n, h, proof)
    ensures var k, i := Split(n), |proof| - 1;
      && Accepted(S, node, a, b, lo + k, m - k, n - k, h, proof[..i])
      && proof[i] == Subtree(node, b, lo, lo + k)
      && forall j | lo <= j < lo + k :: a[j] == b[j]
  {
    var k, i := Split(n), |proof| - 1;
    SplitShared(m, n);
    var below := Rebuild(node, Roots(h, h), m - k, n - k, proof[..i]);
    Uncollided(S, node, (proof[i], below.after), (Subtree(node, b, lo, lo + k), Subtree(node, b, lo + k, lo + n)));
    Uncollided(S, node, (proof[i], below.before), (Subtree(node, a, lo, lo + k), Subtree(node, a, lo + k, lo + m)));
    SubtreeBinds(S, node, a, b, lo, lo + k);
  }

  // What acceptance forces: equal leaves in the prefix, and the generated proof.
  predicate Forced<H(==)>(node: (H, H) -> H, a: seq<H>, b: seq<H>, lo: nat, m: nat, n: nat, path: seq<H>)
    requires 0 < m <= n && lo + m <= |a| && lo + n <= |b|
  {
    && (forall j | lo <= j < lo + m :: a[j] == b[j])
    && path == SubProof(node, b, lo, m, n, false)
  }

  lemma ForcedLeft<H>(node: (H, H) -> H, a: seq<H>, b: seq<H>, lo: nat, m: nat, n: nat, h: H, proof: seq<H>)
    requires 0 < m < n && lo + m <= |a| && lo + n <= |b| && |proof| > 0 && m <= Split(n)
    requires Forced(node, a, b, lo, m, Split(n), [h] + proof[..|proof| - 1])
    requires proof[|proof| - 1] == Subtree(node, b, lo + Split(n), lo + n)
    ensures Forced(node, a, b, lo, m, n, [h] + proof)
  {
    var i := |proof| - 1;
    assert [h] + proof == [h] + proof[..i] + [proof[i]];
  }

  lemma ForcedRight<H>(node: (H, H) -> H, a: seq<H>, b: seq<H>, lo: nat, m: nat, n: nat, h: H, proof: seq<H>)
    requires 0 < m < n && lo + m <= |a| && lo + n <= |b| && |proof| > 0 && Split(n) < m
    requires Forced(node, a, b, lo + Split(n), m - Split(n), n - Split(n), [h] + proof[..|proof| - 1])
    requires proof[|proof| - 1] == Subtree(node, b, lo, lo + Split(n))
    requires forall j | lo <= j < lo + Split(n) :: a[j] == b[j]
    ensures Forced(node, a, b, lo, m, n, [h] + proof)
  {
    var i := |proof| - 1;
    assert [h] + proof == [h] + proof[..i] + [proof[i]];
  }

  // Acceptance forces its consequences.
  ghost predicate Sound<H(!new)>(S: iset<(H, H)>, node: (H, H) -> H, a: seq<H>, b: seq<H>, lo: nat, m: nat, n: nat,
                                 h: H, proof: seq<H>)
    requires 0 < m <= n && lo + m <= |a| && lo + n <= |b|
  {
    Accepted(S, node, a, b, lo, m, n, h, proof) ==> Forced(node, a, b, lo, m, n, [h] + proof)
  }

  lemma SoundEqual<H(!new)>(S: iset<(H, H)>, node: (H, H) -> H, a: seq<H>, b: seq<H>, lo: nat, n: nat, h: H,
                            proof: seq<H>)
    requires 0 < n && lo + n <= |a| && lo + n <= |b|
    ensures Sound(S, node, a, b, lo, n, n, h, proof)
  {
    if Accepted(S, node, a, b, lo, n, n, h, proof) {
      SubtreeBinds(S, node, a, b, lo, lo + n);
    }
  }

  lemma SoundLeft<H(!new)>(S: iset<(H, H)>, node: (H, H) -> H, a: seq<H>, b: seq<H>, lo: nat, m: nat, n: nat,
                           h: H, proof: seq<H>)
    requires 0 < m < n && lo + m <= |a| && lo + n <= |b| && m <= Split(n) && |proof| > 0
    requires Sound(S, node, a, b, lo, m, Split(n), h, proof[..|proof| - 1])
    ensures Sound(S, node, a, b, lo, m, n, h, proof)
  {
    if Accepted(S, node, a, b, lo, m, n, h, proof) {
      AcceptedLeft(S, node, a, b, lo, m, n, h, proof);
      ForcedLeft(node, a, b, lo, m, n, h, proof);
    }
  }

  lemma SoundRight<H(!new)>(S: iset<(H, H)>, node: (H, H) -> H, a: seq<H>, b: seq<H>, lo: nat, m: nat, n: nat,
                            h: H, proof: seq<H>)
    requires 0 < m < n && lo + m <= |a| && lo + n <= |b| && Split(n) < m && |proof| > 0
    requires Sound(S, node, a, b, lo + Split(n), m - Split(n), n - Split(n), h, proof[..|proof| - 1])
    ensures Sound(S, node, a, b, lo, m, n, h, proof)
  {
    if Accepted(S, node, a, b, lo, m, n, h, proof) {
      AcceptedRight(S, node, a, b, lo, m, n, h, proof);
      ForcedRight(node, a, b, lo, m, n, h, proof);
    }
  }

  lemma {:induction false} RebuildSound<H(!new)>(S: iset<(H, H)>, node: (H, H) -> H, a: seq<H>, b: seq<H>, lo: nat,
                                                 m: nat, n: nat, h: H, proof: seq<H>)
    requires 0 < m <= n && lo + m <= |a| && lo + n <= |b|
    ensures Sound(S, node, a, b, lo, m, n, h, proof)
    decreases n
  {
    if m == n {
      SoundEqual(S, node, a, b, lo, n, h, proof);
    } else if proof != [] {
      var k, inner := Split(n), proof[..|proof| - 1];
      if m <= k {
        RebuildSound(S, node, a, b, lo, m, k, h, inner);
        SoundLeft(S, node, a, b, lo, m, n, h, proof);
      } else {
        RebuildSound(S, node, a, b, lo + k, m - k, n - k, h, inner);
        SoundRight(S, node, a, b, lo, m, n, h, proof);
      }
    }
  }

  lemma VerdictSound<H(!new)>(S: iset<(H, H)>, node: (H, H) -> H, a: seq<H>, b: seq<H>, proof: seq<H>)
    requires 0 < |a| < |b|
    requires NoCollision(node, S) && RootCovers(S, node, a) && RootCovers(S, node, b)
    requires VerdictCovers(S, node, RootOfHashes(node, a), |a|, |b|, proof)
    requires Verdict(node, RootOfHashes(node, a), RootOfHashes(node, b), |a|, |b|, proof) == Ok(())
    ensures a == b[..|a|] && ConsistencyProof(node, b, |a|, |b|) == Ok(proof)
  {
    var m, n := |a|, |b|;
    var path := FullPath(RootOfHashes(node, a), m, proof);
    WalkIsRebuild(node, Roots(path[0], path[0]), m, n, path[1..]);
    RebuildSound(S, node, a, b, 0, m, n, path[0], path[1..]);
    assert path == [path[0]] + path[1..];
    SubtreeAgrees(node, a, b, 0, m);
    SubProofHead(node, b, 0, m, n);
    SameTail(RootOfHashes(node, a), m, proof, SubProof(node, b, 0, m, n, true));
  }

  lemma SameTail<H>(oldRoot: H, m: int, p: seq<H>, q: seq<H>)
    requires FullPath(oldRoot, m, p) == FullPath(oldRoot, m, q)
    ensures p == q
  {
    if m > 0 && IsPow2(m) {
      assert p == ([oldRoot] + p)[1..] && q == ([oldRoot] + q)[1..];
    }
  }

  // Against the roots of two lists, the verifier accepts a proof exactly when the shorter
  // list is a prefix of the longer and the proof is the generated one.
  lemma ConsistencyExact<H(!new)>(S: iset<(H, H)>, node: (H, H) -> H, a: seq<H>, b: seq<H>, proof: seq<H>)
    requires 0 < |a| <= |b|
    requires NoCollision(node, S) && RootCovers(S, node, a) && RootCovers(S, node, b)
    requires VerdictCovers(S, node, RootOfHashes(node, a), |a|, |b|, proof)
    ensures Verdict(node, RootOfHashes(node, a), RootOfHashes(node, b), |a|, |b|, proof) == Ok(())
       <==> a == b[..|a|] && ConsistencyProof(node, b, |a|, |b|) == Ok(proof)
  {
    assert b[..|b|] == b;
    if Verdict(node, RootOfHashes(node, a), RootOfHashes(node, b), |a|, |b|, proof) == Ok(()) {
      if |a| == |b| {
        RootBinds(S, node, a, b);
      } else {
        VerdictSound(S, node, a, b, proof);
      }
    } else if a == b[..|a|] {
      ConsistencyComplete(node, b, |a|, |b|);
    }
  }

  // Sizes out of order have no proof and no verdict but an error; equal sizes take no proof.
  lemma VerdictEdges<H>(node: (H, H) -> H, hashes: seq<H>, oldRoot: H, newRoot: H, m: int, n: int, proof: seq<H>)
    ensures m == n ==> (Verdict(node, oldRoot, newRoot, m, n, proof).Ok? <==> proof == [] && oldRoot == newRoot)
    ensures m != n && (m == 0 || m > n) ==> Verdict(node, oldRoot, newRoot, m, n, proof).Err?
    ensures ConsistencyProof(node, hashes, m, n).Ok? <==> 0 < m <= n <= |hashes|
    ensures 0 < m == n <= |hashes| ==> ConsistencyProof(node, hashes, m, n) == Ok([])
  {
  }

  // The unsigned reading of a 64-bit size.
  lemma UnsignedReads(x: int)
    requires -0x8000_0000_0000_0000 <= x < 0x8000_0000_0000_0000
    ensures Unsigned(x) == if x > 0 then x else x + 0x1_0000_0000_0000_0000
  {
  }
}
