/**
  The RFC 6962 tree over precomputed leaf hashes: roots, audit paths and their
  verifier. The hash type H and the inner-node hash `node` are parameters.

  A slice hashes[lo:hi] of the list is kept as the pair of its bounds, so all recursions
  work on one list and move the bounds.

  Completeness needs nothing of `node`. Soundness assumes that `node` has no collision
  among a set S of pairs that covers the pairs actually hashed; with S the set of all
  pairs this is plain injectivity, and for a real hash S is what was ever computed.
 */
module Merkle {
  import opened Wrappers
  import opened Bits

  ghost predicate NoCollision<H(!new)>(node: (H, H) -> H, S: iset<(H, H)>) {
    forall p, q :: p in S && q in S && node(p.0, p.1) == node(q.0, q.1) ==> p == q
  }

  lemma Uncollided<H(!new)>(S: iset<(H, H)>, node: (H, H) -> H, p: (H, H), q: (H, H))
    requires NoCollision(node, S) && p in S && q in S && node(p.0, p.1) == node(q.0, q.1)
    ensures p == q
  {
  }

  // ---------- Roots ----------

  // The hash of the subtree over hashes[lo:hi].
  function Subtree<H>(node: (H, H) -> H, hashes: seq<H>, lo: nat, hi: nat): H
    requires lo < hi <= |hashes|
    decreases hi - lo
  {
    if hi - lo == 1 then hashes[lo] else
    var k := Split(hi - lo);
    node(Subtree(node, hashes, lo, lo + k), Subtree(node, hashes, lo + k, hi))
  }

  function RootOfHashes<H>(node: (H, H) -> H, hashes: seq<H>): H
    requires |hashes| > 0
  {
    Subtree(node, hashes, 0, |hashes|)
  }

  predicate SameSubtree<H(==)>(node: (H, H) -> H, a: seq<H>, lo: nat, hi: nat, b: seq<H>, lo2: nat, hi2: nat)
    requires lo < hi <= |a| && lo2 < hi2 <= |b|
  {
    Subtree(node, a, lo, hi) == Subtree(node, b, lo2, hi2)
  }

  // Lists that agree on a slice have the same subtree there.
  lemma {:induction false} SubtreeAgrees<H>(node: (H, H) -> H, a: seq<H>, b: seq<H>, lo: nat, hi: nat)
    requires lo < hi <= |a| && hi <= |b|
    requires forall i | lo <= i < hi :: a[i] == b[i]
    ensures SameSubtree(node, a, lo, hi, b, lo, hi)
    decreases hi - lo
  {
    if hi - lo > 1 {
      var k := Split(hi - lo);
      SubtreeAgrees(node, a, b, lo, lo + k);
      SubtreeAgrees(node, a, b, lo + k, hi);
    }
  }

  // Every pair hashed while computing the subtree is in S.
  ghost predicate Covers<H(!new)>(S: iset<(H, H)>, node: (H, H) -> H, hashes: seq<H>, lo: nat, hi: nat)
    requires lo < hi <= |hashes|
    decreases hi - lo
  {
    hi - lo > 1 ==>
      var k := Split(hi - lo);
      && (Subtree(node, hashes, lo, lo + k), Subtree(node, hashes, lo + k, hi)) in S
      && Covers(S, node, hashes, lo, lo + k)
      && Covers(S, node, hashes, lo + k, hi)
  }

  ghost predicate RootCovers<H(!new)>(S: iset<(H, H)>, node: (H, H) -> H, hashes: seq<H>)
    requires |hashes| > 0
  {
    Covers(S, node, hashes, 0, |hashes|)
  }

  // Equal subtrees over the same slice bounds have equal leaves.
  lemma {:induction false} SubtreeBinds<H(!new)>(S: iset<(H, H)>, node: (H, H) -> H, a: seq<H>, b: seq<H>, lo: nat,
                                                 hi: nat)
    requires lo < hi <= |a| && hi <= |b|
    requires NoCollision(node, S) && Covers(S, node, a, lo, hi) && Covers(S, node, b, lo, hi)
    requires Subtree(node, a, lo, hi) == Subtree(node, b, lo, hi)
    ensures forall i | lo <= i < hi :: a[i] == b[i]
    decreases hi - lo
  {
    if hi - lo > 1 {
      var k := Split(hi - lo);
      Uncollided(S, node, (Subtree(node, a, lo, lo + k), Subtree(node, a, lo + k, hi)),
                          (Subtree(node, b, lo, lo + k), Subtree(node, b, lo + k, hi)));
      SubtreeBinds(S, node, a, b, lo, lo + k);
      SubtreeBinds(S, node, a, b, lo + k, hi);
    }
  }

  // Two lists of the same length with the same root are the same list.
  lemma RootBinds<H(!new)>(S: iset<(H, H)>, node: (H, H) -> H, a: seq<H>, b: seq<H>)
    requires |a| == |b| > 0
    requires NoCollision(node, S) && RootCovers(S, node, a) && RootCovers(S, node, b)
    ensures RootOfHashes(node, a) == RootOfHashes(node, b) <==> a == b
  {
    if RootOfHashes(node, a) == RootOfHashes(node, b) {
      SubtreeBinds(S, node, a, b, 0, |a|);
    }
  }

  // One level of the bottom-up tree: hash neighbours in pairs, promote an odd last node.
  function PairUp<H>(node: (H, H) -> H, level: seq<H>): (next: seq<H>)
    ensures PairedUp(node, level, next)
  {
    seq((|level| + 1) / 2, i requires 0 <= i < (|level| + 1) / 2 =>
      if 2 * i + 1 < |level| then node(level[2 * i], level[2 * i + 1]) else level[2 * i])
  }

  ghost predicate PairedUp<H>(node: (H, H) -> H, level: seq<H>, next: seq<H>) {
    && |next| == (|level| + 1) / 2
    && forall i :: 0 <= i < |next| ==>
         next[i] == if 2 * i + 1 < |level| then node(level[2 * i], level[2 * i + 1]) else level[2 * i]
  }

  // The tree of the package comment: pair up level by level until one hash is left.
  function BottomUpRoot<H>(node: (H, H) -> H, level: seq<H>): H
    requires |level| > 0
    decreases |level|
  {
    if |level| == 1 then level[0] else BottomUpRoot(node, PairUp(node, level))
  }

  // A subtree of the paired-up level is the subtree over twice the bounds.
  lemma {:induction false} SubtreePairsUp<H>(node: (H, H) -> H, level: seq<H>, next: seq<H>, lo: nat, hi: nat,
                                             lo2: nat, hi2: nat)
    requires PairedUp(node, level, next)
    requires lo < hi <= |level| && lo == 2 * lo2 && hi2 <= |next|
    requires hi == 2 * hi2 || (hi == |level| && hi + 1 == 2 * hi2)
    ensures SameSubtree(node, level, lo, hi, next, lo2, hi2)
    decreases hi - lo
  {
    if hi - lo == 1 {
      assert next[lo2] == level[lo];
    } else if hi - lo == 2 {
      assert next[lo2] == node(level[lo], level[lo + 1]);
    } else {
      SplitHalves(hi - lo);
      var k, k2 := Split(hi - lo), Split(hi2 - lo2);
      SubtreePairsUp(node, level, next, lo, lo + k, lo2, lo2 + k2);
      SubtreePairsUp(node, level, next, lo + k, hi, lo2 + k2, hi2);
    }
  }

  // The recursive power-of-two split computes the bottom-up tree.
  lemma {:induction false} RootIsBottomUp<H>(node: (H, H) -> H, hashes: seq<H>)
    requires |hashes| > 0
    ensures RootOfHashes(node, hashes) == BottomUpRoot(node, hashes)
    decreases |hashes|
  {
    if |hashes| > 1 {
      SubtreePairsUp(node, hashes, PairUp(node, hashes), 0, |hashes|, 0, (|hashes| + 1) / 2);
      RootIsBottomUp(node, PairUp(node, hashes));
    }
  }

  // ---------- Audit paths ----------

  // Audit path of leaf `index` inside hashes[lo:hi], deepest sibling first.
  function PathIn<H>(node: (H, H) -> H, hashes: seq<H>, lo: nat, hi: nat, index: nat): seq<H>
    requires lo <= index < hi <= |hashes|
    decreases hi - lo
  {
    if hi - lo == 1 then [] else
    var k := Split(hi - lo);
    if index < lo + k then
      PathIn(node, hashes, lo, lo + k, index) + [Subtree(node, hashes, lo + k, hi)]
    else
      PathIn(node, hashes, lo + k, hi, index) + [Subtree(node, hashes, lo, lo + k)]
  }

  function InclusionProof<H>(node: (H, H) -> H, hashes: seq<H>, index: int): Result<seq<H>, InclusionError> {
    if index < 0 || index >= |hashes| then Err(IndexOutOfRange)
    else Ok(PathIn(node, hashes, 0, |hashes|, index))
  }

  datatype InclusionError =
    | IndexOutOfRange
    | ProofTooShort(atSize: nat)
    | ProofTooLong(unused: nat)
    | RootMismatch

  // The rebuilt hash, with the count of proof entries left unused at the leaf.
  datatype Rebuilt<+H> = Rebuilt(hash: H, unused: nat)

  // Rebuilds the subtree hash top down, taking siblings from the end of the proof.
  function VerifyDescend<H>(node: (H, H) -> H, leaf: H, index: nat, size: nat, proof: seq<H>)
    : Result<Rebuilt<H>, InclusionError>
    requires index < size
    decreases size
  {
    if size == 1 then Ok(Rebuilt(leaf, |proof|))
    else if |proof| == 0 then Err(ProofTooShort(size))
    else
      var k := Split(size);
      var sibling := proof[|proof| - 1];
      var inner := proof[..|proof| - 1];
      if index < k then
        match VerifyDescend(node, leaf, index, k, inner)
        case Err(e) => Err(e)
        case Ok(sub) => Ok(Rebuilt(node(sub.hash, sibling), sub.unused))
      else
        match VerifyDescend(node, leaf, index - k, size - k, inner)
        case Err(e) => Err(e)
        case Ok(sub) => Ok(Rebuilt(node(sibling, sub.hash), sub.unused))
  }

  function VerifyInclusion<H(==)>(node: (H, H) -> H, root: H, leaf: H, index: int, treeSize: int, proof: seq<H>)
    : Result<(), InclusionError>
  {
    if index < 0 || index >= treeSize then Err(IndexOutOfRange) else
    match VerifyDescend(node, leaf, index, treeSize, proof)
    case Err(e) => Err(e)
    case Ok(top) =>
      if top.unused != 0 then Err(ProofTooLong(top.unused))
      else if top.hash != root then Err(RootMismatch)
      else Ok(())
  }

  predicate IsPath<H(==)>(node: (H, H) -> H, hashes: seq<H>, lo: nat, hi: nat, index: nat, proof: seq<H>)
    requires lo <= index < hi <= |hashes|
  {
    proof == PathIn(node, hashes, lo, hi, index)
  }

  // Every pair the verifier hashes is in S.
  ghost predicate DescendCovers<H(!new)>(S: iset<(H, H)>, node: (H, H) -> H, leaf: H, index: nat, size: nat,
                                         proof: seq<H>)
    requires index < size
    decreases size
  {
    size > 1 && |proof| > 0 ==>
      var k := Split(size);
      var sibling, inner := proof[|proof| - 1], proof[..|proof| - 1];
      if index < k then
        && DescendCovers(S, node, leaf, index, k, inner)
        && var sub := VerifyDescend(node, leaf, index, k, inner);
           sub.Ok? ==> (sub.value.hash, sibling) in S
      else
        && DescendCovers(S, node, leaf, index - k, size - k, inner)
        && var sub := VerifyDescend(node, leaf, index - k, size - k, inner);
           sub.Ok? ==> (sibling, sub.value.hash) in S
  }

  // The proof rebuilds exactly this hash and is used up.
  predicate DescendsTo<H(==)>(node: (H, H) -> H, leaf: H, index: nat, size: nat, proof: seq<H>, hash: H)
    requires index < size
  {
    VerifyDescend(node, leaf, index, size, proof) == Ok(Rebuilt(hash, 0))
  }

  // The generated path of a leaf descends to the subtree's hash.
  predicate PathDescends<H(==)>(node: (H, H) -> H, hashes: seq<H>, lo: nat, hi: nat, index: nat)
    requires lo <= index < hi <= |hashes|
  {
    var path := PathIn(node, hashes, lo, hi, index);
    DescendsTo(node, hashes[index], index - lo, hi - lo, path, Subtree(node, hashes, lo, hi))
  }

  lemma DescendLeft<H>(node: (H, H) -> H, hashes: seq<H>, lo: nat, hi: nat, index: nat, k: nat)
    requires lo <= index < hi <= |hashes| && hi - lo > 1 && k == Split(hi - lo) && index < lo + k
    requires PathDescends(node, hashes, lo, lo + k, index)
    ensures PathDescends(node, hashes, lo, hi, index)
  {
    var (inner, sibling) := (PathIn(node, hashes, lo, lo + k, index), Subtree(node, hashes, lo + k, hi));
    assert PathIn(node, hashes, lo, hi, index) == inner + [sibling];
    assert (inner + [sibling])[..|inner|] == inner;
  }

  lemma DescendRight<H>(node: (H, H) -> H, hashes: seq<H>, lo: nat, hi: nat, index: nat, k: nat)
    requires lo <= index < hi <= |hashes| && hi - lo > 1 && k == Split(hi - lo) && lo + k <= index
    requires PathDescends(node, hashes, lo + k, hi, index)
    ensures PathDescends(node, hashes, lo, hi, index)
  {
    var (inner, sibling) := (PathIn(node, hashes, lo + k, hi, index), Subtree(node, hashes, lo, lo + k));
    assert PathIn(node, hashes, lo, hi, index) == inner + [sibling];
    assert (inner + [sibling])[..|inner|] == inner;
  }

  lemma {:induction false} DescendComplete<H>(node: (H, H) -> H, hashes: seq<H>, lo: nat, hi: nat, index: nat)
    requires lo <= index < hi <= |hashes|
    ensures PathDescends(node, hashes, lo, hi, index)
    decreases hi - lo
  {
    if hi - lo > 1 {
      var k := Split(hi - lo);
      if index < lo + k {
        DescendComplete(node, hashes, lo, lo + k, index);
        DescendLeft(node, hashes, lo, hi, index, k);
      } else {
        DescendComplete(node, hashes, lo + k, hi, index);
        DescendRight(node, hashes, lo, hi, index, k);
      }
    }
  }

  lemma {:induction false} DescendSound<H(!new)>(S: iset<(H, H)>, node: (H, H) -> H, hashes: seq<H>, lo: nat, hi: nat,
                                                  leaf: H, index: nat, proof: seq<H>)
    requires lo <= index < hi <= |hashes|
    requires NoCollision(node, S) && Covers(S, node, hashes, lo, hi)
    requires DescendCovers(S, node, leaf, index - lo, hi - lo, proof)
    requires DescendsTo(node, leaf, index - lo, hi - lo, proof, Subtree(node, hashes, lo, hi))
    ensures leaf == hashes[index] && IsPath(node, hashes, lo, hi, index, proof)
    decreases hi - lo
  {
    if hi - lo > 1 {
      var k, i := Split(hi - lo), |proof| - 1;
      assert proof == proof[..i] + [proof[i]];
      if index < lo + k {
        DescendSound(S, node, hashes, lo, lo + k, leaf, index, proof[..i]);
      } else {
        DescendSound(S, node, hashes, lo + k, hi, leaf, index, proof[..i]);
      }
    }
  }

  // The generated audit path verifies, for every hash.
  lemma InclusionComplete<H>(node: (H, H) -> H, hashes: seq<H>, index: int)
    requires 0 <= index < |hashes|
    ensures VerifyInclusion(node, RootOfHashes(node, hashes), hashes[index], index, |hashes|,
                            InclusionProof(node, hashes, index).value) == Ok(())
  {
    DescendComplete(node, hashes, 0, |hashes|, index);
  }

  // Against the root of a list, exactly one (leaf, proof) pair verifies at each index.
  lemma InclusionExact<H(!new)>(S: iset<(H, H)>, node: (H, H) -> H, hashes: seq<H>, leaf: H, index: int, proof: seq<H>)
    requires |hashes| > 0
    requires NoCollision(node, S) && RootCovers(S, node, hashes)
    requires 0 <= index < |hashes| ==> DescendCovers(S, node, leaf, index, |hashes|, proof)
    ensures VerifyInclusion(node, RootOfHashes(node, hashes), leaf, index, |hashes|, proof) == Ok(())
       <==> && 0 <= index < |hashes|
            && leaf == hashes[index]
            && InclusionProof(node, hashes, index) == Ok(proof)
  {
    if VerifyInclusion(node, RootOfHashes(node, hashes), leaf, index, |hashes|, proof) == Ok(()) {
      DescendSound(S, node, hashes, 0, |hashes|, leaf, index, proof);
    } else if 0 <= index < |hashes| {
      InclusionComplete(node, hashes, index);
    }
  }
}
