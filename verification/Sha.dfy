/** The Merkle tree over byte strings: leaf and node hashes by one hash function `sha`. */
module Sha {
  import opened ByteStrings
  import opened Merkle

  function LeafHash(sha: Bytes -> Digest, data: Bytes): Digest {
    sha([0] + data)
  }

  function NodeHash(sha: Bytes -> Digest): (Digest, Digest) -> Digest {
    (l: Digest, r: Digest) => sha([1] + l + r)
  }

  function LeafHashes(sha: Bytes -> Digest, leaves: seq<Bytes>): (hashes: seq<Digest>)
    ensures |hashes| == |leaves|
    ensures forall i :: 0 <= i < |leaves| ==> hashes[i] == LeafHash(sha, leaves[i])
  {
    seq(|leaves|, i requires 0 <= i < |leaves| => LeafHash(sha, leaves[i]))
  }

  // The root of the empty tree is the hash of the empty string.
  function RootFromLeafHashes(sha: Bytes -> Digest, leafHashes: seq<Digest>): Digest {
    if leafHashes == [] then sha([]) else RootOfHashes(NodeHash(sha), leafHashes)
  }

  function Root(sha: Bytes -> Digest, leaves: seq<Bytes>): Digest {
    RootFromLeafHashes(sha, LeafHashes(sha, leaves))
  }

  // No two different strings in T hash to the same digest. For a real hash T is a set of
  // strings among which no collision is known.
  ghost predicate CollisionFree(sha: Bytes -> Digest, T: iset<Bytes>) {
    forall x, y :: x in T && y in T && sha(x) == sha(y) ==> x == y
  }

  // The child pairs whose concatenation, with the node prefix, lies in T.
  ghost function PairsIn(T: iset<Bytes>): iset<(Digest, Digest)> {
    iset p: (Digest, Digest) | [1] + p.0 + p.1 in T
  }

  lemma NodesDoNotCollide(sha: Bytes -> Digest, T: iset<Bytes>)
    requires CollisionFree(sha, T)
    ensures NoCollision(NodeHash(sha), PairsIn(T))
  {
    var node := NodeHash(sha);
    forall p: (Digest, Digest), q: (Digest, Digest) |
      p in PairsIn(T) && q in PairsIn(T) && node(p.0, p.1) == node(q.0, q.1)
      ensures p == q
    {
      var x, y := [1] + p.0 + p.1, [1] + q.0 + q.1;
      assert x == y;
      assert p.0 == x[1..33] && p.1 == x[33..] && q.0 == y[1..33] && q.1 == y[33..];
    }
  }

  lemma LeafHashesBind(sha: Bytes -> Digest, T: iset<Bytes>, a: seq<Bytes>, b: seq<Bytes>)
    requires CollisionFree(sha, T) && |a| == |b|
    requires forall i :: 0 <= i < |a| ==> [0] + a[i] in T
    requires forall i :: 0 <= i < |b| ==> [0] + b[i] in T
    requires LeafHashes(sha, a) == LeafHashes(sha, b)
    ensures a == b
  {
    forall i | 0 <= i < |a|
      ensures a[i] == b[i]
    {
      assert LeafHashes(sha, a)[i] == LeafHashes(sha, b)[i];
      assert a[i] == ([0] + a[i])[1..] && b[i] == ([0] + b[i])[1..];
    }
  }

  // The smallest trees: none, one and two leaves.
  lemma SmallRoots(sha: Bytes -> Digest, x: Bytes, y: Bytes)
    ensures Root(sha, []) == sha([])
    ensures Root(sha, [x]) == sha([0] + x)
    ensures Root(sha, [x, y]) == sha([1] + sha([0] + x) + sha([0] + y))
  {
    assert LeafHashes(sha, [x]) == [sha([0] + x)];
    assert LeafHashes(sha, [x, y]) == [sha([0] + x), sha([0] + y)];
  }
}
