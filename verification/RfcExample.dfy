/** The seven-leaf example of RFC 6962 section 2.1.3: root, audit paths and consistency proofs. */
module RfcExample {
  import opened Wrappers
  import opened Bits
  import opened Merkle
  import opened Consistency

  lemma Splits()
    ensures Split(2) == 1 && Split(3) == 2 && Split(4) == 2 && Split(6) == 4 && Split(7) == 4
  {
  }

  // The inner hashes of the example's tree over the leaf hashes a, b, c, d, e, f, j.
  datatype Inner<H> = Inner(g: H, h: H, i: H, k: H, l: H)

  function InnerOf<H>(node: (H, H) -> H, s: seq<H>): Inner<H>
    requires |s| == 7
  {
    var (g, h, i) := (node(s[0], s[1]), node(s[2], s[3]), node(s[4], s[5]));
    Inner(g, h, i, node(g, h), node(i, s[6]))
  }

  lemma Subtrees<H>(node: (H, H) -> H, s: seq<H>)
    requires |s| == 7
    ensures var t := InnerOf(node, s);
      && Subtree(node, s, 0, 2) == t.g && Subtree(node, s, 2, 4) == t.h && Subtree(node, s, 4, 6) == t.i
      && Subtree(node, s, 0, 4) == t.k && Subtree(node, s, 4, 7) == t.l
      && RootOfHashes(node, s) == node(t.k, t.l)
  {
    Splits();
    assert Subtree(node, s, 0, 4) == node(Subtree(node, s, 0, 2), Subtree(node, s, 2, 4));
    assert Subtree(node, s, 4, 7) == node(Subtree(node, s, 4, 6), Subtree(node, s, 6, 7));
  }

  lemma Paths<H>(node: (H, H) -> H, s: seq<H>)
    requires |s| == 7
    ensures var t := InnerOf(node, s);
      && InclusionProof(node, s, 0) == Ok([s[1], t.h, t.l])
      && InclusionProof(node, s, 3) == Ok([s[2], t.g, t.l])
      && InclusionProof(node, s, 4) == Ok([s[5], s[6], t.k])
      && InclusionProof(node, s, 6) == Ok([t.i, t.k])
  {
    Splits();
    Subtrees(node, s);
    assert PathIn(node, s, 0, 2, 0) == [s[1]] && PathIn(node, s, 0, 4, 0) == [s[1]] + [Subtree(node, s, 2, 4)];
    assert PathIn(node, s, 2, 4, 3) == [s[2]] && PathIn(node, s, 0, 4, 3) == [s[2]] + [Subtree(node, s, 0, 2)];
    assert PathIn(node, s, 4, 6, 4) == [s[5]] && PathIn(node, s, 4, 7, 4) == [s[5]] + [s[6]];
    assert PathIn(node, s, 4, 7, 6) == [] + [Subtree(node, s, 4, 6)];
    assert PathIn(node, s, 0, 7, 0) == PathIn(node, s, 0, 4, 0) + [Subtree(node, s, 4, 7)];
    assert PathIn(node, s, 0, 7, 3) == PathIn(node, s, 0, 4, 3) + [Subtree(node, s, 4, 7)];
    assert PathIn(node, s, 0, 7, 4) == PathIn(node, s, 4, 7, 4) + [Subtree(node, s, 0, 4)];
    assert PathIn(node, s, 0, 7, 6) == PathIn(node, s, 4, 7, 6) + [Subtree(node, s, 0, 4)];
    var t := InnerOf(node, s);
    assert PathIn(node, s, 0, 7, 0) == [s[1], t.h, t.l] && PathIn(node, s, 0, 7, 3) == [s[2], t.g, t.l];
    assert PathIn(node, s, 0, 7, 4) == [s[5], s[6], t.k] && PathIn(node, s, 0, 7, 6) == [t.i, t.k];
  }

  lemma Proofs<H>(node: (H, H) -> H, s: seq<H>)
    requires |s| == 7
    ensures var t := InnerOf(node, s);
      && ConsistencyProof(node, s, 3, 7) == Ok([s[2], s[3], t.g, t.l])
      && ConsistencyProof(node, s, 4, 7) == Ok([t.l])
      && ConsistencyProof(node, s, 6, 7) == Ok([t.i, s[6], t.k])
  {
    Splits();
    Subtrees(node, s);
    assert SubProof(node, s, 2, 1, 1, false) == [s[2]];
    assert SubProof(node, s, 2, 1, 2, false) == [s[2]] + [s[3]];
    assert SubProof(node, s, 0, 3, 4, true) == [s[2]] + [s[3]] + [Subtree(node, s, 0, 2)];
    assert SubProof(node, s, 0, 4, 4, true) == [];
    assert SubProof(node, s, 4, 2, 2, false) == [Subtree(node, s, 4, 6)];
    assert SubProof(node, s, 4, 2, 3, false) == [Subtree(node, s, 4, 6)] + [s[6]];
    assert SubProof(node, s, 0, 3, 7, true) == SubProof(node, s, 0, 3, 4, true) + [Subtree(node, s, 4, 7)];
    assert SubProof(node, s, 0, 4, 7, true) == [] + [Subtree(node, s, 4, 7)];
    assert SubProof(node, s, 0, 6, 7, true) == SubProof(node, s, 4, 2, 3, false) + [Subtree(node, s, 0, 4)];
    var t := InnerOf(node, s);
    assert SubProof(node, s, 0, 3, 7, true) == [s[2], s[3], t.g, t.l] && SubProof(node, s, 0, 4, 7, true) == [t.l];
    assert SubProof(node, s, 0, 6, 7, true) == [t.i, s[6], t.k];
  }
}
