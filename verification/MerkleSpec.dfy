/**
 What the tree must agree with: the recursive hash of the leaf array padded with
 zero nodes, and the bottom-up recomputation the repository's tests compare with.
 */
module MerkleSpec {
  import opened Words
  import opened Nodes
  import opened Hashing
  import opened Stores

  /** The root of a subtree of height `l` that holds no leaf. */
  function ZeroNode(h: Hasher, l: nat): Node {
    if l == 0 then ZERO else h.Hash(ZeroNode(h, l - 1), ZeroNode(h, l - 1))
  }

  /** Node `i` of level `l` over `leaves` padded with zeros. */
  function NodeAt(h: Hasher, leaves: seq<Node>, l: nat, i: nat): Node
    decreases l
  {
    if l == 0 then
      if i < |leaves| then leaves[i] else ZERO
    else
      h.Hash(NodeAt(h, leaves, l - 1, 2 * i), NodeAt(h, leaves, l - 1, 2 * i + 1))
  }

  /** Node by node: leaves, 32 zero bytes past them, and above them the hash of left child then right child. */
  lemma NodesFromBelow(h: Hasher, leaves: seq<Node>, l: nat, i: nat)
    ensures i < |leaves| ==> NodeAt(h, leaves, 0, i) == leaves[i]
    ensures i >= |leaves| ==> forall k :: 0 <= k < 32 ==> NodeAt(h, leaves, 0, i).bytes[k] == 0
    ensures h.Plain? ==>
              NodeAt(h, leaves, l + 1, i) == h.combine(NodeAt(h, leaves, l, 2 * i), NodeAt(h, leaves, l, 2 * i + 1))
    ensures h.Keccak? ==>
              NodeAt(h, leaves, l + 1, i).bytes
              == h.digest(NodeAt(h, leaves, l, 2 * i).bytes + NodeAt(h, leaves, l, 2 * i + 1).bytes)
  {
    ZeroIsAllZeros(ZERO);
  }

  /** The Keccak root over three leaves, written out: the fourth leaf is 32 zero bytes. */
  lemma RootOverThree(digest: seq<u8> -> Bytes32, a: Node, b: Node, c: Node)
    ensures NodeAt(Keccak(digest), [a, b, c], 2, 0).bytes
         == digest(digest(a.bytes + b.bytes) + digest(c.bytes + seq(32, _ => 0)))
  {
    hide *;
    var h, leaves := Keccak(digest), [a, b, c];
    ZeroIsAllZeros(NodeAt(h, leaves, 0, 3));
    NodesFromBelow(h, leaves, 1, 0);
    NodesFromBelow(h, leaves, 0, 0);
    NodesFromBelow(h, leaves, 0, 1);
    NodesFromBelow(h, leaves, 0, 2);
    NodesFromBelow(h, leaves, 0, 3);
    assert NodeAt(h, leaves, 0, 3).bytes == seq(32, _ => 0);
  }

  /** The zero node of each height is the hash of two of the height below, from 32 zero bytes on. */
  lemma ZerosFromBelow(h: Hasher, l: nat)
    ensures forall k :: 0 <= k < 32 ==> ZeroNode(h, 0).bytes[k] == 0
    ensures h.Plain? ==> ZeroNode(h, l + 1) == h.combine(ZeroNode(h, l), ZeroNode(h, l))
    ensures h.Keccak? ==> ZeroNode(h, l + 1).bytes == h.digest(ZeroNode(h, l).bytes + ZeroNode(h, l).bytes)
  {
    ZeroIsAllZeros(ZERO);
  }

  /** The nodes a tree over `leaves` keeps at level `l`: those with a leaf under them. */
  function LevelNodes(h: Hasher, leaves: seq<Node>, l: nat): (nodes: seq<Node>)
    ensures |nodes| == CeilShr(|leaves|, l)
  {
    seq(CeilShr(|leaves|, l), i requires 0 <= i < CeilShr(|leaves|, l) => NodeAt(h, leaves, l, i))
  }

  /** Everything a tree of depth `d` over `leaves` keeps. */
  function TreeLevels(h: Hasher, d: nat, leaves: seq<Node>): Levels {
    if leaves == [] then [] else seq(d + 1, l requires 0 <= l < d + 1 => LevelNodes(h, leaves, l))
  }

  lemma StoredInTree(h: Hasher, d: nat, leaves: seq<Node>, l: nat)
    requires l <= d
    ensures Stored(TreeLevels(h, d, leaves), l) == LevelNodes(h, leaves, l)
  {
  }

  lemma LeavesOfLevel(h: Hasher, leaves: seq<Node>)
    ensures LevelNodes(h, leaves, 0) == leaves
  {
  }

  // ----- absent nodes and complete subtrees

  /** A node with no leaf under it is the zero node of its level. */
  lemma {:induction false} AbsentIsZero(h: Hasher, leaves: seq<Node>, l: nat, i: nat)
    requires i >= CeilShr(|leaves|, l)
    ensures NodeAt(h, leaves, l, i) == ZeroNode(h, l)
    decreases l
  {
    if l > 0 {
      AbsentIsZero(h, leaves, l - 1, 2 * i);
      AbsentIsZero(h, leaves, l - 1, 2 * i + 1);
    }
  }

  /** A complete subtree, one with `(i + 1) * 2^l <= n`, is the same whatever is appended. */
  lemma {:induction false} CompleteIsStable(h: Hasher, leaves: seq<Node>, more: seq<Node>, l: nat, i: nat)
    requires i < Shr(|leaves|, l)
    ensures NodeAt(h, leaves + more, l, i) == NodeAt(h, leaves, l, i)
    decreases l
  {
    if l > 0 {
      CompleteIsStable(h, leaves, more, l - 1, 2 * i);
      CompleteIsStable(h, leaves, more, l - 1, 2 * i + 1);
    }
  }

  /** `i < n >> l` says that all `2^l` leaves under node `i` are there. */
  lemma CompleteMeansFull(n: nat, l: nat, i: nat)
    ensures i < Shr(n, l) <==> (i + 1) * Pow2(l) <= n
  {
    hide *;
    ShrIsDivision(n, l);
    var s, p := Shr(n, l), Pow2(l);
    MulGap(i, s, p);
    MulGap(s, i, p);
    MulNext(i, p);
    MulNext(s, p);
  }

  /** Reading a node of the tree, stored or absent. */
  lemma LookupIsNodeAt(h: Hasher, d: nat, leaves: seq<Node>, l: nat, i: nat)
    requires l <= d
    ensures Lookup(TreeLevels(h, d, leaves), l, i).UnwrapOr(ZeroNode(h, l)) == NodeAt(h, leaves, l, i)
    ensures Lookup(TreeLevels(h, d, leaves), l, i).Some? <==> i < CeilShr(|leaves|, l)
  {
    StoredInTree(h, d, leaves, l);
    if i >= CeilShr(|leaves|, l) {
      AbsentIsZero(h, leaves, l, i);
    }
  }

  // ----- the recomputation from scratch

  /** The leaf array padded with zero nodes to `2^d` entries. */
  function Padded(leaves: seq<Node>, d: nat): (level: seq<Node>)
    ensures |level| == Pow2(d)
  {
    seq(Pow2(d), i requires 0 <= i < Pow2(d) => if i < |leaves| then leaves[i] else ZERO)
  }

  /** The padding hides trailing zero leaves, and nothing else. */
  lemma SamePadding(a: seq<Node>, b: seq<Node>, d: nat)
    requires |a| <= |b| <= Pow2(d)
    ensures Padded(a, d) == Padded(b, d) <==> b == a + seq(|b| - |a|, _ => ZERO)
  {
    hide Pow2;
    if Padded(a, d) == Padded(b, d) {
      forall i | 0 <= i < |b|
        ensures b[i] == if i < |a| then a[i] else ZERO
      {
        assert Padded(a, d)[i] == Padded(b, d)[i];
      }
    }
  }

  /** So two lists with the same padding have the same nodes at every level, and the same root. */
  lemma {:induction false} SamePaddingSameNodes(h: Hasher, d: nat, a: seq<Node>, b: seq<Node>, l: nat, i: nat)
    requires |a| <= Pow2(d) && |b| <= Pow2(d) && Padded(a, d) == Padded(b, d)
    ensures NodeAt(h, a, l, i) == NodeAt(h, b, l, i)
    decreases l
  {
    if l == 0 {
      if i < Pow2(d) {
        assert Padded(a, d)[i] == Padded(b, d)[i];
      }
    } else {
      hide Padded;
      SamePaddingSameNodes(h, d, a, b, l - 1, 2 * i);
      SamePaddingSameNodes(h, d, a, b, l - 1, 2 * i + 1);
    }
  }

  /** In particular the root does not tell how many leaves there are: one more zero leaf leaves it as it is. */
  lemma ZeroLeafKeepsRoot(h: Hasher, d: nat, leaves: seq<Node>)
    requires |leaves| < Pow2(d)
    ensures NodeAt(h, leaves + [ZERO], d, 0) == NodeAt(h, leaves, d, 0)
  {
    hide *;
    assert leaves + [ZERO] == leaves + seq(|leaves + [ZERO]| - |leaves|, _ => ZERO);
    SamePadding(leaves, leaves + [ZERO], d);
    SamePaddingSameNodes(h, d, leaves + [ZERO], leaves, d, 0);
  }

  /** One pass of the recomputation: `chunks(2)`, each chunk hashed. */
  function HashedPairs(h: Hasher, level: seq<Node>): (up: seq<Node>)
    ensures |up| == |level| / 2
  {
    seq(|level| / 2, i requires 0 <= i < |level| / 2 => h.Hash(level[2 * i], level[2 * i + 1]))
  }

  /** All `2^(d-l)` nodes of level `l` of the padded tree. */
  ghost function FullLevel(h: Hasher, d: nat, leaves: seq<Node>, l: nat): (level: seq<Node>)
    requires l <= d
    ensures |level| == Pow2(d - l)
  {
    seq(Pow2(d - l), i requires 0 <= i < Pow2(d - l) => NodeAt(h, leaves, l, i))
  }

  lemma HashedPairOf(h: Hasher, d: nat, leaves: seq<Node>, l: nat, i: nat)
    requires l < d && i < Pow2(d - l - 1)
    ensures |HashedPairs(h, FullLevel(h, d, leaves, l))| == Pow2(d - l - 1)
    ensures HashedPairs(h, FullLevel(h, d, leaves, l))[i]
         == h.Hash(NodeAt(h, leaves, l, 2 * i), NodeAt(h, leaves, l, 2 * i + 1))
  {
    hide Pow2, NodeAt, Hasher.Hash;
    HalfOfPow2(d - l - 1);
  }

  /** One pass over a whole level gives the whole next level. */
  lemma HashedPairsClimb(h: Hasher, d: nat, leaves: seq<Node>, l: nat)
    requires l < d
    ensures HashedPairs(h, FullLevel(h, d, leaves, l)) == FullLevel(h, d, leaves, l + 1)
  {
    hide HashedPairs, Pow2, Hasher.Hash;
    var up, hashed := FullLevel(h, d, leaves, l + 1), HashedPairs(h, FullLevel(h, d, leaves, l));
    HashedPairOf(h, d, leaves, l, 0);
    forall i | 0 <= i < |up|
      ensures hashed[i] == up[i]
    {
      HashedPairOf(h, d, leaves, l, i);
    }
  }

  /** `reference_root`: pads, then hashes whole levels until one node is left. */
  method ReferenceRoot(h: Hasher, d: nat, leaves: seq<Node>) returns (root: Node)
    requires |leaves| <= Pow2(d)
    ensures root == NodeAt(h, leaves, d, 0)
  {
    var level := Padded(leaves, d);
    assert level == FullLevel(h, d, leaves, 0);
    for k := 0 to d
      invariant level == FullLevel(h, d, leaves, k)
    {
      HashedPairsClimb(h, d, leaves, k);
      level := HashedPairs(h, level);
    }
    root := level[0];
  }
}
