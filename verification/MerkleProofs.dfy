/** Membership proofs: completeness over every index the tree accepts, and binding. */
module MerkleProofs {
  import opened Words
  import opened Results
  import opened Nodes
  import opened Hashing
  import opened Stores
  import opened MerkleSpec

  datatype MerkleProof = MerkleProof(proof: seq<Node>, leaf: Node, index: u64, root: Node)

  function RootOf(h: Hasher, d: nat, levels: Levels): Node {
    Lookup(levels, d, 0).UnwrapOr(ZeroNode(h, d))
  }

  /** The sibling read at level `j` on the way up from leaf `index`. */
  function SiblingOf(h: Hasher, levels: Levels, index: nat, j: nat): Node {
    Lookup(levels, j, Xor(Shr(index, j), 1)).UnwrapOr(ZeroNode(h, j))
  }

  function ProofOf(h: Hasher, d: nat, levels: Levels, index: u64): (p: MerkleProof)
    ensures |p.proof| == d && p.index == index
  {
    MerkleProof(
      seq(d, j requires 0 <= j < d => SiblingOf(h, levels, index, j)),
      Lookup(levels, 0, index).UnwrapOr(ZeroNode(h, 0)),
      index,
      RootOf(h, d, levels))
  }

  /** The two inputs of the hash at step `j`, ordered by bit `j` of the index. */
  function PairAt(current: Node, sibling: Node, index: nat, j: nat): Pair {
    if And(index, Pow2(j)) == 0 then (current, sibling) else (sibling, current)
  }

  /** The hash after the first `j` steps of the verifier. */
  function Fold(h: Hasher, leaf: Node, proof: seq<Node>, index: nat, j: nat): Node
    requires j <= |proof|
  {
    if j == 0 then leaf
    else
      var pair := PairAt(Fold(h, leaf, proof, index, j - 1), proof[j - 1], index, j - 1);
      h.Hash(pair.0, pair.1)
  }

  predicate Accepts(h: Hasher, p: MerkleProof) {
    Fold(h, p.leaf, p.proof, p.index, |p.proof|) == p.root
  }

  /**
   The same path by division: an even position is a left child, an odd one a right child,
   and the parent's position is half of it.
   */
  function PathRoot(h: Hasher, current: Node, siblings: seq<Node>, position: nat): Node
    decreases |siblings|
  {
    if siblings == [] then current
    else if position % 2 == 0 then PathRoot(h, h.Hash(current, siblings[0]), siblings[1..], position / 2)
    else PathRoot(h, h.Hash(siblings[0], current), siblings[1..], position / 2)
  }

  /** What is left of the path after `j` steps ends where the verifier ends. */
  lemma {:induction false} FoldIsPathRoot(h: Hasher, leaf: Node, proof: seq<Node>, index: nat, j: nat)
    requires j <= |proof|
    ensures Fold(h, leaf, proof, index, |proof|)
         == PathRoot(h, Fold(h, leaf, proof, index, j), proof[j..], Shr(index, j))
    decreases |proof| - j
  {
    if j < |proof| {
      FoldIsPathRoot(h, leaf, proof, index, j + 1);
      AndShlOne(index, j);
      ShrStep(index, j);
      assert proof[j..][0] == proof[j] && proof[j..][1..] == proof[j + 1..];
    }
  }

  /** The bit tests of the verifier climb the path that division by two describes. */
  lemma AcceptsIsPathRoot(h: Hasher, p: MerkleProof)
    ensures Accepts(h, p) <==> PathRoot(h, p.leaf, p.proof, p.index) == p.root
  {
    FoldIsPathRoot(h, p.leaf, p.proof, p.index, 0);
    ShrByZero(p.index);
    assert p.proof[0..] == p.proof;
  }

  /** Digits of the index above the height are not read: acceptance is the same with any of them. */
  lemma AcceptanceReadsLowDigits(h: Hasher, p: MerkleProof, index: u64)
    requires p.index % Pow2(|p.proof|) == index % Pow2(|p.proof|)
    ensures Accepts(h, p) <==> Accepts(h, p.(index := index))
  {
    SameRemainderSamePath(p.index, index, |p.proof|);
    SamePathSameFold(h, p.leaf, p.proof, p.index, index, |p.proof|);
  }

  lemma {:induction false} SamePathSameFold(h: Hasher, leaf: Node, proof: seq<Node>, a: nat, b: nat, j: nat)
    requires j <= |proof| && forall i :: 0 <= i < |proof| ==> Shr(a, i) % 2 == Shr(b, i) % 2
    ensures Fold(h, leaf, proof, a, j) == Fold(h, leaf, proof, b, j)
  {
    if j > 0 {
      SamePathSameFold(h, leaf, proof, a, b, j - 1);
      AndShlOne(a, j - 1);
      AndShlOne(b, j - 1);
    }
  }

  // ----- completeness

  /** The sibling the tree hands out is the other child of the parent on the path. */
  lemma SiblingIsNode(h: Hasher, d: nat, leaves: seq<Node>, index: nat, j: nat)
    requires j <= d
    ensures SiblingOf(h, TreeLevels(h, d, leaves), index, j)
         == NodeAt(h, leaves, j, OtherChild(Shr(index, j)))
  {
    hide NodeAt, ZeroNode, TreeLevels, Lookup, Shr, CeilShr, Xor;
    XorOne(Shr(index, j));
    LookupIsNodeAt(h, d, leaves, j, Xor(Shr(index, j), 1));
  }

  /**
   What a proof of an index holds: the leaf, 32 zero bytes where there is none, the root of the
   padded leaves, and at each level the other child of the parent on the path.
   */
  ghost predicate ProofHolds(h: Hasher, d: nat, leaves: seq<Node>, index: nat, p: MerkleProof) {
    && |p.proof| == d && p.index == index
    && p.root == NodeAt(h, leaves, d, 0)
    && (if index < |leaves| then p.leaf == leaves[index] else forall k :: 0 <= k < 32 ==> p.leaf.bytes[k] == 0)
    && forall j :: 0 <= j < d ==> p.proof[j] == NodeAt(h, leaves, j, OtherChild(Shr(index, j)))
  }

  function OtherChild(position: nat): nat {
    if position % 2 == 0 then position + 1 else position - 1
  }

  /** So does the proof that the tree hands out, for every index. */
  lemma ProofOfHolds(h: Hasher, d: nat, leaves: seq<Node>, index: u64)
    ensures ProofHolds(h, d, leaves, index, ProofOf(h, d, TreeLevels(h, d, leaves), index))
  {
    FoldStart(h, d, leaves, index);
    RootIsNode(h, d, leaves);
    NodesFromBelow(h, leaves, 0, index);
    ShrByZero(index);
    forall j | 0 <= j < d
      ensures SiblingOf(h, TreeLevels(h, d, leaves), index, j) == NodeAt(h, leaves, j, OtherChild(Shr(index, j)))
    {
      SiblingIsNode(h, d, leaves, index, j);
    }
    hide NodeAt, TreeLevels, SiblingOf, RootOf, Lookup, Shr, ZeroNode, OtherChild;
  }

  /** Node and sibling, put in order by the verifier's bit test, are the two children of the parent. */
  lemma PairIsChildren(h: Hasher, d: nat, leaves: seq<Node>, index: nat, j: nat)
    requires j <= d
    ensures PairAt(NodeAt(h, leaves, j, Shr(index, j)), SiblingOf(h, TreeLevels(h, d, leaves), index, j), index, j)
         == (NodeAt(h, leaves, j, 2 * Shr(index, j + 1)), NodeAt(h, leaves, j, 2 * Shr(index, j + 1) + 1))
  {
    hide NodeAt, TreeLevels, SiblingOf, And, Pow2, Shr;
    SiblingIsNode(h, d, leaves, index, j);
    AndShlOne(index, j);
    ShrStep(index, j);
  }

  lemma FoldStep(h: Hasher, leaves: seq<Node>, index: nat, leaf: Node, proof: seq<Node>, j: nat)
    requires j < |proof|
    requires Fold(h, leaf, proof, index, j) == NodeAt(h, leaves, j, Shr(index, j))
    requires PairAt(NodeAt(h, leaves, j, Shr(index, j)), proof[j], index, j)
          == (NodeAt(h, leaves, j, 2 * Shr(index, j + 1)), NodeAt(h, leaves, j, 2 * Shr(index, j + 1) + 1))
    ensures Fold(h, leaf, proof, index, j + 1) == NodeAt(h, leaves, j + 1, Shr(index, j + 1))
  {
  }

  lemma FoldStart(h: Hasher, d: nat, leaves: seq<Node>, index: u64)
    ensures var p := ProofOf(h, d, TreeLevels(h, d, leaves), index);
            Fold(h, p.leaf, p.proof, index, 0) == NodeAt(h, leaves, 0, Shr(index, 0))
  {
    LookupIsNodeAt(h, d, leaves, 0, index);
  }

  lemma ProofSibling(h: Hasher, d: nat, levels: Levels, index: u64, j: nat)
    requires j < d
    ensures ProofOf(h, d, levels, index).proof[j] == SiblingOf(h, levels, index, j)
  {
  }

  /** After `j` steps the verifier holds node `index >> j` of level `j`, whatever the index. */
  lemma {:induction false} FoldIsNode(h: Hasher, d: nat, leaves: seq<Node>, index: u64, j: nat)
    requires j <= d
    ensures var p := ProofOf(h, d, TreeLevels(h, d, leaves), index);
            Fold(h, p.leaf, p.proof, index, j) == NodeAt(h, leaves, j, Shr(index, j))
  {
    hide *;
    if j == 0 {
      FoldStart(h, d, leaves, index);
    } else {
      var p := ProofOf(h, d, TreeLevels(h, d, leaves), index);
      ProofSibling(h, d, TreeLevels(h, d, leaves), index, j - 1);
      FoldIsNode(h, d, leaves, index, j - 1);
      PairIsChildren(h, d, leaves, index, j - 1);
      FoldStep(h, leaves, index, p.leaf, p.proof, j - 1);
    }
  }

  lemma RootIsNode(h: Hasher, d: nat, leaves: seq<Node>)
    ensures RootOf(h, d, TreeLevels(h, d, leaves)) == NodeAt(h, leaves, d, 0)
  {
    LookupIsNodeAt(h, d, leaves, d, 0);
  }

  /**
   The proof of every index below `2^d`, of a leaf that is there or one still absent,
   carries that leaf and the root of the whole tree, and is accepted.
   */
  lemma ProofsAreAccepted(h: Hasher, d: nat, leaves: seq<Node>, index: u64)
    requires index < Pow2(d)
    ensures var p := ProofOf(h, d, TreeLevels(h, d, leaves), index);
            && p.leaf == (if index < |leaves| then leaves[index] else ZERO)
            && p.root == NodeAt(h, leaves, d, 0)
            && |p.proof| == d
            && Accepts(h, p)
  {
    LookupIsNodeAt(h, d, leaves, 0, index);
    RootIsNode(h, d, leaves);
    FoldIsNode(h, d, leaves, index, d);
    ShrOfSmall(index, d);
  }

  /**
   The guard of `proof` also lets `2^d` through.  That path never meets a stored node, so
   its proof is accepted exactly when the root is the root of the empty tree.
   */
  lemma ProofAtCapacity(h: Hasher, d: nat, leaves: seq<Node>, index: u64)
    requires index == Pow2(d) && |leaves| <= Pow2(d)
    ensures var p := ProofOf(h, d, TreeLevels(h, d, leaves), index);
            && p.leaf == ZERO
            && (Accepts(h, p) <==> NodeAt(h, leaves, d, 0) == ZeroNode(h, d))
  {
    LookupIsNodeAt(h, d, leaves, 0, index);
    RootIsNode(h, d, leaves);
    FoldIsNode(h, d, leaves, index, d);
    ShrOfSmall(index, d);
    LevelFits(|leaves|, d, d);
    AbsentIsZero(h, leaves, d, 1);
  }

  /** Some tree's proof at `2^d` is refused: height 1, one leaf that is not zero, a hash that keeps its left input. */
  lemma RefusedAtCapacity(x: Node)
    requires x != ZERO
    ensures var h := Plain((left: Node, right: Node) => left);
            !Accepts(h, ProofOf(h, 1, TreeLevels(h, 1, [x]), 2))
  {
    var h := Plain((left: Node, right: Node) => left);
    assert NodeAt(h, [x], 1, 0) == NodeAt(h, [x], 0, 0) == x;
    assert ZeroNode(h, 1) == ZeroNode(h, 0) == ZERO;
    ProofAtCapacity(h, 1, [x], 2);
  }

  // ----- binding

  /** Two different input pairs with the same hash. */
  ghost predicate Collision(h: Hasher, a: Pair, b: Pair) {
    a != b && h.Hash(a.0, a.1) == h.Hash(b.0, b.1)
  }

  /** The inputs hashed at step `j` of a proof. */
  function InputsAt(h: Hasher, p: MerkleProof, j: nat): Pair
    requires j < |p.proof|
  {
    PairAt(Fold(h, p.leaf, p.proof, p.index, j), p.proof[j], p.index, j)
  }

  /** Walks down from step `j` to the highest step where the inputs of two proofs differ. */
  function HighestDifference(h: Hasher, p: MerkleProof, q: MerkleProof, j: nat): (step: Option<nat>)
    requires j <= |p.proof| == |q.proof|
    ensures step.Some? ==> step.value < j && InputsAt(h, p, step.value) != InputsAt(h, q, step.value)
    ensures forall i :: (if step.Some? then step.value + 1 else 0) <= i < j ==> InputsAt(h, p, i) == InputsAt(h, q, i)
  {
    hide InputsAt, Fold;
    if j == 0 then None
    else if InputsAt(h, p, j - 1) != InputsAt(h, q, j - 1) then Some(j - 1)
    else HighestDifference(h, p, q, j - 1)
  }

  /** Proofs walk the same path when the low digits of their indices agree. */
  ghost predicate SamePath(p: MerkleProof, q: MerkleProof) {
    && |p.proof| == |q.proof|
    && forall j :: 0 <= j < |p.proof| ==> Shr(p.index, j) % 2 == Shr(q.index, j) % 2
  }

  /** On the same path equal inputs come from equal parts. */
  lemma EqualInputs(a: Node, s: Node, i: nat, b: Node, t: Node, k: nat, j: nat)
    requires Shr(i, j) % 2 == Shr(k, j) % 2
    ensures PairAt(a, s, i, j) == PairAt(b, t, k, j) <==> a == b && s == t
  {
    AndShlOne(i, j);
    AndShlOne(k, j);
  }

  lemma {:induction false} DifferenceCollides(h: Hasher, p: MerkleProof, q: MerkleProof, j: nat)
    requires SamePath(p, q) && j <= |p.proof|
    requires Fold(h, p.leaf, p.proof, p.index, j) == Fold(h, q.leaf, q.proof, q.index, j)
    ensures match HighestDifference(h, p, q, j)
            case Some(step) => Collision(h, InputsAt(h, p, step), InputsAt(h, q, step))
            case None => p.leaf == q.leaf && forall i :: 0 <= i < j ==> p.proof[i] == q.proof[i]
  {
    if j > 0 && InputsAt(h, p, j - 1) == InputsAt(h, q, j - 1) {
      EqualInputs(Fold(h, p.leaf, p.proof, p.index, j - 1), p.proof[j - 1], p.index,
        Fold(h, q.leaf, q.proof, q.index, j - 1), q.proof[j - 1], q.index, j - 1);
      DifferenceCollides(h, p, q, j - 1);
    }
  }

  /** Equal remainders modulo `2^d` are equal low digits. */
  lemma {:induction false} SameRemainderSamePath(a: nat, b: nat, d: nat)
    requires a % Pow2(d) == b % Pow2(d)
    ensures forall j :: 0 <= j < d ==> Shr(a, j) % 2 == Shr(b, j) % 2
  {
    if d > 0 {
      HalfOfRemainder(a, Pow2(d - 1));
      HalfOfRemainder(b, Pow2(d - 1));
      SameRemainderSamePath(a / 2, b / 2, d - 1);
      forall j | 0 <= j < d
        ensures Shr(a, j) % 2 == Shr(b, j) % 2
      {
        if j > 0 {
          ShrOfHalf(a, j - 1);
          ShrOfHalf(b, j - 1);
        }
      }
    }
  }

  lemma HalfOfRemainder(x: nat, p: nat)
    requires p > 0
    ensures x % (2 * p) == 2 * ((x / 2) % p) + x % 2
  {
    var q, r := (x / 2) / p, (x / 2) % p;
    assert x == 2 * (x / 2) + x % 2 && x / 2 == q * p + r;
    assert q * (2 * p) == 2 * (q * p);
    RemainderIs(x, q, 2 * p);
  }

  /**
   Binding.  Two accepted proofs of one length for indices equal modulo `2^d` and for the same root agree
   in leaf and siblings, or the walk returns two different pairs with the same hash.
   */
  lemma ProofsBind(h: Hasher, p: MerkleProof, q: MerkleProof)
    requires |p.proof| == |q.proof| && p.index % Pow2(|p.proof|) == q.index % Pow2(|p.proof|)
    requires Accepts(h, p) && Accepts(h, q) && p.root == q.root
    ensures match HighestDifference(h, p, q, |p.proof|)
            case Some(step) => Collision(h, InputsAt(h, p, step), InputsAt(h, q, step))
            case None => p.leaf == q.leaf && p.proof == q.proof
  {
    SameRemainderSamePath(p.index, q.index, |p.proof|);
    DifferenceCollides(h, p, q, |p.proof|);
  }

  /** An accepted proof against the tree's own root carries the leaf that is really there, or a collision. */
  lemma AcceptedCarriesTheLeaf(h: Hasher, d: nat, leaves: seq<Node>, p: MerkleProof)
    requires |p.proof| == d
    requires Accepts(h, p) && p.root == NodeAt(h, leaves, d, 0)
    ensures var i := LowDigits(p.index, d);
            var q := ProofOf(h, d, TreeLevels(h, d, leaves), i);
            match HighestDifference(h, p, q, d)
            case Some(step) => Collision(h, InputsAt(h, p, step), InputsAt(h, q, step))
            case None => p.leaf == (if i < |leaves| then leaves[i] else ZERO) && p.proof == q.proof
  {
    var i := LowDigits(p.index, d);
    var q := ProofOf(h, d, TreeLevels(h, d, leaves), i);
    ProofsAreAccepted(h, d, leaves, i);
    RemainderOfSmall(i, Pow2(d));
    ProofsBind(h, p, q);
  }

  /** Equal roots bind every position: the padded leaves agree there, or the two paths collide. */
  lemma RootBindsPosition(h: Hasher, d: nat, a: seq<Node>, b: seq<Node>, i: u64)
    requires NodeAt(h, a, d, 0) == NodeAt(h, b, d, 0) && i < Pow2(d)
    ensures var p, q := ProofOf(h, d, TreeLevels(h, d, a), i), ProofOf(h, d, TreeLevels(h, d, b), i);
            match HighestDifference(h, p, q, d)
            case Some(step) => Collision(h, InputsAt(h, p, step), InputsAt(h, q, step))
            case None => Padded(a, d)[i] == Padded(b, d)[i]
  {
    hide NodeAt, TreeLevels, Pow2, ProofOf, HighestDifference, InputsAt, Accepts, Collision;
    ProofsAreAccepted(h, d, a, i);
    ProofsAreAccepted(h, d, b, i);
    ProofsBind(h, ProofOf(h, d, TreeLevels(h, d, a), i), ProofOf(h, d, TreeLevels(h, d, b), i));
  }

  /** The first position where two padded leaf arrays differ. */
  function FirstDifference(a: seq<Node>, b: seq<Node>, d: nat): (first: Option<u64>)
    requires d <= MAX_DEPTH
    ensures first.Some? ==>
              && first.value < Pow2(d) && Padded(a, d)[first.value] != Padded(b, d)[first.value]
              && Padded(a, d)[..first.value] == Padded(b, d)[..first.value]
    ensures first.None? ==> Padded(a, d) == Padded(b, d)
  {
    CapacityFits(d);
    DifferenceFrom(Padded(a, d), Padded(b, d), 0)
  }

  function DifferenceFrom(a: seq<Node>, b: seq<Node>, from: nat): (first: Option<u64>)
    requires from <= |a| == |b| <= TWO_TO_THE_64 && a[..from] == b[..from]
    ensures first.Some? ==>
              first.value < |a| && a[first.value] != b[first.value] && a[..first.value] == b[..first.value]
    ensures first.None? ==> a == b
    decreases |a| - from
  {
    if from == |a| then None
    else if a[from] != b[from] then Some(from)
    else
      assert a[..from + 1] == a[..from] + [a[from]] && b[..from + 1] == b[..from] + [b[from]];
      DifferenceFrom(a, b, from + 1)
  }

  /**
   The root binds the whole padded leaf array: where two of them under equal roots differ,
   the paths to the first position of difference hold two different pairs with the same
   hash, at the step that `HighestDifference` returns.
   */
  lemma RootBinds(h: Hasher, d: nat, a: seq<Node>, b: seq<Node>)
    requires d <= MAX_DEPTH && NodeAt(h, a, d, 0) == NodeAt(h, b, d, 0)
    ensures match FirstDifference(a, b, d)
            case None => Padded(a, d) == Padded(b, d)
            case Some(i) =>
              var p, q := ProofOf(h, d, TreeLevels(h, d, a), i), ProofOf(h, d, TreeLevels(h, d, b), i);
              var step := HighestDifference(h, p, q, d);
              step.Some? && Collision(h, InputsAt(h, p, step.value), InputsAt(h, q, step.value))
  {
    hide NodeAt, TreeLevels, Pow2, ProofOf, HighestDifference, InputsAt, Collision, Padded, FirstDifference;
    var first := FirstDifference(a, b, d);
    if first.Some? {
      RootBindsPosition(h, d, a, b, first.value);
    }
  }
}
