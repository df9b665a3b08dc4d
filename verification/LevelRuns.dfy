/**
 One level of an append: how the run of a level pairs up into the run of the next.

 The larger proofs hide the definitions and rest on the small equations stated next to them.
 */
module LevelRuns {
  import opened Words
  import opened Results
  import opened Nodes
  import opened Hashing
  import opened Stores
  import opened MerkleSpec

  /** Child `c` of the level above a run: the stored partner, a node of the run, or the level's zero. */
  function Child(left: Node, zero: Node, start: nat, run: seq<Node>, c: nat): Node {
    if c < start then left
    else if c < start + |run| then run[c - start]
    else zero
  }

  function ParentCount(start: nat, len: nat): nat {
    (start + len + 1) / 2 - start / 2
  }

  /** The run at the next level: positions `start / 2` up to the parent of the last node. */
  function ParentRun(h: Hasher, left: Node, zero: Node, start: nat, run: seq<Node>): (parents: seq<Node>)
    ensures |parents| == ParentCount(start, |run|)
  {
    seq(ParentCount(start, |run|), j requires 0 <= j < ParentCount(start, |run|) =>
      var c := 2 * (start / 2 + j);
      h.Hash(Child(left, zero, start, run, c), Child(left, zero, start, run, c + 1)))
  }

  /** The node left of a run that starts at an odd index. */
  function LeftPartner(h: Hasher, levels: Levels, level: nat, start: nat): Node {
    if start % 2 == 1 then Lookup(levels, level, start - 1).UnwrapOr(ZeroNode(h, level)) else ZERO
  }

  lemma PartnerIsLookup(h: Hasher, levels: Levels, level: nat, start: nat)
    ensures LeftPartner(h, levels, level, start)
         == if start % 2 == 1 then Lookup(levels, level, start - 1).UnwrapOr(ZeroNode(h, level)) else ZERO
  {
  }

  /** `as_chunks::<2>`: the whole pairs of a run, and the odd node left at its end. */
  function PairsOf(nodes: seq<Node>): (pairs: seq<Pair>)
    ensures |pairs| == |nodes| / 2
  {
    seq(|nodes| / 2, i requires 0 <= i < |nodes| / 2 => (nodes[2 * i], nodes[2 * i + 1]))
  }

  function TailOf(nodes: seq<Node>): (tail: seq<Node>)
    ensures |tail| == |nodes| % 2
  {
    nodes[2 * (|nodes| / 2)..]
  }

  lemma PartLengths(start: nat, run: seq<Node>)
    requires run != []
    ensures ParentCount(start, |run|) == start % 2 + |PairsOf(run[start % 2..])| + |TailOf(run[start % 2..])|
  {
  }

  /** Which two nodes parent `j` hashes, by where they lie in the run. */
  lemma ParentByPlace(h: Hasher, left: Node, zero: Node, start: nat, run: seq<Node>, j: nat)
    requires run != [] && j < ParentCount(start, |run|)
    ensures var i := 2 * j - start % 2;
            && i < |run|
            && ParentRun(h, left, zero, start, run)[j] ==
               h.Hash(if i < 0 then left else run[i], if i + 1 < |run| then run[i + 1] else zero)
  {
    var c := 2 * (start / 2 + j);
    assert c == start + 2 * j - start % 2;
    assert ParentRun(h, left, zero, start, run)[j]
        == h.Hash(Child(left, zero, start, run, c), Child(left, zero, start, run, c + 1));
  }

  lemma PairByPlace(h: Hasher, run: seq<Node>, head: nat, i: nat)
    requires head <= |run| && head + 2 * i + 1 < |run|
    ensures i < |PairsOf(run[head..])|
    ensures h.HashAll(PairsOf(run[head..]))[i] == h.Hash(run[head + 2 * i], run[head + 2 * i + 1])
  {
  }

  lemma TailByPlace(run: seq<Node>, head: nat)
    requires head <= |run| && |TailOf(run[head..])| == 1
    ensures TailOf(run[head..])[0] == run[|run| - 1]
  {
  }

  /** Odd head, whole pairs and odd tail, one after the other, are the parents of the run. */
  lemma PartsAreParents(h: Hasher, left: Node, zero: Node, start: nat, run: seq<Node>)
    requires run != []
    ensures ParentRun(h, left, zero, start, run)
         == (if start % 2 == 1 then [h.Hash(left, run[0])] else [])
            + h.HashAll(PairsOf(run[start % 2..]))
            + (if |TailOf(run[start % 2..])| == 1 then [h.Hash(TailOf(run[start % 2..])[0], zero)] else [])
  {
    hide *;
    var head, parents := start % 2, ParentRun(h, left, zero, start, run);
    var pairs, tail := PairsOf(run[head..]), TailOf(run[head..]);
    var parts := (if head == 1 then [h.Hash(left, run[0])] else [])
                 + h.HashAll(pairs)
                 + (if |tail| == 1 then [h.Hash(tail[0], zero)] else []);
    PartLengths(start, run);
    forall j | 0 <= j < |parents|
      ensures parts[j] == parents[j]
    {
      ParentByPlace(h, left, zero, start, run, j);
      if head <= j {
        if 2 * j + 1 - head < |run| {
          PairByPlace(h, run, head, j - head);
        } else {
          TailByPlace(run, head);
        }
      }
    }
  }
}
