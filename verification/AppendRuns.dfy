/**
 Appending a batch level by level, as a function of what the store holds, and the
 proof that the result is the tree over the extended leaf list.
 */
module AppendRuns {
  import opened Words
  import opened Results
  import opened Nodes
  import opened Hashing
  import opened Stores
  import opened MerkleSpec
  import opened LevelRuns

  /** Carries the run of `level` up to level `d`, writing each level's run as it goes. */
  function AppendFrom(h: Hasher, d: nat, levels: Levels, level: nat, start: nat, run: seq<Node>): Levels
    requires level <= d
    decreases d - level
  {
    if level == d then levels
    else
      var parents := ParentRun(h, LeftPartner(h, levels, level, start), ZeroNode(h, level), start, run);
      AppendFrom(h, d, PutLevels(levels, level + 1, start / 2, parents), level + 1, start / 2, parents)
  }

  function Append(h: Hasher, d: nat, levels: Levels, batch: seq<Node>): Levels {
    if batch == [] then levels
    else
      var n := NumLeaves(levels);
      AppendFrom(h, d, PutLevels(levels, 0, n, batch), 0, n, batch)
  }

  // ----- one level

  /** The indices a batch writes at level `l`: from `n >> l` to the ceiling of the new count. */
  function RunOf(h: Hasher, leaves: seq<Node>, batch: seq<Node>, l: nat): (run: seq<Node>)
    ensures |run| == CeilShr(|leaves + batch|, l) - Shr(|leaves|, l)
  {
    ShrMonotone(|leaves|, |leaves + batch|, l);
    LevelNodes(h, leaves + batch, l)[Shr(|leaves|, l)..]
  }

  lemma RunNode(h: Hasher, leaves: seq<Node>, batch: seq<Node>, l: nat, j: nat)
    requires j < |RunOf(h, leaves, batch, l)|
    ensures RunOf(h, leaves, batch, l)[j] == NodeAt(h, leaves + batch, l, Shr(|leaves|, l) + j)
  {
  }

  lemma RunNotEmpty(h: Hasher, leaves: seq<Node>, batch: seq<Node>, l: nat)
    requires batch != []
    ensures RunOf(h, leaves, batch, l) != []
  {
    CeilShrOfSuccessor(|leaves + batch|, l);
    ShrMonotone(|leaves|, |leaves + batch| - 1, l);
  }

  /** Each child read at a level is the node of the extended tree. */
  lemma ChildIsNode(h: Hasher, leaves: seq<Node>, batch: seq<Node>, l: nat, left: Node, c: nat)
    requires var start := Shr(|leaves|, l);
             && (start % 2 == 1 ==> left == NodeAt(h, leaves, l, start - 1))
             && c >= 2 * (start / 2)
    ensures Child(left, ZeroNode(h, l), Shr(|leaves|, l), RunOf(h, leaves, batch, l), c)
         == NodeAt(h, leaves + batch, l, c)
  {
    hide Shr, CeilShr, ZeroNode, Hasher.Hash;
    var start := Shr(|leaves|, l);
    if c < start {
      CompleteIsStable(h, leaves, batch, l, c);
    } else if c >= start + |RunOf(h, leaves, batch, l)| {
      AbsentIsZero(h, leaves + batch, l, c);
    }
  }

  /** Where both children are tree nodes, so is the parent. */
  lemma ParentOfNodes(h: Hasher, leaves: seq<Node>, l: nat, left: Node, zero: Node, start: nat, run: seq<Node>, j: nat)
    requires j < ParentCount(start, |run|)
    requires var i := start / 2 + j;
             && Child(left, zero, start, run, 2 * i) == NodeAt(h, leaves, l, 2 * i)
             && Child(left, zero, start, run, 2 * i + 1) == NodeAt(h, leaves, l, 2 * i + 1)
    ensures ParentRun(h, left, zero, start, run)[j] == NodeAt(h, leaves, l + 1, start / 2 + j)
  {
    hide Child;
  }

  lemma ParentIsNode(h: Hasher, leaves: seq<Node>, batch: seq<Node>, l: nat, left: Node, j: nat)
    requires var start := Shr(|leaves|, l); start % 2 == 1 ==> left == NodeAt(h, leaves, l, start - 1)
    requires j < ParentCount(Shr(|leaves|, l), |RunOf(h, leaves, batch, l)|)
    ensures ParentRun(h, left, ZeroNode(h, l), Shr(|leaves|, l), RunOf(h, leaves, batch, l))[j]
         == NodeAt(h, leaves + batch, l + 1, Shr(|leaves|, l + 1) + j)
  {
    hide *;
    var start, run, i := Shr(|leaves|, l), RunOf(h, leaves, batch, l), Shr(|leaves|, l) / 2 + j;
    ShrStep(|leaves|, l);
    ChildIsNode(h, leaves, batch, l, left, 2 * i);
    ChildIsNode(h, leaves, batch, l, left, 2 * i + 1);
    ParentOfNodes(h, leaves + batch, l, left, ZeroNode(h, l), start, run, j);
  }

  lemma ParentsMatch(h: Hasher, leaves: seq<Node>, batch: seq<Node>, l: nat)
    ensures ParentCount(Shr(|leaves|, l), |RunOf(h, leaves, batch, l)|) == |RunOf(h, leaves, batch, l + 1)|
  {
  }

  /** Every head, pair and tail hash of a level is the node of the extended tree: the next level's run. */
  lemma ParentRunIsRun(h: Hasher, leaves: seq<Node>, batch: seq<Node>, l: nat, left: Node)
    requires var start := Shr(|leaves|, l); start % 2 == 1 ==> left == NodeAt(h, leaves, l, start - 1)
    ensures ParentRun(h, left, ZeroNode(h, l), Shr(|leaves|, l), RunOf(h, leaves, batch, l))
         == RunOf(h, leaves, batch, l + 1)
  {
    hide *;
    var parents := ParentRun(h, left, ZeroNode(h, l), Shr(|leaves|, l), RunOf(h, leaves, batch, l));
    var next := RunOf(h, leaves, batch, l + 1);
    ParentsMatch(h, leaves, batch, l);
    forall j | 0 <= j < |next|
      ensures parents[j] == next[j]
    {
      ParentIsNode(h, leaves, batch, l, left, j);
      RunNode(h, leaves, batch, l + 1, j);
    }
  }

  /** Writing the run over the old level gives the level of the extended tree. */
  lemma SplicedRunIsLevel(h: Hasher, leaves: seq<Node>, batch: seq<Node>, l: nat)
    ensures Spliced(LevelNodes(h, leaves, l), Shr(|leaves|, l), RunOf(h, leaves, batch, l))
         == LevelNodes(h, leaves + batch, l)
  {
    var before, after := LevelNodes(h, leaves, l), LevelNodes(h, leaves + batch, l);
    var start := Shr(|leaves|, l);
    ShrMonotone(|leaves|, |leaves + batch|, l);
    forall i | 0 <= i < start
      ensures before[i] == after[i]
    {
      CompleteIsStable(h, leaves, batch, l, i);
    }
    assert Spliced(before, start, after[start..]) == before[..start] + after[start..];
    assert before[..start] == after[..start];
  }

  /** The partner of an odd run start is in the store, over a complete subtree. */
  lemma PartnersAreStored(h: Hasher, d: nat, leaves: seq<Node>)
    ensures forall l :: 0 <= l <= d && Shr(|leaves|, l) % 2 == 1 ==>
              Lookup(TreeLevels(h, d, leaves), l, Shr(|leaves|, l) - 1) == Some(NodeAt(h, leaves, l, Shr(|leaves|, l) - 1))
  {
    forall l | 0 <= l <= d && Shr(|leaves|, l) % 2 == 1
      ensures Lookup(TreeLevels(h, d, leaves), l, Shr(|leaves|, l) - 1) == Some(NodeAt(h, leaves, l, Shr(|leaves|, l) - 1))
    {
      hide TreeLevels, NodeAt, Lookup, Shr, CeilShr, ZeroNode;
      LookupIsNodeAt(h, d, leaves, l, Shr(|leaves|, l) - 1);
    }
  }

  // ----- all levels

  /** The store after the levels up to `level` have been written. */
  ghost predicate WrittenUpTo(h: Hasher, d: nat, leaves: seq<Node>, batch: seq<Node>, levels: Levels, level: nat) {
    && (forall l: nat :: l <= level ==> Stored(levels, l) == LevelNodes(h, leaves + batch, l))
    && (forall l: nat :: level < l <= d ==> Stored(levels, l) == LevelNodes(h, leaves, l))
    && |levels| == if leaves == [] then level + 1 else d + 1
  }

  /** The store after the next level's run is written too. */
  function NextLevels(h: Hasher, leaves: seq<Node>, batch: seq<Node>, levels: Levels, level: nat): Levels {
    PutLevels(levels, level + 1, Shr(|leaves|, level + 1), RunOf(h, leaves, batch, level + 1))
  }

  lemma NextLevelWritten(h: Hasher, d: nat, leaves: seq<Node>, batch: seq<Node>, levels: Levels, level: nat)
    requires batch != [] && level < d
    requires WrittenUpTo(h, d, leaves, batch, levels, level)
    ensures PutAccepted(levels, level + 1, Shr(|leaves|, level + 1), RunOf(h, leaves, batch, level + 1))
    ensures WrittenUpTo(h, d, leaves, batch, NextLevels(h, leaves, batch, levels, level), level + 1)
  {
    RunNotEmpty(h, leaves, batch, level + 1);
    StoredAfterPut(levels, level + 1, Shr(|leaves|, level + 1), RunOf(h, leaves, batch, level + 1));
    SplicedRunIsLevel(h, leaves, batch, level + 1);
  }

  lemma PartnerIsNode(h: Hasher, d: nat, leaves: seq<Node>, batch: seq<Node>, levels: Levels, level: nat)
    requires level <= d && WrittenUpTo(h, d, leaves, batch, levels, level)
    requires Shr(|leaves|, level) % 2 == 1
    ensures LeftPartner(h, levels, level, Shr(|leaves|, level)) == NodeAt(h, leaves, level, Shr(|leaves|, level) - 1)
  {
    var i := Shr(|leaves|, level) - 1;
    ShrMonotone(|leaves|, |leaves + batch|, level);
    CompleteIsStable(h, leaves, batch, level, i);
    assert Stored(levels, level)[i] == NodeAt(h, leaves + batch, level, i);
  }

  function AppendRest(h: Hasher, d: nat, leaves: seq<Node>, batch: seq<Node>, levels: Levels, level: nat): Levels
    requires level <= d
  {
    AppendFrom(h, d, levels, level, Shr(|leaves|, level), RunOf(h, leaves, batch, level))
  }

  lemma AppendRestStep(h: Hasher, d: nat, leaves: seq<Node>, batch: seq<Node>, levels: Levels, level: nat)
    requires level < d && WrittenUpTo(h, d, leaves, batch, levels, level)
    ensures AppendRest(h, d, leaves, batch, levels, level)
         == AppendRest(h, d, leaves, batch, NextLevels(h, leaves, batch, levels, level), level + 1)
  {
    if Shr(|leaves|, level) % 2 == 1 {
      PartnerIsNode(h, d, leaves, batch, levels, level);
    }
    ParentRunIsRun(h, leaves, batch, level, LeftPartner(h, levels, level, Shr(|leaves|, level)));
  }

  lemma AllLevelsWritten(h: Hasher, d: nat, leaves: seq<Node>, batch: seq<Node>, levels: Levels)
    requires batch != [] && WrittenUpTo(h, d, leaves, batch, levels, d)
    ensures levels == TreeLevels(h, d, leaves + batch)
  {
    var tree := TreeLevels(h, d, leaves + batch);
    assert |levels| == |tree|;
    forall l | 0 <= l < |levels|
      ensures levels[l] == tree[l]
    {
      assert levels[l] == Stored(levels, l);
      StoredInTree(h, d, leaves + batch, l);
    }
  }

  lemma AppendRestEnd(h: Hasher, d: nat, leaves: seq<Node>, batch: seq<Node>, levels: Levels)
    requires batch != [] && WrittenUpTo(h, d, leaves, batch, levels, d)
    ensures AppendRest(h, d, leaves, batch, levels, d) == TreeLevels(h, d, leaves + batch)
  {
    AllLevelsWritten(h, d, leaves, batch, levels);
    assert AppendRest(h, d, leaves, batch, levels, d) == levels;
  }

  lemma {:induction false} AppendRestCompletes(h: Hasher, d: nat, leaves: seq<Node>, batch: seq<Node>, levels: Levels, level: nat)
    requires batch != [] && level <= d
    requires WrittenUpTo(h, d, leaves, batch, levels, level)
    ensures AppendRest(h, d, leaves, batch, levels, level) == TreeLevels(h, d, leaves + batch)
    decreases d - level
  {
    hide *;
    if level < d {
      var next := NextLevels(h, leaves, batch, levels, level);
      AppendRestStep(h, d, leaves, batch, levels, level);
      NextLevelWritten(h, d, leaves, batch, levels, level);
      AppendRestCompletes(h, d, leaves, batch, next, level + 1);
    } else {
      AppendRestEnd(h, d, leaves, batch, levels);
    }
  }

  lemma LeavesWritten(h: Hasher, d: nat, leaves: seq<Node>, batch: seq<Node>)
    requires batch != []
    ensures NumLeaves(TreeLevels(h, d, leaves)) == |leaves|
    ensures WrittenUpTo(h, d, leaves, batch, PutLevels(TreeLevels(h, d, leaves), 0, |leaves|, batch), 0)
    ensures RunOf(h, leaves, batch, 0) == batch
  {
    var levels := TreeLevels(h, d, leaves);
    forall l: nat | l <= d
      ensures Stored(levels, l) == LevelNodes(h, leaves, l)
    {
      StoredInTree(h, d, leaves, l);
    }
    assert RunOf(h, leaves, batch, 0) == batch;
    StoredAfterPut(levels, 0, |leaves|, batch);
    SplicedRunIsLevel(h, leaves, batch, 0);
  }

  /** Appending a batch to the tree over `leaves` gives the tree over `leaves + batch`. */
  lemma AppendIsTree(h: Hasher, d: nat, leaves: seq<Node>, batch: seq<Node>)
    ensures Append(h, d, TreeLevels(h, d, leaves), batch) == TreeLevels(h, d, leaves + batch)
  {
    if batch == [] {
      assert leaves + batch == leaves;
    } else {
      LeavesWritten(h, d, leaves, batch);
      AppendRestCompletes(h, d, leaves, batch, PutLevels(TreeLevels(h, d, leaves), 0, |leaves|, batch), 0);
    }
  }

  // ----- what an append leaves alone

  /** Stored nodes over complete subtrees never change. */
  lemma CompleteNodesSurvive(h: Hasher, d: nat, leaves: seq<Node>, batch: seq<Node>, l: nat, i: nat)
    requires l <= d && (i + 1) * Pow2(l) <= |leaves|
    ensures Lookup(TreeLevels(h, d, leaves), l, i).Some?
    ensures Lookup(TreeLevels(h, d, leaves + batch), l, i) == Lookup(TreeLevels(h, d, leaves), l, i)
  {
    CompleteMeansFull(|leaves|, l, i);
    ShrMonotone(|leaves|, |leaves + batch|, l);
    CompleteIsStable(h, leaves, batch, l, i);
    StoredInTree(h, d, leaves, l);
    StoredInTree(h, d, leaves + batch, l);
  }

  /**
   Of the nodes stored at a level an append overwrites the last one if `2^l` does not
   divide the old leaf count, and none otherwise; all others it writes are new.
   */
  lemma OverwrittenNodes(h: Hasher, d: nat, leaves: seq<Node>, batch: seq<Node>, l: nat, i: nat)
    requires l <= d && batch != []
    ensures Shr(|leaves|, l) <= i < Shr(|leaves|, l) + |RunOf(h, leaves, batch, l)| && i < |Stored(TreeLevels(h, d, leaves), l)|
       <==> |leaves| % Pow2(l) != 0 && i == |Stored(TreeLevels(h, d, leaves), l)| - 1
  {
    hide TreeLevels, LevelNodes, RunOf, Shr, CeilShr, Pow2;
    StoredInTree(h, d, leaves, l);
    CeilShrAndRemainder(|leaves|, l);
    RunNotEmpty(h, leaves, batch, l);
  }

  /** What one level of `add_leaves` relies on, put together. */
  lemma CarryFacts(h: Hasher, d: nat, leaves: seq<Node>, batch: seq<Node>, levels: Levels, level: nat)
    requires batch != [] && level < d
    requires WrittenUpTo(h, d, leaves, batch, levels, level)
    ensures var start, run := Shr(|leaves|, level), RunOf(h, leaves, batch, level);
            var left := LeftPartner(h, TreeLevels(h, d, leaves), level, start);
            var parents := ParentRun(h, left, ZeroNode(h, level), start, run);
            && run != [] && (level == 0 ==> run == batch)
            && parents == RunOf(h, leaves, batch, level + 1)
            && start / 2 == Shr(|leaves|, level + 1)
            && PutAccepted(levels, level + 1, start / 2, parents)
            && WrittenUpTo(h, d, leaves, batch, PutLevels(levels, level + 1, start / 2, parents), level + 1)
  {
    hide TreeLevels, NodeAt, ZeroNode, RunOf, Shr, CeilShr, ParentRun, WrittenUpTo, PutLevels, PutAccepted, Lookup, LevelNodes;
    RunNotEmpty(h, leaves, batch, level);
    PartnersAreStored(h, d, leaves);
    ParentRunIsRun(h, leaves, batch, level, LeftPartner(h, TreeLevels(h, d, leaves), level, Shr(|leaves|, level)));
    ShrStep(|leaves|, level);
    NextLevelWritten(h, d, leaves, batch, levels, level);
    LeavesWritten(h, d, leaves, batch);
  }
}
