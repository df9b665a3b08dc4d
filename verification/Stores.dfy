/**
 What a store holds and what its three operations do to it: the contract behind
 the `Store` trait that both stores are proved against.
 */
module Stores {
  import opened Words
  import opened Results
  import opened Nodes

  /** `levels[l][i]` is the node at level `l`, index `i`: one prefix for each level. */
  type Levels = seq<seq<Node>>

  function Stored(levels: Levels, l: nat): seq<Node> {
    if l < |levels| then levels[l] else []
  }

  function Lookup(levels: Levels, l: nat, i: nat): Option<Node> {
    if i < |Stored(levels, l)| then Some(Stored(levels, l)[i]) else None
  }

  /** A read finds what lies at that place, and nothing outside the stored prefixes. */
  lemma LookupIs(levels: Levels, l: nat, i: nat, node: Node)
    ensures Lookup(levels, l, i) == Some(node) <==> l < |levels| && i < |levels[l]| && levels[l][i] == node
  {
  }

  function NumLeaves(levels: Levels): nat {
    |Stored(levels, 0)|
  }

  function Fetched(levels: Levels, lv: seq<nat>, ix: seq<nat>): (found: seq<Option<Node>>)
    requires |lv| == |ix|
    ensures |found| == |lv|
  {
    seq(|lv|, k requires 0 <= k < |lv| => Lookup(levels, lv[k], ix[k]))
  }

  function GetResult(levels: Levels, lv: seq<nat>, ix: seq<nat>): Result<seq<Option<Node>>, MerkleError> {
    if |lv| != |ix| then Err(LengthMismatch(|lv|, |ix|)) else Ok(Fetched(levels, lv, ix))
  }

  /** Levels up to `n - 1` exist, the new ones empty. */
  function Grown(levels: Levels, n: nat): (g: Levels)
    ensures |g| == if |levels| < n then n else |levels|
    ensures forall l: nat :: Stored(g, l) == Stored(levels, l)
  {
    if |levels| < n then levels + seq(n - |levels|, _ => []) else levels
  }

  /** `stored` with `nodes` written from `start` on, over its tail, past its end, or both. */
  function Spliced(stored: seq<Node>, start: nat, nodes: seq<Node>): (s: seq<Node>)
    requires start <= |stored|
    ensures |s| == if start + |nodes| < |stored| then |stored| else start + |nodes|
    ensures s[..start] == stored[..start] && s[start..start + |nodes|] == nodes
  {
    stored[..start] + nodes + if start + |nodes| < |stored| then stored[start + |nodes|..] else []
  }

  /** A run is accepted unless it would leave a hole. */
  predicate PutAccepted(levels: Levels, level: nat, start: nat, nodes: seq<Node>) {
    nodes == [] || start <= |Stored(levels, level)|
  }

  /** The levels after a `put`; a rejected run still creates the missing levels. */
  function PutLevels(levels: Levels, level: nat, start: nat, nodes: seq<Node>): Levels {
    if nodes == [] then levels
    else
      var g := Grown(levels, level + 1);
      if start > |g[level]| then g else g[level := Spliced(g[level], start, nodes)]
  }

  /** Reading after writing, for every position of every level. */
  lemma LookupAfterPut(levels: Levels, level: nat, start: nat, nodes: seq<Node>, l: nat, i: nat)
    ensures Lookup(PutLevels(levels, level, start, nodes), l, i)
         == if PutAccepted(levels, level, start, nodes) && l == level && start <= i < start + |nodes|
            then Some(nodes[i - start]) else Lookup(levels, l, i)
    ensures |PutLevels(levels, level, start, nodes)| == if nodes == [] || level < |levels| then |levels| else level + 1
  {
    if nodes != [] {
      var g := Grown(levels, level + 1);
      assert Stored(g, l) == Stored(levels, l) && Stored(g, level) == Stored(levels, level);
    }
  }

  /** At a level that exists a run is refused exactly when it starts past the end, and then changes nothing. */
  lemma PutAtLevel(levels: Levels, level: nat, start: nat, nodes: seq<Node>)
    requires level < |levels| && nodes != []
    ensures PutAccepted(levels, level, start, nodes) <==> start <= |levels[level]|
    ensures start > |levels[level]| ==> PutLevels(levels, level, start, nodes) == levels
  {
  }

  lemma EmptyRun(levels: Levels, level: nat, start: nat)
    ensures PutAccepted(levels, level, start, [])
    ensures PutLevels(levels, level, start, []) == levels
  {
  }

  /** The level a `put` writes, and that it writes no other. */
  lemma StoredAfterPut(levels: Levels, level: nat, start: nat, nodes: seq<Node>)
    requires PutAccepted(levels, level, start, nodes) && nodes != []
    ensures Stored(PutLevels(levels, level, start, nodes), level) == Spliced(Stored(levels, level), start, nodes)
    ensures forall l: nat :: l != level ==> Stored(PutLevels(levels, level, start, nodes), l) == Stored(levels, l)
    ensures |PutLevels(levels, level, start, nodes)| == if |levels| <= level then level + 1 else |levels|
  {
    assert Stored(Grown(levels, level + 1), level) == Stored(levels, level);
  }

  /** A `put` first creates the levels it needs, so creating them beforehand makes no difference. */
  lemma PutAfterGrown(levels: Levels, level: nat, start: nat, nodes: seq<Node>)
    requires nodes != []
    ensures PutLevels(Grown(levels, level + 1), level, start, nodes) == PutLevels(levels, level, start, nodes)
    ensures PutAccepted(Grown(levels, level + 1), level, start, nodes) == PutAccepted(levels, level, start, nodes)
  {
    assert Grown(Grown(levels, level + 1), level + 1) == Grown(levels, level + 1);
  }
}
