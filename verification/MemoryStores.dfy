/** The in-memory store: one growable vector of nodes for each level. */
module MemoryStores {
  import opened Words
  import opened Results
  import opened Nodes
  import opened Stores

  class MemoryStore {
    var levels: Levels

    constructor ()
      ensures levels == []
    {
      levels := [];
    }

    method Get(lv: seq<u32>, ix: seq<u64>) returns (r: Result<seq<Option<Node>>, MerkleError>)
      ensures r == GetResult(levels, lv, ix)
      ensures |lv| != |ix| ==> r == Err(LengthMismatch(|lv|, |ix|))
      ensures |lv| == |ix| ==> r.Ok? && |r.value| == |lv|
      ensures |lv| == |ix| ==>
                forall k :: 0 <= k < |lv| ==>
                  r.value[k] == if lv[k] < |levels| && ix[k] < |levels[lv[k]]| then Some(levels[lv[k]][ix[k]]) else None
    {
      if |lv| != |ix| {
        return Err(LengthMismatch(|lv|, |ix|));
      }
      var found: seq<Option<Node>> := [];
      for k := 0 to |lv|
        invariant found == Fetched(levels, lv, ix)[..k]
      {
        var node := None;
        if lv[k] < |levels| {
          var nodes := levels[lv[k]];
          if ix[k] < |nodes| {
            node := Some(nodes[ix[k]]);
          }
        }
        found := found + [node];
      }
      assert found == Fetched(levels, lv, ix);
      r := Ok(found);
    }

    method Put(level: u32, start: u64, nodes: seq<Node>) returns (r: Result<(), MerkleError>)
      modifies this
      ensures levels == PutLevels(old(levels), level, start, nodes)
      ensures r == if PutAccepted(old(levels), level, start, nodes) then Ok(()) else Err(StoreError)
      ensures r == if nodes == [] || start <= (if level < |old(levels)| then |old(levels)[level]| else 0)
                   then Ok(()) else Err(StoreError)
    {
      if nodes == [] {
        return Ok(());
      }
      if |levels| <= level {
        levels := Grown(levels, level + 1);
      }
      var stored := levels[level];
      if start > |stored| {
        return Err(StoreError);
      }
      var overwritten := if |stored| - start < |nodes| then |stored| - start else |nodes|;
      stored := stored[..start] + nodes[..overwritten] + stored[start + overwritten..];
      stored := stored + nodes[overwritten..];
      levels := levels[level := stored];
      assert stored == Spliced(Grown(old(levels), level + 1)[level], start, nodes);
      r := Ok(());
    }

    method GetNumLeaves() returns (n: nat)
      ensures n == NumLeaves(levels)
    {
      n := if levels == [] then 0 else |levels[0]|;
    }
  }
}
