/**
 The hasher: one hash of a pair of nodes, and the batched `hash_pairs`.

 Nothing is assumed of the hash but that it is a function of its two inputs.
 */
module Hashing {
  import opened Words
  import opened Nodes

  type Pair = (Node, Node)

  /** The biggest batch handed to the library's batch digest. */
  const STAGE := 8

  /**
   `Plain` is any hasher that keeps the default `hash_pairs` (Poseidon is one);
   `Keccak` is the hasher that stages batches, over the library's digest.
   */
  datatype Hasher = Plain(combine: (Node, Node) -> Node) | Keccak(digest: seq<u8> -> Bytes32) {

    function Hash(left: Node, right: Node): Node {
      match this
      case Plain(combine) => combine(left, right)
      case Keccak(digest) => Node(digest(left.bytes + right.bytes))
    }

    /** The hashes of a run of pairs: what `hash_pairs` must write. */
    function HashAll(pairs: seq<Pair>): (s: seq<Node>)
      ensures |s| == |pairs|
    {
      seq(|pairs|, i requires 0 <= i < |pairs| => Hash(pairs[i].0, pairs[i].1))
    }

    /** `hash` of the Keccak hasher, which copies both nodes into one message. */
    method HashMessage(left: Node, right: Node) returns (r: Node)
      requires Keccak?
      ensures r == Hash(left, right)
      ensures r.bytes == digest(left.bytes + right.bytes)
    {
      var message := new u8[2 * LEN](_ => 0);
      forall k | 0 <= k < LEN {
        message[k] := left.bytes[k];
      }
      forall k | LEN <= k < 2 * LEN {
        message[k] := right.bytes[k - LEN];
      }
      assert message[..] == left.bytes + right.bytes;
      r := Node(digest(message[..]));
    }

    /** One hash, by whichever body the hasher has; it reports itself to the count. */
    method HashOne(left: Node, right: Node) returns (r: Node, ghost hashes: nat)
      ensures r == Hash(left, right)
      ensures Plain? ==> r == combine(left, right)
      ensures Keccak? ==> r.bytes == digest(left.bytes + right.bytes)
      ensures hashes == 1
    {
      hashes := 1;
      if Keccak? {
        r := HashMessage(left, right);
      } else {
        r := Hash(left, right);
      }
    }

    /** Hashes `pairs[i]` into the slice of `out` that starts at `lo`, and counts the hashes. */
    method HashPairs(pairs: seq<Pair>, out: array<Node>, lo: nat) returns (ghost hashes: nat)
      requires lo + |pairs| <= out.Length
      modifies out
      ensures forall k :: lo <= k < lo + |pairs| ==> out[k] == HashAll(pairs)[k - lo]
      ensures forall k :: 0 <= k < lo || lo + |pairs| <= k < out.Length ==> out[k] == old(out[k])
      ensures Plain? ==> forall k :: 0 <= k < |pairs| ==> out[lo + k] == combine(pairs[k].0, pairs[k].1)
      ensures Keccak? ==>
                forall k :: 0 <= k < |pairs| ==> out[lo + k].bytes == digest(pairs[k].0.bytes + pairs[k].1.bytes)
      ensures hashes == |pairs|
    {
      if Plain? {
        hashes := HashPairsOneByOne(pairs, out, lo);
      } else {
        hashes := HashPairsStaged(pairs, out, lo);
      }
    }

    /** The default body: one hash for each pair. */
    method HashPairsOneByOne(pairs: seq<Pair>, out: array<Node>, lo: nat) returns (ghost hashes: nat)
      requires lo + |pairs| <= out.Length
      modifies out
      ensures forall k :: lo <= k < lo + |pairs| ==> out[k] == HashAll(pairs)[k - lo]
      ensures forall k :: 0 <= k < lo || lo + |pairs| <= k < out.Length ==> out[k] == old(out[k])
      ensures Plain? ==> forall k :: 0 <= k < |pairs| ==> out[lo + k] == combine(pairs[k].0, pairs[k].1)
      ensures Keccak? ==>
                forall k :: 0 <= k < |pairs| ==> out[lo + k].bytes == digest(pairs[k].0.bytes + pairs[k].1.bytes)
      ensures hashes == |pairs|
    {
      hashes := 0;
      for i := 0 to |pairs|
        invariant forall k :: lo <= k < lo + i ==> out[k] == HashAll(pairs)[k - lo]
        invariant forall k :: 0 <= k < lo || lo + i <= k < out.Length ==> out[k] == old(out[k])
        invariant hashes == i
      {
        var parent, one := HashOne(pairs[i].0, pairs[i].1);
        out[lo + i] := parent;
        hashes := hashes + one;
      }
    }

    /** The Keccak body: groups of eight go through two fixed-size staging buffers. */
    method HashPairsStaged(pairs: seq<Pair>, out: array<Node>, lo: nat) returns (ghost hashes: nat)
      requires Keccak?
      requires lo + |pairs| <= out.Length
      modifies out
      ensures forall k :: lo <= k < lo + |pairs| ==> out[k] == HashAll(pairs)[k - lo]
      ensures forall k :: 0 <= k < lo || lo + |pairs| <= k < out.Length ==> out[k] == old(out[k])
      ensures forall k :: 0 <= k < |pairs| ==> out[lo + k].bytes == digest(pairs[k].0.bytes + pairs[k].1.bytes)
      ensures hashes == |pairs|
    {
      hashes := 0;
      var g := 0;
      while g < |pairs|
        invariant 0 <= g <= |pairs|
        invariant forall k :: lo <= k < lo + g ==> out[k] == HashAll(pairs)[k - lo]
        invariant forall k :: 0 <= k < lo || lo + g <= k < out.Length ==> out[k] == old(out[k])
        invariant hashes == g
      {
        var next := if g + STAGE <= |pairs| then g + STAGE else |pairs|;
        var n := HashGroup(pairs[g..next], out, lo + g);
        HashAllSlice(pairs, g, next);
        hashes := hashes + n;
        g := next;
      }
    }

    lemma HashAllSlice(pairs: seq<Pair>, a: nat, b: nat)
      requires a <= b <= |pairs|
      ensures HashAll(pairs[a..b]) == HashAll(pairs)[a..b]
    {
    }

    method HashGroup(group: seq<Pair>, out: array<Node>, at: nat) returns (ghost hashes: nat)
      requires Keccak?
      requires |group| <= STAGE && at + |group| <= out.Length
      modifies out
      ensures forall k :: at <= k < at + |group| ==> out[k] == HashAll(group)[k - at]
      ensures forall k :: 0 <= k < at || at + |group| <= k < out.Length ==> out[k] == old(out[k])
      ensures hashes == |group|
    {
      var staged := Stage(group);
      var digests := new Bytes32[STAGE];
      hashes := DigestMany(staged, digests, |group|);
      CopyDigests(digests, out, at, |group|);
    }

    method CopyDigests(digests: array<Bytes32>, out: array<Node>, at: nat, n: nat)
      requires n <= digests.Length && at + n <= out.Length
      modifies out
      ensures forall k :: at <= k < at + n ==> out[k] == Node(digests[k - at])
      ensures forall k :: 0 <= k < at || at + n <= k < out.Length ==> out[k] == old(out[k])
    {
      for done := 0 to n
        invariant forall k :: at <= k < at + done ==> out[k] == Node(digests[k - at])
        invariant forall k :: 0 <= k < at || at + done <= k < out.Length ==> out[k] == old(out[k])
      {
        out[at + done] := Node(digests[done]);
      }
    }

    /** Fills the eight staging slots with the messages of a group; unused slots stay empty. */
    method Stage(group: seq<Pair>) returns (staged: array<seq<u8>>)
      requires |group| <= STAGE
      ensures fresh(staged) && staged.Length == STAGE
      ensures forall k :: 0 <= k < |group| ==> staged[k] == group[k].0.bytes + group[k].1.bytes
    {
      staged := new seq<u8>[STAGE](_ => []);
      for i := 0 to |group|
        invariant forall k :: 0 <= k < i ==> staged[k] == group[k].0.bytes + group[k].1.bytes
      {
        AsBytesOfPair(group[i].0, group[i].1);
        staged[i] := AsBytes([group[i].0, group[i].1]);
      }
    }

    /** The library's batch digest, taken to be the digest of each message. */
    method DigestMany(messages: array<seq<u8>>, digests: array<Bytes32>, n: nat) returns (ghost count: nat)
      requires Keccak?
      requires n <= messages.Length && n <= digests.Length
      modifies digests
      ensures forall k :: 0 <= k < n ==> digests[k] == digest(messages[k])
      ensures count == n
    {
      count := 0;
      for i := 0 to n
        invariant forall k :: 0 <= k < i ==> digests[k] == digest(messages[k])
        invariant count == i
      {
        digests[i] := digest(messages[i]);
        count := count + 1;
      }
    }
  }
}
