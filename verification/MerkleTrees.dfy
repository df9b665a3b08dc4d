/** The tree: a hasher, a store that keeps every node, the zero nodes, and two scratch buffers. */
module MerkleTrees {
  import opened Words
  import opened Results
  import opened Nodes
  import opened Hashing
  import opened ParallelHashing
  import opened Stores
  import opened AnyStores
  import opened MerkleSpec
  import opened LevelRuns
  import opened AppendRuns
  import opened HashCount
  import opened MerkleProofs

  /** The root of the empty subtree of each height; the highest one has a field of its own. */
  datatype Zeros = Zeros(front: seq<Node>, last: Node) {
    function At(index: nat): Node
      requires index <= |front|
    {
      if index < |front| then front[index] else last
    }

    lemma AllAt(h: Hasher)
      requires forall l :: 0 <= l < |front| ==> front[l] == ZeroNode(h, l)
      requires last == ZeroNode(h, |front|)
      ensures forall l :: 0 <= l <= |front| ==> At(l) == ZeroNode(h, l)
    {
    }

    lemma FromBelow(h: Hasher)
      requires forall l :: 0 <= l <= |front| ==> At(l) == ZeroNode(h, l)
      ensures forall k :: 0 <= k < 32 ==> At(0).bytes[k] == 0
      ensures h.Plain? ==> forall l :: 0 < l <= |front| ==> At(l) == h.combine(At(l - 1), At(l - 1))
      ensures h.Keccak? ==>
                forall l :: 0 < l <= |front| ==> At(l).bytes == h.digest(At(l - 1).bytes + At(l - 1).bytes)
    {
      hide *;
      ZerosFromBelow(h, 0);
      forall l | 0 < l <= |front|
        ensures h.Plain? ==> At(l) == h.combine(At(l - 1), At(l - 1))
        ensures h.Keccak? ==> At(l).bytes == h.digest(At(l - 1).bytes + At(l - 1).bytes)
      {
        ZerosFromBelow(h, l - 1);
      }
    }
  }

  lemma ZeroSteps(h: Hasher, l: nat)
    ensures ZeroNode(h, 0) == ZERO
    ensures ZeroNode(h, l + 1) == h.Hash(ZeroNode(h, l), ZeroNode(h, l))
  {
  }

  type Batch = s: seq<Node> | |s| <= MAX_SLICE

  /** The length the scratch buffers have after a batch of `k` leaves: they only ever grow. */
  function ScratchNeeded(length: nat, k: nat): (needed: nat)
    ensures needed >= length
    ensures k > 0 ==> needed > k / 2
  {
    if k > 0 && length < k / 2 + 1 then k / 2 + 1 else length
  }

  /** The levels below `d` at which the run of `n` leaves starts at an odd index. */
  function OddLevels(n: nat, d: nat): (levels: seq<nat>)
    ensures |levels| <= d
    ensures forall l :: l in levels <==> 0 <= l < d && Shr(n, l) % 2 == 1
  {
    if d == 0 then []
    else if Shr(n, d - 1) % 2 == 1 then OddLevels(n, d - 1) + [d - 1]
    else OddLevels(n, d - 1)
  }

  lemma OddLevelsStep(n: nat, d: nat)
    ensures OddLevels(n, 0) == []
    ensures OddLevels(n, d + 1) == OddLevels(n, d) + if Shr(n, d) % 2 == 1 then [d] else []
  {
  }

  lemma FetchedAsPlanned(levels: Levels, n: nat, d: nat, indices: seq<u64>)
    requires |indices| == |OddLevels(n, d)|
    requires forall k :: 0 <= k < |indices| ==> indices[k] == Shr(n, OddLevels(n, d)[k]) - 1
    ensures forall k :: 0 <= k < |indices| ==>
              OddLevels(n, d)[k] < d && Shr(n, OddLevels(n, d)[k]) >= 1
    ensures forall k :: 0 <= k < |indices| ==>
              Fetched(levels, OddLevels(n, d), indices)[k] == Lookup(levels, OddLevels(n, d)[k], Shr(n, OddLevels(n, d)[k]) - 1)
  {
    hide Lookup, OddLevels, Shr;
    forall k | 0 <= k < |indices|
      ensures OddLevels(n, d)[k] < d && Shr(n, OddLevels(n, d)[k]) >= 1
    {
      assert OddLevels(n, d)[k] in OddLevels(n, d);
    }
  }

  lemma NoneMissing(h: Hasher, d: nat, leaves: seq<Node>)
    ensures NoPartnerMissing(d, TreeLevels(h, d, leaves), |leaves|)
  {
    hide TreeLevels, Lookup, Shr, NodeAt;
    PartnersAreStored(h, d, leaves);
  }

  /** The levels read for a proof of height `d`, and the index of the sibling read at each. */
  function SiblingLevels(d: nat): (levels: seq<nat>)
    ensures |levels| == d
  {
    seq(d, j => j)
  }

  function SiblingIndices(index: nat, d: nat): (indices: seq<nat>)
    ensures |indices| == d
  {
    seq(d, j requires 0 <= j < d => Xor(Shr(index, j), 1))
  }

  lemma SiblingsStep(index: nat, d: nat)
    ensures SiblingIndices(index, 0) == []
    ensures SiblingIndices(index, d + 1) == SiblingIndices(index, d) + [Xor(Shr(index, d), 1)]
  {
    hide Xor, Shr;
  }

  /** The sibling of a word is a word. */
  lemma XorOneFits(x: u64)
    ensures 0 <= Xor(x, 1) < TWO_TO_THE_64
  {
    XorOne(x);
  }

  lemma SiblingFetched(h: Hasher, d: nat, levels: Levels, index: nat, j: nat)
    requires j < d
    ensures Fetched(levels, SiblingLevels(d) + [0], SiblingIndices(index, d) + [index])[j].UnwrapOr(ZeroNode(h, j))
         == SiblingOf(h, levels, index, j)
  {
  }

  /** Slot `l` holds the node left of the run of level `l`, the zero node where there is none. */
  ghost predicate PartnersOf(h: Hasher, d: nat, levels: Levels, n: nat, partners: seq<Node>) {
    |partners| == d && forall l :: 0 <= l < d ==> partners[l] == LeftPartner(h, levels, l, Shr(n, l))
  }

  /** No partner that is needed is missing, so none is ever replaced by a zero node. */
  ghost predicate NoPartnerMissing(d: nat, levels: Levels, n: nat) {
    forall l :: 0 <= l < d && Shr(n, l) % 2 == 1 ==> Lookup(levels, l, Shr(n, l) - 1).Some?
  }

  class MerkleTree {
    const depth: nat
    const hasher: Hasher
    const store: Store
    const zeros: Zeros
    var run: array<Node>
    var parents: array<Node>

    ghost predicate Wired()
      reads this
    {
      && 1 <= depth <= MAX_DEPTH
      && |zeros.front| == depth
      && (forall l :: 0 <= l <= depth ==> zeros.At(l) == ZeroNode(hasher, l))
      && run != parents && run.Length == parents.Length
      && {this, run, parents} !! store.Repr()
    }

    /** The leaves added so far. */
    ghost function Leaves(): seq<Node>
      requires store.Valid()
      reads store.Repr()
    {
      Stored(store.View(), 0)
    }

    /** The store holds the tree over its leaves, and they fit. */
    ghost predicate Valid()
      reads this, store.Repr()
      ensures Valid() ==> store.Valid()
    {
      && Wired()
      && store.Valid()
      && |Leaves()| <= Pow2(depth)
      && store.View() == TreeLevels(hasher, depth, Leaves())
    }

    constructor (hasher: Hasher, store: Store, depth: nat)
      requires 1 <= depth <= MAX_DEPTH
      requires store.Valid()
      ensures Wired() && fresh(run) && fresh(parents) && run.Length == 0
      ensures this.depth == depth && this.hasher == hasher && this.store == store
    {
      var zeros := ComputeZeros(hasher, depth);
      this.depth := depth;
      this.hasher := hasher;
      this.store := store;
      this.zeros := zeros;
      this.run := new Node[0];
      this.parents := new Node[0];
    }

    /** Hashes each zero node with itself to get the next. */
    static method ComputeZeros(hasher: Hasher, depth: nat) returns (zeros: Zeros)
      requires 1 <= depth
      ensures |zeros.front| == depth
      ensures forall l :: 0 <= l <= depth ==> zeros.At(l) == ZeroNode(hasher, l)
      ensures forall k :: 0 <= k < 32 ==> zeros.At(0).bytes[k] == 0
      ensures hasher.Plain? ==> forall l :: 0 < l <= depth ==> zeros.At(l) == hasher.combine(zeros.At(l - 1), zeros.At(l - 1))
      ensures hasher.Keccak? ==>
                forall l :: 0 < l <= depth ==>
                  zeros.At(l).bytes == hasher.digest(zeros.At(l - 1).bytes + zeros.At(l - 1).bytes)
    {
      hide *;
      var zero := new Node[depth](_ => ZERO);
      ZeroSteps(hasher, 0);
      for i := 1 to depth
        invariant forall l :: 0 <= l < i ==> zero[l] == ZeroNode(hasher, l)
      {
        ZeroSteps(hasher, i - 1);
        var node, _ := hasher.HashOne(zero[i - 1], zero[i - 1]);
        zero[i] := node;
      }
      ZeroSteps(hasher, depth - 1);
      var last, _ := hasher.HashOne(zero[depth - 1], zero[depth - 1]);
      zeros := Zeros(zero[..], last);
      zeros.AllAt(hasher);
      zeros.FromBelow(hasher);
    }

    /** Packs the odd run starts into level and index arrays. */
    method PlanFetch(n: u64) returns (fetchLevels: array<u32>, fetchIndices: array<u64>, fetchLen: nat)
      requires Wired()
      ensures fetchLen == |OddLevels(n, depth)|
      ensures fetchLen <= fetchLevels.Length && fetchLen <= fetchIndices.Length
      ensures fetchLevels[..fetchLen] == OddLevels(n, depth)
      ensures forall k :: 0 <= k < fetchLen ==> fetchIndices[k] == Shr(n, fetchLevels[k]) - 1
    {
      hide OddLevels, Shr, And, ZeroNode;
      fetchLevels := new u32[depth](_ => 0);
      fetchIndices := new u64[depth](_ => 0);
      fetchLen := 0;
      OddLevelsStep(n, 0);
      for level := 0 to depth
        invariant fetchLen == |OddLevels(n, level)|
        invariant fetchLevels[..fetchLen] == OddLevels(n, level)
        invariant forall k :: 0 <= k < fetchLen ==> fetchIndices[k] == Shr(n, fetchLevels[k]) - 1
      {
        var start: u64 := Shr(n, level);
        AndOne(start);
        OddLevelsStep(n, level);
        if And(start, 1) == 1 {
          fetchLevels[fetchLen] := level;
          fetchIndices[fetchLen] := start - 1;
          fetchLen := fetchLen + 1;
        }
      }
    }

    /** Reads the stored partner of every run start that is odd, in one call. */
    method FetchLeftPartners(n: u64) returns (leftPartners: array<Node>)
      requires Valid() && n == |Leaves()|
      ensures fresh(leftPartners)
      ensures PartnersOf(hasher, depth, store.View(), n, leftPartners[..])
      ensures NoPartnerMissing(depth, store.View(), n)
    {
      hide Store.Valid, Store.View;
      hide TreeLevels, LeftPartner, ZeroNode, Zeros.At, OddLevels, Lookup, Shr, Fetched, PartnersOf, NoPartnerMissing;
      ghost var levels := store.View();
      NoneMissing(hasher, depth, Leaves());
      var fetchLevels, fetchIndices, fetchLen := PlanFetch(n);
      var got := store.Get(fetchLevels[..fetchLen], fetchIndices[..fetchLen]);
      FetchedAsPlanned(levels, n, depth, fetchIndices[..fetchLen]);
      leftPartners := Scatter(n, levels, fetchLevels[..fetchLen], got.value);
    }

    /** Puts each fetched node in the slot of its level; the other slots keep their zero. */
    method Scatter(n: u64, ghost levels: Levels, fetchLevels: seq<u32>, fetched: seq<Option<Node>>)
      returns (leftPartners: array<Node>)
      requires Wired() && fetchLevels == OddLevels(n, depth) && |fetched| == |fetchLevels|
      requires forall k :: 0 <= k < |fetched| ==>
                 fetched[k] == Lookup(levels, fetchLevels[k], Shr(n, fetchLevels[k]) - 1)
      ensures fresh(leftPartners)
      ensures PartnersOf(hasher, depth, levels, n, leftPartners[..])
    {
      hide LeftPartner, Lookup, ZeroNode, Zeros.At, Shr, OddLevels;
      leftPartners := new Node[depth](_ => ZERO);
      for k := 0 to |fetchLevels|
        invariant forall l :: 0 <= l < depth ==>
                    leftPartners[l] == if l in fetchLevels[..k] then LeftPartner(hasher, levels, l, Shr(n, l)) else ZERO
      {
        var level := fetchLevels[k];
        PartnerIsLookup(hasher, levels, level, Shr(n, level));
        leftPartners[level] := fetched[k].UnwrapOr(zeros.At(level));
        assert fetchLevels[..k + 1] == fetchLevels[..k] + [level];
      }
      assert fetchLevels[..|fetchLevels|] == fetchLevels;
      forall l | 0 <= l < depth && l !in fetchLevels
        ensures LeftPartner(hasher, levels, l, Shr(n, l)) == ZERO
      {
        PartnerIsLookup(hasher, levels, l, Shr(n, l));
      }
    }

    /** Makes both scratch buffers hold at least `size` nodes; one that is long enough stays as it is. */
    method GrowScratch(size: nat)
      requires Wired()
      modifies this`run, this`parents
      ensures Wired()
      ensures run.Length == if old(run.Length) < size then size else old(run.Length)
      ensures run[..old(run.Length)] == old(run[..]) && parents[..old(parents.Length)] == old(parents[..])
      ensures old(run.Length) >= size ==> run == old(run) && parents == old(parents)
      ensures fresh({run, parents} - old({run, parents}))
    {
      run := Grow(run, size);
      parents := Grow(parents, size);
    }

    static method Grow(buf: array<Node>, size: nat) returns (grown: array<Node>)
      ensures grown.Length == if buf.Length < size then size else buf.Length
      ensures grown[..buf.Length] == buf[..]
      ensures forall i :: buf.Length <= i < grown.Length ==> grown[i] == ZERO
      ensures if buf.Length >= size then grown == buf else fresh(grown)
    {
      grown := buf;
      if buf.Length < size {
        grown := new Node[size](_ => ZERO);
        for i := 0 to buf.Length
          invariant forall j :: 0 <= j < i ==> grown[j] == buf[j]
          invariant forall j :: i <= j < size ==> grown[j] == ZERO
        {
          grown[i] := buf[i];
        }
      }
    }

    /** Hashes the run of one level into the first slots of `out`: head, tail, then the pairs between. */
    method HashLevel(nodes: seq<Node>, left: Node, zero: Node, start: u64, out: array<Node>)
      returns (count: nat, ghost hashes: nat)
      requires nodes != []
      requires ParentCount(start, |nodes|) <= out.Length
      modifies out
      ensures hashes == count == ParentCount(start, |nodes|)
      ensures out[..count] == ParentRun(hasher, left, zero, start, nodes)
    {
      hide *;
      AndOne(start);
      var head := if And(start, 1) == 1 then 1 else 0;
      var pairs, tail := PairsOf(nodes[head..]), TailOf(nodes[head..]);
      PartsAreParents(hasher, left, zero, start, nodes);
      PartLengths(start, nodes);
      count := head + |pairs| + |tail|;
      hashes := 0;
      if head == 1 {
        var parent, one := hasher.HashOne(left, nodes[0]);
        out[0] := parent;
        hashes := hashes + one;
      }
      if |tail| == 1 {
        var parent, one := hasher.HashOne(tail[0], zero);
        out[head + |pairs|] := parent;
        hashes := hashes + one;
      }
      ghost var n := HashBody(pairs, out, head);
      hashes := hashes + n;
      assert out[head..head + |pairs|] == hasher.HashAll(pairs);
    }

    /** Large levels are hashed by parallel chunk jobs, small ones in line. */
    method HashBody(pairs: seq<Pair>, out: array<Node>, lo: nat) returns (ghost hashes: nat)
      requires lo + |pairs| <= out.Length
      modifies out
      ensures forall k :: lo <= k < lo + |pairs| ==> out[k] == hasher.HashAll(pairs)[k - lo]
      ensures forall k :: 0 <= k < lo || lo + |pairs| <= k < out.Length ==> out[k] == old(out[k])
      ensures hashes == |pairs|
    {
      if |pairs| >= MIN_PARALLEL_HASHES {
        hashes := ParHashPairs(hasher, pairs, out, lo);
      } else {
        hashes := hasher.HashPairs(pairs, out, lo);
      }
    }

    /**
     Appends a batch.  It fails only when the batch does not fit, and then changes nothing;
     otherwise the store holds the tree over the old leaves followed by the batch.
     */
    method AddLeaves(leaves: Batch) returns (r: Result<(), MerkleError>, ghost hashes: nat)
      requires Valid()
      modifies this`run, this`parents, run, parents, store.Repr()
      ensures Valid() && fresh({run, parents} - old({run, parents}))
      ensures r == if old(|Leaves()|) + |leaves| <= Pow2(depth) then Ok(()) else Err(TreeFull(depth, ShlOne(depth)))
      ensures r.Ok? ==> Leaves() == old(Leaves()) + leaves
      ensures r.Ok? ==> store.View() == Append(hasher, depth, old(store.View()), leaves)
      ensures r.Err? ==> store.View() == old(store.View())
      ensures r.Err? ==> run == old(run) && parents == old(parents) && run[..] == old(run[..]) && parents[..] == old(parents[..])
      ensures hashes == if r.Ok? && leaves != [] then HashesOf(old(|Leaves()|), |leaves|, depth) else 0
      ensures run.Length == ScratchNeeded(old(run.Length), if r.Ok? then |leaves| else 0)
      ensures run.Length == old(run.Length) ==> {run, parents} == old({run, parents})
    {
      hide Store.Valid, Store.View;
      hide WrittenUpTo, LeftPartner, TreeLevels, Append, PutLevels, HashesOf, Shr, Pow2, LevelNodes;
      hashes := 0;
      if leaves == [] {
        assert Leaves() + leaves == Leaves();
        AppendIsTree(hasher, depth, Leaves(), leaves);
        return Ok(()), 0;
      }
      ghost var before := Leaves();
      CapacityFits(depth);
      var n: u64 := store.GetNumLeaves();
      var total: u64 := n + |leaves|;
      if total > ShlOne(depth) {
        return Err(TreeFull(depth, ShlOne(depth))), 0;
      }
      var leftPartners := FetchLeftPartners(n);
      LeavesWritten(hasher, depth, before, leaves);
      assert PutAccepted(store.View(), 0, n, leaves);
      var put := store.Put(0, n, leaves);
      assert put == Ok(());
      GrowScratch(|leaves| / 2 + 1);
      hashes := CarryAll(leaves, n, leftPartners, before);
      AllLevelsWritten(hasher, depth, before, leaves, store.View());
      AppendIsTree(hasher, depth, before, leaves);
      StoredInTree(hasher, depth, before + leaves, 0);
      LeavesOfLevel(hasher, before + leaves);
      r := Ok(());
    }

    /** Carries the run from the leaves to the root, one level at a time. */
    method CarryAll(leaves: Batch, n: u64, leftPartners: array<Node>, ghost before: seq<Node>) returns (ghost hashes: nat)
      requires Wired() && store.Valid() && leaves != [] && n == |before|
      requires WrittenUpTo(hasher, depth, before, leaves, store.View(), 0)
      requires leftPartners !in {run, parents}
      requires PartnersOf(hasher, depth, TreeLevels(hasher, depth, before), n, leftPartners[..])
      requires run.Length > |leaves| / 2 && parents.Length > |leaves| / 2
      modifies this`run, this`parents, run, parents, store.Repr()
      ensures Wired() && store.Valid()
      ensures {run, parents} == old({run, parents})
      ensures WrittenUpTo(hasher, depth, before, leaves, store.View(), depth)
      ensures hashes == HashesOf(n, |leaves|, depth)
    {
      hide Store.Valid, Store.View;
      hide WrittenUpTo, LeftPartner, TreeLevels, RunOf, Shr, RunLength;
      hashes := 0;
      var start, runLen: nat := n, |leaves|;
      ShrByZero(n);
      for level := 0 to depth
        invariant Wired() && store.Valid()
        invariant {run, parents} == old({run, parents})
        invariant WrittenUpTo(hasher, depth, before, leaves, store.View(), level)
        invariant start == Shr(n, level)
        invariant level == 0 ==> runLen == |leaves|
        invariant level > 0 ==> runLen <= run.Length && run[..runLen] == RunOf(hasher, before, leaves, level)
        invariant run.Length > |leaves| / 2 && parents.Length > |leaves| / 2
        invariant hashes == HashesOf(n, |leaves|, level)
      {
        ghost var spent;
        runLen, spent := CarryLevel(level, leaves, runLen, leftPartners[level], start, before);
        ShrStep(n, level);
        ShrOne(start);
        start := Shr(start, 1);
        hashes := hashes + spent;
      }
    }

    /** Hashes the run of one level, stores the parents as the next level's run, and swaps the buffers. */
    method CarryLevel(level: nat, leaves: Batch, runLen: nat, left: Node, start: u64, ghost before: seq<Node>)
      returns (nextLen: nat, ghost hashes: nat)
      requires Wired() && store.Valid() && level < depth && leaves != []
      requires WrittenUpTo(hasher, depth, before, leaves, store.View(), level)
      requires start == Shr(|before|, level)
      requires left == LeftPartner(hasher, TreeLevels(hasher, depth, before), level, start)
      requires level == 0 ==> runLen == |leaves|
      requires level > 0 ==> runLen <= run.Length && run[..runLen] == RunOf(hasher, before, leaves, level)
      requires parents.Length > |leaves| / 2
      modifies this`run, this`parents, parents, store.Repr()
      ensures Wired() && store.Valid()
      ensures run == old(parents) && parents == old(run)
      ensures WrittenUpTo(hasher, depth, before, leaves, store.View(), level + 1)
      ensures nextLen <= run.Length && run[..nextLen] == RunOf(hasher, before, leaves, level + 1)
      ensures hashes == RunLength(|before|, |leaves|, level + 1)
    {
      hide Store.Valid, Store.View;
      hide WrittenUpTo, LeftPartner, TreeLevels, RunOf, Shr, ParentRun, ParentCount, ZeroNode, PutLevels, PutAccepted;
      var nodes := if level == 0 then leaves else run[..runLen];
      CarryFacts(hasher, depth, before, leaves, store.View(), level);
      ScratchSuffices(|before|, |leaves|, level);
      assert ParentCount(start, |nodes|) == RunLength(|before|, |leaves|, level + 1);
      nextLen, hashes := HashLevel(nodes, left, zeros.At(level), start, parents);
      ShrOne(start);
      var put := store.Put(level + 1, Shr(start, 1), parents[..nextLen]);
      assert put == Ok(());
      run, parents := parents, run;
    }

    method NumLeaves() returns (n: nat)
      requires Valid()
      ensures n == |Leaves()|
    {
      n := store.GetNumLeaves();
    }

    method Root() returns (r: Result<Node, MerkleError>)
      requires Valid()
      ensures r == Ok(RootOf(hasher, depth, store.View()))
      ensures r == Ok(NodeAt(hasher, Leaves(), depth, 0))
      ensures var left, right := NodeAt(hasher, Leaves(), depth - 1, 0), NodeAt(hasher, Leaves(), depth - 1, 1);
              match hasher
              case Plain(combine) => r.value == combine(left, right)
              case Keccak(digest) => r.value.bytes == digest(left.bytes + right.bytes)
    {
      hide Store.Valid, Store.View;
      hide TreeLevels, NodeAt, ZeroNode, Lookup;
      NodesFromBelow(hasher, Leaves(), depth - 1, 0);
      var fetched := store.Get([depth], [0]);
      assert fetched.Ok? && |fetched.value| == 1;
      RootIsNode(hasher, depth, Leaves());
      r := Ok(fetched.value[0].UnwrapOr(zeros.At(depth)));
    }

    /** The proof of any index up to `2^depth`, whether its leaf is there or not. */
    method Proof(leafIdx: u64) returns (r: Result<MerkleProof, MerkleError>)
      requires Valid()
      ensures r == if leafIdx > ShlOne(depth) then Err(LeafIndexOutOfBounds(leafIdx, ShlOne(depth)))
                   else Ok(ProofOf(hasher, depth, store.View(), leafIdx))
      ensures leafIdx < Pow2(depth) ==>
                && r.Ok? && Accepts(hasher, r.value)
                && r.value.leaf == (if leafIdx < |Leaves()| then Leaves()[leafIdx] else ZERO)
                && r.value.root == NodeAt(hasher, Leaves(), depth, 0)
      ensures r.Ok? ==> ProofHolds(hasher, depth, Leaves(), leafIdx, r.value)
    {
      hide Store.Valid, Store.View;
      hide TreeLevels, NodeAt, ZeroNode, Lookup, Accepts, Pow2, Shr, SiblingOf, RootOf, ProofHolds, Fetched;
      if leafIdx > ShlOne(depth) {
        return Err(LeafIndexOutOfBounds(leafIdx, ShlOne(depth)));
      }
      ProofOfHolds(hasher, depth, Leaves(), leafIdx);
      if leafIdx < Pow2(depth) {
        ProofsAreAccepted(hasher, depth, Leaves(), leafIdx);
      }
      var levels, indices := PlanProof(leafIdx);
      var fetched := store.Get(levels, indices);
      assert fetched == Ok(Fetched(store.View(), levels, indices));
      var proof := SiblingsIn(leafIdx, store.View(), fetched.value);
      assert proof == ProofOf(hasher, depth, store.View(), leafIdx).proof;
      var leafHash := fetched.value[depth].UnwrapOr(zeros.At(0));
      var root := Root();
      r := Ok(MerkleProof(proof, leafHash, leafIdx, root.value));
    }

    /** The siblings, first in the list of what was fetched; a zero node for each that is absent. */
    method SiblingsIn(leafIdx: u64, ghost levels: Levels, fetched: seq<Option<Node>>) returns (proof: seq<Node>)
      requires Wired()
      requires fetched == Fetched(levels, SiblingLevels(depth) + [0], SiblingIndices(leafIdx, depth) + [leafIdx])
      ensures |proof| == depth
      ensures forall i :: 0 <= i < depth ==> proof[i] == SiblingOf(hasher, levels, leafIdx, i)
    {
      hide ZeroNode, SiblingOf, Fetched;
      proof := [];
      for j := 0 to depth
        invariant |proof| == j
        invariant forall i :: 0 <= i < j ==> proof[i] == SiblingOf(hasher, levels, leafIdx, i)
      {
        SiblingFetched(hasher, depth, levels, leafIdx, j);
        proof := proof + [fetched[j].UnwrapOr(zeros.At(j))];
      }
    }

    /** The level and index of every sibling on the path, and of the leaf. */
    method PlanProof(leafIdx: u64) returns (levels: seq<u32>, indices: seq<u64>)
      requires depth <= MAX_DEPTH
      ensures |levels| == |indices| == depth + 1
      ensures levels == SiblingLevels(depth) + [0]
      ensures indices == SiblingIndices(leafIdx, depth) + [leafIdx]
    {
      levels, indices := [], [];
      var idx: u64 := leafIdx;
      hide Xor, Shr, SiblingIndices;
      ShrByZero(leafIdx);
      SiblingsStep(leafIdx, 0);
      for level := 0 to depth
        invariant idx == Shr(leafIdx, level)
        invariant levels == SiblingLevels(level)
        invariant indices == SiblingIndices(leafIdx, level)
      {
        XorOneFits(idx);
        var sibling: u64 := Xor(idx, 1);
        levels := levels + [level];
        indices := indices + [sibling];
        SiblingsStep(leafIdx, level);
        ShrStep(leafIdx, level);
        ShrOne(idx);
        idx := Shr(idx, 1);
      }
      levels := levels + [0];
      indices := indices + [leafIdx];
    }

    method VerifyProof(proof: MerkleProof) returns (r: Result<bool, MerkleError>)
      requires Wired() && |proof.proof| == depth
      ensures r == Ok(Accepts(hasher, proof))
      ensures r == Ok(PathRoot(hasher, proof.leaf, proof.proof, proof.index) == proof.root)
    {
      AcceptsIsPathRoot(hasher, proof);
      var computed := proof.leaf;
      for j := 0 to depth
        invariant computed == Fold(hasher, proof.leaf, proof.proof, proof.index, j)
      {
        var sibling := proof.proof[j];
        var left, right;
        if And(proof.index, ShlOne(j)) == 0 {
          left, right := computed, sibling;
        } else {
          left, right := sibling, computed;
        }
        var parent, _ := hasher.HashOne(left, right);
        computed := parent;
      }
      r := Ok(computed == proof.root);
    }
  }
}
