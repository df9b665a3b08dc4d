/**
 Whole runs of a tree: any sequence of batches, accepted or refused, with the store
 closed and reopened anywhere in between.
 */
module Histories {
  import opened Words
  import opened Results
  import opened Nodes
  import opened Hashing
  import opened Stores
  import opened Files
  import opened MemoryStores
  import opened FileStores
  import opened AnyStores
  import opened MerkleSpec
  import opened AppendRuns
  import opened MerkleProofs
  import opened MerkleTrees

  datatype Event = Add(batch: Batch) | Reopen

  /** What one event does to the stored levels: a batch that does not fit is refused whole. */
  function Next(h: Hasher, d: nat, levels: Levels, event: Event): Levels {
    match event
    case Add(batch) => if NumLeaves(levels) + |batch| <= Pow2(d) then Append(h, d, levels, batch) else levels
    case Reopen => levels
  }

  function After(h: Hasher, d: nat, levels: Levels, events: seq<Event>): Levels {
    if events == [] then levels
    else Next(h, d, After(h, d, levels, events[..|events| - 1]), events[|events| - 1])
  }

  /** The leaves that are in: those of the batches that fitted when they came. */
  function Kept(d: nat, leaves: seq<Node>, events: seq<Event>): seq<Node> {
    if events == [] then leaves
    else
      var before := Kept(d, leaves, events[..|events| - 1]);
      match events[|events| - 1]
      case Add(batch) => if |before| + |batch| <= Pow2(d) then before + batch else before
      case Reopen => before
  }

  /** All leaves ever offered, in order. */
  function Offered(events: seq<Event>): seq<Node> {
    if events == [] then []
    else Offered(events[..|events| - 1]) +
         match events[|events| - 1] case Add(batch) => batch case Reopen => []
  }

  /** Every history leads from a tree to the tree over the leaves that were kept, and they fit. */
  lemma {:induction false} HistoryIsTree(h: Hasher, d: nat, leaves: seq<Node>, events: seq<Event>)
    requires |leaves| <= Pow2(d)
    ensures |Kept(d, leaves, events)| <= Pow2(d)
    ensures After(h, d, TreeLevels(h, d, leaves), events) == TreeLevels(h, d, Kept(d, leaves, events))
  {
    if events != [] {
      var earlier := events[..|events| - 1];
      HistoryIsTree(h, d, leaves, earlier);
      NextIsTree(h, d, Kept(d, leaves, earlier), events[|events| - 1]);
      hide TreeLevels, Append, NumLeaves, Pow2;
    }
  }

  lemma NextIsTree(h: Hasher, d: nat, leaves: seq<Node>, event: Event)
    ensures Next(h, d, TreeLevels(h, d, leaves), event) == TreeLevels(h, d, match event
              case Add(batch) => if |leaves| + |batch| <= Pow2(d) then leaves + batch else leaves
              case Reopen => leaves)
  {
    hide TreeLevels, Append, Pow2, LevelNodes;
    StoredInTree(h, d, leaves, 0);
    LeavesOfLevel(h, leaves);
    if event.Add? {
      AppendIsTree(h, d, leaves, event.batch);
    }
  }

  /**
   From an empty store, after any history: level `l` holds exactly ceil(n / 2^l) nodes,
   each the hash of its padded subtree, and the root is the root of the padded leaf array.
   */
  lemma StoredAfterHistory(h: Hasher, d: nat, events: seq<Event>, l: nat, i: nat)
    requires l <= d
    ensures var leaves, levels := Kept(d, [], events), After(h, d, [], events);
            && |leaves| <= |Stored(levels, l)| * Pow2(l) < |leaves| + Pow2(l)
            && (Lookup(levels, l, i).Some? <==> i < |Stored(levels, l)|)
            && Lookup(levels, l, i).UnwrapOr(ZeroNode(h, l)) == NodeAt(h, leaves, l, i)
            && RootOf(h, d, levels) == NodeAt(h, leaves, d, 0)
  {
    var leaves := Kept(d, [], events);
    assert TreeLevels(h, d, []) == [];
    HistoryIsTree(h, d, [], events);
    hide After, Kept, TreeLevels, NodeAt, ZeroNode, CeilShr, Pow2, RootOf;
    StoredInTree(h, d, leaves, l);
    CeilShrIsCeilDivision(|leaves|, l);
    LookupIsNodeAt(h, d, leaves, l, i);
    RootIsNode(h, d, leaves);
  }

  /** When all offered leaves fit, they are all kept, in order. */
  lemma {:induction false} AllKept(d: nat, leaves: seq<Node>, events: seq<Event>)
    requires |leaves| + |Offered(events)| <= Pow2(d)
    ensures Kept(d, leaves, events) == leaves + Offered(events)
  {
    if events != [] {
      AllKept(d, leaves, events[..|events| - 1]);
    }
  }

  /** How the same leaves are cut into batches, and where the store is reopened, cannot be told afterwards. */
  lemma BatchingIsUnobservable(h: Hasher, d: nat, leaves: seq<Node>, a: seq<Event>, b: seq<Event>)
    requires Offered(a) == Offered(b) && |leaves| + |Offered(a)| <= Pow2(d)
    ensures After(h, d, TreeLevels(h, d, leaves), a) == After(h, d, TreeLevels(h, d, leaves), b)
  {
    AllKept(d, leaves, a);
    AllKept(d, leaves, b);
    HistoryIsTree(h, d, leaves, a);
    HistoryIsTree(h, d, leaves, b);
  }

  /** Two appends are one append of both batches. */
  lemma AppendTwice(h: Hasher, d: nat, leaves: seq<Node>, a: seq<Node>, b: seq<Node>)
    ensures Append(h, d, Append(h, d, TreeLevels(h, d, leaves), a), b) == Append(h, d, TreeLevels(h, d, leaves), a + b)
  {
    hide *;
    AppendIsTree(h, d, leaves, a);
    AppendIsTree(h, d, leaves + a, b);
    AppendIsTree(h, d, leaves, a + b);
    assert leaves + a + b == leaves + (a + b);
  }

  lemma {:induction false} KeptExtends(d: nat, leaves: seq<Node>, events: seq<Event>)
    ensures leaves <= Kept(d, leaves, events)
  {
    if events != [] {
      KeptExtends(d, leaves, events[..|events| - 1]);
    }
  }

  /** A node over a complete subtree is stored, and no later history ever changes it. */
  lemma CompleteNodesNeverChange(h: Hasher, d: nat, leaves: seq<Node>, events: seq<Event>, l: nat, i: nat)
    requires |leaves| <= Pow2(d) && l <= d && (i + 1) * Pow2(l) <= |leaves|
    ensures Lookup(TreeLevels(h, d, leaves), l, i).Some?
    ensures Lookup(After(h, d, TreeLevels(h, d, leaves), events), l, i) == Lookup(TreeLevels(h, d, leaves), l, i)
  {
    KeptExtends(d, leaves, events);
    HistoryIsTree(h, d, leaves, events);
    var more := Kept(d, leaves, events)[|leaves|..];
    assert leaves + more == Kept(d, leaves, events);
    CompleteNodesSurvive(h, d, leaves, more, l, i);
  }

  /** The batch of event `k` was not empty and fitted when it came. */
  predicate Added(h: Hasher, d: nat, events: seq<Event>, k: nat)
    requires k < |events|
  {
    events[k].Add? && events[k].batch != []
    && NumLeaves(After(h, d, [], events[..k])) + |events[k].batch| <= Pow2(d)
  }

  /** The length of the scratch buffers after one more event. */
  function ScratchNext(d: nat, levels: Levels, length: nat, event: Event, onFiles: bool): nat {
    match event
    case Add(batch) => ScratchNeeded(length, if NumLeaves(levels) + |batch| <= Pow2(d) then |batch| else 0)
    case Reopen => if onFiles then 0 else length
  }

  /** The length of the scratch buffers after a history that starts with a new tree. */
  function ScratchAfter(h: Hasher, d: nat, events: seq<Event>, onFiles: bool): nat {
    if events == [] then 0
    else
      var earlier := events[..|events| - 1];
      ScratchNext(d, After(h, d, [], earlier), ScratchAfter(h, d, earlier, onFiles), events[|events| - 1], onFiles)
  }

  /** In memory the buffers are as long as the largest batch so far needs, and no longer. */
  lemma {:induction false} LargestBatchDecides(h: Hasher, d: nat, events: seq<Event>)
    ensures forall k :: 0 <= k < |events| && Added(h, d, events, k) ==>
              ScratchAfter(h, d, events, false) >= |events[k].batch| / 2 + 1
    ensures ScratchAfter(h, d, events, false) == 0
         || exists k :: 0 <= k < |events| && Added(h, d, events, k)
                     && ScratchAfter(h, d, events, false) == |events[k].batch| / 2 + 1
  {
    if events != [] {
      hide After, NumLeaves, Pow2, Added;
      var n := |events| - 1;
      var earlier := events[..n];
      LargestBatchDecides(h, d, earlier);
      forall k | 0 <= k < n
        ensures Added(h, d, events, k) <==> Added(h, d, earlier, k)
      {
        AddedEarlier(h, d, events, n, k);
      }
      LastAdded(h, d, events);
    }
  }

  lemma AddedEarlier(h: Hasher, d: nat, events: seq<Event>, n: nat, k: nat)
    requires k < n <= |events|
    ensures Added(h, d, events, k) <==> Added(h, d, events[..n], k)
  {
    assert events[..n][..k] == events[..k];
  }

  lemma LastAdded(h: Hasher, d: nat, events: seq<Event>)
    requires events != []
    ensures var n := |events| - 1;
            var before := ScratchAfter(h, d, events[..n], false);
            ScratchAfter(h, d, events, false) ==
              if Added(h, d, events, n) then ScratchNeeded(before, |events[n].batch|) else before
  {
    hide After, NumLeaves, Pow2;
  }

  /** So a batch that is no larger than an earlier one makes neither buffer grow. */
  lemma SmallerBatchFits(h: Hasher, d: nat, events: seq<Event>, k: nat, batch: Batch)
    requires k < |events| && Added(h, d, events, k) && |batch| <= |events[k].batch|
    ensures ScratchNeeded(ScratchAfter(h, d, events, false), |batch|) == ScratchAfter(h, d, events, false)
  {
    hide After, ScratchAfter, Added;
    LargestBatchDecides(h, d, events);
  }

  lemma AfterOneMore(h: Hasher, d: nat, levels: Levels, events: seq<Event>, k: nat)
    requires k < |events|
    ensures After(h, d, levels, events[..k + 1]) == Next(h, d, After(h, d, levels, events[..k]), events[k])
  {
    assert events[..k + 1][..k] == events[..k];
  }

  lemma ScratchOneMore(h: Hasher, d: nat, events: seq<Event>, k: nat, onFiles: bool)
    requires k < |events|
    ensures ScratchAfter(h, d, events[..k + 1], onFiles)
         == ScratchNext(d, After(h, d, [], events[..k]), ScratchAfter(h, d, events[..k], onFiles), events[k], onFiles)
  {
    hide After, ScratchNext;
    assert events[..k + 1][..k] == events[..k];
  }

  method HandleBatch(tree: MerkleTree, batch: Batch)
    requires tree.Valid()
    modifies tree, tree.run, tree.parents, tree.store.Repr()
    ensures tree.Valid()
    ensures fresh({tree.run, tree.parents} - old({tree.run, tree.parents}))
    ensures tree.store.View() == Next(tree.hasher, tree.depth, old(tree.store.View()), Add(batch))
    ensures tree.run.Length == ScratchNext(tree.depth, old(tree.store.View()), old(tree.run.Length), Add(batch), false)
  {
    hide TreeLevels, Append, Pow2;
    var r, _ := tree.AddLeaves(batch);
  }

  method NewInMemory(h: Hasher, d: nat) returns (tree: MerkleTree)
    requires 1 <= d <= MAX_DEPTH
    ensures tree.Valid() && tree.hasher == h && tree.depth == d && tree.store.View() == [] && tree.run.Length == 0
    ensures fresh(tree) && fresh(tree.run) && fresh(tree.parents) && fresh(tree.store.Repr())
  {
    var memory := new MemoryStore();
    tree := new MerkleTree(h, Memory(memory), d);
  }

  /** A history on the in-memory store, which has nothing to reopen. */
  method RunOnMemory(h: Hasher, d: nat, events: seq<Event>) returns (tree: MerkleTree)
    requires 1 <= d <= MAX_DEPTH
    ensures tree.Valid() && tree.hasher == h && tree.depth == d
    ensures tree.store.View() == After(h, d, [], events)
    ensures tree.run.Length == ScratchAfter(h, d, events, false)
  {
    hide After, TreeLevels, Append, Pow2, NumLeaves, ScratchAfter, Store.Valid, Store.View, MerkleTree.Valid;
    tree := NewInMemory(h, d);
    EmptyHistory(h, d);
    for k := 0 to |events|
      invariant tree.Valid() && tree.hasher == h && tree.depth == d
      invariant fresh(tree) && fresh(tree.run) && fresh(tree.parents) && fresh(tree.store.Repr())
      invariant tree.store.View() == After(h, d, [], events[..k])
      invariant tree.run.Length == ScratchAfter(h, d, events[..k], false)
    {
      AfterOneMore(h, d, [], events, k);
      ScratchOneMore(h, d, events, k, false);
      if events[k].Add? {
        HandleBatch(tree, events[k].batch);
      }
    }
    assert events[..|events|] == events;
  }

  /** Opens the store in a directory that holds the tree over `leaves`, and a tree on it. */
  method OpenTree(h: Hasher, d: nat, dir: Directory, ghost open: nat, ghost leaves: seq<Node>) returns (tree: MerkleTree)
    requires 1 <= d <= MAX_DEPTH
    requires GapFree(dir.files, open)
    requires |leaves| <= Pow2(d) && LevelsIn(dir.files, open) == TreeLevels(h, d, leaves)
    ensures tree.Valid() && tree.hasher == h && tree.depth == d
    ensures fresh(tree) && fresh(tree.run) && fresh(tree.parents)
    ensures tree.store.Flat? && fresh(tree.store.flat) && tree.store.flat.dir == dir
    ensures tree.store.View() == TreeLevels(h, d, leaves) && tree.run.Length == 0
  {
    var flat := new FileStore(dir);
    ReopenFindsTheSame(dir.files, open, |flat.files|);
    tree := new MerkleTree(h, Flat(flat), d);
    StoredInTree(h, d, leaves, 0);
    LeavesOfLevel(h, leaves);
  }

  /** One event on files: a reopen drops store and tree, and builds both anew from the directory. */
  method HandleOnFiles(tree: MerkleTree, event: Event) returns (next: MerkleTree)
    requires tree.Valid() && tree.store.Flat?
    modifies tree, tree.run, tree.parents, tree.store.Repr()
    ensures next.Valid() && next.hasher == tree.hasher && next.depth == tree.depth
    ensures next.store.Flat? && next.store.flat.dir == tree.store.flat.dir
    ensures next.store.View() == Next(tree.hasher, tree.depth, old(tree.store.View()), event)
    ensures next == tree || fresh(next)
    ensures fresh({next.run, next.parents} - old({tree.run, tree.parents}))
    ensures next.store.flat == tree.store.flat || fresh(next.store.flat)
    ensures next.run.Length == ScratchNext(tree.depth, old(tree.store.View()), old(tree.run.Length), event, true)
  {
    hide TreeLevels, Append, Pow2;
    match event
    case Add(batch) =>
      HandleBatch(tree, batch);
      next := tree;
    case Reopen =>
      next := OpenTree(tree.hasher, tree.depth, tree.store.flat.dir, |tree.store.flat.files|, tree.Leaves());
  }

  /** The same history on files. */
  method RunOnFiles(h: Hasher, d: nat, dir: Directory, events: seq<Event>) returns (tree: MerkleTree)
    requires 1 <= d <= MAX_DEPTH
    requires GapFree(dir.files, 0)
    modifies dir
    ensures tree.Valid() && tree.hasher == h && tree.depth == d
    ensures tree.store.View() == After(h, d, [], events)
    ensures tree.run.Length == ScratchAfter(h, d, events, true)
  {
    hide Next, After, ScratchNext, ScratchAfter, TreeLevels, LevelsIn, GapFree, Pow2, Store.Valid, Store.View, MerkleTree.Valid;
    EmptyHistory(h, d);
    assert LevelsIn(dir.files, 0) == [];
    tree := OpenTree(h, d, dir, 0, []);
    for k := 0 to |events|
      invariant tree.Valid() && tree.hasher == h && tree.depth == d
      invariant fresh({tree, tree.run, tree.parents})
      invariant tree.store.Flat? && fresh(tree.store.flat) && tree.store.flat.dir == dir
      invariant tree.store.View() == After(h, d, [], events[..k])
      invariant tree.run.Length == ScratchAfter(h, d, events[..k], true)
    {
      AfterOneMore(h, d, [], events, k);
      ScratchOneMore(h, d, events, k, true);
      tree := HandleOnFiles(tree, events[k]);
    }
    assert events[..|events|] == events;
  }

  lemma FromEmpty(h: Hasher, d: nat, events: seq<Event>)
    ensures |Kept(d, [], events)| <= Pow2(d)
    ensures After(h, d, [], events) == TreeLevels(h, d, Kept(d, [], events))
    ensures RootOf(h, d, After(h, d, [], events)) == NodeAt(h, Kept(d, [], events), d, 0)
  {
    EmptyHistory(h, d);
    HistoryIsTree(h, d, [], events);
    RootIsNode(h, d, Kept(d, [], events));
    hide *;
  }

  lemma EmptyHistory(h: Hasher, d: nat)
    ensures After(h, d, [], []) == [] == TreeLevels(h, d, [])
    ensures forall onFiles :: ScratchAfter(h, d, [], onFiles) == 0
  {
  }

  /** What `proof` answers over given stored levels. */
  function ProofAnswer(h: Hasher, d: nat, levels: Levels, index: u64): Result<MerkleProof, MerkleError>
    requires d <= MAX_DEPTH
  {
    if index > ShlOne(d) then Err(LeafIndexOutOfBounds(index, ShlOne(d))) else Ok(ProofOf(h, d, levels, index))
  }

  method Observe(tree: MerkleTree, index: u64, ghost levels: Levels)
    returns (root: Result<Node, MerkleError>, proof: Result<MerkleProof, MerkleError>)
    requires tree.Valid() && levels == tree.store.View()
    ensures root == Ok(RootOf(tree.hasher, tree.depth, levels))
    ensures proof == ProofAnswer(tree.hasher, tree.depth, levels, index)
  {
    hide Store.Valid, Store.View, TreeLevels, NodeAt, RootOf, ProofOf, Pow2, Accepts, MerkleTree.Leaves;
    root := tree.Root();
    proof := tree.Proof(index);
  }

  /** The same history on memory and on files, reopened at will, ends with the same root and the same proofs. */
  method SameOnBothStores(h: Hasher, d: nat, dir: Directory, events: seq<Event>, index: u64)
    returns (rootInMemory: Result<Node, MerkleError>, rootOnFiles: Result<Node, MerkleError>,
             proofInMemory: Result<MerkleProof, MerkleError>, proofOnFiles: Result<MerkleProof, MerkleError>)
    requires 1 <= d <= MAX_DEPTH
    requires GapFree(dir.files, 0)
    modifies dir
    ensures rootInMemory == rootOnFiles == Ok(NodeAt(h, Kept(d, [], events), d, 0))
    ensures proofInMemory == proofOnFiles == ProofAnswer(h, d, TreeLevels(h, d, Kept(d, [], events)), index)
  {
    hide After, Kept, TreeLevels, NodeAt, RootOf, ProofAnswer, Pow2, Store.Valid, Store.View, MerkleTree.Valid;
    FromEmpty(h, d, events);
    var inMemory := RunOnMemory(h, d, events);
    rootInMemory, proofInMemory := Observe(inMemory, index, After(h, d, [], events));
    var onFiles := RunOnFiles(h, d, dir, events);
    rootOnFiles, proofOnFiles := Observe(onFiles, index, After(h, d, [], events));
  }
}
