/** The store a tree runs on: either of the two, seen through their common contract. */
module AnyStores {
  import opened Words
  import opened Results
  import opened Nodes
  import opened Stores
  import opened Files
  import opened MemoryStores
  import opened FileStores

  datatype Store = Memory(memory: MemoryStore) | Flat(flat: FileStore) {

    ghost function Repr(): set<object> {
      match this
      case Memory(memory) => {memory}
      case Flat(flat) => {flat, flat.dir}
    }

    ghost predicate Valid()
      reads Repr()
    {
      match this
      case Memory(_) => true
      case Flat(flat) => flat.Valid() && flat.Tidy()
    }

    ghost function View(): Levels
      requires Valid()
      reads Repr()
    {
      match this
      case Memory(memory) => memory.levels
      case Flat(flat) => flat.View()
    }

    method Get(lv: seq<u32>, ix: seq<u64>) returns (r: Result<seq<Option<Node>>, MerkleError>)
      requires Valid()
      ensures r == GetResult(View(), lv, ix)
      ensures |lv| != |ix| ==> r == Err(LengthMismatch(|lv|, |ix|))
      ensures |lv| == |ix| ==> r.Ok? && |r.value| == |lv|
      ensures |lv| == |ix| ==> forall k :: 0 <= k < |lv| ==> r.value[k] == Lookup(View(), lv[k], ix[k])
    {
      match this
      case Memory(memory) => r := memory.Get(lv, ix);
      case Flat(flat) => r := flat.Get(lv, ix);
    }

    method Put(level: u32, start: u64, nodes: seq<Node>) returns (r: Result<(), MerkleError>)
      requires Valid()
      modifies Repr()
      ensures Valid()
      ensures View() == PutLevels(old(View()), level, start, nodes)
      ensures r == if PutAccepted(old(View()), level, start, nodes) then Ok(()) else Err(StoreError)
    {
      match this
      case Memory(memory) => r := memory.Put(level, start, nodes);
      case Flat(flat) => r := flat.Put(level, start, nodes);
    }

    method GetNumLeaves() returns (n: nat)
      requires Valid()
      ensures n == NumLeaves(View())
    {
      match this
      case Memory(memory) => n := memory.GetNumLeaves();
      case Flat(flat) => n := flat.GetNumLeaves();
    }
  }

  // ----- any sequence of calls

  /** A reopen drops the store; on files it is built anew from the directory, in memory nothing is left to do. */
  datatype Call =
    | GetCall(lv: seq<u32>, ix: seq<u64>)
    | PutCall(level: u32, start: u64, nodes: seq<Node>)
    | CountCall
    | ReopenCall

  datatype Reply =
    | Found(found: Result<seq<Option<Node>>, MerkleError>)
    | Written(written: Result<(), MerkleError>)
    | Counted(count: nat)
    | Reopened

  function LevelsAfterCall(levels: Levels, call: Call): Levels {
    match call
    case PutCall(level, start, nodes) => PutLevels(levels, level, start, nodes)
    case _ => levels
  }

  function LevelsAfter(levels: Levels, calls: seq<Call>): Levels {
    if calls == [] then levels
    else LevelsAfterCall(LevelsAfter(levels, calls[..|calls| - 1]), calls[|calls| - 1])
  }

  function Replies(levels: Levels, calls: seq<Call>): (replies: seq<Reply>)
    ensures |replies| == |calls|
  {
    if calls == [] then []
    else
      var before := calls[..|calls| - 1];
      Replies(levels, before) + [ReplyTo(LevelsAfter(levels, before), calls[|calls| - 1])]
  }

  function ReplyTo(levels: Levels, call: Call): Reply {
    match call
    case GetCall(lv, ix) => Found(GetResult(levels, lv, ix))
    case PutCall(level, start, nodes) =>
      Written(if PutAccepted(levels, level, start, nodes) then Ok(()) else Err(StoreError))
    case CountCall => Counted(NumLeaves(levels))
    case ReopenCall => Reopened
  }

  method Reopen(store: Store) returns (next: Store)
    requires store.Valid()
    ensures next.Valid() && next.View() == store.View()
    ensures fresh(next.Repr() - store.Repr())
    ensures if store.Memory? then next == store else next.Flat? && next.flat.dir == store.flat.dir
  {
    match store
    case Memory(_) =>
      next := store;
    case Flat(flat) =>
      var reopened := new FileStore(flat.dir);
      ReopenFindsTheSame(flat.dir.files, |flat.files|, |reopened.files|);
      next := Flat(reopened);
  }

  method Make(store: Store, call: Call) returns (next: Store, reply: Reply)
    requires store.Valid()
    modifies store.Repr()
    ensures next.Valid() && fresh(next.Repr() - store.Repr())
    ensures if store.Memory? then next == store else next.Flat? && next.flat.dir == store.flat.dir
    ensures next.View() == LevelsAfterCall(old(store.View()), call)
    ensures reply == ReplyTo(old(store.View()), call)
  {
    next := store;
    match call
    case GetCall(lv, ix) =>
      var found := store.Get(lv, ix);
      reply := Found(found);
    case PutCall(level, start, nodes) =>
      var written := store.Put(level, start, nodes);
      reply := Written(written);
    case CountCall =>
      var count := store.GetNumLeaves();
      reply := Counted(count);
    case ReopenCall =>
      next := Reopen(store);
      reply := Reopened;
  }

  /** Makes every call on both stores, as the store tests do, and collects what each replied. */
  method RunOnBoth(memory: MemoryStore, flat: FileStore, calls: seq<Call>)
    returns (final: FileStore, fromMemory: seq<Reply>, fromFiles: seq<Reply>)
    requires flat.Valid() && flat.Tidy() && flat.View() == memory.levels
    modifies memory, flat, flat.dir
    ensures final.Valid() && final.Tidy() && final.dir == flat.dir
    ensures final.View() == memory.levels == LevelsAfter(old(memory.levels), calls)
    ensures fromFiles == fromMemory == Replies(old(memory.levels), calls)
  {
    var inMemory, onFiles;
    inMemory, fromMemory := RunAll(Memory(memory), calls);
    onFiles, fromFiles := RunAll(Flat(flat), calls);
    final := onFiles.flat;
  }

  method RunAll(store: Store, calls: seq<Call>) returns (final: Store, replies: seq<Reply>)
    requires store.Valid()
    modifies store.Repr()
    ensures final.Valid() && fresh(final.Repr() - store.Repr())
    ensures if store.Memory? then final == store else final.Flat? && final.flat.dir == store.flat.dir
    ensures final.View() == LevelsAfter(old(store.View()), calls)
    ensures replies == Replies(old(store.View()), calls)
  {
    ghost var levels := store.View();
    final, replies := store, [];
    for k := 0 to |calls|
      invariant final.Valid() && fresh(final.Repr() - store.Repr())
      invariant if store.Memory? then final == store else final.Flat? && final.flat.dir == store.flat.dir
      invariant final.View() == LevelsAfter(levels, calls[..k])
      invariant replies == Replies(levels, calls[..k])
    {
      OneMoreCall(levels, calls, k);
      var reply;
      final, reply := Make(final, calls[k]);
      replies := replies + [reply];
    }
    assert calls[..|calls|] == calls;
  }

  lemma OneMoreCall(levels: Levels, calls: seq<Call>, k: nat)
    requires k < |calls|
    ensures LevelsAfter(levels, calls[..k + 1]) == LevelsAfterCall(LevelsAfter(levels, calls[..k]), calls[k])
    ensures Replies(levels, calls[..k + 1])
         == Replies(levels, calls[..k]) + [ReplyTo(LevelsAfter(levels, calls[..k]), calls[k])]
  {
    assert calls[..k + 1][..k] == calls[..k];
  }
}
