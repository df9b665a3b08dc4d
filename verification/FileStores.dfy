/** The flat file store: one file of 32-byte records for each level, and a cached count. */
module FileStores {
  import opened Words
  import opened Results
  import opened Nodes
  import opened Stores
  import opened Files

  class FileStore {
    const dir: Directory
    var files: seq<string>
    var counts: seq<nat>

    /** Open files are the first levels, each count is its file's whole records. */
    ghost predicate Valid()
      reads this, dir
    {
      && |files| == |counts|
      && HasLevels(dir.files, |files|)
      && (forall l :: 0 <= l < |files| ==> files[l] == LevelFileName(l))
      && (forall l :: 0 <= l < |counts| ==> counts[l] == |dir.files[LevelFileName(l)]| / LEN)
    }

    ghost function View(): (levels: Levels)
      requires Valid()
      reads this, dir
      ensures |levels| == |counts|
      ensures forall l :: 0 <= l < |counts| ==> |levels[l]| == counts[l]
    {
      LevelsIn(dir.files, |files|)
    }

    /** Opens the level files found by probing one level after the other. */
    constructor (dir: Directory)
      ensures this.dir == dir
      ensures Valid()
      ensures FirstMissing(dir.files, |files|)
      ensures forall l :: 0 <= l < |files| ==> files[l] in dir.files && counts[l] == |dir.files[files[l]]| / 32
      ensures files == [] <==> "level_000" !in dir.files
    {
      hide LevelFileName, Records;
      LevelFileNameIs(0);
      assert LevelFileName(0) == "level_000";
      this.dir := dir;
      files := [];
      counts := [];
      new;
      var name := LevelFileName(0);
      while name in dir.files
        invariant Valid() && name == LevelFileName(|files|)
        decreases |dir.files| - |files|
      {
        var len := |dir.files[name]|;
        files := files + [name];
        counts := counts + [len / LEN];
        LevelsAreBounded(dir.files, |files|);
        name := LevelFileName(|files|);
      }
    }

    /** No level file of the directory is left unopened. */
    ghost predicate Tidy()
      reads this, dir
    {
      GapFree(dir.files, |files|)
    }

    /** Opens or creates the files of every level up to `level`, leaving their contents alone. */
    method EnsureLevel(level: nat)
      requires Valid()
      modifies this, dir
      ensures Valid()
      ensures |files| == if old(|files|) <= level then level + 1 else old(|files|)
      ensures View() == LevelsIn(old(dir.files), |files|)
      ensures old(Tidy()) ==> Tidy()
      ensures LengthsFit(old(dir.files)) ==> LengthsFit(dir.files)
      ensures forall name :: name in dir.files <==> name in old(dir.files) || name in files
      ensures forall name :: name in dir.files ==> dir.files[name] == Contents(old(dir.files), name)
    {
      hide LevelFileName, Records;
      ghost var before := dir.files;
      while |files| <= level
        invariant Valid()
        invariant old(|files|) <= |files|
        invariant |files| <= level + 1 || |files| == old(|files|)
        invariant forall n :: n in before ==> n in dir.files && dir.files[n] == before[n]
        invariant forall n :: n in dir.files && n !in before ==> dir.files[n] == [] && n in files
        invariant old(Tidy()) ==> Tidy()
        decreases level + 1 - |files|
      {
        var name := LevelFileName(|files|);
        NoOtherLevelFile(|files|);
        if name !in dir.files {
          dir.files := dir.files[name := []];
        }
        counts := counts + [|dir.files[name]| / LEN];
        files := files + [name];
      }
      assert View() == LevelsIn(before, |files|);
    }

    method Get(lv: seq<u32>, ix: seq<u64>) returns (r: Result<seq<Option<Node>>, MerkleError>)
      requires Valid()
      ensures r == GetResult(View(), lv, ix)
      ensures |lv| != |ix| ==> r == Err(LengthMismatch(|lv|, |ix|))
      ensures |lv| == |ix| ==> r.Ok? && |r.value| == |lv|
      ensures |lv| == |ix| ==> forall k :: 0 <= k < |lv| ==> r.value[k] == Lookup(View(), lv[k], ix[k])
      ensures |lv| == |ix| ==>
                forall k :: 0 <= k < |lv| ==>
                  r.value[k] == if lv[k] < |files| && 32 * (ix[k] + 1) <= |dir.files[files[lv[k]]]|
                                then Some(RecordAt(dir.files[files[lv[k]]], ix[k])) else None
      ensures LengthsFit(dir.files) && |lv| == |ix| ==>
                forall k :: 0 <= k < |lv| && Lookup(View(), lv[k], ix[k]).Some? ==> ix[k] * LEN < TWO_TO_THE_64
    {
      hide LevelFileName, RecordAt;
      if |lv| != |ix| {
        return Err(LengthMismatch(|lv|, |ix|));
      }
      var found: seq<Option<Node>> := [];
      for k := 0 to |lv|
        invariant found == Fetched(View(), lv, ix)[..k]
      {
        var node := None;
        if lv[k] < |counts| && ix[k] < counts[lv[k]] {
          var file := dir.files[files[lv[k]]];
          node := Some(RecordAt(file, ix[k]));
        }
        found := found + [node];
      }
      assert found == Fetched(View(), lv, ix);
      r := Ok(found);
    }

    /**
     One positional write.  Level files that exist but were not open yet, beyond a
     gap, come in with their contents; in a tidy directory there are none.
     */
    method Put(level: u32, start: u64, nodes: seq<Node>) returns (r: Result<(), MerkleError>)
      requires Valid()
      modifies this, dir
      ensures Valid()
      ensures nodes == [] ==> files == old(files) && dir.files == old(dir.files)
      ensures nodes != [] ==> |files| == if old(|files|) <= level then level + 1 else old(|files|)
      ensures View() == PutLevels(LevelsIn(old(dir.files), |files|), level, start, nodes)
      ensures r == if PutAccepted(LevelsIn(old(dir.files), |files|), level, start, nodes) then Ok(()) else Err(StoreError)
      ensures old(Tidy()) ==>
                && Tidy()
                && View() == PutLevels(old(View()), level, start, nodes)
                && r == if PutAccepted(old(View()), level, start, nodes) then Ok(()) else Err(StoreError)
      ensures forall name :: name in dir.files <==> name in old(dir.files) || name in files
      ensures forall name :: name in old(dir.files) && (r.Err? || name != LevelFileName(level)) ==>
                dir.files[name] == old(dir.files)[name]
      ensures r == if nodes == [] || start <= |Contents(old(dir.files), LevelFileName(level))| / 32
                   then Ok(()) else Err(StoreError)
      ensures nodes != [] ==>
                && LevelFileName(level) in dir.files
                && dir.files[LevelFileName(level)] ==
                   var was := Contents(old(dir.files), LevelFileName(level));
                   if r.Ok? then WrittenAt(was, 32 * start, AsBytes(nodes)) else was
      ensures LengthsFit(old(dir.files)) ==> WriteFits(r, start, nodes)
      ensures LengthsFit(old(dir.files)) && (start + |nodes|) * LEN < TWO_TO_THE_64 ==> LengthsFit(dir.files)
    {
      hide LevelFileName, Records, WrittenAt, AsBytes, PutLevels, PutAccepted, LevelsIn, LengthsFit;
      if nodes == [] {
        EmptyRun(LevelsIn(dir.files, |files|), level, start);
        return Ok(());
      }
      if Tidy() {
        GrownInTidy(dir.files, |files|, if |files| <= level then level + 1 else |files|);
        PutAfterGrown(View(), level, start, nodes);
      }
      EnsureLevel(level);
      r := WriteRun(level, start, nodes);
    }

    /** The write itself, into a level that is open. */
    method WriteRun(level: u32, start: u64, nodes: seq<Node>) returns (r: Result<(), MerkleError>)
      requires Valid() && level < |files| && nodes != []
      modifies this, dir
      ensures Valid()
      ensures files == old(files) && dir.files.Keys == old(dir.files.Keys)
      ensures forall name :: name in dir.files && name !in files ==> dir.files[name] == old(dir.files)[name]
      ensures View() == PutLevels(old(View()), level, start, nodes)
      ensures r == if PutAccepted(old(View()), level, start, nodes) then Ok(()) else Err(StoreError)
      ensures r.Ok? <==> start <= |old(dir.files)[files[level]]| / 32
      ensures dir.files == if r.Err? then old(dir.files)
                           else old(dir.files)[files[level] :=
                             WrittenAt(old(dir.files)[files[level]], 32 * start, AsBytes(nodes))]
      ensures LengthsFit(old(dir.files)) ==> WriteFits(r, start, nodes)
      ensures LengthsFit(old(dir.files)) && (start + |nodes|) * LEN < TWO_TO_THE_64 ==> LengthsFit(dir.files)
    {
      hide LevelFileName, Records, WrittenAt, AsBytes, LevelsIn, PutLevels, PutAccepted;
      PutAtLevel(View(), level, start, nodes);
      if start > counts[level] {
        return Err(StoreError);
      }
      var name := files[level];
      ByteAfterWrite(dir.files[name], start * LEN, AsBytes(nodes), 0);
      LevelsAfterWrite(dir.files, |files|, level, start, nodes);
      RecordsAfterWrite(dir.files[name], start, nodes);
      NoOtherLevelFile(level);
      dir.files := dir.files[name := WrittenAt(dir.files[name], start * LEN, AsBytes(nodes))];
      counts := counts[level := if counts[level] < start + |nodes| then start + |nodes| else counts[level]];
      r := Ok(());
    }

    /** The word arithmetic of a write that was made: its offset and its new count do not overflow. */
    static ghost predicate WriteFits(r: Result<(), MerkleError>, start: nat, nodes: seq<Node>) {
      r.Ok? && 0 < |nodes| <= MAX_SLICE ==> start * LEN < TWO_TO_THE_64 && start + |nodes| < TWO_TO_THE_64
    }

    method GetNumLeaves() returns (n: nat)
      requires Valid()
      ensures n == NumLeaves(View())
      ensures n == if files == [] then 0 else |Contents(dir.files, "level_000")| / 32
    {
      LevelFileNameIs(0);
      assert LevelFileName(0) == "level_000";
      n := if counts == [] then 0 else counts[0];
    }
  }

  /**
   A directory with a gap: levels 0 and 2 have files, level 1 has none.  The store opens one
   level, a `put` at level 1 opens a second, and reopening then finds a third.
   */
  method ReopenFindsMore(node: Node) returns (store: FileStore, reopened: FileStore)
    ensures store.Valid() && reopened.Valid() && store.dir == reopened.dir
    ensures |store.View()| == 2 && |reopened.View()| == 3
    ensures FirstMissing(reopened.dir.files, |reopened.files|)
  {
    hide LevelFileName, Records, LevelsIn, PutLevels, PutAccepted, AsBytes, GapFree, LengthsFit, FileStore.WriteFits;
    var dir := new Directory();
    NoOtherLevelFile(0);
    NoOtherLevelFile(1);
    NoOtherLevelFile(2);
    NoOtherLevelFile(3);
    dir.files := map[LevelFileName(0) := AsBytes([node]), LevelFileName(2) := AsBytes([node])];
    store := new FileStore(dir);
    assert |store.files| == 1;
    var r := store.Put(1, 0, [node]);
    assert store.files == [LevelFileName(0), LevelFileName(1)];
    assert LevelFileName(2) in dir.files && LevelFileName(3) !in dir.files;
    reopened := new FileStore(dir);
    assert |reopened.files| == 3;
  }
}
