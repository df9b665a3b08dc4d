/**
 Hashing a large level in parallel: the pairs and the output slice are cut into
 chunks of equal size, and the chunk jobs run in whatever order they are scheduled.
 */
module ParallelHashing {
  import opened Nodes
  import opened Hashing

  const MIN_PARALLEL_HASHES := 64

  function ChunkCount(n: nat): nat {
    (n + MIN_PARALLEL_HASHES - 1) / MIN_PARALLEL_HASHES
  }

  function ChunkLen(n: nat, c: nat): (len: nat)
    requires c < ChunkCount(n)
    ensures 0 < len && MIN_PARALLEL_HASHES * c + len <= n
  {
    if MIN_PARALLEL_HASHES * (c + 1) <= n then MIN_PARALLEL_HASHES else n - MIN_PARALLEL_HASHES * c
  }

  /** Every position lies in exactly one chunk, at one place in it. */
  lemma ChunksPartition(n: nat, k: nat, c: nat, j: nat)
    requires k < n
    ensures c < ChunkCount(n) && j < ChunkLen(n, c) && k == MIN_PARALLEL_HASHES * c + j
       <==> c == k / MIN_PARALLEL_HASHES && j == k % MIN_PARALLEL_HASHES
  {
  }

  // ----- threads that interleave one hash at a time

  /** The shared output, and how many hashes each chunk job has written so far. */
  datatype Threads = Threads(out: seq<Node>, written: seq<nat>)

  function Start(out: seq<Node>, n: nat): Threads {
    Threads(out, seq(ChunkCount(n), _ => 0))
  }

  ghost predicate WellFormed(pairs: seq<Pair>, lo: nat, s: Threads) {
    && lo + |pairs| <= |s.out|
    && |s.written| == ChunkCount(|pairs|)
    && forall c :: 0 <= c < |s.written| ==> s.written[c] <= ChunkLen(|pairs|, c)
  }

  /** Job `c` writes its next hash; a finished or absent job does nothing. */
  function Step(h: Hasher, pairs: seq<Pair>, lo: nat, s: Threads, c: nat): (s': Threads)
    requires WellFormed(pairs, lo, s)
    ensures WellFormed(pairs, lo, s') && |s'.out| == |s.out|
  {
    if c < |s.written| && s.written[c] < ChunkLen(|pairs|, c) then
      var k := MIN_PARALLEL_HASHES * c + s.written[c];
      Threads(s.out[lo + k := h.Hash(pairs[k].0, pairs[k].1)], s.written[c := s.written[c] + 1])
    else s
  }

  function Run(h: Hasher, pairs: seq<Pair>, lo: nat, s: Threads, schedule: seq<nat>): (s': Threads)
    requires WellFormed(pairs, lo, s)
    ensures WellFormed(pairs, lo, s') && |s'.out| == |s.out|
    decreases schedule
  {
    if schedule == [] then s
    else Run(h, pairs, lo, Step(h, pairs, lo, s, schedule[0]), schedule[1..])
  }

  ghost predicate Finished(pairs: seq<Pair>, s: Threads)
    requires |s.written| == ChunkCount(|pairs|)
  {
    forall c :: 0 <= c < |s.written| ==> s.written[c] == ChunkLen(|pairs|, c)
  }

  /** What every interleaving keeps: written slots hold their hash, all others the old node. */
  ghost predicate PartlyHashed(h: Hasher, pairs: seq<Pair>, lo: nat, before: seq<Node>, s: Threads) {
    && WellFormed(pairs, lo, s)
    && |s.out| == |before|
    && (forall i :: 0 <= i < |before| && !(lo <= i < lo + |pairs|) ==> s.out[i] == before[i])
    && (forall i :: lo <= i < lo + |pairs| ==>
          s.out[i] == if (i - lo) % MIN_PARALLEL_HASHES < s.written[(i - lo) / MIN_PARALLEL_HASHES]
                      then h.HashAll(pairs)[i - lo] else before[i])
  }

  lemma StepKeepsPartlyHashed(h: Hasher, pairs: seq<Pair>, lo: nat, before: seq<Node>, s: Threads, c: nat)
    requires PartlyHashed(h, pairs, lo, before, s)
    ensures PartlyHashed(h, pairs, lo, before, Step(h, pairs, lo, s, c))
  {
    var s' := Step(h, pairs, lo, s, c);
    if c < |s.written| && s.written[c] < ChunkLen(|pairs|, c) {
      forall i | lo <= i < lo + |pairs|
        ensures s'.out[i] == if (i - lo) % MIN_PARALLEL_HASHES < s'.written[(i - lo) / MIN_PARALLEL_HASHES]
                             then h.HashAll(pairs)[i - lo] else before[i]
      {
        ChunksPartition(|pairs|, i - lo, c, s.written[c]);
      }
    }
  }

  /**
   Every interleaving of the jobs that runs them all to their end leaves the slice
   holding the hash of each pair and everything outside it as it was: the result of
   the serial branch.
   */
  lemma AnyScheduleHashesAll(h: Hasher, pairs: seq<Pair>, lo: nat, before: seq<Node>, schedule: seq<nat>)
    requires lo + |pairs| <= |before|
    requires Finished(pairs, Run(h, pairs, lo, Start(before, |pairs|), schedule))
    ensures Run(h, pairs, lo, Start(before, |pairs|), schedule).out
         == before[..lo] + h.HashAll(pairs) + before[lo + |pairs|..]
  {
    StartPartlyHashed(h, pairs, lo, before);
    RunKeepsPartlyHashed(h, pairs, lo, before, Start(before, |pairs|), schedule);
    FinishedHashesAll(h, pairs, lo, before, Run(h, pairs, lo, Start(before, |pairs|), schedule));
  }

  lemma StartPartlyHashed(h: Hasher, pairs: seq<Pair>, lo: nat, before: seq<Node>)
    requires lo + |pairs| <= |before|
    ensures PartlyHashed(h, pairs, lo, before, Start(before, |pairs|))
  {
    var s := Start(before, |pairs|);
    forall i | lo <= i < lo + |pairs|
      ensures s.out[i] == before[i] && s.written[(i - lo) / MIN_PARALLEL_HASHES] == 0
    {
    }
  }

  lemma FinishedHashesAll(h: Hasher, pairs: seq<Pair>, lo: nat, before: seq<Node>, s: Threads)
    requires PartlyHashed(h, pairs, lo, before, s) && Finished(pairs, s)
    ensures s.out == before[..lo] + h.HashAll(pairs) + before[lo + |pairs|..]
  {
    var expected := before[..lo] + h.HashAll(pairs) + before[lo + |pairs|..];
    forall i | 0 <= i < |before|
      ensures s.out[i] == expected[i]
    {
      if lo <= i < lo + |pairs| {
        var c := (i - lo) / MIN_PARALLEL_HASHES;
        ChunksPartition(|pairs|, i - lo, c, (i - lo) % MIN_PARALLEL_HASHES);
        assert s.written[c] == ChunkLen(|pairs|, c);
      }
    }
  }

  lemma {:induction false} RunKeepsPartlyHashed(h: Hasher, pairs: seq<Pair>, lo: nat, before: seq<Node>, s: Threads, schedule: seq<nat>)
    requires PartlyHashed(h, pairs, lo, before, s)
    ensures PartlyHashed(h, pairs, lo, before, Run(h, pairs, lo, s, schedule))
    decreases schedule
  {
    if schedule != [] {
      StepKeepsPartlyHashed(h, pairs, lo, before, s, schedule[0]);
      RunKeepsPartlyHashed(h, pairs, lo, before, Step(h, pairs, lo, s, schedule[0]), schedule[1..]);
    }
  }

  /** The hashes the first `m` jobs still have to write. */
  ghost function Remaining(n: nat, written: seq<nat>, m: nat): nat
    requires m <= |written| == ChunkCount(n)
    requires forall c :: 0 <= c < |written| ==> written[c] <= ChunkLen(n, c)
  {
    if m == 0 then 0 else Remaining(n, written, m - 1) + ChunkLen(n, m - 1) - written[m - 1]
  }

  lemma {:induction false} RemainingAfterWrite(n: nat, written: seq<nat>, c: nat, m: nat)
    requires m <= |written| == ChunkCount(n) && c < |written|
    requires forall d :: 0 <= d < |written| ==> written[d] <= ChunkLen(n, d)
    requires written[c] < ChunkLen(n, c)
    ensures Remaining(n, written, m)
         == Remaining(n, written[c := written[c] + 1], m) + if c < m then 1 else 0
  {
    if m > 0 {
      RemainingAfterWrite(n, written, c, m - 1);
    }
  }

  /** From every state some schedule finishes, in as many steps as hashes remain. */
  lemma SomeScheduleFinishes(h: Hasher, pairs: seq<Pair>, lo: nat, s: Threads) returns (schedule: seq<nat>)
    requires WellFormed(pairs, lo, s)
    ensures Finished(pairs, Run(h, pairs, lo, s, schedule))
    ensures |schedule| == Remaining(|pairs|, s.written, |s.written|)
    decreases Remaining(|pairs|, s.written, |s.written|)
  {
    hide Hasher.Hash, ChunkLen;
    if Finished(pairs, s) {
      NothingRemaining(|pairs|, s.written, |s.written|);
      schedule := [];
    } else {
      var c :| 0 <= c < |s.written| && s.written[c] != ChunkLen(|pairs|, c);
      RemainingAfterWrite(|pairs|, s.written, c, |s.written|);
      var rest := SomeScheduleFinishes(h, pairs, lo, Step(h, pairs, lo, s, c));
      schedule := [c] + rest;
      assert schedule[0] == c && schedule[1..] == rest;
    }
  }

  lemma {:induction false} NothingRemaining(n: nat, written: seq<nat>, m: nat)
    requires m <= |written| == ChunkCount(n)
    requires forall c :: 0 <= c < |written| ==> written[c] == ChunkLen(n, c)
    ensures Remaining(n, written, m) == 0
  {
    if m > 0 {
      NothingRemaining(n, written, m - 1);
    }
  }

  // ----- whole jobs in any order, each running the hasher's own `hash_pairs`

  /** One chunk job: its pairs into its part of the output. */
  method RunChunk(h: Hasher, pairs: seq<Pair>, out: array<Node>, lo: nat, c: nat) returns (ghost hashes: nat)
    requires lo + |pairs| <= out.Length && c < ChunkCount(|pairs|)
    modifies out
    ensures forall k :: lo <= k < lo + |pairs| ==>
              out[k] == if (k - lo) / MIN_PARALLEL_HASHES == c then h.HashAll(pairs)[k - lo] else old(out[k])
    ensures forall k :: 0 <= k < lo || lo + |pairs| <= k < out.Length ==> out[k] == old(out[k])
    ensures hashes == ChunkLen(|pairs|, c)
  {
    var first, len := MIN_PARALLEL_HASHES * c, ChunkLen(|pairs|, c);
    var chunk := pairs[first..first + len];
    hashes := h.HashPairs(chunk, out, lo + first);
    h.HashAllSlice(pairs, first, first + len);
    forall k | lo <= k < lo + |pairs|
      ensures out[k] == if (k - lo) / MIN_PARALLEL_HASHES == c then h.HashAll(pairs)[k - lo] else old(out[k])
    {
      assert (k - lo) / MIN_PARALLEL_HASHES == c <==> first <= k - lo < first + len;
    }
  }

  function FirstChunks(m: nat): (jobs: set<int>)
    ensures forall c :: c in jobs <==> 0 <= c < m
  {
    if m == 0 then {} else FirstChunks(m - 1) + {m - 1}
  }

  /** The hashes left to the pending jobs among the first `m`. */
  ghost function PendingHashes(n: nat, pending: set<int>, m: nat): nat
    requires m <= ChunkCount(n)
  {
    if m == 0 then 0
    else PendingHashes(n, pending, m - 1) + if m - 1 in pending then ChunkLen(n, m - 1) else 0
  }

  lemma {:induction false} AllPending(n: nat, m: nat)
    requires m <= ChunkCount(n)
    ensures PendingHashes(n, FirstChunks(ChunkCount(n)), m) == if m == ChunkCount(n) then n else MIN_PARALLEL_HASHES * m
  {
    if m > 0 {
      AllPending(n, m - 1);
    }
  }

  lemma {:induction false} PendingHashesOfNone(n: nat, m: nat)
    requires m <= ChunkCount(n)
    ensures PendingHashes(n, {}, m) == 0
  {
    if m > 0 {
      PendingHashesOfNone(n, m - 1);
    }
  }

  lemma {:induction false} PendingWithout(n: nat, pending: set<int>, c: nat, m: nat)
    requires m <= ChunkCount(n) && c in pending && c < ChunkCount(n)
    ensures PendingHashes(n, pending, m)
         == PendingHashes(n, pending - {c}, m) + if c < m then ChunkLen(n, c) else 0
  {
    if m > 0 {
      PendingWithout(n, pending, c, m - 1);
    }
  }

  method ParHashPairs(h: Hasher, pairs: seq<Pair>, out: array<Node>, lo: nat) returns (ghost hashes: nat)
    requires lo + |pairs| <= out.Length
    modifies out
    ensures forall k :: lo <= k < lo + |pairs| ==> out[k] == h.HashAll(pairs)[k - lo]
    ensures forall k :: 0 <= k < lo || lo + |pairs| <= k < out.Length ==> out[k] == old(out[k])
    ensures hashes == |pairs|
  {
    var pending := FirstChunks(ChunkCount(|pairs|));
    hashes := 0;
    AllPending(|pairs|, ChunkCount(|pairs|));
    while pending != {}
      invariant forall c :: c in pending ==> 0 <= c < ChunkCount(|pairs|)
      invariant forall k :: lo <= k < lo + |pairs| && (k - lo) / MIN_PARALLEL_HASHES !in pending ==>
                  out[k] == h.HashAll(pairs)[k - lo]
      invariant forall k :: 0 <= k < lo || lo + |pairs| <= k < out.Length ==> out[k] == old(out[k])
      invariant hashes + PendingHashes(|pairs|, pending, ChunkCount(|pairs|)) == |pairs|
    {
      var c :| c in pending;
      var n := RunChunk(h, pairs, out, lo, c);
      PendingWithout(|pairs|, pending, c, ChunkCount(|pairs|));
      hashes := hashes + n;
      pending := pending - {c};
    }
    PendingHashesOfNone(|pairs|, ChunkCount(|pairs|));
  }
}
