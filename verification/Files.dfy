/** Ideal files: a directory of growable byte arrays, and the names of the level files. */
module Files {
  import opened Words
  import opened Nodes
  import opened Stores

  /** Open handles are names: nothing here renames or removes a file. */
  class Directory {
    var files: map<string, seq<u8>>

    constructor ()
      ensures files == map[]
    {
      files := map[];
    }
  }

  /** A file that is not there has no bytes. */
  function Contents(files: map<string, seq<u8>>, name: string): seq<u8> {
    if name in files then files[name] else []
  }

  /** The bytes of a file after a positional write; a gap before it reads as zeros. */
  function WrittenAt(file: seq<u8>, offset: nat, data: seq<u8>): seq<u8> {
    var padded := if |file| < offset then file + seq(offset - |file|, _ => 0) else file;
    padded[..offset] + data + if offset + |data| < |padded| then padded[offset + |data|..] else []
  }

  /** Byte by byte: the data in its place, the old bytes around it, zeros in a gap before it. */
  lemma ByteAfterWrite(file: seq<u8>, offset: nat, data: seq<u8>, k: nat)
    ensures |WrittenAt(file, offset, data)| == if offset + |data| < |file| then |file| else offset + |data|
    ensures k < |WrittenAt(file, offset, data)| ==>
              WrittenAt(file, offset, data)[k] ==
                if offset <= k < offset + |data| then data[k - offset] else if k < |file| then file[k] else 0
  {
  }

  // ----- level file names

  function Digit(d: nat): char
    requires d < 10
  {
    '0' + d as char
  }

  function Decimal(n: nat): (s: string)
    ensures s != ""
  {
    (if n < 10 then "" else Decimal(n / 10)) + [Digit(n % 10)]
  }

  /** `{:03}`: at least three digits, padded with zeros on the left. */
  function PadTo3(s: string): string
    decreases 3 - |s|
  {
    if |s| < 3 then PadTo3("0" + s) else s
  }

  function LevelFileName(level: nat): string {
    "level_" + PadTo3(Decimal(level))
  }

  /** The name, digit by digit: three digits below 1000, and above that all digits without padding. */
  lemma LevelFileNameIs(level: nat)
    ensures level < 1000 ==>
              LevelFileName(level)
              == "level_" + ['0' + (level / 100) as char, '0' + (level / 10 % 10) as char, '0' + (level % 10) as char]
    ensures level >= 1000 ==> LevelFileName(level) == LevelFileName(level / 10) + ['0' + (level % 10) as char]
  {
    if level < 1000 {
      ThreeDigits(level);
    } else {
      DecimalStep(level);
      DecimalLength(level / 10);
      PadOnce(Decimal(level));
      PadOnce(Decimal(level / 10));
      hide Decimal, PadTo3;
    }
  }

  lemma ThreeDigits(level: nat)
    requires level < 1000
    ensures PadTo3(Decimal(level)) == [Digit(level / 100), Digit(level / 10 % 10), Digit(level % 10)]
  {
    DecimalStep(level);
    DecimalStep(level / 10);
    DecimalStep(level / 100);
    assert Digit(0) == '0';
    hide *;
    if level < 10 {
      assert Decimal(level) == [Digit(level)];
      PadDigit(Digit(level));
    } else if level < 100 {
      assert Decimal(level) == [Digit(level / 10), Digit(level % 10)];
      PadDigits(Digit(level / 10), Digit(level % 10));
    } else {
      assert Decimal(level) == [Digit(level / 100), Digit(level / 10 % 10), Digit(level % 10)];
      PadOnce(Decimal(level));
    }
  }

  /** Padding of one digit, and of two. */
  lemma PadDigit(a: char)
    ensures PadTo3([a]) == ['0', '0', a]
  {
    assert "0" + [a] == ['0', a];
    hide PadTo3;
    PadOnce([a]);
    PadDigits('0', a);
  }

  lemma PadDigits(a: char, b: char)
    ensures PadTo3([a, b]) == ['0', a, b]
  {
    assert "0" + [a, b] == ['0', a, b];
    hide PadTo3;
    PadOnce([a, b]);
    PadOnce(['0', a, b]);
  }

  lemma PadOnce(s: string)
    ensures PadTo3(s) == if |s| < 3 then PadTo3("0" + s) else s
  {
  }

  lemma DecimalStep(n: nat)
    ensures Decimal(n) == (if n < 10 then "" else Decimal(n / 10)) + [Digit(n % 10)]
  {
  }

  lemma DecimalLength(n: nat)
    requires n >= 100
    ensures |Decimal(n)| >= 3
  {
  }

  function DecimalValue(s: string): int {
    if s == "" then 0 else 10 * DecimalValue(s[..|s| - 1]) + (s[|s| - 1] as int - '0' as int)
  }

  lemma {:induction false} ValueOfDecimal(n: nat)
    ensures DecimalValue(Decimal(n)) == n
  {
    var s := Decimal(n);
    assert s[..|s| - 1] == if n < 10 then "" else Decimal(n / 10);
    if n >= 10 {
      ValueOfDecimal(n / 10);
    }
  }

  lemma {:induction false} LeadingZero(s: string)
    ensures DecimalValue("0" + s) == DecimalValue(s)
  {
    if s == "" {
      assert ("0" + s)[..0] == "";
      assert DecimalValue(("0" + s)[..0]) == 0;
    } else {
      assert ("0" + s)[..|s|] == "0" + s[..|s| - 1];
      LeadingZero(s[..|s| - 1]);
    }
  }

  lemma {:induction false} ValueOfPadded(s: string)
    ensures DecimalValue(PadTo3(s)) == DecimalValue(s)
    decreases 3 - |s|
  {
    if |s| < 3 {
      LeadingZero(s);
      ValueOfPadded("0" + s);
    }
  }

  /** Different levels live in different files. */
  lemma LevelFileNamesDiffer(a: nat, b: nat)
    ensures LevelFileName(a) == LevelFileName(b) <==> a == b
  {
    ValueOfDecimal(a);
    ValueOfDecimal(b);
    ValueOfPadded(Decimal(a));
    ValueOfPadded(Decimal(b));
    assert LevelFileName(a)[6..] == PadTo3(Decimal(a));
    assert LevelFileName(b)[6..] == PadTo3(Decimal(b));
  }

  // ----- records

  /** The whole records of a file; a torn tail is not one. */
  function Records(file: seq<u8>): (nodes: seq<Node>)
    ensures |nodes| == |file| / LEN
  {
    seq(|file| / LEN, i requires 0 <= i < |file| / LEN => RecordAt(file, i))
  }

  /** Writing a run at a record boundary inside the stored prefix splices it into the records. */
  lemma RecordsAfterWrite(file: seq<u8>, start: nat, nodes: seq<Node>)
    requires start <= |file| / LEN
    ensures Records(WrittenAt(file, start * LEN, AsBytes(nodes))) == Spliced(Records(file), start, nodes)
  {
    var w, spliced := WrittenAt(file, start * LEN, AsBytes(nodes)), Spliced(Records(file), start, nodes);
    assert |w| / LEN == |spliced|;
    forall i | 0 <= i < |spliced|
      ensures RecordAt(w, i) == spliced[i]
    {
      RecordAfterWrite(file, start, nodes, i);
    }
  }

  lemma RecordAfterWrite(file: seq<u8>, start: nat, nodes: seq<Node>, i: nat)
    requires start <= |file| / LEN
    requires i < |Spliced(Records(file), start, nodes)|
    ensures LEN * (i + 1) <= |WrittenAt(file, start * LEN, AsBytes(nodes))|
    ensures RecordAt(WrittenAt(file, start * LEN, AsBytes(nodes)), i) == Spliced(Records(file), start, nodes)[i]
  {
    hide WrittenAt, AsBytes;
    var data := AsBytes(nodes);
    if start <= i < start + |nodes| {
      RecordOfRun(nodes, i - start);
      WrittenInside(file, start * LEN, data, LEN * i, LEN * (i + 1));
    } else {
      WrittenOutside(file, start * LEN, data, LEN * i, LEN * (i + 1));
    }
  }

  /** A write leaves its data in its place and all other bytes as they were. */
  lemma WrittenInside(file: seq<u8>, offset: nat, data: seq<u8>, lo: nat, hi: nat)
    requires offset <= |file| && offset <= lo <= hi <= offset + |data|
    ensures hi <= |WrittenAt(file, offset, data)|
    ensures WrittenAt(file, offset, data)[lo..hi] == data[lo - offset..hi - offset]
  {
  }

  lemma WrittenOutside(file: seq<u8>, offset: nat, data: seq<u8>, lo: nat, hi: nat)
    requires offset <= |file| && lo <= hi <= |file| && (hi <= offset || offset + |data| <= lo)
    ensures hi <= |WrittenAt(file, offset, data)|
    ensures WrittenAt(file, offset, data)[lo..hi] == file[lo..hi]
  {
  }

  /** A file length is a `u64`. */
  ghost predicate LengthsFit(files: map<string, seq<u8>>) {
    forall name :: name in files ==> |files[name]| < TWO_TO_THE_64
  }

  /** While file lengths fit a word, so do the offset and the end of a run that starts inside the records. */
  lemma OffsetsFit(file: seq<u8>, start: nat, count: nat)
    requires |file| < TWO_TO_THE_64 && start <= |file| / LEN && count <= MAX_SLICE
    ensures start * LEN < TWO_TO_THE_64 && start + count < TWO_TO_THE_64
  {
  }

  // ----- the level files of a directory

  /** The files of levels `0` to `m - 1` exist. */
  ghost predicate HasLevels(files: map<string, seq<u8>>, m: nat) {
    forall l: nat :: l < m ==> LevelFileName(l) in files
  }

  /** `m` is where probing `level_000`, `level_001`, ... first finds no file. */
  ghost predicate FirstMissing(files: map<string, seq<u8>>, m: nat) {
    HasLevels(files, m) && LevelFileName(m) !in files
  }

  /** No level file lies beyond a missing one. */
  ghost predicate GapFree(files: map<string, seq<u8>>, m: nat) {
    HasLevels(files, m) && forall l: nat :: l >= m ==> LevelFileName(l) !in files
  }

  /** The nodes in the files of the first `m` levels; a missing file holds none. */
  ghost function LevelsIn(files: map<string, seq<u8>>, m: nat): (levels: Levels)
    ensures |levels| == m
  {
    seq(m, l requires 0 <= l < m => if LevelFileName(l) in files then Records(files[LevelFileName(l)]) else [])
  }

  /** A directory holds finitely many level files, so probing ends. */
  lemma {:induction false} LevelsAreBounded(files: map<string, seq<u8>>, m: nat)
    requires HasLevels(files, m)
    ensures m <= |files|
  {
    if m > 0 {
      var rest := files - {LevelFileName(m - 1)};
      forall l: nat | l < m - 1
        ensures LevelFileName(l) in rest
      {
        LevelFileNamesDiffer(l, m - 1);
      }
      LevelsAreBounded(rest, m - 1);
      assert rest.Keys == files.Keys - {LevelFileName(m - 1)};
      assert |files.Keys| == |rest.Keys| + 1;
    }
  }

  /** Writing a run into one level file writes that level and no other. */
  lemma LevelsAfterWrite(files: map<string, seq<u8>>, m: nat, level: nat, start: nat, nodes: seq<Node>)
    requires level < m && LevelFileName(level) in files && nodes != []
    requires start <= |files[LevelFileName(level)]| / LEN
    ensures LevelsIn(files[LevelFileName(level) := WrittenAt(files[LevelFileName(level)], start * LEN, AsBytes(nodes))], m)
         == PutLevels(LevelsIn(files, m), level, start, nodes)
  {
    var name := LevelFileName(level);
    var files' := files[name := WrittenAt(files[name], start * LEN, AsBytes(nodes))];
    RecordsAfterWrite(files[name], start, nodes);
    var before, after := LevelsIn(files, m), LevelsIn(files', m);
    assert Grown(before, level + 1) == before;
    forall l | 0 <= l < m && l != level
      ensures after[l] == before[l]
    {
      LevelFileNamesDiffer(l, level);
    }
    assert after == before[level := Spliced(before[level], start, nodes)];
  }

  /** In a directory without gaps the levels still to be opened are empty. */
  lemma GrownInTidy(files: map<string, seq<u8>>, m: nat, n: nat)
    requires GapFree(files, m) && m <= n
    ensures LevelsIn(files, n) == Grown(LevelsIn(files, m), n)
  {
  }

  /** The file of a level is not the file of any other. */
  lemma NoOtherLevelFile(m: nat)
    ensures forall l: nat :: LevelFileName(l) == LevelFileName(m) <==> l == m
  {
    forall l: nat
      ensures LevelFileName(l) == LevelFileName(m) <==> l == m
    {
      LevelFileNamesDiffer(l, m);
    }
  }

  /**
   Reopening a directory finds the levels that were open, no fewer and no more,
   exactly when no file of a further level lies next to them.
   */
  lemma ReopenFindsTheSame(files: map<string, seq<u8>>, open: nat, m: nat)
    requires HasLevels(files, open) && FirstMissing(files, m)
    ensures LevelsIn(files, m) == LevelsIn(files, open) <==> LevelFileName(open) !in files
  {
    assert m < open ==> LevelFileName(m) in files;
    if open < m {
      assert |LevelsIn(files, m)| != |LevelsIn(files, open)|;
    }
  }
}
