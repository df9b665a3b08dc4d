/** A node is 32 bytes.  Its memory layout, its hexadecimal text, and the parser of that text. */
module Nodes {
  import opened Words
  import opened Results

  const LEN := 32

  type Bytes32 = s: seq<u8> | |s| == LEN witness seq(LEN, _ => 0)

  datatype Node = Node(bytes: Bytes32)

  const ZERO: Node := Node(ZeroBytes())

  function ZeroBytes(): Bytes32 {
    seq(LEN, _ => 0)
  }

  /** The zero node is 32 bytes of 0, and no other node is. */
  lemma ZeroIsAllZeros(n: Node)
    ensures |n.bytes| == 32
    ensures n == ZERO <==> forall k :: 0 <= k < 32 ==> n.bytes[k] == 0
  {
    if forall k :: 0 <= k < 32 ==> n.bytes[k] == 0 {
      assert n.bytes == ZERO.bytes;
    }
  }

  /** A slice never spans more than 2^63 - 1 bytes. */
  const MAX_SLICE := 0x7fff_ffff_ffff_ffff / LEN

  lemma SliceLimit(nodes: seq<Node>)
    ensures |nodes| <= MAX_SLICE <==> |AsBytes(nodes)| < Pow2(63)
  {
    Pow2Of63();
  }

  // ----- memory layout

  /** The bytes of a run of nodes, as they lie in memory. */
  function AsBytes(nodes: seq<Node>): (b: seq<u8>)
    ensures |b| == LEN * |nodes|
  {
    seq(LEN * |nodes|, k requires 0 <= k < LEN * |nodes| => nodes[k / LEN].bytes[k % LEN])
  }

  /** Reads 32 bytes at record `i`. */
  function RecordAt(bytes: seq<u8>, i: nat): Node
    requires LEN * (i + 1) <= |bytes|
  {
    Node(bytes[LEN * i..LEN * (i + 1)])
  }

  /** Byte `j` of node `i` lies at `32 * i + j`, in a run and in a record read back. */
  lemma ByteOfRun(nodes: seq<Node>, i: nat, j: nat)
    requires i < |nodes| && j < 32
    ensures 32 * i + j < |AsBytes(nodes)| && AsBytes(nodes)[32 * i + j] == nodes[i].bytes[j]
  {
    assert (32 * i + j) / 32 == i && (32 * i + j) % 32 == j;
  }

  lemma ByteOfRecord(bytes: seq<u8>, i: nat, j: nat)
    requires 32 * (i + 1) <= |bytes| && j < 32
    ensures RecordAt(bytes, i).bytes[j] == bytes[32 * i + j]
  {
  }

  /** Record `i` of a run's bytes is node `i` of the run. */
  lemma RecordOfRun(nodes: seq<Node>, i: nat)
    requires i < |nodes|
    ensures RecordAt(AsBytes(nodes), i) == nodes[i]
  {
    var r := RecordAt(AsBytes(nodes), i).bytes;
    forall j | 0 <= j < LEN
      ensures r[j] == nodes[i].bytes[j]
    {
      assert (LEN * i + j) / LEN == i && (LEN * i + j) % LEN == j;
    }
    assert r == nodes[i].bytes;
  }

  /** The bytes of a pair are the left node's followed by the right node's. */
  lemma AsBytesOfPair(left: Node, right: Node)
    ensures AsBytes([left, right]) == left.bytes + right.bytes
  {
    var b := AsBytes([left, right]);
    RecordOfRun([left, right], 0);
    RecordOfRun([left, right], 1);
    assert b == b[LEN * 0..LEN * 1] + b[LEN * 1..LEN * 2];
  }

  // ----- text

  /** The digits are those of the table, and no other character is one. */
  lemma DigitTables(c: char, d: nat)
    ensures d < 16 ==> HexDigit(d) == "0123456789abcdef"[d]
    ensures DigitValue(c) == Some(d) <==> d < 16 && (c == "0123456789abcdef"[d] || c == "0123456789ABCDEF"[d])
  {
  }

  /** The byte `b` in two characters: the low digit, and before it the high digit, or a `+` if that is 0. */
  predicate Spells(high: char, low: char, b: u8) {
    && (low == "0123456789abcdef"[b % 16] || low == "0123456789ABCDEF"[b % 16])
    && (high == "0123456789abcdef"[b / 16] || high == "0123456789ABCDEF"[b / 16] || (high == '+' && b < 16))
  }

  lemma DigitsOfTables(c: char)
    ensures c in "0123456789abcdefABCDEF" <==> DigitValue(c).Some?
  {
  }

  /** The lower-case form of a digit is the digit of the same value in the first table; `+` stays. */
  lemma LowerTable(c: char, d: nat)
    requires d < 16
    ensures c == "0123456789abcdef"[d] || c == "0123456789ABCDEF"[d] ==> Lower(c) == "0123456789abcdef"[d]
    ensures Lower('+') == '+'
  {
  }

  /** The digit `d` as `{:02x}` prints it. */
  function HexDigit(d: nat): (c: char)
    requires d < 16
    ensures DigitValue(c) == Some(d) && Lower(c) == c
  {
    if d < 10 then '0' + d as char else 'a' + (d - 10) as char
  }

  function DigitValue(c: char): (d: Option<nat>)
    ensures d.Some? ==> d.value < 16 && c < 128 as char
  {
    if '0' <= c <= '9' then Some(c as nat - '0' as nat)
    else if 'a' <= c <= 'f' then Some(c as nat - 'a' as nat + 10)
    else if 'A' <= c <= 'F' then Some(c as nat - 'A' as nat + 10)
    else None
  }

  function Lower(c: char): char {
    if 'A' <= c <= 'Z' then c - 'A' + 'a' else c
  }

  function LowerAll(s: string): (r: string)
    ensures |r| == |s|
  {
    seq(|s|, k requires 0 <= k < |s| => Lower(s[k]))
  }

  function DigitsOf(n: Node): (s: string)
    ensures |s| == 2 * LEN
  {
    seq(2 * LEN, k requires 0 <= k < 2 * LEN =>
      if k % 2 == 0 then HexDigit(n.bytes[k / 2] / 16) else HexDigit(n.bytes[k / 2] % 16))
  }

  /** The text of a node: `0x` and two lower-case digits a byte. */
  function Display(n: Node): string {
    "0x" + DigitsOf(n)
  }

  function StripPrefix(s: string): string {
    if "0x" <= s then s[2..] else s
  }

  /** One prefix is dropped, whatever follows it; a text without it stays as it is. */
  lemma PrefixIsDropped(s: string)
    ensures StripPrefix("0x" + s) == s
    ensures !("0x" <= s) ==> StripPrefix(s) == s
  {
  }

  /** The length of a text in bytes, which is what the parser compares with 64. */
  function Utf8Len(s: string): (n: nat)
    ensures n >= |s|
  {
    if s == "" then 0
    else Utf8Len(s[..|s| - 1]) +
         var c := s[|s| - 1] as nat;
         if c < 0x80 then 1 else if c < 0x800 then 2 else if c < 0x1_0000 then 3 else 4
  }

  /** Lengths in bytes add up, and a character takes one to four bytes. */
  lemma {:induction false} Utf8LenOfConcat(s: string, t: string)
    ensures Utf8Len(s + t) == Utf8Len(s) + Utf8Len(t)
  {
    if t == "" {
      assert s + t == s;
    } else {
      assert (s + t)[..|s + t| - 1] == s + t[..|t| - 1];
      Utf8LenOfConcat(s, t[..|t| - 1]);
    }
  }

  /** The bytes of one character, by the first character that takes one more. */
  lemma Utf8LenOfOne(c: char)
    ensures Utf8Len([c]) == if c < '\U{80}' then 1 else if c < '\U{800}' then 2 else if c < '\U{10000}' then 3 else 4
  {
    assert Utf8Len([c][..0]) == 0;
  }

  function DigitsValue(s: string): Option<nat> {
    if s == "" then Some(0)
    else
      var high, low := DigitsValue(s[..|s| - 1]), DigitValue(s[|s| - 1]);
      if high.Some? && low.Some? then Some(16 * high.value + low.value) else None
  }

  /** `u8::from_str_radix(s, 16)`: an optional `+`, then at least one digit, with no overflow. */
  function FromStrRadix16(s: string): Option<u8> {
    if s == "" then None
    else
      var v := DigitsValue(if s[0] == '+' && |s| > 1 then s[1..] else s);
      if v.Some? && v.value < 0x100 then Some(v.value) else None
  }

  datatype HexError = BadLength | BadDigit

  /** Characters `2i` and `2i + 1`, or what is left of them. */
  function Chunk(hex: string, i: nat): string
    requires 2 * i < |hex|
  {
    hex[2 * i..if 2 * i + 2 <= |hex| then 2 * i + 2 else |hex|]
  }

  /** Every two-character group is one that `from_str_radix` accepts. */
  predicate ChunksParse(hex: string) {
    forall i :: 0 <= i < |hex| && 2 * i < |hex| ==> FromStrRadix16(Chunk(hex, i)).Some?
  }

  /** Byte `i` of the result; bytes past the last group stay zero. */
  function ByteAt(hex: string, i: nat): u8 {
    if 2 * i < |hex| then FromStrRadix16(Chunk(hex, i)).UnwrapOr(0) else 0
  }

  function Parse(text: string): Result<Node, HexError> {
    var hex := StripPrefix(text);
    if Utf8Len(hex) != 64 then Err(BadLength)
    else if !ChunksParse(hex) then Err(BadDigit)
    else Ok(Node(seq(LEN, i requires 0 <= i < LEN => ByteAt(hex, i))))
  }

  /**
   A text is accepted exactly when it is 64 digits, or has a `+` for some high digits, after
   an optional prefix; its bytes are what those digits spell.
   */
  method TryFrom(text: string) returns (r: Result<Node, HexError>)
    ensures r == Parse(text)
    ensures r == Err(BadLength) <==> Utf8Len(StripPrefix(text)) != 64
    ensures r.Ok? <==> |StripPrefix(text)| == 64 && forall k :: 0 <= k < 64 ==> Allowed(StripPrefix(text), k)
    ensures r.Ok? ==>
              forall i :: 0 <= i < 32 ==>
                Spells(StripPrefix(text)[2 * i], StripPrefix(text)[2 * i + 1], r.value.bytes[i])
  {
    hide FromStrRadix16, Chunk, Allowed, Spells, StripPrefix, Utf8Len;
    AcceptedShape(text);
    AcceptedBytes(text);
    var hex := StripPrefix(text);
    if Utf8Len(hex) != 64 {
      return Err(BadLength);
    }
    var bytes := new u8[LEN](_ => 0);
    var i := 0;
    while 2 * i < |hex|
      invariant 0 <= i <= LEN
      invariant i == 0 || 2 * (i - 1) < |hex|
      invariant forall j: nat :: j < i ==> FromStrRadix16(Chunk(hex, j)).Some?
      invariant forall j: nat :: j < i ==> bytes[j] == ByteAt(hex, j)
      invariant forall j :: i <= j < LEN ==> bytes[j] == 0
    {
      var byte := FromStrRadix16(Chunk(hex, i));
      if byte.None? {
        return Err(BadDigit);
      }
      bytes[i] := byte.value;
      i := i + 1;
    }
    assert bytes[..] == seq(LEN, j requires 0 <= j < LEN => ByteAt(hex, j));
    r := Ok(Node(bytes[..]));
  }

  /** What two characters parse to. */
  lemma TwoCharacters(s: string)
    requires |s| == 2
    ensures FromStrRadix16(s).Some? <==> DigitValue(s[1]).Some? && (s[0] == '+' || DigitValue(s[0]).Some?)
    ensures FromStrRadix16(s).Some? ==>
              FromStrRadix16(s).value == DigitValue(s[1]).value + if s[0] == '+' then 0 else 16 * DigitValue(s[0]).value
  {
    var none: string := s[..0];
    assert none == "";
    assert DigitsValue(s[..1]) == DigitValue(s[0]) by {
      assert s[..1][..0] == "";
      assert DigitsValue(s[..1][..0]) == Some(0);
    }
    assert DigitsValue(s[1..]) == DigitValue(s[1]) by {
      assert s[1..][..0] == "";
      assert DigitsValue(s[1..][..0]) == Some(0);
    }
  }

  lemma {:induction false} AsciiLength(s: string)
    requires forall k :: 0 <= k < |s| ==> s[k] < 128 as char
    ensures Utf8Len(s) == |s|
  {
    if s != "" {
      AsciiLength(s[..|s| - 1]);
    }
  }

  /** A character a group of digits can hold at place `k`: a digit, or a `+` in front of one. */
  predicate Allowed(hex: string, k: nat)
    requires k < |hex|
  {
    hex[k] in "0123456789abcdefABCDEF" || (hex[k] == '+' && k % 2 == 0)
  }

  lemma AllowedIsDigit(hex: string, k: nat)
    requires k < |hex|
    ensures Allowed(hex, k) <==> DigitValue(hex[k]).Some? || (hex[k] == '+' && k % 2 == 0)
    ensures Allowed(hex, k) ==> hex[k] < 128 as char
  {
    DigitsOfTables(hex[k]);
  }

  lemma AllowedInAccepted(hex: string, k: nat)
    requires k < |hex| && FromStrRadix16(Chunk(hex, k / 2)).Some?
    ensures Allowed(hex, k)
  {
    hide Allowed, DigitValue;
    AllowedIsDigit(hex, k);
    var c := Chunk(hex, k / 2);
    if |c| == 2 {
      TwoCharacters(c);
      assert hex[k] == c[k % 2];
    } else {
      assert c[..0] == "" && DigitsValue(c[..0]) == Some(0);
      assert c[0] == hex[k];
    }
  }

  lemma AllowedAccepted(hex: string, i: nat)
    requires |hex| == 64 && i < LEN && Allowed(hex, 2 * i) && Allowed(hex, 2 * i + 1)
    ensures FromStrRadix16(Chunk(hex, i)).Some?
  {
    hide Allowed, DigitValue, FromStrRadix16;
    AllowedIsDigit(hex, 2 * i);
    AllowedIsDigit(hex, 2 * i + 1);
    assert Chunk(hex, i) == [hex[2 * i], hex[2 * i + 1]];
    TwoCharacters(Chunk(hex, i));
  }

  /** Only 64 characters are ever accepted, each a digit except a `+` at an even place. */
  lemma AcceptedShape(text: string)
    ensures Parse(text).Ok? <==>
            var hex := StripPrefix(text);
            |hex| == 64 && forall k :: 0 <= k < 64 ==> Allowed(hex, k)
  {
    hide Allowed, StripPrefix, Utf8Len, FromStrRadix16, Chunk, DigitValue;
    var hex := StripPrefix(text);
    if Parse(text).Ok? {
      forall k | 0 <= k < |hex|
        ensures Allowed(hex, k) && hex[k] < 128 as char
      {
        var i := k / 2;
        assert 0 <= i < |hex| && 2 * i < |hex|;
        assert FromStrRadix16(Chunk(hex, i)).Some?;
        AllowedInAccepted(hex, k);
        AllowedIsDigit(hex, k);
      }
      AsciiLength(hex);
    }
    if |hex| == 64 && forall k :: 0 <= k < 64 ==> Allowed(hex, k) {
      forall k | 0 <= k < |hex|
        ensures hex[k] < 128 as char
      {
        AllowedIsDigit(hex, k);
      }
      AsciiLength(hex);
      forall i | 0 <= i < |hex| && 2 * i < |hex|
        ensures FromStrRadix16(Chunk(hex, i)).Some?
      {
        AllowedAccepted(hex, i);
      }
    }
  }

  lemma DigitAt(n: Node, k: nat)
    requires k < 64
    ensures DigitsOf(n)[k] == if k % 2 == 0 then HexDigit(n.bytes[k / 2] / 16) else HexDigit(n.bytes[k / 2] % 16)
    ensures DigitValue(DigitsOf(n)[k]).Some?
  {
  }

  lemma ChunkOfDisplay(n: Node, i: nat)
    requires i < LEN
    ensures FromStrRadix16(Chunk(DigitsOf(n), i)) == Some(n.bytes[i])
  {
    var hex := DigitsOf(n);
    assert Chunk(hex, i) == [hex[2 * i], hex[2 * i + 1]];
    TwoCharacters(Chunk(hex, i));
    DigitAt(n, 2 * i);
    DigitAt(n, 2 * i + 1);
    assert (2 * i) / 2 == i && (2 * i + 1) / 2 == i;
  }

  lemma ParseOfDigits(n: Node, text: string)
    requires StripPrefix(text) == DigitsOf(n)
    ensures Parse(text) == Ok(n)
  {
    var hex := DigitsOf(n);
    forall k | 0 <= k < 64
      ensures Allowed(hex, k)
    {
      DigitAt(n, k);
      AllowedIsDigit(hex, k);
    }
    AcceptedShape(text);
    forall i | 0 <= i < LEN
      ensures Parse(text).value.bytes[i] == n.bytes[i]
    {
      ChunkOfDisplay(n, i);
    }
    assert Parse(text).value.bytes == n.bytes;
  }

  /** Parsing the text of a node gives the node back, with and without the prefix. */
  lemma ParseOfDisplay(n: Node)
    ensures Parse(Display(n)) == Ok(n)
    ensures Parse(DigitsOf(n)) == Ok(n)
  {
    assert StripPrefix(Display(n)) == DigitsOf(n);
    assert StripPrefix(DigitsOf(n)) == DigitsOf(n) by {
      DigitAt(n, 1);
      assert DigitValue('x').None?;
    }
    ParseOfDigits(n, Display(n));
    ParseOfDigits(n, DigitsOf(n));
  }

  lemma DigitBack(c: char)
    requires DigitValue(c).Some?
    ensures HexDigit(DigitValue(c).value) == Lower(c)
  {
  }

  lemma Nibbles(high: nat, low: nat)
    requires low < 16
    ensures (16 * high + low) / 16 == high && (16 * high + low) % 16 == low
  {
  }

  /** The byte a two-character group parses to prints as that group, unless it begins with a `+`. */
  lemma ByteOfChunk(s: string)
    requires |s| == 2 && FromStrRadix16(s).Some?
    ensures s[1] != '+' && HexDigit(FromStrRadix16(s).value % 16) == Lower(s[1])
    ensures HexDigit(FromStrRadix16(s).value / 16) == Lower(s[0]) <==> s[0] != '+'
  {
    TwoCharacters(s);
    assert DigitValue('+').None? && HexDigit(0) != Lower('+');
    hide *;
    DigitBack(s[1]);
    if s[0] != '+' {
      DigitBack(s[0]);
      Nibbles(DigitValue(s[0]).value, DigitValue(s[1]).value);
    } else {
      Nibbles(0, DigitValue(s[1]).value);
    }
  }

  lemma ChunkOfParse(text: string, i: nat)
    requires Parse(text).Ok? && i < LEN
    ensures |StripPrefix(text)| == 64
    ensures var hex := StripPrefix(text);
            && Chunk(hex, i) == [hex[2 * i], hex[2 * i + 1]]
            && FromStrRadix16(Chunk(hex, i)) == Some(Parse(text).value.bytes[i])
  {
    hide Allowed, StripPrefix, FromStrRadix16, Utf8Len;
    AcceptedShape(text);
    var hex := StripPrefix(text);
    AllowedAccepted(hex, i);
    assert Parse(text).value.bytes[i] == ByteAt(hex, i);
  }

  /** What a group spells by its value, it spells by the tables. */
  lemma GroupSpells(s: string)
    requires |s| == 2 && FromStrRadix16(s).Some?
    ensures Spells(s[0], s[1], FromStrRadix16(s).value)
  {
    hide FromStrRadix16, DigitValue, HexDigit;
    TwoCharacters(s);
    DigitTables(s[1], DigitValue(s[1]).value);
    if s[0] == '+' {
      Nibbles(0, DigitValue(s[1]).value);
    } else {
      DigitTables(s[0], DigitValue(s[0]).value);
      Nibbles(DigitValue(s[0]).value, DigitValue(s[1]).value);
    }
  }

  /** The bytes of an accepted text are those its digits spell. */
  lemma AcceptedBytes(text: string)
    ensures Parse(text).Ok? ==>
              && |StripPrefix(text)| == 64
              && forall i :: 0 <= i < 32 ==>
                   Spells(StripPrefix(text)[2 * i], StripPrefix(text)[2 * i + 1], Parse(text).value.bytes[i])
  {
    hide Parse, StripPrefix, Chunk, FromStrRadix16, Spells;
    if Parse(text).Ok? {
      ChunkOfParse(text, 0);
      forall i | 0 <= i < 32
        ensures Spells(StripPrefix(text)[2 * i], StripPrefix(text)[2 * i + 1], Parse(text).value.bytes[i])
      {
        ChunkOfParse(text, i);
        GroupSpells(Chunk(StripPrefix(text), i));
      }
    }
  }

  /** A node is printed as `0x` and the two digits of each byte, high digit first. */
  lemma DisplayedDigits(n: Node, i: nat)
    requires i < 32
    ensures |Display(n)| == 66 && Display(n)[..2] == "0x"
    ensures Display(n)[2 + 2 * i] == "0123456789abcdef"[n.bytes[i] / 16]
    ensures Display(n)[3 + 2 * i] == "0123456789abcdef"[n.bytes[i] % 16]
  {
    hide Display, DigitsOf, HexDigit, DigitValue;
    DisplayAt(n, 2 * i);
    DisplayAt(n, 2 * i + 1);
    DigitAt(n, 2 * i);
    DigitAt(n, 2 * i + 1);
    DigitTables('0', n.bytes[i] / 16);
    DigitTables('0', n.bytes[i] % 16);
  }

  lemma DisplayAt(n: Node, k: nat)
    requires k < 64
    ensures |Display(n)| == 66 && Display(n)[..2] == "0x" && Display(n)[2 + k] == DigitsOf(n)[k]
  {
    hide DigitsOf;
  }

  lemma DigitOfParse(text: string, k: nat)
    requires Parse(text).Ok? && k < 64
    ensures |StripPrefix(text)| == 64
    ensures DigitsOf(Parse(text).value)[k] == Lower(StripPrefix(text)[k]) <==> StripPrefix(text)[k] != '+'
  {
    hide Parse, StripPrefix, Chunk, FromStrRadix16, DigitsOf, HexDigit, Lower;
    ChunkOfParse(text, k / 2);
    ByteOfChunk(Chunk(StripPrefix(text), k / 2));
    DigitAt(Parse(text).value, k);
  }

  /**
   Printing a parsed text gives the lower-case form of its digits exactly when the
   text holds no `+`, which `from_str_radix` accepts as a sign.
   */
  lemma DisplayOfParse(text: string)
    requires Parse(text).Ok?
    ensures Display(Parse(text).value) == "0x" + LowerAll(StripPrefix(text)) <==> '+' !in StripPrefix(text)
  {
    var hex, digits := StripPrefix(text), DigitsOf(Parse(text).value);
    DisplayIs(Parse(text).value);
    assert |digits| == 64;
    hide *;
    DigitOfParse(text, 0);
    forall k | 0 <= k < 64
      ensures digits[k] == LowerAll(hex)[k] <==> hex[k] != '+'
    {
      DigitOfParse(text, k);
      LowerAt(hex, k);
    }
    PrefixEquality("0x", digits, LowerAll(hex));
  }

  lemma LowerAt(s: string, k: nat)
    requires k < |s|
    ensures LowerAll(s)[k] == Lower(s[k])
  {
  }

  lemma DisplayIs(n: Node)
    ensures Display(n) == "0x" + DigitsOf(n)
  {
  }

  lemma PrefixEquality(p: string, a: string, b: string)
    ensures p + a == p + b <==> a == b
  {
    if p + a == p + b {
      assert a == (p + a)[|p|..] == (p + b)[|p|..] == b;
    }
  }

  /** Such a text: its first byte is written `+0`, is accepted, and is printed `00`. */
  lemma PlusIsNotPrintedBack()
    ensures var text := "+0" + seq(62, _ => '0');
            && Parse(text).Ok?
            && Display(Parse(text).value) != "0x" + LowerAll(StripPrefix(text))
  {
    var text := "+0" + seq(62, _ => '0');
    assert text[0] == '+' && "0x"[0] == '0';
    assert StripPrefix(text) == text;
    forall k | 0 <= k < 64
      ensures Allowed(text, k)
    {
      assert k > 0 ==> text[k] == '0';
    }
    hide *;
    AcceptedShape(text);
    DisplayOfParse(text);
  }
}
