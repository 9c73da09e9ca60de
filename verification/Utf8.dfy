/** Counting the characters of a UTF-8 text that occur in a table of three-byte characters. */
module Utf8 {
  import opened Bytes

  // --- RFC 3629

  /** A Unicode scalar value. */
  type CodePoint = x: int | 0 <= x <= 0x10FFFF && !(0xD800 <= x <= 0xDFFF)

  /** Section 3 of RFC 3629. */
  function Encode(cp: CodePoint): (s: seq<Byte>)
    ensures 1 <= |s| <= 4
  {
    if cp < 0x80 then [cp]
    else if cp < 0x800 then [0xC0 + cp / 0x40, 0x80 + cp % 0x40]
    else if cp < 0x1_0000 then [0xE0 + cp / 0x1000, 0x80 + cp / 0x40 % 0x40, 0x80 + cp % 0x40]
    else [0xF0 + cp / 0x4_0000, 0x80 + cp / 0x1000 % 0x40, 0x80 + cp / 0x40 % 0x40, 0x80 + cp % 0x40]
  }

  function EncodeAll(text: seq<CodePoint>): seq<Byte> {
    if text == [] then [] else Encode(text[0]) + EncodeAll(text[1..])
  }

  /** The length that the lead byte announces; 5 stands for a byte that cannot lead. */
  function LeadLength(b: Byte): (n: nat)
    ensures 1 <= n <= 5
  {
    if b <= 0x7F then 1
    else if b / 0x10 * 0x10 == 0xF0 then 4
    else if b / 0x20 * 0x20 == 0xE0 then 3
    else if b / 0x40 * 0x40 == 0xC0 then 2
    else 5
  }

  lemma LeadOfEncoding(cp: CodePoint)
    ensures LeadLength(Encode(cp)[0]) == |Encode(cp)|
  {
  }

  /** The announced length for every byte: 0xxxxxxx leads one byte, 110xxxxx two, 1110xxxx three and
      1111xxxx four; 10xxxxxx leads none. */
  lemma LeadLengthIs(b: Byte)
    ensures LeadLength(b) == 1 <==> b < 0x80
    ensures LeadLength(b) == 5 <==> 0x80 <= b < 0xC0
    ensures LeadLength(b) == 2 <==> 0xC0 <= b < 0xE0
    ensures LeadLength(b) == 3 <==> 0xE0 <= b < 0xF0
    ensures LeadLength(b) == 4 <==> 0xF0 <= b
  {
  }

  /** The code point an encoding stands for: the bits of its lead byte below the marker, then six a byte. */
  function Decode(s: seq<Byte>): int
    requires 1 <= |s| <= 4
  {
    if |s| == 1 then s[0]
    else if |s| == 2 then 0x40 * (s[0] - 0xC0) + Six(s, 1)
    else if |s| == 3 then 0x1000 * (s[0] - 0xE0) + 0x40 * Six(s, 1) + Six(s, 2)
    else 0x4_0000 * (s[0] - 0xF0) + 0x1000 * Six(s, 1) + 0x40 * Six(s, 2) + Six(s, 3)
  }

  function Six(s: seq<Byte>, k: nat): int
    requires k < |s|
  {
    var b: int := s[k];
    b - 0x80
  }

  /** An encoding reads back as its code point, and all its bytes but the first are continuation bytes. */
  lemma EncodingReads(cp: CodePoint)
    ensures Decode(Encode(cp)) == cp
    ensures forall k | 0 < k < |Encode(cp)| :: 0x80 <= Encode(cp)[k] < 0xC0
  {
    SixBits(cp / 0x1000);
    SixBits(cp / 0x40);
    SixBits(cp);
    assert cp / 0x40 / 0x40 == cp / 0x1000 && cp / 0x1000 / 0x40 == cp / 0x4_0000;
  }

  lemma SixBits(x: nat)
    ensures x == 0x40 * (x / 0x40) + x % 0x40 && 0 <= x % 0x40 < 0x40
  {
  }

  // --- the table

  function WordAt(s: seq<Byte>, i: nat): nat
    requires i + 3 <= |s|
  {
    var hi: int, mid: int, lo: int := s[i], s[i + 1], s[i + 2];
    0x1_0000 * hi + 0x100 * mid + lo
  }

  /** Record i of a table. */
  function Record(table: seq<Byte>, i: nat): nat
    requires 3 * i + 3 <= |table|
  {
    WordAt(table, 3 * i)
  }

  /** Three-byte records in increasing order; equal neighbours are allowed. */
  predicate Sorted(table: seq<Byte>) {
    && |table| % 3 == 0
    && forall i, j | 0 <= i < j < |table| / 3 :: Record(table, i) <= Record(table, j)
  }

  predicate InTable(table: seq<Byte>, word: nat) {
    exists i | 0 <= i < |table| / 3 :: Record(table, i) == word
  }

  /** Binary search: 1 exactly for the words of the table. */
  method FindWord(table: seq<Byte>, str: seq<Byte>, at: nat) returns (r: nat)
    requires Sorted(table) && at + 3 <= |str|
    ensures r == (if InTable(table, WordAt(str, at)) then 1 else 0)
  {
    var start, end := 0, |table| / 3 - 1;
    var wint := WordAt(str, at);
    while true
      invariant 0 <= start <= end + 1 <= |table| / 3
      invariant forall i | 0 <= i < start :: Record(table, i) < wint
      invariant forall i | end < i < |table| / 3 :: wint < Record(table, i)
      decreases end - start + 1
    {
      if start > end { return 0; }
      var middle := (start + end) / 2;
      var mint := Record(table, middle);
      if wint < mint {
        end := middle - 1;
      } else if mint < wint {
        start := middle + 1;
      } else {
        return 1;
      }
    }
  }

  // --- counting

  function Hits(table: seq<Byte>, s: seq<Byte>, i: nat): nat
    decreases |s| - i
  {
    if i + 2 >= |s| then 0
    else
      var n := LeadLength(s[i]);
      (if n == 3 && InTable(table, WordAt(s, i)) then 1 else 0) + Hits(table, s, i + n)
  }

  method CountWords(table: seq<Byte>, str: seq<Byte>) returns (count: nat)
    requires Sorted(table)
    ensures count == Hits(table, str, 0)
  {
    count := 0;
    var i := 0;
    while i + 2 < |str|
      invariant count + Hits(table, str, i) == Hits(table, str, 0)
      decreases |str| - i
    {
      var n := LeadLength(str[i]);
      if n != 3 {
        i := i + n;
        continue;
      }
      var found := FindWord(table, str, i);
      count := count + found;
      i := i + n;
    }
  }

  // --- what the count is on well-formed text

  /** How many characters of the text have a three-byte encoding that is in the table. */
  function Occurrences(table: seq<Byte>, text: seq<CodePoint>): nat {
    if text == [] then 0
    else
      (if |Encode(text[0])| == 3 && InTable(table, WordAt(Encode(text[0]), 0)) then 1 else 0)
      + Occurrences(table, text[1..])
  }

  lemma {:induction false} CountIsOccurrences(table: seq<Byte>, before: seq<Byte>, text: seq<CodePoint>)
    ensures Hits(table, before + EncodeAll(text), |before|) == Occurrences(table, text)
    decreases |text|
  {
    if text != [] {
      var c := Encode(text[0]);
      var s := before + EncodeAll(text);
      assert s == (before + c) + EncodeAll(text[1..]);
      LeadOfEncoding(text[0]);
      assert s[|before|] == c[0];
      CountIsOccurrences(table, before + c, text[1..]);
      if |before| + 2 >= |s| {
        ShortText(table, text);
      } else if |c| == 3 {
        assert s[|before| + 1] == c[1] && s[|before| + 2] == c[2];
      }
    }
  }

  /** Less than three bytes hold no three-byte character. */
  lemma {:induction false} ShortText(table: seq<Byte>, text: seq<CodePoint>)
    requires |EncodeAll(text)| < 3
    ensures Occurrences(table, text) == 0
    decreases |text|
  {
    if text != [] { ShortText(table, text[1..]); }
  }

  // --- a table that is itself a text of three-byte characters

  predicate ThreeByte(chars: seq<CodePoint>) {
    forall k | 0 <= k < |chars| :: |Encode(chars[k])| == 3
  }

  /** Three-byte words are ordered like their characters, so they differ when the characters do. */
  lemma WordOrder(a: CodePoint, b: CodePoint)
    requires |Encode(a)| == 3 && |Encode(b)| == 3
    ensures WordAt(Encode(a), 0) < WordAt(Encode(b), 0) <==> a < b
  {
    Digits(a);
    Digits(b);
    hide Encode, WordAt;
    Lexical(a / 0x1000, a / 0x40 % 0x40, a % 0x40, b / 0x1000, b / 0x40 % 0x40, b % 0x40);
  }

  lemma Lexical(x: int, y: int, z: int, x': int, y': int, z': int)
    requires 0 <= y < 0x40 && 0 <= z < 0x40 && 0 <= y' < 0x40 && 0 <= z' < 0x40
    ensures 0x1000 * x + 0x40 * y + z < 0x1000 * x' + 0x40 * y' + z'
      <==> 0x1_0000 * x + 0x100 * y + z < 0x1_0000 * x' + 0x100 * y' + z'
  {
    assert 0x40 * y + z < 0x40 * y' + z' <==> 0x100 * y + z < 0x100 * y' + z' by {
      if y < y' { assert y + 1 <= y'; } else if y' < y { assert y' + 1 <= y; }
    }
    if x < x' { assert x + 1 <= x'; } else if x' < x { assert x' + 1 <= x; }
  }

  lemma Digits(a: CodePoint)
    requires |Encode(a)| == 3
    ensures var x, y, z := a / 0x1000, a / 0x40 % 0x40, a % 0x40;
      && a == 0x1000 * x + 0x40 * y + z && 0 <= y < 0x40 && 0 <= z < 0x40
      && WordAt(Encode(a), 0) == 0xE0_8080 + 0x1_0000 * x + 0x100 * y + z
  {
  }

  /** Record i of the table holds character i. */
  lemma {:induction false} RecordOf(chars: seq<CodePoint>, i: nat)
    requires ThreeByte(chars)
    ensures |EncodeAll(chars)| == 3 * |chars|
    ensures i < |chars| ==> Record(EncodeAll(chars), i) == WordAt(Encode(chars[i]), 0)
    decreases |chars|
  {
    if chars != [] {
      var rest := EncodeAll(chars[1..]);
      RecordOf(chars[1..], if i == 0 then 0 else i - 1);
      if i < |chars| { WordShift(Encode(chars[0]), rest, i); }
    }
  }

  lemma WordShift(c: seq<Byte>, rest: seq<Byte>, i: nat)
    requires |c| == 3 && 3 * i + 3 <= 3 + |rest|
    ensures Record(c + rest, i) == if i == 0 then WordAt(c, 0) else Record(rest, i - 1)
  {
  }

  lemma {:induction false} TableIsChars(chars: seq<CodePoint>, cp: CodePoint)
    requires ThreeByte(chars) && |Encode(cp)| == 3
    ensures InTable(EncodeAll(chars), WordAt(Encode(cp), 0)) <==> cp in chars
  {
    var table, word := EncodeAll(chars), WordAt(Encode(cp), 0);
    RecordOf(chars, 0);
    hide EncodeAll, Encode;
    if InTable(table, word) {
      var i :| 0 <= i < |table| / 3 && Record(table, i) == word;
      RecordOf(chars, i);
      WordOrder(chars[i], cp);
      WordOrder(cp, chars[i]);
    }
    if cp in chars {
      var i :| 0 <= i < |chars| && chars[i] == cp;
      RecordOf(chars, i);
      assert Record(table, i) == word;
    }
  }

  predicate InOrder(chars: seq<CodePoint>) {
    forall i, j | 0 <= i < j < |chars| :: chars[i] <= chars[j]
  }

  /** Characters in order make a sorted table. */
  lemma {:induction false} CharsSorted(chars: seq<CodePoint>)
    requires ThreeByte(chars) && InOrder(chars)
    ensures Sorted(EncodeAll(chars))
  {
    hide EncodeAll, Encode, Record, WordAt, InOrder, ThreeByte;
    var table := EncodeAll(chars);
    RecordOf(chars, 0);
    forall i, j | 0 <= i < j < |table| / 3 ensures Record(table, i) <= Record(table, j) {
      RecordOrder(chars, i, j);
    }
  }

  lemma RecordOrder(chars: seq<CodePoint>, i: nat, j: nat)
    requires ThreeByte(chars) && InOrder(chars) && i < j < |chars|
    ensures var table := EncodeAll(chars);
      |table| == 3 * |chars| && Record(table, i) <= Record(table, j)
  {
    hide EncodeAll, Encode, Record, WordAt;
    RecordOf(chars, i);
    RecordOf(chars, j);
    WordOrder(chars[j], chars[i]);
  }

  function CountIn(chars: seq<CodePoint>, text: seq<CodePoint>): nat {
    if text == [] then 0 else (if text[0] in chars then 1 else 0) + CountIn(chars, text[1..])
  }

  lemma {:induction false} OccurrencesAreCounts(chars: seq<CodePoint>, text: seq<CodePoint>)
    requires ThreeByte(chars)
    ensures Occurrences(EncodeAll(chars), text) == CountIn(chars, text)
    decreases |text|
  {
    if text != [] {
      hide EncodeAll, Encode, InTable;
      OccurrencesAreCounts(chars, text[1..]);
      if |Encode(text[0])| == 3 {
        TableIsChars(chars, text[0]);
      } else {
        NotAmong(chars, text[0]);
      }
    }
  }

  lemma NotAmong(chars: seq<CodePoint>, cp: CodePoint)
    requires ThreeByte(chars) && |Encode(cp)| != 3
    ensures cp !in chars
  {
  }

  /** The positions the count looks at are the character boundaries, except in the last two bytes. */
  function Visited(s: seq<Byte>, i: nat): seq<nat>
    decreases |s| - i
  {
    if i + 2 >= |s| then [] else [i] + Visited(s, i + LeadLength(s[i]))
  }

  function Boundaries(text: seq<CodePoint>, at: nat): seq<nat> {
    if text == [] then [] else [at] + Boundaries(text[1..], at + |Encode(text[0])|)
  }

  /** All of b that is not visited starts in the last two bytes. */
  predicate AllBut(v: seq<nat>, b: seq<nat>, end: nat) {
    |v| <= |b| && v == b[..|v|] && forall k | |v| <= k < |b| :: b[k] + 2 >= end
  }

  lemma AllButNext(at: nat, v: seq<nat>, b: seq<nat>, end: nat)
    requires AllBut(v, b, end)
    ensures AllBut([at] + v, [at] + b, end)
  {
  }

  lemma {:induction false} VisitsBoundaries(before: seq<Byte>, text: seq<CodePoint>)
    ensures var s := before + EncodeAll(text); AllBut(Visited(s, |before|), Boundaries(text, |before|), |s|)
    decreases |text|
  {
    hide Encode, LeadLength;
    var s, at := before + EncodeAll(text), |before|;
    if text == [] {
    } else if at + 2 >= |s| {
      BoundariesFrom(text, at);
    } else {
      LeadAt(before, text);
      hide EncodeAll, AllBut;
      var next := at + |Encode(text[0])|;
      assert Visited(s, at) == [at] + Visited(s, next) && Boundaries(text, at) == [at] + Boundaries(text[1..], next);
      hide Visited, Boundaries;
      VisitsBoundaries(before + Encode(text[0]), text[1..]);
      AllButNext(at, Visited(s, next), Boundaries(text[1..], next), |s|);
    }
  }

  lemma LeadAt(before: seq<Byte>, text: seq<CodePoint>)
    requires text != []
    ensures var s, c := before + EncodeAll(text), Encode(text[0]);
      s == (before + c) + EncodeAll(text[1..]) && |before| < |s| && LeadLength(s[|before|]) == |c|
  {
    LeadOfEncoding(text[0]);
    hide Encode;
    assert before + EncodeAll(text) == (before + Encode(text[0])) + EncodeAll(text[1..]);
  }

  lemma {:induction false} BoundariesFrom(text: seq<CodePoint>, at: nat)
    ensures forall k | 0 <= k < |Boundaries(text, at)| :: Boundaries(text, at)[k] >= at
    decreases |text|
  {
    if text != [] { BoundariesFrom(text[1..], at + |Encode(text[0])|); }
  }

  /** On well-formed text the count is the number of its three-byte characters in the table. */
  method CountChinese(table: seq<Byte>, str: seq<Byte>, ghost text: seq<CodePoint>) returns (count: nat)
    requires Sorted(table) && str == EncodeAll(text)
    ensures count == Occurrences(table, text)
  {
    CountIsOccurrences(table, [], text);
    assert [] + EncodeAll(text) == EncodeAll(text);
    count := CountWords(table, str);
  }
}
