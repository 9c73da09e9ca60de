/** Integers written out in decimal, as the template fields and the HTTP header hold them. */
module Decimal {
  const INT_MIN := -0x8000_0000
  const INT_MAX := 0x7FFF_FFFF
  const UINT_MAX := 0xFFFF_FFFF

  /** sizeof(int) is 4. */
  const REV_LEN := 10

  // --- C arithmetic

  /** Division that truncates toward zero. */
  function Quot(a: int, b: int): int
    requires b > 0
  {
    if a >= 0 then a / b else -(-a / b)
  }

  function Rem(a: int, b: int): int
    requires b > 0
  {
    a - b * Quot(a, b)
  }

  function Abs(a: int): nat {
    if a < 0 then -a else a
  }

  // --- the decimal form

  function Digit(d: nat): char
    requires d < 10
  {
    '0' + d as char
  }

  function Digits(n: nat): (s: string)
    ensures s != "" && s[0] != '-'
  {
    if n < 10 then [Digit(n)] else Digits(n / 10) + [Digit(n % 10)]
  }

  function DecimalForm(v: int): string {
    if v < 0 then "-" + Digits(-v) else Digits(v)
  }

  predicate IsDigit(c: char) {
    '0' <= c <= '9'
  }

  predicate AllDigits(s: string) {
    forall k | 0 <= k < |s| :: IsDigit(s[k])
  }

  /** What a digit string stands for, read from the left. */
  function Value(s: string): nat
    requires AllDigits(s)
  {
    if s == "" then 0 else 10 * Value(s[..|s| - 1]) + (s[|s| - 1] - '0') as int
  }

  /** The digit strings without a superfluous leading zero. */
  predicate Canonical(s: string) {
    s != "" && AllDigits(s) && (s[0] == '0' ==> |s| == 1)
  }

  /** Writing and reading back gives the number, and what is written is canonical. */
  lemma {:induction false} DigitsRead(n: nat)
    ensures Canonical(Digits(n)) && Value(Digits(n)) == n
    ensures Digits(n)[0] == '0' <==> n == 0
    decreases n
  {
    if n >= 10 {
      DigitsRead(n / 10);
      assert Digits(n)[..|Digits(n)| - 1] == Digits(n / 10);
    }
  }

  lemma {:induction false} ValuePositive(s: string)
    requires AllDigits(s) && s != "" && s[0] != '0'
    ensures Value(s) > 0
  {
    if |s| > 1 { ValuePositive(s[..|s| - 1]); }
  }

  /** Reading a canonical string and writing it back gives the string. */
  lemma {:induction false} ReadDigits(s: string)
    requires Canonical(s)
    ensures Digits(Value(s)) == s
  {
    var n := |s| - 1;
    if n == 0 {
      assert Value(s[..0]) == 0;
    } else {
      assert s[..n][0] == s[0];
      ReadDigits(s[..n]);
      ValuePositive(s[..n]);
      OneMore(Value(s[..n]), s[n]);
      assert Value(s) == 10 * Value(s[..n]) + (s[n] - '0') as int;
      hide Digits, Value;
      assert s == s[..n] + [s[n]];
    }
  }

  lemma OneMore(v: nat, c: char)
    requires v > 0 && IsDigit(c)
    ensures Digits(10 * v + (c - '0') as int) == Digits(v) + [c]
  {
    var d := (c - '0') as int;
    assert (10 * v + d) / 10 == v && (10 * v + d) % 10 == d && Digit(d) == c;
  }

  lemma DigitsInjective(a: nat, b: nat)
    requires Digits(a) == Digits(b)
    ensures a == b
  {
    DigitsRead(a);
    DigitsRead(b);
  }

  /** The decimal texts of integers: canonical digits, after a minus sign if they do not stand for zero. */
  predicate SignedCanonical(s: string) {
    Canonical(s) || (s != "" && s[0] == '-' && Canonical(s[1..]) && s[1..] != "0")
  }

  /** The integer a decimal text stands for. */
  function IntValue(s: string): int
    requires SignedCanonical(s)
  {
    if s[0] == '-' then 0 - Value(s[1..]) else Value(s)
  }

  /** Every int survives being written and read, negative ones included, and what is written is canonical. */
  lemma {:induction false} DecimalRead(v: int)
    ensures var s := DecimalForm(v); SignedCanonical(s) && IntValue(s) == v
  {
    hide Canonical, Value, Digits;
    DigitsRead(Abs(v));
    DigitZero(Abs(v));
    if v < 0 { assert DecimalForm(v)[1..] == Digits(-v); }
  }

  lemma DigitZero(n: nat)
    ensures Digits(n) == "0" <==> n == 0
  {
    DigitsRead(n);
  }

  /** Every canonical text of an integer is what that integer is written as: there is no other form. */
  lemma {:induction false} ReadDecimal(s: string)
    requires SignedCanonical(s)
    ensures DecimalForm(IntValue(s)) == s
  {
    var digits := if s[0] == '-' then s[1..] else s;
    assert s[0] == '-' ==> s == "-" + digits;
    ReadDigits(digits);
    DigitZero(Value(digits));
  }

  // --- the conversion loop

  function Pow10(k: nat): nat {
    if k == 0 then 1 else 10 * Pow10(k - 1)
  }

  /** A number below 10^k has at most k digits. */
  lemma {:induction false} DigitCount(n: nat, k: nat)
    requires n < Pow10(k) && k > 0
    ensures |Digits(n)| <= k
    decreases k
  {
    if n >= 10 { DigitCount(n / 10, k - 1); }
  }

  lemma TenDigits(v: int)
    requires INT_MIN <= v <= INT_MAX
    ensures |Digits(Abs(v))| <= REV_LEN
  {
    assert Pow10(5) == 100_000;
    assert Pow10(10) == 10_000_000_000;
    DigitCount(Abs(v), 10);
  }

  /** What the conversion writes: in unsigned mode a negative int loses its sign. */
  function Text(v: int, signed: bool): string {
    if signed then DecimalForm(v) else Digits(Abs(v))
  }

  /** Fills rev with the digits, last digit first. */
  method ReverseDigits(rev: array<char>, val: int) returns (digits: nat)
    requires rev.Length == REV_LEN && INT_MIN <= val <= INT_MAX
    modifies rev
    ensures digits == |Digits(Abs(val))| <= REV_LEN
    ensures forall k | 0 <= k < digits :: rev[k] == Digits(Abs(val))[digits - 1 - k]
  {
    TenDigits(val);
    ghost var all := Digits(Abs(val));
    var v := val;
    digits := 0;
    while true
      invariant digits < |all| <= REV_LEN && all[..|all| - digits] == Digits(Abs(v))
      invariant forall k | 0 <= k < digits :: rev[k] == all[|all| - 1 - k]
      decreases Abs(v)
    {
      assert Abs(Rem(v, 10)) == Abs(v) % 10 && Abs(Quot(v, 10)) == Abs(v) / 10;
      assert Quot(v, 10) == 0 <==> Abs(v) < 10;
      rev[digits] := '0' + Abs(Rem(v, 10)) as char;
      digits := digits + 1;
      v := Quot(v, 10);
      if v == 0 { break; }
    }
  }

  function Min(a: int, b: int): int {
    if a < b then a else b
  }

  /** Writes the reversed digits forward after the first i characters, as far as bufferLen allows. */
  method WriteDigits(buffer: array<char>, at: nat, i: nat, bufferLen: nat, rev: array<char>, n: nat, ghost d: string)
    returns (len: nat)
    requires rev != buffer && |d| == n <= rev.Length && forall k | 0 <= k < n :: rev[k] == d[n - 1 - k]
    requires at + i < buffer.Length && at + bufferLen < buffer.Length
    modifies buffer
    ensures len == (if i < bufferLen then Min(i + n, bufferLen) else i)
    ensures buffer[at + i..at + len] == d[..len - i]
    ensures buffer[..at + i] == old(buffer[..at + i]) && buffer[at + len..] == old(buffer[at + len..])
  {
    len := i;
    var digits := n;
    while digits > 0 && len < bufferLen
      invariant 0 <= digits <= n && len == i + (n - digits) && (len <= bufferLen || len == i)
      invariant forall k | 0 <= k < len - i :: buffer[at + i + k] == d[k]
      invariant forall k | 0 <= k < buffer.Length && !(at + i <= k < at + len) :: buffer[k] == old(buffer[k])
    {
      digits := digits - 1;
      buffer[at + len] := rev[digits];
      len := len + 1;
    }
    SliceIs(buffer[..], at + i, d[..len - i]);
  }

  lemma SliceIs(s: string, at: nat, part: string)
    requires at + |part| <= |s| && forall k | 0 <= k < |part| :: s[at + k] == part[k]
    ensures s[at..at + |part|] == part
  {
  }

  /** How much of a text fits: all of it or as much as the field holds, but a sign is always written. */
  function Fitting(s: string, bufferLen: nat): (len: nat)
    requires s != ""
    ensures len <= |s| && (len == |s| || len >= bufferLen) && (s[0] == '-' ==> len > 0)
    ensures len <= bufferLen || (s[0] == '-' && len == 1)
  {
    if bufferLen == 0 && s[0] == '-' then 1 else Min(|s|, bufferLen)
  }

  /** Writes val at position at of a field that holds bufferLen characters and a final NUL.
      What does not fit is cut off at the right. */
  method IntToString(buffer: array<char>, at: nat, bufferLen: nat, val: int, signed: bool) returns (len: nat)
    requires INT_MIN <= val <= INT_MAX && at + 1 < buffer.Length && at + bufferLen < buffer.Length
    modifies buffer
    ensures len == Fitting(Text(val, signed), bufferLen)
    ensures at + len < buffer.Length && buffer[at..at + len] == Text(val, signed)[..len] && buffer[at + len] == '\0'
    ensures buffer[..at] == old(buffer[..at]) && buffer[at + len + 1..] == old(buffer[at + len + 1..])
  {
    hide Digits;
    var rev := new char[REV_LEN];
    var i := 0;
    if signed && val < 0 {
      buffer[at] := '-';
      i := 1;
    }
    ghost var sign, d := buffer[at..at + i], Digits(Abs(val));
    assert Text(val, signed) == sign + d;
    var digits := ReverseDigits(rev, val);
    ghost var before := buffer[..];
    len := WriteDigits(buffer, at, i, bufferLen, rev, digits, d);
    Joins(before, buffer[..], at, i, len);
    assert (sign + d)[..len] == sign + d[..len - |sign|];
    ghost var after := buffer[..];
    assert after[at + len..][1..] == after[at + len + 1..] && before[at + len..][1..] == before[at + len + 1..];
    assert after[at + len + 1..] == before[at + len + 1..];
    buffer[at + len] := '\0';
    assert buffer[at..at + len] == after[at..at + len];
    assert buffer[at + len + 1..] == after[at + len + 1..];
  }

  lemma Joins(before: string, after: string, at: nat, i: nat, len: nat)
    requires at + i <= at + len <= |after| == |before| && after[..at + i] == before[..at + i]
    ensures after[at..at + len] == before[at..at + i] + after[at + i..at + len]
    ensures after[..at] == before[..at]
  {
    assert after[at..at + i] == after[..at + i][at..];
  }

  // --- unsigned values

  /** The int that holds the bits of an unsigned value. */
  function AsInt(u: nat): (v: int)
    requires u <= UINT_MAX
    ensures INT_MIN <= v <= INT_MAX && (u - v) % 0x1_0000_0000 == 0
  {
    if u <= INT_MAX then u else u - 0x1_0000_0000
  }

  /** An unsigned value is written right exactly up to 2^31; beyond, its two's complement is. */
  lemma {:induction false} UnsignedIff(u: nat)
    requires u <= UINT_MAX
    ensures Text(AsInt(u), false) == Digits(u) <==> u <= 0x8000_0000
    ensures u > 0x8000_0000 ==> Text(AsInt(u), false) == Digits(0x1_0000_0000 - u)
  {
    hide Digits;
    if u > 0x8000_0000 && Text(AsInt(u), false) == Digits(u) { DigitsInjective(Abs(AsInt(u)), u); }
  }

  /** 2^32 - 1 is written as 1. */
  lemma UnsignedWraps()
    ensures Text(AsInt(UINT_MAX), false) == "1"
  {
  }
}
