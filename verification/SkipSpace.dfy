/** Finding the end of a text without its trailing spaces, a machine word at a time. */
module SkipSpace {
  import opened Bytes
  import opened Arithmetic

  const SPACE: Byte := 0x20

  /** The end of s without its trailing spaces, byte by byte. */
  function TrimEnd(s: seq<Byte>): nat {
    if s != [] && s[|s| - 1] == SPACE then TrimEnd(s[..|s| - 1]) else |s|
  }

  /** Only spaces follow that end, and no space is right before it. */
  lemma {:induction false} TrimEndSpec(s: seq<Byte>)
    ensures TrimEnd(s) <= |s| && (TrimEnd(s) > 0 ==> s[TrimEnd(s) - 1] != SPACE)
    ensures forall k | TrimEnd(s) <= k < |s| :: s[k] == SPACE
    decreases |s|
  {
    if s != [] && s[|s| - 1] == SPACE {
      var init := s[..|s| - 1];
      TrimEndSpec(init);
      assert forall k | 0 <= k < |init| :: init[k] == s[k];
    }
  }

  /** Dropping trailing spaces does not change the end. */
  lemma {:induction false} TrimDrop(s: seq<Byte>, n: nat)
    requires n <= |s| && forall k | n <= k < |s| :: s[k] == SPACE
    ensures TrimEnd(s[..n]) == TrimEnd(s)
    decreases |s|
  {
    if n == |s| {
      assert s[..n] == s;
    } else {
      TrimDrop(s[..|s| - 1], n);
      assert s[..|s| - 1][..n] == s[..n];
    }
  }

  lemma TrimNone(s: seq<Byte>, n: nat)
    requires n <= |s| && (n > 0 ==> s[n - 1] != SPACE)
    ensures TrimEnd(s[..n]) == n
  {
  }

  /** A machine word read from memory, on either byte order. */
  function Word(b: seq<Byte>, bigEndian: bool): nat {
    if b == [] then 0
    else if bigEndian then b[|b| - 1] + 0x100 * Word(b[..|b| - 1], bigEndian)
    else b[0] + 0x100 * Word(b[1..], bigEndian)
  }

  function Spaces(n: nat): (b: seq<Byte>)
    ensures |b| == n && forall k | 0 <= k < n :: b[k] == SPACE
  {
    seq(n, _ => SPACE)
  }

  /** A word that contains only spaces. */
  function SpaceInt(size: nat, bigEndian: bool): nat {
    Word(Spaces(size), bigEndian)
  }

  /** Words of the same size are equal only if all their bytes are. */
  lemma {:induction false} WordInjective(a: seq<Byte>, b: seq<Byte>, bigEndian: bool)
    requires |a| == |b| && Word(a, bigEndian) == Word(b, bigEndian)
    ensures a == b
    decreases |a|
  {
    if a != [] {
      var n := |a| - 1;
      if bigEndian {
        WordInjective(a[..n], b[..n], bigEndian);
        assert a == a[..n] + [a[n]] && b == b[..n] + [b[n]];
      } else {
        WordInjective(a[1..], b[1..], bigEndian);
        assert a == [a[0]] + a[1..] && b == [b[0]] + b[1..];
      }
    }
  }

  /** The constants that the header defines for the two sizes of an int. */
  lemma SpaceConstants(bigEndian: bool)
    ensures SpaceInt(4, bigEndian) == 0x20202020 && SpaceInt(8, bigEndian) == 0x2020202020202020
  {
    SpaceNext(0, bigEndian); SpaceNext(1, bigEndian); SpaceNext(2, bigEndian); SpaceNext(3, bigEndian);
    SpaceNext(4, bigEndian); SpaceNext(5, bigEndian); SpaceNext(6, bigEndian); SpaceNext(7, bigEndian);
  }

  lemma SpaceNext(n: nat, bigEndian: bool)
    ensures SpaceInt(0, bigEndian) == 0 && SpaceInt(n + 1, bigEndian) == 0x20 + 0x100 * SpaceInt(n, bigEndian)
  {
    assert Spaces(n + 1)[1..] == Spaces(n) && Spaces(n + 1)[..n] == Spaces(n);
  }

  lemma DropWord(buf: seq<Byte>, n: nat, size: nat, bigEndian: bool)
    requires size <= n <= |buf| && Word(buf[n - size..n], bigEndian) == SpaceInt(size, bigEndian)
    ensures TrimEnd(buf[..n - size]) == TrimEnd(buf[..n])
  {
    var b := buf[n - size..n];
    WordInjective(b, Spaces(size), bigEndian);
    forall k | n - size <= k < n ensures buf[..n][k] == SPACE { assert b[k - (n - size)] == buf[k]; }
    TrimDrop(buf[..n], n - size);
    assert buf[..n][..n - size] == buf[..n - size];
  }

  lemma DropByte(buf: seq<Byte>, n: nat)
    requires 0 < n <= |buf| && buf[n - 1] == SPACE
    ensures TrimEnd(buf[..n - 1]) == TrimEnd(buf[..n])
  {
    TrimDrop(buf[..n], n - 1);
    assert buf[..n][..n - 1] == buf[..n - 1];
  }

  // --- aligned addresses

  ghost predicate Aligned(x: nat, size: nat) {
    exists q: nat {:trigger Times(size, q)} :: x == Times(size, q)
  }

  function Times(a: nat, b: nat): nat {
    a * b
  }

  /** Between two aligned addresses there is room for a word, and the one below is aligned. */
  lemma RoomForWord(size: nat, start: nat, end: nat)
    requires Aligned(start, size) && Aligned(end, size) && start < end
    ensures start + size <= end && Aligned(end - size, size)
  {
    var p: nat :| start == Times(size, p);
    var q: nat :| end == Times(size, q);
    if q <= p { MulMono(size, q, size, p); }
    Gap(size, p, q);
    assert size * (q - 1) == size * q - size;
    assert end - size == Times(size, q - 1);
  }

  lemma AlignDown(x: nat, size: nat)
    requires size > 0
    ensures Aligned(x / size * size, size) && x / size * size <= x
  {
    Euclid(x, size);
    assert x / size * size == Times(size, x / size);
  }

  lemma AlignUp(x: nat, size: nat)
    requires size > 0
    ensures Aligned((x + size - 1) / size * size, size) && (x + size - 1) / size * size >= x
  {
    AlignDown(x + size - 1, size);
    Euclid(x + size - 1, size);
  }

  /** Scans whole words backwards from the aligned address end, no further than start. */
  method SkipWords(buf: seq<Byte>, ptr: nat, start: nat, end: nat, size: nat, bigEndian: bool) returns (r: nat)
    requires size > 0 && Aligned(start, size) && Aligned(end, size) && ptr <= start <= end <= ptr + |buf|
    ensures start <= r <= end && TrimEnd(buf[..r - ptr]) == TrimEnd(buf[..end - ptr])
  {
    hide Aligned;
    r := end;
    if r > start { RoomForWord(size, start, r); }
    while r > start && Word(buf[r - size - ptr..r - ptr], bigEndian) == SpaceInt(size, bigEndian)
      invariant start <= r <= end && Aligned(r, size) && (r > start ==> start + size <= r)
      invariant TrimEnd(buf[..r - ptr]) == TrimEnd(buf[..end - ptr])
    {
      RoomForWord(size, start, r);
      DropWord(buf, r - ptr, size, bigEndian);
      r := r - size;
      if r > start { RoomForWord(size, start, r); }
    }
  }

  method SkipBytes(buf: seq<Byte>, ptr: nat, start: nat, end: nat) returns (r: nat)
    requires ptr <= start <= end <= ptr + |buf|
    ensures start <= r <= end && TrimEnd(buf[..r - ptr]) == TrimEnd(buf[..end - ptr])
    ensures r > start ==> buf[r - 1 - ptr] != SPACE
  {
    r := end;
    while r > start && buf[r - 1 - ptr] == SPACE
      invariant start <= r <= end && TrimEnd(buf[..r - ptr]) == TrimEnd(buf[..end - ptr])
    {
      DropByte(buf, r - ptr);
      r := r - 1;
    }
  }

  /** buf lies at address ptr; the result is an offset into it. Every byte is read within buf. */
  method SkipTrailingSpace(buf: seq<Byte>, ptr: nat, size: nat, bigEndian: bool) returns (r: nat)
    requires 0 < size
    ensures r == TrimEnd(buf)
  {
    var end := ptr + |buf|;
    assert buf[..end - ptr] == buf;
    if |buf| > 20 {
      AlignDown(end, size);
      AlignUp(ptr, size);
      var endWords := end / size * size;
      var startWords := (ptr + size - 1) / size * size;
      if endWords > ptr {
        end := SkipBytes(buf, ptr, endWords, end);
        if buf[end - 1 - ptr] == SPACE && startWords < endWords {
          end := SkipWords(buf, ptr, startWords, end, size, bigEndian);
        }
      }
    }
    end := SkipBytes(buf, ptr, ptr, end);
    TrimNone(buf, end - ptr);
    r := end - ptr;
  }
}
