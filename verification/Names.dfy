/** The name tables of a template level: hashing, bucket chains, and the prefix-matching lookup. */
module Names {
  import opened Search

  const TABLE_SIZE := 29

  // --- the hash function

  const WORD := 0x1_0000_0000

  /** A C char promoted to a 32-bit unsigned int: the byte is sign-extended. */
  function Promote(c: char): (p: nat)
    ensures p < WORD
    ensures var b := c as int % 256; var signed := if b < 128 then b else b - 256; (p - signed) % WORD == 0
  {
    var b := c as int % 256;
    if b < 128 then b else b + 0xFFFF_FF00
  }

  /** Exclusive or of the low bits. */
  function Xor(x: nat, y: nat, bits: nat): nat {
    if bits == 0 then 0 else (x + y) % 2 + 2 * Xor(x / 2, y / 2, bits - 1)
  }

  /** h = (h << 5) + c, with the top four bits folded into bits 4 to 7. */
  function Mix(h: nat, c: char): nat {
    var h' := (h * 32 + Promote(c)) % WORD;
    var g := h' - h' % 0x1000_0000;
    if g != 0 then Xor(Xor(h', g / 0x100_0000, 32), g, 32) else h'
  }

  function Pow2(k: nat): nat {
    if k == 0 then 1 else 2 * Pow2(k - 1)
  }

  /** The number with the lowest k bits of x below the bits of a. */
  function Join(a: nat, x: nat, k: nat): nat {
    if k == 0 then a else x % 2 + 2 * Join(a, x / 2, k - 1)
  }

  lemma JoinNext(a: nat, x: nat, k: nat)
    requires k > 0
    ensures Join(a, x, k) == x % 2 + 2 * Join(a, x / 2, k - 1)
  {
  }

  lemma {:induction false} JoinIs(a: nat, x: nat, k: nat)
    requires x < Pow2(k)
    ensures Join(a, x, k) == a * Pow2(k) + x
    decreases k
  {
    if k > 0 {
      hide Join, Pow2;
      JoinNext(a, x, k);
      assert Pow2(k) == 2 * Pow2(k - 1);
      JoinIs(a, x / 2, k - 1);
      assert a * (2 * Pow2(k - 1)) == 2 * (a * Pow2(k - 1));
    }
  }

  lemma XorNext(x: nat, y: nat, n: nat)
    requires n > 0
    ensures Xor(x, y, n) == (x + y) % 2 + 2 * Xor(x / 2, y / 2, n - 1)
    ensures Xor(x, y, n) % 2 == (x + y) % 2 && Xor(x, y, n) / 2 == Xor(x / 2, y / 2, n - 1)
  {
    var r := Xor(x / 2, y / 2, n - 1);
    assert Xor(x, y, n) == (x + y) % 2 + 2 * r;
    hide Xor;
    LowBit((x + y) % 2, r);
  }

  lemma LowBit(b: nat, q: nat)
    requires b < 2
    ensures (b + 2 * q) % 2 == b && (b + 2 * q) / 2 == q
  {
  }

  lemma XorBits(x: nat, p: nat, y: nat, q: nat, n: nat)
    requires n > 0
    ensures Xor(x % 2 + 2 * p, y % 2 + 2 * q, n) == (x + y) % 2 + 2 * Xor(p, q, n - 1)
  {
    hide Xor;
    LowBit(x % 2, p);
    LowBit(y % 2, q);
    XorNext(x % 2 + 2 * p, y % 2 + 2 * q, n);
    assert ((x % 2 + 2 * p) + (y % 2 + 2 * q)) % 2 == (x + y) % 2;
  }

  predicate Bit(x: nat, k: nat) {
    if k == 0 then x % 2 == 1 else Bit(x / 2, k - 1)
  }

  /** A bit of the exclusive or is set when it is set in one of the two numbers and not in the other. */
  lemma {:induction false} XorBit(x: nat, y: nat, n: nat, k: nat)
    requires k < n
    ensures Bit(Xor(x, y, n), k) == (Bit(x, k) != Bit(y, k))
    decreases k
  {
    hide Xor;
    XorNext(x, y, n);
    if k > 0 {
      XorBit(x / 2, y / 2, n - 1, k - 1);
    } else {
      Parity(x, y);
    }
  }

  lemma Parity(x: nat, y: nat)
    ensures (x + y) % 2 == 1 <==> (x % 2 == 1) != (y % 2 == 1)
  {
  }

  /** Exclusive or works on lower and upper bits apart. */
  lemma {:induction false} XorJoin(a: nat, b: nat, x: nat, y: nat, k: nat, n: nat)
    requires k <= n
    ensures Xor(Join(a, x, k), Join(b, y, k), n) == Join(Xor(a, b, n - k), Xor(x, y, k), k)
    decreases k
  {
    if k > 0 {
      hide Xor, Join;
      XorJoin(a, b, x / 2, y / 2, k - 1, n - 1);
      var p, q := Join(a, x / 2, k - 1), Join(b, y / 2, k - 1);
      JoinNext(a, x, k);
      JoinNext(b, y, k);
      XorBits(x, p, y, q, n);
      XorNext(x, y, k);
      JoinNext(Xor(a, b, n - k), Xor(x, y, k), k);
    }
  }

  lemma {:induction false} XorBelow(x: nat, y: nat, n: nat)
    ensures Xor(x, y, n) < Pow2(n)
    decreases n
  {
    if n > 0 { XorBelow(x / 2, y / 2, n - 1); }
  }

  /** Exclusive or of a number with itself gives nothing. */
  lemma {:induction false} XorSame(x: nat, n: nat)
    ensures Xor(x, x, n) == 0
    decreases n
  {
    if n > 0 { XorSame(x / 2, n - 1); }
  }

  lemma {:induction false} XorZero(x: nat, n: nat)
    requires x < Pow2(n)
    ensures Xor(x, 0, n) == x
    decreases n
  {
    if n > 0 { XorZero(x / 2, n - 1); }
  }

  /** The fold: the upper four of 32 bits are cleared, and flip bits 4 to 7. */
  lemma {:induction false} MixFolds(h: nat, c: char)
    ensures var h' := (h * 32 + Promote(c)) % WORD;
      var top, low := h' / 0x1000_0000, h' % 0x1000_0000;
      Mix(h, c) == Xor(low, 16 * top, 28) < 0x1000_0000
  {
    var h' := (h * 32 + Promote(c)) % WORD;
    var top, low := h' / 0x1000_0000, h' % 0x1000_0000;
    hide Promote;
    assert Pow2(28) == 0x1000_0000 by { Powers(); }
    hide Pow2;
    XorBelow(low, 16 * top, 28);
    Folded(h', top, low);
  }

  lemma Powers()
    ensures Pow2(28) == 0x1000_0000 && Pow2(4) == 16
  {
    assert Pow2(7) == 128 && Pow2(14) == 16384 && Pow2(21) == 0x20_0000;
  }

  lemma Folded(h: nat, top: nat, low: nat)
    requires h == top * 0x1000_0000 + low && top < 16 && low < 0x1000_0000
    ensures var g := top * 0x1000_0000;
      Xor(Xor(h, 16 * top, 32), g, 32) == Xor(low, 16 * top, 28) && (top == 0 ==> Xor(low, 0, 28) == low)
  {
    hide Xor, Join, Pow2;
    var fold := Xor(low, 16 * top, 28);
    Powers();
    XorBelow(low, 16 * top, 28);
    JoinIs(top, low, 28);
    JoinIs(0, 16 * top, 28);
    JoinIs(top, 0, 28);
    JoinIs(top, fold, 28);
    JoinIs(0, fold, 28);
    XorZero(top, 4);
    XorZero(fold, 28);
    XorZero(low, 28);
    XorSame(top, 4);
    XorJoin(top, 0, low, 16 * top, 28, 32);
    XorJoin(top, top, fold, 0, 28, 32);
  }

  function HashFrom(h: nat, rest: string): nat
    decreases rest
  {
    if rest == "" || rest[0] == '\0' then h else HashFrom(Mix(h, rest[0]), rest[1..])
  }

  /** The state after the last character of a name. */
  function HashState(key: string): nat
    requires key != ""
  {
    HashFrom(Promote(key[0]), key[1..])
  }

  /** The bucket of a name. The original reads past the end of an empty name. */
  function Hash(key: string): (b: nat)
    ensures b < TABLE_SIZE
  {
    if key == "" then 0 else HashState(key) % TABLE_SIZE
  }

  lemma {:induction false} HashFromNext(h: nat, rest: string, c: char)
    ensures HashFrom(h, rest + [c]) ==
      if '\0' in rest || c == '\0' then HashFrom(h, rest) else Mix(HashFrom(h, rest), c)
    decreases rest
  {
    hide Mix;
    if rest == "" {
      assert rest + [c] == [c] && [c][1..] == "";
      if c != '\0' { assert HashFrom(Mix(h, c), "") == Mix(h, c); }
    } else {
      assert rest == [rest[0]] + rest[1..] && (rest + [c])[1..] == rest[1..] + [c] && (rest + [c])[0] == rest[0];
      if rest[0] != '\0' { HashFromNext(Mix(h, rest[0]), rest[1..], c); }
    }
  }

  /** The hash begins with the first character's promoted value; each further character shifts the state up
      by five bits, is added, and the top is folded, until a NUL ends the name; the bucket is the remainder. */
  lemma {:induction false} HashGrows(key: string, c: char)
    ensures HashState([c]) == Promote(c)
    ensures key != "" ==> Hash(key) == HashState(key) % 29
    ensures key != "" ==>
      (HashState(key + [c]) == if '\0' in key[1..] || c == '\0' then HashState(key) else Mix(HashState(key), c))
  {
    hide Mix, Promote;
    assert [c][1..] == "";
    if key != "" {
      assert (key + [c])[0] == key[0] && (key + [c])[1..] == key[1..] + [c];
      HashFromNext(Promote(key[0]), key[1..], c);
    }
  }

  method HashLoop(key: string) returns (b: nat)
    requires key != ""
    ensures b == Hash(key)
  {
    var h: nat := Promote(key[0]);
    var k := 1;
    while k != |key| && key[k] != '\0'
      invariant 1 <= k <= |key|
      invariant HashFrom(h, key[k..]) == HashFrom(Promote(key[0]), key[1..])
      decreases |key| - k
    {
      assert key[k..][1..] == key[k + 1..];
      h := Mix(h, key[k]);
      k := k + 1;
    }
    b := h % TABLE_SIZE;
  }

  // --- lookup

  /** A lookup compares only the bytes of the key asked for, inside one bucket. */
  predicate Hit(stored: string, key: string) {
    Hash(stored) == Hash(key) && key <= stored
  }

  /** The cell found for key when the cells were created in the order of keys. */
  function Lookup(keys: seq<string>, key: string): Option<nat> {
    if keys == [] then None
    else
      var r := Lookup(keys[..|keys| - 1], key);
      if r.Some? then r
      else if Hit(keys[|keys| - 1], key) then Some(|keys| - 1)
      else None
  }

  predicate Misses(keys: seq<string>, key: string, n: nat) {
    forall i | 0 <= i < n && i < |keys| :: !Hit(keys[i], key)
  }

  lemma {:induction false} LookupSpec(keys: seq<string>, key: string)
    ensures match Lookup(keys, key)
      case None => Misses(keys, key, |keys|)
      case Some(k) => k < |keys| && Hit(keys[k], key) && Misses(keys, key, k)
  {
    if keys != [] {
      var init := keys[..|keys| - 1];
      LookupSpec(init, key);
      assert forall i | 0 <= i < |init| :: keys[i] == init[i];
    }
  }

  lemma LookupUnique(keys: seq<string>, key: string, k: nat)
    requires k < |keys| && Hit(keys[k], key) && Misses(keys, key, k)
    ensures Lookup(keys, key) == Some(k)
  {
    LookupSpec(keys, key);
  }

  lemma LookupNone(keys: seq<string>, key: string)
    requires Misses(keys, key, |keys|)
    ensures Lookup(keys, key) == None
  {
    LookupSpec(keys, key);
  }

  // --- when a lookup behaves like a map

  /** What a map from names to cells would answer. */
  predicate Exact(keys: seq<string>, key: string) {
    match Lookup(keys, key)
    case None => key !in keys
    case Some(k) => k < |keys| && keys[k] == key
  }

  /** Every cell of the bucket whose name properly extends key comes after a cell named key. */
  predicate Unshadowed(keys: seq<string>, key: string) {
    forall i | 0 <= i < |keys| && Hit(keys[i], key) && keys[i] != key :: key in keys[..i]
  }

  lemma {:induction false} ExactIff(keys: seq<string>, key: string)
    ensures Exact(keys, key) <==> Unshadowed(keys, key)
  {
    LookupSpec(keys, key);
    assert Hit(key, key);
    if Lookup(keys, key).Some? {
      var k := Lookup(keys, key).value;
      if keys[k] == key {
        forall i | 0 <= i < |keys| && Hit(keys[i], key) && keys[i] != key
          ensures key in keys[..i]
        {
          assert keys[..i][k] == key;
        }
      } else {
        assert key !in keys[..k];
      }
    }
  }

  /** The name "a" is answered with the cell of "aC": both fall into bucket 10. */
  lemma {:induction false} ShadowedLookup(stored: string, key: string)
    requires stored == "aC" && key == "a"
    ensures Hash(stored) == Hash(key) == 10
    ensures Lookup([stored], key) == Some(0) && !Exact([stored], key)
  {
    SameBucket(stored, key, 'a', 'C');
    hide Hash, Lookup;
    LookupUnique([stored], key, 0);
    LookupSpec([stored], key);
  }

  lemma SameBucket(stored: string, key: string, c: char, d: char)
    requires stored == [c, d] && key == [c] && c == 'a' && d == 'C'
    ensures Hash(stored) == Hash(key) == 10
  {
    hide Hash;
    assert Promote(c) == 97 && Promote(d) == 67;
    hide Promote;
    HashShort(c, d);
  }

  lemma HashShort(c: char, d: char)
    requires Promote(c) * 32 + Promote(d) < 0x1000_0000 && d != '\0'
    ensures Hash([c]) == Promote(c) % TABLE_SIZE
    ensures Hash([c, d]) == (Promote(c) * 32 + Promote(d)) % TABLE_SIZE
  {
    hide Mix, Promote;
    SmallMix(Promote(c), d);
    assert [c][1..] == [] && [c, d][1..] == [d] && [d][1..] == [];
    assert HashFrom(Promote(c), [d]) == HashFrom(Mix(Promote(c), d), []);
  }

  lemma SmallMix(h: nat, c: char)
    requires h * 32 + Promote(c) < 0x1000_0000
    ensures Mix(h, c) == h * 32 + Promote(c)
  {
    hide Promote, Xor;
  }

  // --- the tables a sequence of creations builds

  lemma LookupOnly(name: string)
    ensures Lookup([name], name) == Some(0)
  {
    assert [name][..0] == [];
  }

  /** No cell would have answered for a later one: what creation on a miss keeps. */
  predicate Separate(keys: seq<string>) {
    forall j | 0 <= j < |keys| :: Misses(keys, keys[j], j)
  }

  /** A stored name always finds its own cell, and no other cell has that name. */
  lemma {:induction false} StoredFound(keys: seq<string>, j: nat, m: nat)
    requires Separate(keys) && j < m <= |keys|
    ensures Lookup(keys[..m], keys[j]) == Some(j)
    ensures forall i | 0 <= i < |keys| && i != j :: keys[i] != keys[j]
  {
    assert Hit(keys[j], keys[j]);
    forall i | 0 <= i < j
      ensures !Hit(keys[..m][i], keys[j])
    {
      assert Misses(keys, keys[j], j);
    }
    LookupUnique(keys[..m], keys[j], j);
    forall i | 0 <= i < |keys| && i != j
      ensures keys[i] != keys[j]
    {
      if i < j { assert Misses(keys, keys[j], j); } else { assert Misses(keys, keys[i], i); }
      assert !Hit(keys[if i < j then i else j], keys[if i < j then j else i]);
      assert Hit(keys[i], keys[i]);
    }
  }

  lemma {:induction false} NewMissed(keys: seq<string>, j: nat)
    requires Separate(keys) && j < |keys|
    ensures Lookup(keys[..j], keys[j]) == None
  {
    assert Misses(keys, keys[j], j);
    LookupNone(keys[..j], keys[j]);
  }

  lemma {:induction false} SeparateExtended(keys: seq<string>, key: string)
    requires Separate(keys) && Lookup(keys, key).None?
    ensures Separate(keys + [key])
  {
    LookupSpec(keys, key);
    var all := keys + [key];
    forall j | 0 <= j < |all|
      ensures Misses(all, all[j], j)
    {
      if j < |keys| { assert Misses(keys, keys[j], j); }
    }
  }

  // --- bucket chains

  /** The cells of bucket b, oldest first. */
  function Chain(keys: seq<string>, b: nat): seq<nat> {
    if keys == [] then []
    else
      var n := |keys| - 1;
      Chain(keys[..n], b) + (if Hash(keys[n]) == b then [n] else [])
  }

  function Buckets(keys: seq<string>): (r: seq<seq<nat>>)
    ensures |r| == TABLE_SIZE && forall b | 0 <= b < TABLE_SIZE :: r[b] == Chain(keys, b)
  {
    seq(TABLE_SIZE, b requires 0 <= b => Chain(keys, b))
  }

  lemma {:induction false} ChainSpec(keys: seq<string>, b: nat)
    ensures forall c <- Chain(keys, b) :: c < |keys| && Hash(keys[c]) == b
    ensures forall i: nat | i < |keys| && Hash(keys[i]) == b :: i in Chain(keys, b)
  {
    if keys != [] {
      ChainSpec(keys[..|keys| - 1], b);
    }
  }

  lemma {:induction false} ChainSorted(keys: seq<string>, b: nat)
    ensures forall p, q | 0 <= p < q < |Chain(keys, b)| :: Chain(keys, b)[p] < Chain(keys, b)[q]
  {
    if keys != [] {
      var init := keys[..|keys| - 1];
      ChainSorted(init, b);
      ChainSpec(init, b);
      assert forall p | 0 <= p < |Chain(init, b)| :: Chain(init, b)[p] in Chain(init, b);
    }
  }

  /** Linking a new cell at the end of its chain. */
  lemma {:induction false} BucketsExtended(keys: seq<string>, key: string)
    ensures var h := Hash(key); Buckets(keys + [key]) == Buckets(keys)[h := Buckets(keys)[h] + [|keys|]]
  {
    var all, h := keys + [key], Hash(key);
    assert all[..|keys|] == keys;
    forall b | 0 <= b < TABLE_SIZE
      ensures Buckets(all)[b] == Buckets(keys)[h := Buckets(keys)[h] + [|keys|]][b]
    {
      assert Chain(all, b) == Chain(keys, b) + (if h == b then [|keys|] else []);
    }
  }

  /** Walking one chain to the first cell that starts with key finds the looked-up cell. */
  method Walk(keys: seq<string>, chain: seq<nat>, key: string) returns (r: Option<nat>)
    requires chain == Chain(keys, Hash(key))
    ensures r == Lookup(keys, key)
  {
    hide Hash, Chain;
    ChainSpec(keys, Hash(key));
    ChainSorted(keys, Hash(key));
    var p := 0;
    while p < |chain|
      invariant 0 <= p <= |chain|
      invariant forall q | 0 <= q < p :: chain[q] < |keys| && !(key <= keys[chain[q]])
    {
      var c := chain[p];
      assert c in chain;
      if key <= keys[c] {
        forall i: nat | i < c && Hash(keys[i]) == Hash(key)
          ensures !(key <= keys[i])
        {
          assert i in chain;
        }
        LookupUnique(keys, key, c);
        return Some(c);
      }
      p := p + 1;
    }
    LookupNone(keys, key);
    r := None;
  }

  // --- names met one after the other, each looked up and created on a miss

  /** The name of the cell that answers for name, its own if it is new. */
  function Captured(keys: seq<string>, name: string): string {
    LookupSpec(keys, name);
    match Lookup(keys, name)
    case None => name
    case Some(k) => keys[k]
  }

  function Produced(keys: seq<string>, name: string): seq<string> {
    if Lookup(keys, name).None? then keys + [name] else keys
  }

  /** The cells after all of names were met. */
  function Stored(names: seq<string>): seq<string> {
    if names == [] then [] else Produced(Stored(names[..|names| - 1]), names[|names| - 1])
  }

  /** Every name met is answered by a cell of that very name. */
  predicate AllExact(keys: seq<string>, names: seq<string>)
    decreases names
  {
    names == [] || (Captured(keys, names[0]) == names[0] && AllExact(Produced(keys, names[0]), names[1..]))
  }

  /** No name properly begins an earlier name of its bucket, unless it was met before that one. */
  predicate NamesClear(names: seq<string>) {
    forall i, j | 0 <= i < j < |names| && Hit(names[i], names[j]) && names[i] != names[j] :: names[j] in names[..i]
  }

  predicate AllIn(a: seq<string>, b: seq<string>) {
    forall x <- a :: x in b
  }

  lemma Belongs(a: seq<string>, b: seq<string>, x: string)
    requires AllIn(a, b) && x in a
    ensures x in b
  {
  }

  lemma NotBelongs(a: seq<string>, b: seq<string>, x: string)
    requires AllIn(a, b) && x !in b
    ensures x !in a
  {
  }

  lemma {:induction false} StoredPrefix(names: seq<string>, i: nat)
    requires i <= |names|
    ensures Stored(names[..i]) <= Stored(names)
    ensures AllIn(Stored(names), names)
  {
    if i == |names| {
      assert names[..i] == names;
    }
    if names != [] {
      var init := names[..|names| - 1];
      StoredPrefix(init, if i == |names| then |init| else i);
      assert AllIn(init, names);
      if i < |names| { assert init[..i] == names[..i]; }
    }
  }

  predicate PrefixesStored(names: seq<string>) {
    forall i | 0 <= i <= |names| :: AllIn(names[..i], Stored(names[..i]))
  }

  lemma FirstMet(names: seq<string>, x: string) returns (i: nat)
    requires x in names
    ensures i < |names| && names[i] == x && x !in names[..i]
  {
    i := 0;
    while names[i] != x
      invariant i < |names| && x !in names[..i]
      decreases |names| - i
    {
      i := i + 1;
    }
  }

  /** If a cell of another name answers n, that name was met before any cell named n was. */
  lemma CaptorMetFirst(names: seq<string>, n: string)
    requires PrefixesStored(names) && Captured(Stored(names), n) != n
    ensures !NamesClear(names + [n])
  {
    hide Stored, Lookup, Hash;
    var keys, all := Stored(names), names + [n];
    LookupSpec(keys, n);
    hide AllIn;
    var k := Lookup(keys, n).value;
    StoredPrefix(names, |names|);
    Belongs(keys, names, keys[k]);
    var i := FirstMet(names, keys[k]);
    StoredPrefix(names, i);
    StoredPrefix(names[..i], i);
    var before := Stored(names[..i]);
    NotBelongs(before, names[..i], keys[k]);
    assert forall j | 0 <= j < |before| :: before[j] == keys[j];
    assert |before| <= k;
    MissedNotIn(keys, n, k);
    NotBelongs(names[..i], before, n);
    assert all[..i] == names[..i] && all[i] == names[i] && all[|names|] == n;
  }

  lemma MissedNotIn(keys: seq<string>, n: string, k: nat)
    requires Misses(keys, n, k) && k <= |keys|
    ensures forall j | 0 <= j < k :: keys[j] != n
  {
    assert Hit(n, n);
  }

  lemma FoundAtMost(keys: seq<string>, n: string, k: nat)
    requires k < |keys| && Hit(keys[k], n)
    ensures Lookup(keys, n).Some? && Lookup(keys, n).value <= k
  {
    LookupSpec(keys, n);
  }

  lemma {:induction false} ClearStored(names: seq<string>)
    requires NamesClear(names)
    ensures PrefixesStored(names)
  {
    hide PrefixesStored, AllIn, Lookup, Hash, Hit;
    if names != [] {
      var init, n := names[..|names| - 1], names[|names| - 1];
      assert init + [n] == names;
      ClearStored(init);
      if Captured(Stored(init), n) != n {
        CaptorMetFirst(init, n);
        assert false;
      }
      LookupSpec(Stored(init), n);
      PrefixesNext(init, n);
    } else {
      NothingStored();
    }
  }

  lemma NothingStored()
    ensures PrefixesStored([])
  {
  }

  lemma PrefixesNext(init: seq<string>, n: string)
    requires PrefixesStored(init) && Captured(Stored(init), n) == n
    ensures PrefixesStored(init + [n])
  {
    var names := init + [n];
    hide AllIn, Stored, Lookup, Hash, Hit, Captured;
    StoresLast(init, n);
    assert names[..|names|] == names && init[..|init|] == init;
    AllInNext(init, Stored(init), Stored(names), n);
    forall i | 0 <= i <= |names|
      ensures AllIn(names[..i], Stored(names[..i]))
    {
      if i <= |init| { assert names[..i] == init[..i]; }
    }
  }

  lemma StoresLast(init: seq<string>, n: string)
    requires Captured(Stored(init), n) == n
    ensures Stored(init) <= Stored(init + [n]) && n in Stored(init + [n])
  {
    hide Lookup, Hash, Hit;
    LookupSpec(Stored(init), n);
    assert (init + [n])[..|init|] == init;
    assert Stored(init + [n]) == Produced(Stored(init), n);
  }

  lemma AllInNext(init: seq<string>, a: seq<string>, b: seq<string>, n: string)
    requires AllIn(init, a) && a <= b && n in b
    ensures AllIn(init + [n], b)
  {
    forall x <- init + [n] ensures x in b {
      if x in init { Belongs(init, a, x); }
    }
  }

  /** A name that is answered exactly was met before every name it properly begins. */
  lemma ExactMetFirst(names: seq<string>, n: string, i: nat)
    requires PrefixesStored(names) && Captured(Stored(names), n) == n
    requires i < |names| && Hit(names[i], n) && names[i] != n
    ensures n in names[..i]
  {
    hide Stored, Lookup, Hash, Hit, AllIn;
    var upto, keys := names[..i + 1], Stored(names);
    StoredPrefix(names, i + 1);
    StoredPrefix(upto, i + 1);
    assert upto[i] == names[i];
    Belongs(upto, Stored(upto), names[i]);
    var k :| 0 <= k < |Stored(upto)| && Stored(upto)[k] == names[i];
    assert keys[k] == names[i];
    FoundAtMost(keys, n, k);
    LookupSpec(keys, n);
    var k0 := Lookup(keys, n).value;
    assert Stored(upto)[k0] == keys[k0];
    Belongs(Stored(upto), upto, n);
    InInit(names, i, n);
  }

  lemma InInit(names: seq<string>, i: nat, n: string)
    requires i < |names| && n in names[..i + 1] && n != names[i]
    ensures n in names[..i]
  {
    assert names[..i + 1] == names[..i] + [names[i]];
  }

  /** The name met next is answered by a cell of that name if and only if it keeps the names clear. */
  lemma {:induction false} NextClear(names: seq<string>, n: string)
    requires NamesClear(names)
    ensures NamesClear(names + [n]) <==> Captured(Stored(names), n) == n
  {
    ClearStored(names);
    if Captured(Stored(names), n) == n {
      forall i | 0 <= i < |names| && Hit(names[i], n) && names[i] != n
        ensures n in names[..i]
      {
        ExactMetFirst(names, n, i);
      }
      ClearExtended(names, n);
    } else {
      CaptorMetFirst(names, n);
    }
  }

  lemma ClearExtended(names: seq<string>, n: string)
    requires NamesClear(names)
    requires forall i | 0 <= i < |names| && Hit(names[i], n) && names[i] != n :: n in names[..i]
    ensures NamesClear(names + [n])
  {
    var all := names + [n];
    forall i, j | 0 <= i < j < |all| && Hit(all[i], all[j]) && all[i] != all[j]
      ensures all[j] in all[..i]
    {
      assert all[..i] == names[..i];
    }
  }

  /** All names are answered exactly if and only if they are clear. */
  lemma {:induction false} AllExactFrom(met: seq<string>, names: seq<string>)
    requires NamesClear(met)
    ensures AllExact(Stored(met), names) <==> NamesClear(met + names)
    decreases names
  {
    if names == [] {
      assert met + names == met;
    } else {
      var n := names[0];
      NextClear(met, n);
      assert (met + [n])[..|met|] == met;
      assert met + names == (met + [n]) + names[1..];
      if NamesClear(met + [n]) {
        AllExactFrom(met + [n], names[1..]);
      } else {
        UnclearStays(met + [n], names[1..]);
      }
    }
  }

  lemma UnclearStays(a: seq<string>, b: seq<string>)
    requires !NamesClear(a)
    ensures !NamesClear(a + b)
  {
    var i, j :| 0 <= i < j < |a| && Hit(a[i], a[j]) && a[i] != a[j] && a[j] !in a[..i];
    assert (a + b)[i] == a[i] && (a + b)[j] == a[j] && (a + b)[..i] == a[..i];
  }

  lemma {:induction false} AllExactIff(names: seq<string>)
    ensures AllExact([], names) <==> NamesClear(names)
  {
    AllExactFrom([], names);
    assert [] + names == names;
  }
}
