/** Multiply-accumulate over little-endian limbs: d += s * b, with a carry limb in and out. */
module MulAdd {
  import opened Arithmetic

  function Pow(base: nat, k: nat): nat {
    if k == 0 then 1 else base * Pow(base, k - 1)
  }

  /** The number a list of limbs stands for. */
  function Value(base: nat, x: seq<nat>): nat {
    if x == [] then 0 else Value(base, x[..|x| - 1]) + x[|x| - 1] * Pow(base, |x| - 1)
  }

  predicate Limbs(base: nat, x: seq<nat>) {
    forall k | 0 <= k < |x| :: x[k] < base
  }

  /** The limbs and the carry after one exact step per limb. */
  function Steps(base: nat, s: seq<nat>, d: seq<nat>, b: nat, c: nat): (seq<nat>, nat)
    requires |s| == |d| && base > 0
  {
    if s == [] then ([], c)
    else
      var n := |s| - 1;
      var (x, carry) := Steps(base, s[..n], d[..n], b, c);
      var sum := s[n] * b + d[n] + carry;
      (x + [sum % base], sum / base)
  }

  /** The largest sum of a step is base^2 - 1: no carry is lost. */
  lemma SumBound(base: nat, s: nat, b: nat, d: nat, c: nat)
    requires s < base && b < base && d < base && c < base
    ensures s * b + d + c < base * base && (s * b + d + c) / base < base
  {
    MulMono(s, b, base - 1, base - 1);
    Square(base - 1);
    QuotientBound(s * b + d + c, base);
  }

  /** The steps keep the value: value(d') + c' * base^n = value(d) + b * value(s) + c. */
  lemma {:induction false} StepsValue(base: nat, s: seq<nat>, d: seq<nat>, b: nat, c: nat)
    requires |s| == |d| && Limbs(base, s) && Limbs(base, d) && b < base && c < base
    ensures var (x, carry) := Steps(base, s, d, b, c);
      && |x| == |d| && Limbs(base, x) && carry < base
      && Value(base, x) + carry * Pow(base, |s|) == Value(base, d) + b * Value(base, s) + c
    decreases |s|
  {
    if s != [] {
      var n := |s| - 1;
      StepsValue(base, s[..n], d[..n], b, c);
      var (x, carry) := Steps(base, s[..n], d[..n], b, c);
      SumBound(base, s[n], b, d[n], carry);
      var sum := s[n] * b + d[n] + carry;
      assert (x + [sum % base])[..n] == x;
      StepValue(base, Pow(base, n), s[n], b, d[n], carry, Value(base, x), Value(base, d[..n]), Value(base, s[..n]), c);
    }
  }

  lemma StepValue(base: nat, p: nat, s: nat, b: nat, d: nat, carry: nat, x: nat, dv: nat, sv: nat, c: nat)
    requires base > 0 && x + carry * p == dv + b * sv + c
    ensures var sum := s * b + d + carry;
      x + (sum % base) * p + (sum / base) * (base * p) == (dv + d * p) + b * (sv + s * p) + c
  {
    var sum := s * b + d + carry;
    calc {
      (sum % base) * p + (sum / base) * (base * p);
      { MulAssoc(sum / base, base, p); }
      (sum % base + (sum / base) * base) * p;
      sum * p;
      { Distribute(s * b, d, carry, p); }
      (s * b) * p + d * p + carry * p;
    }
    assert b * (sv + s * p) == b * sv + b * (s * p);
    MulAssoc(b, s, p);
  }

  // --- words that wrap around

  /** r0 += x; r1 += (r0 < x): the comparison recovers the carry of the wrapped sum. */
  method AddWithCarry(base: nat, r0: nat, r1: nat, x: nat) returns (y0: nat, y1: nat)
    requires r0 < base && r1 < base && x < base && base * r1 + r0 + x < base * base
    ensures y0 < base && y1 < base && base * y1 + y0 == base * r1 + r0 + x
  {
    CarryOut(base, r0, r1, x);
    y0 := (r0 + x) % base;
    y1 := (r1 + if y0 < x then 1 else 0) % base;
  }

  lemma CarryOut(base: nat, r0: nat, r1: nat, x: nat)
    requires r0 < base && r1 < base && x < base && base * r1 + r0 + x < base * base
    ensures var y := (r0 + x) % base; var k := if y < x then 1 else 0;
      y < base && base * (r1 + k) + y == base * r1 + r0 + x && r1 + k < base && (r1 + k) % base == r1 + k
  {
    if r0 + x < base {
      DivModUnique(base, 0, r0 + x);
      DivModUnique(base, 0, r1);
    } else {
      DivModUnique(base, 1, r0 + x - base);
      assert base * (r1 + 1) == base * r1 + base;
      BelowSquare(base, r1 + 1);
      DivModUnique(base, 0, r1 + 1);
    }
  }

  // --- the double-limb step

  /** One step with products in words of two limbs. */
  method WideStep(base: nat, s: nat, b: nat, d: nat, c: nat) returns (r0: nat, r1: nat)
    requires s < base && b < base && d < base && c < base
    ensures r0 == (s * b + d + c) % base && r1 == (s * b + d + c) / base
  {
    SumBound(base, s, b, d, c);
    r0, r1 := WideSum(base, s * b, d, c);
  }

  /** The product p in a word of two limbs, and both sums over its halves. */
  method WideSum(base: nat, p: nat, d: nat, c: nat) returns (r0: nat, r1: nat)
    requires d < base && c < base && p + d + c < base * base
    ensures r0 == (p + d + c) % base && r1 == (p + d + c) / base
  {
    WideProduct(base, p);
    var r := p % (base * base);
    r0 := r % base;
    r1 := r / base % base;
    r0, r1 := AddWithCarry(base, r0, r1, c);
    r0, r1 := AddWithCarry(base, r0, r1, d);
    DivModUnique(base, r1, r0);
  }

  lemma WideProduct(base: nat, p: nat)
    requires base > 0 && p < base * base
    ensures p % (base * base) == p && p % base < base && (p / base) % base == p / base && p / base < base
    ensures base * (p / base) + p % base == p
  {
    DivModUnique(base * base, 0, p);
    Euclid(p, base);
    QuotientBound(p, base);
    DivModUnique(base, 0, p / base);
  }

  // --- the half-limb step: limbs of two halves, base == half * half

  /** Shifting up in a word, and down again, keeps the lower half. */
  lemma LowHalf(half: nat, base: nat, x: nat) returns (u: nat, m: nat)
    requires half > 0 && base == half * half
    ensures u == x / half && m == x * half % base < base && m / half == x % half < half
      && x * half == base * (x / half) + m
  {
    var q, r := x / half, x % half;
    Euclid(x, half);
    Gap(half, r, half);
    assert (half * q + r) * half == (half * half) * q + r * half;
    DivModUnique(base, q, r * half);
    DivModUnique(half, r, 0);
    u, m := q, r * half;
  }

  lemma HalfProduct(half: nat, base: nat, x: nat, y: nat) returns (p: nat)
    requires x < half && y < half && base == half * half
    ensures p == x * y < base && x * y % base == p
  {
    p := x * y;
    MulMono(x, y, half - 1, half - 1);
    Square(half - 1);
    Small(base, p);
  }

  lemma Expand(h: nat, s0: nat, s1: nat, b0: nat, b1: nat)
    ensures (h * s1 + s0) * (h * b1 + b0) == (h * h) * (s1 * b1) + (s0 * b1) * h + (s1 * b0) * h + s0 * b0
  {
    calc {
      (h * s1 + s0) * (h * b1 + b0);
      (h * s1) * (h * b1) + (h * s1) * b0 + s0 * (h * b1) + s0 * b0;
    }
  }

  /** The product of two limbs, from the products of their halves. */
  lemma Halves(half: nat, base: nat, s: nat, b: nat, b0: nat, b1: nat) returns (p: nat, x: nat, y: nat, q: nat)
    requires half > 0 && base == half * half && b == half * b1 + b0
    ensures p == (s % half) * b0 && x == (s % half) * b1 && y == (s / half) * b0 && q == (s / half) * b1
    ensures s * b == base * q + x * half + y * half + p
  {
    var s0, s1 := s % half, s / half;
    Euclid(s, half);
    Expand(half, s0, s1, b0, b1);
    p, x, y, q := s0 * b0, s0 * b1, s1 * b0, s1 * b1;
  }

  /** The four half products add up to the product; the middle ones are split by shifting. */
  lemma HalfProducts(base: nat, product: nat, p: nat, xh: nat, yh: nat, q: nat, u: nat, v: nat, mx: nat, my: nat)
    requires product == base * q + xh + yh + p && xh == base * u + mx && yh == base * v + my
    ensures base * (q + u + v) + (p + mx + my) == product
  {
    Distribute(q, u, v, base);
  }

  /** The upper sums of the half products stay below the base. */
  lemma UpperSmall(base: nat, q: nat, u: nat, v: nat, low: nat, product: nat)
    requires base * (q + u + v) + low == product < base * base
    ensures (q + u) % base == q + u && (q + u + v) % base == q + u + v < base
  {
    BelowSquare(base, q + u + v);
    Small(base, q + u + v);
    Small(base, q + u);
  }

  /** The halves of s, and the upper sums over already known half products. */
  lemma UpperParts(half: nat, base: nat, s: nat, b: nat, b0: nat, b1: nat, p: nat, x: nat, y: nat, q: nat)
    returns (u: nat, v: nat, mx: nat, my: nat)
    requires half > 0 && base == half * half && b == half * b1 + b0 && b < base && s < base
    requires p == (s % half) * b0 && x == (s % half) * b1 && y == (s / half) * b0 && q == (s / half) * b1
    ensures mx == x * half % base < base && my == y * half % base < base && u == x / half && v == y / half
    ensures (q + u) % base == q + u && (q + u + v) % base == q + u + v < base
    ensures base * (q + u + v) + (p + mx + my) == s * b < base * base
  {
    u, mx := LowHalf(half, base, x);
    v, my := LowHalf(half, base, y);
    SumBound(base, s, b, 0, 0);
    var product := s * b;
    var p', x', y', q' := Halves(half, base, s, b, b0, b1);
    HalfProducts(base, product, p, x * half, y * half, q, u, v, mx, my);
    UpperSmall(base, q, u, v, p + mx + my, product);
  }

  /** All that the step computes from the product, without a wrap. */
  lemma HalfParts(half: nat, base: nat, s: nat, b0: nat, b1: nat) returns (p: nat, x: nat, y: nat, q: nat)
    requires half > 0 && base == half * half && b0 < half && b1 < half && s < base
    ensures s * half % base / half == s % half
    ensures p == (s % half) * b0 % base && x == (s % half) * b1 % base && y == (s / half) * b0 % base
      && q == (s / half) * b1 % base
    ensures p == (s % half) * b0 < base && x == (s % half) * b1 && y == (s / half) * b0 && q == (s / half) * b1
  {
    QuotientBound(s, half);
    var u, m := LowHalf(half, base, s);
    p := HalfProduct(half, base, s % half, b0);
    x := HalfProduct(half, base, s % half, b1);
    y := HalfProduct(half, base, s / half, b0);
    q := HalfProduct(half, base, s / half, b1);
  }

  /** The statements of the step up to the carries: the product in two limbs and two parts still to add. */
  method HalfProductStep(half: nat, base: nat, s: nat, ghost b: nat, b0: nat, b1: nat)
    returns (r0: nat, r1: nat, rx: nat, ry: nat)
    requires half > 0 && base == half * half && b0 < half && b1 < half && b == half * b1 + b0 && b < base && s < base
    ensures r0 < base && r1 < base && rx < base && ry < base
    ensures base * r1 + r0 + rx + ry == s * b < base * base
  {
    ghost var p, x, y, q := HalfParts(half, base, s, b0, b1);
    ghost var u, v, mx, my := UpperParts(half, base, s, b, b0, b1, p, x, y, q);
    var s0 := s * half % base / half;
    var s1 := s / half;
    rx := s0 * b1 % base;
    r0 := s0 * b0 % base;
    ry := s1 * b0 % base;
    r1 := s1 * b1 % base;
    r1 := (r1 + rx / half) % base;
    r1 := (r1 + ry / half) % base;
    rx := rx * half % base;
    ry := ry * half % base;
  }

  /** One step with products of half limbs. */
  method HalfStep(half: nat, base: nat, s: nat, ghost b: nat, b0: nat, b1: nat, d: nat, c: nat)
    returns (r0: nat, r1: nat)
    requires half > 0 && base == half * half && b0 < half && b1 < half && b == half * b1 + b0
    requires s < base && d < base && c < base
    ensures r0 == (s * b + d + c) % base && r1 == (s * b + d + c) / base
  {
    Gap(half, b1, half);
    SumBound(base, s, b, d, c);
    var rx, ry;
    r0, r1, rx, ry := HalfProductStep(half, base, s, b, b0, b1);
    r0, r1 := AddWithCarry(base, r0, r1, rx);
    r0, r1 := AddWithCarry(base, r0, r1, ry);
    r0, r1 := AddWithCarry(base, r0, r1, c);
    r0, r1 := AddWithCarry(base, r0, r1, d);
    DivModUnique(base, r1, r0);
  }

  // --- any number of steps

  lemma StepsNext(base: nat, s: seq<nat>, d: seq<nat>, b: nat, c: nat, k: nat)
    requires k < |s| == |d| && base > 0
    ensures var (x, carry) := Steps(base, s[..k], d[..k], b, c); var sum := s[k] * b + d[k] + carry;
      Steps(base, s[..k + 1], d[..k + 1], b, c) == (x + [sum % base], sum / base)
  {
    assert s[..k + 1][..k] == s[..k] && d[..k + 1][..k] == d[..k];
  }

  lemma StepReady(base: nat, s: seq<nat>, d: seq<nat>, b: nat, c: nat, k: nat)
    requires k < |s| == |d| && Limbs(base, s) && Limbs(base, d) && b < base && c < base
    ensures s[k] < base && d[k] < base && Steps(base, s[..k], d[..k], b, c).1 < base
    ensures var (x, carry) := Steps(base, s[..k], d[..k], b, c); var sum := s[k] * b + d[k] + carry;
      Steps(base, s[..k + 1], d[..k + 1], b, c) == (x + [sum % base], sum / base)
  {
    StepsValue(base, s[..k], d[..k], b, c);
    assert Steps(base, s[..k], d[..k], b, c).1 < base;
    StepsNext(base, s, d, b, c, k);
  }

  /** The limbs to add up, read from position so of s and position to of d. The two may be the same
      array if nothing is written before it is read. */
  predicate Operands(base: nat, s: array<nat>, so: nat, d: array<nat>, to: nat, n: nat, b: nat, c: nat)
    reads s, d
  {
    && so + n <= s.Length && to + n <= d.Length && (s != d || to <= so)
    && Limbs(base, s[so..so + n]) && Limbs(base, d[to..to + n]) && b < base && c < base
  }

  /** n steps of the double-limb form. */
  method MulAddWide(base: nat, s: array<nat>, so: nat, d: array<nat>, to: nat, n: nat, b: nat, c: nat)
    returns (carry: nat)
    requires Operands(base, s, so, d, to, n, b, c)
    modifies d
    ensures (d[to..to + n], carry) == Steps(base, old(s[so..so + n]), old(d[to..to + n]), b, c)
    ensures forall j | 0 <= j < d.Length && !(to <= j < to + n) :: d[j] == old(d[j])
  {
    hide Steps, Limbs;
    ghost var x, y := s[so..so + n], d[to..to + n];
    carry := c;
    var k := 0;
    StepsNone(base, x, y, b, c);
    assert d[to..to + k] == [];
    while k < n
      invariant 0 <= k <= n
      invariant Steps(base, x[..k], y[..k], b, c) == (d[to..to + k], carry)
      invariant forall j | 0 <= j < d.Length && !(to <= j < to + k) :: d[j] == old(d[j])
    {
      StepReady(base, x, y, b, c, k);
      ghost var done := d[to..to + k];
      var r0, r1 := WideStep(base, s[so + k], b, d[to + k], carry);
      carry := r1;
      d[to + k] := r0;
      k := k + 1;
      assert d[to..to + k] == done + [r0];
    }
    assert x[..n] == x && y[..n] == y;
  }

  lemma StepsNone(base: nat, s: seq<nat>, d: seq<nat>, b: nat, c: nat)
    requires base > 0 && |s| == |d|
    ensures Steps(base, s[..0], d[..0], b, c) == ([], c)
  {
  }

  /** n steps of the half-limb form: b is split once, before the first step. */
  method MulAddHalf(half: nat, base: nat, s: array<nat>, so: nat, d: array<nat>, to: nat, n: nat, b: nat, c: nat)
    returns (carry: nat)
    requires half > 0 && base == half * half && Operands(base, s, so, d, to, n, b, c)
    modifies d
    ensures (d[to..to + n], carry) == Steps(base, old(s[so..so + n]), old(d[to..to + n]), b, c)
    ensures forall j | 0 <= j < d.Length && !(to <= j < to + n) :: d[j] == old(d[j])
  {
    hide Steps, Limbs;
    var b0, b1 := SplitLimb(half, base, b);
    ghost var x, y := s[so..so + n], d[to..to + n];
    carry := c;
    var k := 0;
    StepsNone(base, x, y, b, c);
    assert d[to..to + k] == [];
    while k < n
      invariant 0 <= k <= n
      invariant Steps(base, x[..k], y[..k], b, c) == (d[to..to + k], carry)
      invariant forall j | 0 <= j < d.Length && !(to <= j < to + k) :: d[j] == old(d[j])
    {
      StepReady(base, x, y, b, c, k);
      ghost var done := d[to..to + k];
      var r0, r1 := HalfStep(half, base, s[so + k], b, b0, b1, d[to + k], carry);
      carry := r1;
      d[to + k] := r0;
      k := k + 1;
      assert d[to..to + k] == done + [r0];
    }
    assert x[..n] == x && y[..n] == y;
  }

  /** The halves of the multiplier. */
  method SplitLimb(half: nat, base: nat, b: nat) returns (b0: nat, b1: nat)
    requires half > 0 && base == half * half && b < base
    ensures b0 < half && b1 < half && b == half * b1 + b0
  {
    ghost var u, m := LowHalf(half, base, b);
    Euclid(b, half);
    QuotientBound(b, half);
    b0 := b * half % base / half;
    b1 := b / half;
  }

  // --- eight limbs in 64-bit registers

  const LIMB := 0x1_0000_0000
  const QUAD := 0x1_0000_0000_0000_0000

  /** paddq: the sum of two registers, wrapping at 64 bits. */
  function Paddq(x: nat, y: nat): nat {
    (x + y) % QUAD
  }

  /** pmuludq: the product of the lower halves. */
  function Pmuludq(x: nat, y: nat): nat {
    (x % LIMB) * (y % LIMB)
  }

  /** psrlq $32 */
  function Psrlq(x: nat): nat {
    x / LIMB
  }

  /** movd to memory stores the lower half. */
  function Low(x: nat): (r: nat)
    ensures r < LIMB
  {
    x % LIMB
  }

  lemma LaneSums(p: nat, d: nat, c: nat)
    requires p + d + c < QUAD
    ensures Paddq(Paddq(c, d), p) == p + d + c && Paddq(c, Paddq(d, p)) == p + d + c
      && Paddq(c, Paddq(p, d)) == p + d + c
  {
    Fits(c, d);
    Fits(c + d, p);
    Fits(d, p);
    Fits(p, d);
    hide Paddq;
    Fits(c, d + p);
  }

  lemma Fits(x: nat, y: nat)
    requires x + y < QUAD
    ensures Paddq(x, y) == x + y
  {
    Small(QUAD, x + y);
  }

  lemma LaneProduct(s: nat, b: nat)
    requires s < LIMB && b < LIMB
    ensures Pmuludq(s, b) == s * b
  {
    Small(LIMB, s);
    Small(LIMB, b);
  }

  /** One limb in the registers: in either order of the sums, nothing wraps. */
  predicate InLane(carry: nat, s: nat, b: nat, d: nat, sum: nat) {
    var p := Pmuludq(s, b);
    Paddq(Paddq(carry, d), p) == sum && Paddq(carry, Paddq(d, p)) == sum && Paddq(carry, Paddq(p, d)) == sum
  }

  lemma Lane(s: nat, b: nat, d: nat, c: nat) returns (sum: nat)
    requires s < LIMB && b < LIMB && d < LIMB && c < LIMB
    ensures sum == s * b + d + c < QUAD && InLane(c, s, b, d, sum)
  {
    SumBound(LIMB, s, b, d, c);
    LaneProduct(s, b);
    var p := s * b;
    sum := p + d + c;
    LaneSums(p, d, c);
  }

  function CarryInto(sums: seq<nat>, c: nat, j: nat): nat
    requires j <= |sums|
  {
    if j == 0 then c else Psrlq(sums[j - 1])
  }

  /** What the eight lanes hold in turn. */
  lemma {:induction false} Lanes(s: seq<nat>, d: seq<nat>, b: nat, c: nat, k: nat) returns (sums: seq<nat>)
    requires k <= |s| == |d| && Limbs(LIMB, s) && Limbs(LIMB, d) && b < LIMB && c < LIMB
    ensures |sums| == k
    ensures forall j {:trigger sums[j]} | 0 <= j < k :: InLane(CarryInto(sums, c, j), s[j], b, d[j], sums[j])
    ensures var (x, carry) := Steps(LIMB, s[..k], d[..k], b, c);
      |x| == k && carry == CarryInto(sums, c, k) && forall j | 0 <= j < k :: x[j] == Low(sums[j])
    decreases k
  {
    hide InLane, Limbs, Steps;
    sums := [];
    StepsNone(LIMB, s, d, b, c);
    if k > 0 {
      ghost var before := Lanes(s, d, b, c, k - 1);
      StepReady(LIMB, s, d, b, c, k - 1);
      var sum := Lane(s[k - 1], b, d[k - 1], Steps(LIMB, s[..k - 1], d[..k - 1], b, c).1);
      sums := before + [sum];
      assert forall j | 0 <= j < k :: CarryInto(sums, c, j) == CarryInto(before, c, j);
    }
  }

  lemma Stored(a: seq<nat>, sums: seq<nat>, r: seq<nat>)
    requires |a| == |sums| == |r| == 8 && forall j | 0 <= j < 8 :: r[j] == Low(sums[j])
    requires a[0] == Low(sums[0]) && a[1] == Low(sums[1]) && a[2] == Low(sums[2]) && a[3] == Low(sums[3])
    requires a[4] == Low(sums[4]) && a[5] == Low(sums[5]) && a[6] == Low(sums[6]) && a[7] == Low(sums[7])
    ensures a == r
  {
  }

  /** The eight-limb form, instruction by instruction, on registers mm0 to mm7. */
  method MulAddHuit(s: array<nat>, so: nat, d: array<nat>, to: nat, b: nat, c: nat) returns (carry: nat)
    requires Operands(LIMB, s, so, d, to, 8, b, c)
    modifies d
    ensures (d[to..to + 8], carry) == Steps(LIMB, old(s[so..so + 8]), old(d[to..to + 8]), b, c)
    ensures forall j | 0 <= j < d.Length && !(to <= j < to + 8) :: d[j] == old(d[j])
  {
    hide Steps, Limbs, Paddq, Pmuludq, Psrlq, Low;
    ghost var x, y := s[so..so + 8], d[to..to + 8];
    ghost var sums := Lanes(x, y, b, c, 8);
    assert x[..8] == x && y[..8] == y;
    var mm1 := c;
    var mm0 := b;
    var mm3 := d[to];
    mm1 := Paddq(mm1, mm3);
    var mm2 := s[so];
    mm2 := Pmuludq(mm2, mm0);
    var mm4 := s[so + 1];
    mm4 := Pmuludq(mm4, mm0);
    var mm6 := s[so + 2];
    mm6 := Pmuludq(mm6, mm0);
    var mm7 := s[so + 3];
    mm7 := Pmuludq(mm7, mm0);
    mm1 := Paddq(mm1, mm2);
    mm3 := d[to + 1];
    mm3 := Paddq(mm3, mm4);
    var mm5 := d[to + 2];
    mm5 := Paddq(mm5, mm6);
    mm4 := d[to + 3];
    mm7 := Paddq(mm7, mm4);
    assert mm1 == sums[0];
    d[to] := Low(mm1);
    mm2 := s[so + 4];
    mm2 := Pmuludq(mm2, mm0);
    mm1 := Psrlq(mm1);
    mm4 := s[so + 5];
    mm4 := Pmuludq(mm4, mm0);
    mm1 := Paddq(mm1, mm3);
    mm6 := s[so + 6];
    mm6 := Pmuludq(mm6, mm0);
    assert mm1 == sums[1];
    d[to + 1] := Low(mm1);
    mm1 := Psrlq(mm1);
    mm3 := s[so + 7];
    mm3 := Pmuludq(mm3, mm0);
    mm1 := Paddq(mm1, mm5);
    mm5 := d[to + 4];
    mm2 := Paddq(mm2, mm5);
    assert mm1 == sums[2];
    d[to + 2] := Low(mm1);
    mm1 := Psrlq(mm1);
    mm1 := Paddq(mm1, mm7);
    mm5 := d[to + 5];
    mm4 := Paddq(mm4, mm5);
    assert mm1 == sums[3];
    d[to + 3] := Low(mm1);
    mm1 := Psrlq(mm1);
    mm1 := Paddq(mm1, mm2);
    mm5 := d[to + 6];
    mm6 := Paddq(mm6, mm5);
    assert mm1 == sums[4];
    d[to + 4] := Low(mm1);
    mm1 := Psrlq(mm1);
    mm1 := Paddq(mm1, mm4);
    mm5 := d[to + 7];
    mm3 := Paddq(mm3, mm5);
    assert mm1 == sums[5];
    d[to + 5] := Low(mm1);
    mm1 := Psrlq(mm1);
    mm1 := Paddq(mm1, mm6);
    assert mm1 == sums[6];
    d[to + 6] := Low(mm1);
    mm1 := Psrlq(mm1);
    mm1 := Paddq(mm1, mm3);
    assert mm1 == sums[7];
    d[to + 7] := Low(mm1);
    mm1 := Psrlq(mm1);
    carry := mm1;
    Stored(d[to..to + 8], sums, Steps(LIMB, x, y, b, c).0);
  }
}
