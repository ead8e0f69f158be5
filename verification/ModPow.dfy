// Modular exponentiation in Montgomery form (tls_modpow of
// vlibc/src/tls/tls_bn.c).
module ModPow {
  import opened Wrappers
  import opened Limbs
  import opened BigNum
  import opened Montgomery
  import opened Digits
  import opened Octets

  const MAX_MODULUS: nat := 512

  // --- congruence modulo m ---

  ghost predicate Cong(a: int, b: int, m: int)
    requires m > 0
  {
    (a - b) % m == 0
  }

  lemma Multiple(d: int, m: int, k: int)
    requires m > 0 && d == m * k
    ensures d % m == 0
  {
    CongruentBy(d, 0, m, k);
  }

  lemma CongTrans(a: int, b: int, c: int, m: int)
    requires m > 0 && Cong(a, b, m) && Cong(b, c, m)
    ensures Cong(a, c, m)
  {
    var j, k := (a - b) / m, (b - c) / m;
    assert a - c == m * (j + k);
    Multiple(a - c, m, j + k);
  }

  lemma CongMul(a: int, b: int, c: int, d: int, m: int)
    requires m > 0 && Cong(a, b, m) && Cong(c, d, m)
    ensures Cong(a * c, b * d, m)
  {
    var j, k := (a - b) / m, (c - d) / m;
    MulDifference(a, b, c, d, m, j, k);
    Multiple(a * c - b * d, m, j * c + b * k);
  }

  lemma MulDifference(a: int, b: int, c: int, d: int, m: int, j: int, k: int)
    requires a - b == m * j && c - d == m * k
    ensures a * c - b * d == m * (j * c + b * k)
  {
    assert a * c - b * d == (a - b) * c + b * (c - d);
    assert (m * j) * c == m * (j * c);
    assert b * (m * k) == m * (b * k);
  }

  lemma CongMod(a: int, m: int)
    requires m > 0
    ensures Cong(a % m, a, m) && Cong(a, a % m, m)
  {
    var k := a / m;
    Multiple(a - a % m, m, k);
    Multiple(a % m - a, m, - k);
  }

  lemma CongFromMod(a: int, b: int, m: int)
    requires m > 0 && a % m == b % m
    ensures Cong(a, b, m)
  {
    CongMod(a, m);
    CongMod(b, m);
    CongTrans(a, a % m, b, m);
  }

  lemma CongReduced(a: int, b: int, m: int)
    requires m > 0 && Cong(a, b, m) && 0 <= a < m
    ensures a == b % m
  {
    var k := (a - b) / m;
    Remainder(b, m, - k, a);
  }

  // An odd modulus lets a factor 2, hence a factor R, be cancelled.
  lemma CancelTwo(d: int, m: int)
    requires m > 0 && m % 2 == 1 && (2 * d) % m == 0
    ensures d % m == 0
  {
    var k := (2 * d) / m;
    assert 2 * d == m * k;
    var h := m / 2;
    assert m * k == 2 * (h * k) + k;
    var l := d - h * k;
    assert k == 2 * l;
    assert m * k == 2 * (m * l);
    Multiple(d, m, l);
  }

  lemma {:induction false} CancelPower(d: int, s: nat, m: int)
    requires m > 0 && m % 2 == 1 && (d * Pow(2, s)) % m == 0
    ensures d % m == 0
  {
    if s > 0 {
      var p := Pow(2, s - 1);
      assert d * (2 * p) == 2 * (d * p);
      CancelTwo(d * p, m);
      CancelPower(d, s - 1, m);
    }
  }

  lemma CancelR(a: int, b: int, n: nat, m: int)
    requires m > 0 && m % 2 == 1 && Cong(a * W(n), b * W(n), m)
    ensures Cong(a, b, m)
  {
    WeightAsPower(n);
    var r := W(n);
    assert a * r - b * r == (a - b) * r;
    CancelPower(a - b, 32 * n, m);
  }

  // --- Montgomery form ---

  // x * R and y * R multiply to x * y * R.
  lemma MontProduct(t: int, a: int, b: int, x: int, y: int, n: nat, m: int)
    requires m > 0 && m % 2 == 1
    requires Cong(t * W(n), a * b, m) && Cong(a, x * W(n), m) && Cong(b, y * W(n), m)
    ensures Cong(t, x * y * W(n), m)
  {
    var r := W(n);
    CongMul(a, x * r, b, y * r, m);
    CongTrans(t * r, a * b, (x * r) * (y * r), m);
    assert (x * r) * (y * r) == (x * y * r) * r by { SquareOut(x, y, r); }
    CancelR(t, x * y * r, n, m);
  }

  lemma SquareOut(x: int, y: int, r: int)
    ensures (x * r) * (y * r) == (x * y * r) * r
  {
    assert (x * r) * (y * r) == x * (r * (y * r));
    assert r * (y * r) == (y * r) * r;
    assert x * (y * r * r) == (x * y * r) * r;
  }

  // Leaving: MonPro(x * R, 1) = x.
  lemma MontLeave(t: int, a: int, x: int, n: nat, m: int)
    requires m > 0 && m % 2 == 1
    requires Cong(t * W(n), a * 1, m) && Cong(a, x * W(n), m) && 0 <= t < m
    ensures t == x % m
  {
    CongTrans(t * W(n), a, x * W(n), m);
    CancelR(t, x, n, m);
    CongReduced(t, x, m);
  }

  lemma {:induction false} PowCong(a: int, b: int, e: nat, m: int)
    requires m > 0 && Cong(a, b, m)
    ensures Cong(Pow(a, e), Pow(b, e), m)
  {
    if e == 0 {
      Multiple(0, m, 0);
    } else {
      PowCong(a, b, e - 1, m);
      CongMul(a, b, Pow(a, e - 1), Pow(b, e - 1), m);
    }
  }

  lemma PowDouble(b: int, q: nat, bit: nat)
    requires bit <= 1
    ensures Pow(b, 2 * q + bit) == Pow(b, q) * Pow(b, q) * (if bit == 1 then b else 1)
  {
    PowAdd(b, q, q);
    PowAdd(b, 2 * q, bit);
    assert q + q == 2 * q;
    assert Pow(b, 1) == b * Pow(b, 0);
  }

  // --- the modulus and the base as the code sees them ---

  ghost function LimbCount(v: int): (n: nat)
    requires v >= 0
    decreases v
  {
    if v == 0 then 0 else 1 + LimbCount(v / BASE)
  }

  lemma {:induction false} LimbCountIs(v: int, n: nat)
    requires v >= 0
    requires if n == 0 then v == 0 else W(n - 1) <= v < W(n)
    ensures LimbCount(v) == n
  {
    if n > 0 {
      if n > 1 {
        assert W(n - 1) == BASE * W(n - 2);
        assert W(n) == BASE * W(n - 1);
      }
      LimbCountIs(v / BASE, n - 1);
    }
  }

  lemma LimbCountUsed(m: seq<Word>, n: nat)
    requires n <= |m| && (n > 0 ==> m[n - 1] != 0)
    ensures LimbCount(Val(m, n)) == n
  {
    ValBound(m, n);
    if n > 0 { ValAtLeast(m, n - 1, n); }
    LimbCountIs(Val(m, n), n);
  }

  // The test for reducing the base looks at the low limbs only.
  ghost function EffectiveBase(b: int, m: int): (r: int)
    requires b >= 0 && m > 0
    ensures r >= 0
  {
    var low := b % W(LimbCount(m));
    if low >= m then b else low
  }

  // m holds an odd number of exactly n limbs. The limb above them is 0 unless
  // it is the one past the array's values, which nobody wrote.
  ghost predicate Modulus(m: seq<Word>, n: nat, v: int) {
    && 1 <= n < |m|
    && (m[n] == 0 || n == BN_LIMBS) && m[n] < 0x8000_0000 && m[n - 1] != 0 && m[0] % 2 == 1
    && v == Val(m, n)
  }

  lemma ModulusFacts(m: seq<Word>, n: nat, v: int)
    requires Modulus(m, n, v)
    ensures 1 <= n < |m| && (m[n] == 0 || n == BN_LIMBS) && m[0] % 2 == 1 && v == Val(m, n)
    ensures v > 0 && v % 2 == 1 && LimbCount(v) == n && v < W(n)
    ensures Val(m, n + 1) == v + m[n] * W(n) && Val(m, n + 1) > 0 && 2 * Val(m, n + 1) <= W(n + 1)
  {
    ValBound(m, n);
    LimbCountUsed(m, n);
    EvenByLimb(m, n);
    PadFits(v, m[n], W(n));
  }

  lemma PadFits(v: int, p: int, r: int)
    requires 0 < v < r && 0 <= p < 0x8000_0000
    ensures 0 <= p * r && 2 * (v + p * r) <= BASE * r
  {
    MulMono(0, p, r);
    MulMono(p + 1, 0x8000_0000, r);
    assert (p + 1) * r == p * r + r;
  }

  // v is x * R modulo m.
  ghost predicate InMont(v: int, x: int, n: nat, m: int) {
    m > 0 && Cong(v, x * W(n), m)
  }

  // The modulus with the negated inverse of its low limb.
  ghost predicate Ready(m: seq<Word>, n: nat, v: int, nprime: Word) {
    Modulus(m, n, v) && (m[0] * nprime + 1) % BASE == 0 && v > 0
  }

  lemma ReadyFacts(m: seq<Word>, n: nat, v: int, nprime: Word)
    requires Ready(m, n, v, nprime)
    ensures 1 <= n < |m| && v > 0 && v % 2 == 1 && Modulus(m, n, v)
  {
    ModulusFacts(m, n, v);
  }

  // t = a * b / R mod m, copied out of the work buffer.
  method MontInto(dst: array<Word>, t: array<Word>, a: array<Word>, b: array<Word>, m: array<Word>,
                  n: nat, nprime: Word, ghost mv: int)
    requires t != a && t != b && t != m && t != dst && dst != m
    requires n <= a.Length && n <= b.Length && n <= dst.Length && 2 * n + 2 <= t.Length
    requires Ready(m[..], n, mv, nprime)
    modifies t, dst
    ensures old(Val(a[..], n) * Val(b[..], n)) < mv * W(n) ==> Val(dst[..], n) < mv
    ensures mv > 0 && Cong(Val(dst[..], n) * W(n), old(Val(a[..], n) * Val(b[..], n)), mv)
    ensures forall i :: n <= i < dst.Length ==> dst[i] == old(dst[i])
  {
    ModulusFacts(m[..], n, mv);
    ghost var ab := Val(a[..], n) * Val(b[..], n);
    BnMontMul(t, a, b, m, n, nprime);
    CongFromMod(Val(t[..], n) * W(n), ab, mv);
    CopyLimbs(dst, t, n);
  }

  method CopyLimbs(dst: array<Word>, src: array<Word>, n: nat)
    requires dst != src && n <= dst.Length && n <= src.Length
    modifies dst
    ensures Val(dst[..], n) == Val(src[..], n)
    ensures Same(old(dst[..]), dst[..], n, dst.Length)
    ensures forall k :: 0 <= k < n ==> dst[k] == src[k]
  {
    for i := 0 to n
      invariant forall k :: 0 <= k < i ==> dst[k] == src[k]
      invariant Same(old(dst[..]), dst[..], n, dst.Length)
    {
      dst[i] := src[i];
    }
    ValSame(dst[..], src[..], n);
  }

  // The base is replaced by its remainder when its low limbs reach m.
  method ReduceBase(b: array<Word>, r2: array<Word>, m: array<Word>, n: nat, ghost mv: int)
    requires b != r2 && b != m && r2 != m
    requires b.Length == BN_LIMBS && r2.Length == BN_LIMBS + 1 && n <= BN_LIMBS
    requires Modulus(m[..], n, mv)
    modifies b, r2
    ensures mv > 0 && Cong(Val(b[..], n), EffectiveBase(old(Val(b[..], BN_LIMBS)), mv), mv)
  {
    hide *;
    ModulusFacts(m[..], n, mv);
    ghost var bv := Val(b[..], BN_LIMBS);
    LowLimbs(b[..], n);
    var c := BnCmp(b, m, n);
    if c >= 0 {
      ValBound(b[..], BN_LIMBS);
      BnMod(r2, b, BN_LIMBS, m, n);
      Reduced(r2[..], n, bv, mv, m[n]);
      CopyLimbs(b, r2, BN_LIMBS);
      ValSame(b[..], r2[..], n);
    } else {
      CongSelf(EffectiveBase(bv, mv), mv);
    }
    EffectiveIs(bv, mv, n);
  }

  lemma EffectiveIs(b: int, m: int, n: nat)
    requires b >= 0 && m > 0 && n == LimbCount(m)
    ensures EffectiveBase(b, m) == if b % W(n) >= m then b else b % W(n)
  {}

  // What bn_mod leaves of a base: its remainder, or itself below a padded m.
  lemma Reduced(r: seq<Word>, n: nat, x: int, m: int, pad: Word)
    requires n < |r| && 0 < m <= W(n) && 0 <= x && (pad == 0 || x < W(n))
    requires m + pad * W(n) > 0 && Val(r, n + 1) == x % (m + pad * W(n))
    ensures Cong(Val(r, n), x, m)
  {
    if pad == 0 {
      BelowTop(r, n, x % m);
      CongMod(x, m);
    } else {
      MulMono(1, pad, W(n));
      Remainder(x, m + pad * W(n), 0, x);
      BelowTop(r, n, x);
      Multiple(0, m, 0);
    }
  }

  lemma LowLimbs(b: seq<Word>, n: nat)
    requires n <= |b|
    ensures Val(b, n) == Val(b, |b|) % W(n)
  {
    var h := Val(b[n..], |b| - n);
    assert Val(b, |b|) == W(n) * h + Val(b, n) by { ValSplit(b, n, |b|); }
    ValBound(b, n);
    Remainder(Val(b, |b|), W(n), h, Val(b, n));
  }

  // A value below R occupies n limbs.
  lemma BelowTop(r: seq<Word>, n: nat, x: int)
    requires n < |r| && Val(r, n + 1) == x && x < W(n)
    ensures Val(r, n) == x
  {
    ValBound(r, n);
    if r[n] != 0 { MulMono(1, r[n], W(n)); }
  }

  // --- R^2, and what a wrong one does ---

  // What the code takes for R^2 mod m: the low limbs of R^2 mod (m + pad * R).
  ghost function Rho(m: int, n: nat, pad: int): int
    requires m > 0 && pad >= 0
  {
    PadPositive(m, n, pad);
    (W(n) * W(n)) % (m + pad * W(n)) % W(n)
  }

  lemma PadPositive(m: int, n: nat, pad: int)
    requires m > 0 && pad >= 0
    ensures m + pad * W(n) > 0
  {
    MulMono(0, pad, W(n));
  }

  // R^-1 modulo an odd m.
  ghost function InvR(m: int, n: nat): int {
    Pow((m + 1) / 2, 32 * n)
  }

  lemma {:induction false} PowProduct(x: int, y: int, s: nat)
    ensures Pow(x, s) * Pow(y, s) == Pow(x * y, s)
  {
    if s > 0 {
      PowProduct(x, y, s - 1);
      Shuffle(x, Pow(x, s - 1), y, Pow(y, s - 1));
    }
  }

  lemma Shuffle(x: int, p: int, y: int, q: int)
    ensures (x * p) * (y * q) == (x * y) * (p * q)
  {
    assert (x * p) * (y * q) == x * (p * (y * q));
    assert p * (y * q) == y * (p * q);
    assert x * (y * (p * q)) == (x * y) * (p * q);
  }

  lemma {:induction false} PowOne(s: nat)
    ensures Pow(1, s) == 1
  {
    if s > 0 { PowOne(s - 1); }
  }

  lemma InvROk(m: int, n: nat)
    requires m > 0 && m % 2 == 1
    ensures Cong(InvR(m, n) * W(n), 1, m)
  {
    var h := (m + 1) / 2;
    WeightAsPower(n);
    PowProduct(h, 2, 32 * n);
    assert h * 2 == m + 1;
    Multiple(m + 1 - 1, m, 1);
    PowCong(m + 1, 1, 32 * n, m);
    PowOne(32 * n);
  }

  // The factor by which every power comes out wrong; 1 when R^2 is right.
  ghost function Skew(m: int, n: nat, pad: int): int
    requires m > 0 && pad >= 0
  {
    (Rho(m, n, pad) * InvR(m, n) * InvR(m, n)) % m
  }

  // v is k * R^2 modulo m.
  ghost predicate SquareOf(v: int, k: int, n: nat, m: int) {
    m > 0 && Cong(k * W(n) * W(n), v, m)
  }

  lemma SkewOk(m: int, n: nat, pad: int)
    requires m > 0 && m % 2 == 1 && pad >= 0
    ensures SquareOf(Rho(m, n, pad), Skew(m, n, pad), n, m)
  {
    hide Rho, InvR;
    InvROk(m, n);
    Unskew(Rho(m, n, pad), InvR(m, n), W(n), m);
  }

  // k = rho * v * v mod m undoes two factors of r when v is its inverse.
  lemma Unskew(rho: int, v: int, r: int, m: int)
    requires m > 0 && Cong(v * r, 1, m)
    ensures Cong((rho * v * v) % m * r * r, rho, m)
  {
    hide Cong;
    var x := rho * v * v;
    var k := x % m;
    CongMod(x, m);
    CongSelf(r * r, m);
    CongMul(k, x, r * r, r * r, m);
    CongMul(v * r, 1, v * r, 1, m);
    CongSelf(rho, m);
    CongMul(rho, rho, (v * r) * (v * r), 1 * 1, m);
    SkewShuffle(rho, v, r);
    assert k * (r * r) == k * r * r;
    CongTrans(k * r * r, rho * ((v * r) * (v * r)), rho, m);
  }

  lemma SkewShuffle(rho: int, v: int, r: int)
    ensures (rho * v * v) * (r * r) == rho * ((v * r) * (v * r))
  {
    Shuffle(v, v, r, r);
    assert (v * v) * (r * r) == (v * r) * (v * r) by { Shuffle(v, r, v, r); }
    assert (rho * v * v) == rho * (v * v);
    assert (rho * (v * v)) * (r * r) == rho * ((v * v) * (r * r));
  }

  lemma CongSelf(a: int, m: int)
    requires m > 0
    ensures Cong(a, a, m)
  {}

  // R^2 mod m, by the one-off binary division of 1 << 64n.
  method RSquared(r2: array<Word>, m: array<Word>, n: nat, ghost mv: int)
    requires r2 != m && r2.Length == BN_LIMBS + 1 && n <= BN_LIMBS
    requires Modulus(m[..], n, mv)
    modifies r2
    ensures mv > 0 && Val(r2[..], n) == Rho(mv, n, m[n])
  {
    hide *;
    ModulusFacts(m[..], n, mv);
    var xr := new Word[2 * BN_LIMBS + 2];
    BnZero(xr, 2 * BN_LIMBS + 2);
    xr[2 * n] := 1;
    TopUnit(xr[..], 2 * n);
    WAdd(n, n);
    BnMod(r2, xr, 2 * n + 1, m, n);
    LowPart(r2[..], n);
    RhoIs(mv, n, m[n], W(2 * n));
  }

  lemma TopUnit(s: seq<Word>, k: nat)
    requires k < |s| && s[k] == 1 && forall i :: 0 <= i < k ==> s[i] == 0
    ensures Val(s, k + 1) == W(k)
  {
    ValZero(s, k);
    assert Val(s, k + 1) == Val(s, k) + s[k] * W(k);
  }

  lemma RhoIs(m: int, n: nat, pad: int, r: int)
    requires m > 0 && pad >= 0 && r == W(n) * W(n)
    ensures m + pad * W(n) > 0 && Rho(m, n, pad) == r % (m + pad * W(n)) % W(n)
  {
    PadPositive(m, n, pad);
  }

  lemma LowPart(r: seq<Word>, n: nat)
    requires n < |r|
    ensures Val(r, n) == Val(r, n + 1) % W(n)
  {
    ValBound(r, n);
    assert Val(r, n + 1) == W(n) * r[n] + Val(r, n);
    Remainder(Val(r, n + 1), W(n), r[n], Val(r, n));
  }

  // --- the exponent ---

  ghost function TwoTo(k: nat): nat {
    if k == 0 then 1 else 2 * TwoTo(k - 1)
  }

  ghost function BitLen(v: nat): nat {
    if v == 0 then 0 else 1 + BitLen(v / 2)
  }

  lemma {:induction false} BitLenIs(v: nat, bits: nat)
    requires v < Pow(2, bits) && (bits > 0 ==> Pow(2, bits - 1) <= v)
    ensures BitLen(v) == bits
  {
    if bits > 0 {
      assert Pow(2, bits) == 2 * Pow(2, bits - 1);
      if bits > 1 { assert Pow(2, bits - 1) == 2 * Pow(2, bits - 2); }
      if bits == 1 { assert Pow(2, 0) == 1; }
      PowPositive(2, bits - 1);
      BitLenIs(v / 2, bits - 1);
    }
  }

  // One exponent bit: square, and multiply by the base when the bit is set.
  method ExponentBit(r: array<Word>, t: array<Word>, ar: array<Word>, m: array<Word>, n: nat, nprime: Word,
                     bit: Word, ghost mv: int, ghost x: int, ghost y: int)
    requires t != r && t != ar && t != m && r != m && r != ar
    requires n <= r.Length && n <= ar.Length && 2 * n + 2 <= t.Length
    requires Ready(m[..], n, mv, nprime) && bit <= 1
    requires InMont(Val(r[..], n), x, n, mv) && InMont(Val(ar[..], n), y, n, mv)
    modifies r, t
    ensures InMont(Val(r[..], n), x * x * (if bit == 1 then y else 1), n, mv)
  {
    ModulusFacts(m[..], n, mv);
    ghost var r0 := Val(r[..], n);
    MontInto(r, t, r, r, m, n, nprime, mv);
    ghost var r1 := Val(r[..], n);
    MontProduct(r1, r0, r0, x, x, n, mv);
    if bit != 0 {
      MontInto(r, t, r, ar, m, n, nprime, mv);
      MontProduct(Val(r[..], n), r1, Val(ar[..], n), x * x, y, n, mv);
    } else {
      assert x * x * 1 == x * x;
    }
  }

  // After j bits, which spell q.
  ghost function Ladder(k: int, y: int, j: nat, q: nat): int {
    Pow(k, TwoTo(j)) * Pow(y, q)
  }

  lemma LadderStep(k: int, y: int, j: nat, q: nat, bit: nat)
    requires bit <= 1
    ensures Ladder(k, y, j + 1, 2 * q + bit) == Ladder(k, y, j, q) * Ladder(k, y, j, q) * (if bit == 1 then y else 1)
  {
    PowAdd(k, TwoTo(j), TwoTo(j));
    PowDouble(y, q, bit);
    assert TwoTo(j) + TwoTo(j) == TwoTo(j + 1);
    var a, b, f := Pow(k, TwoTo(j)), Pow(y, q), if bit == 1 then y else 1;
    Shuffle(a, b, a, b);
    assert (a * a) * (b * b * f) == ((a * a) * (b * b)) * f;
  }

  // r = R, then one exponent bit at a time from the top.
  method ExponentLoop(r: array<Word>, t: array<Word>, ar: array<Word>, m: array<Word>, e: array<Word>,
                      n: nat, nprime: Word, ghost mv: int, ghost k: int, ghost y: int)
    requires t != r && t != ar && t != m && r != m && r != ar && e != r && e != t && e.Length == BN_LIMBS
    requires n <= r.Length && n <= ar.Length && 2 * n + 2 <= t.Length
    requires Ready(m[..], n, mv, nprime)
    requires InMont(Val(r[..], n), k, n, mv) && InMont(Val(ar[..], n), y, n, mv)
    modifies r, t
    ensures Val(e[..], BN_LIMBS) >= 0
    ensures InMont(Val(r[..], n), Ladder(k, y, BitLen(Val(e[..], BN_LIMBS)), Val(e[..], BN_LIMBS)), n, mv)
  {
    hide *;
    ghost var ev := Val(e[..], BN_LIMBS);
    ValBound(e[..], BN_LIMBS);
    var elen := BnBitlen(e, BN_LIMBS);
    BitLenIs(ev, elen);
    TopBitsEnds(ev, elen);
    LadderStart(k, y);
    var bi := elen;
    while bi > 0
      invariant 0 <= bi <= elen
      invariant InMont(Val(r[..], n), Ladder(k, y, elen - bi, TopBits(ev, bi)), n, mv)
    {
      bi := bi - 1;
      var bit := BnGetbit(e, bi, BN_LIMBS);
      TopBitsNext(ev, bi, bit);
      ghost var q := TopBits(ev, bi + 1);
      LadderStep(k, y, elen - bi - 1, q, bit);
      ExponentBit(r, t, ar, m, n, nprime, bit, mv, Ladder(k, y, elen - bi - 1, q), y);
    }
  }

  ghost function TopBits(v: nat, bi: nat): nat {
    PowPositive(2, bi);
    v / Pow(2, bi)
  }

  lemma TopBitsEnds(v: nat, bits: nat)
    requires v < Pow(2, bits)
    ensures TopBits(v, bits) == 0 && TopBits(v, 0) == v
  {}

  lemma TopBitsNext(v: nat, bi: nat, bit: Word)
    requires Pow(2, bi) > 0 && bit == (v / Pow(2, bi)) % 2
    ensures TopBits(v, bi) == 2 * TopBits(v, bi + 1) + bit
  {
    NextBit(v, bi);
  }

  lemma LadderStart(k: int, y: int)
    ensures Ladder(k, y, 0, 0) == k
  {
    assert Pow(k, 1) == k * Pow(k, 0);
  }

  // dst = x * k * R mod m, where r2 holds k * R^2.
  method EnterMont(dst: array<Word>, t: array<Word>, x: array<Word>, r2: array<Word>, m: array<Word>,
                   n: nat, nprime: Word, ghost mv: int, ghost k: int)
    requires t != x && t != r2 && t != m && t != dst && dst != m && dst != x
    requires n <= x.Length && n <= r2.Length && n <= dst.Length && 2 * n + 2 <= t.Length
    requires Ready(m[..], n, mv, nprime)
    requires SquareOf(Val(r2[..], n), k, n, mv)
    modifies t, dst
    ensures InMont(Val(dst[..], n), Val(x[..], n) * k, n, mv)
  {
    hide Cong, Val;
    ModulusFacts(m[..], n, mv);
    ghost var r20 := Val(r2[..], n);
    MontInto(dst, t, x, r2, m, n, nprime, mv);
    MontEnterBy(Val(dst[..], n), Val(x[..], n), r20, k, n, mv);
  }

  // r = r / R mod m, fully reduced: the other factor is 1.
  method LeaveMont(r: array<Word>, t: array<Word>, one: array<Word>, m: array<Word>,
                   n: nat, nprime: Word, ghost mv: int, ghost x: int)
    requires t != r && t != one && t != m && r != m && r != one
    requires n <= r.Length && n <= one.Length && 2 * n + 2 <= t.Length
    requires Ready(m[..], n, mv, nprime)
    requires Val(one[..], n) == 1 && InMont(Val(r[..], n), x, n, mv)
    modifies t, r
    ensures Val(r[..], n) == x % mv
  {
    hide Cong, Val;
    ModulusFacts(m[..], n, mv);
    ghost var r0 := Val(r[..], n);
    ValBound(r[..], n);
    MulMono(1, mv, W(n));
    MontInto(r, t, r, one, m, n, nprime, mv);
    ValBound(r[..], n);
    MontLeave(Val(r[..], n), r0, x, n, mv);
  }

  // base^exp mod m with every factor skewed, left in r.
  method Exponentiate(r: array<Word>, b: array<Word>, m: array<Word>, e: array<Word>,
                      n: nat, nprime: Word, ghost mv: int, ghost base: int)
    requires r != b && r != m && r != e && b != m && b != e
    requires r.Length == BN_LIMBS && b.Length == BN_LIMBS && e.Length == BN_LIMBS && n <= BN_LIMBS
    requires Ready(m[..], n, mv, nprime)
    requires base >= 0 && Cong(Val(b[..], n), base, mv)
    modifies r
    ensures Val(e[..], BN_LIMBS) >= 0
    ensures Val(r[..], n) == SkewedPower(base, Val(e[..], BN_LIMBS), mv, Skew(mv, n, m[n]))
  {
    hide *;
    ReadyFacts(m[..], n, mv, nprime);
    var t := new Word[2 * BN_LIMBS + 2];
    var r2 := new Word[BN_LIMBS + 1];
    RSquared(r2, m, n, mv);
    ghost var k := Skew(mv, n, m[n]);
    SkewOk(mv, n, m[n]);
    var ar := new Word[BN_LIMBS];
    var one := new Word[BN_LIMBS];
    EnterMont(ar, t, b, r2, m, n, nprime, mv, k);
    ghost var bv := Val(b[..], n);
    BnZero(one, BN_LIMBS);
    one[0] := 1;
    UnitValue(one[..], n);
    EnterMont(r, t, one, r2, m, n, nprime, mv, k);
    assert 1 * k == k;
    ExponentLoop(r, t, ar, m, e, n, nprime, mv, k, bv * k);
    ghost var ev := Val(e[..], BN_LIMBS);
    LeaveMont(r, t, one, m, n, nprime, mv, Ladder(k, bv * k, BitLen(ev), ev));
    SkewedSame(bv, base, ev, mv, k);
  }

  // The power the code computes when its R^2 is off by the factor k.
  ghost function SkewedPower(base: int, ev: nat, m: int, k: int): int
    requires m > 0
  {
    Ladder(k, base * k, BitLen(ev), ev) % m
  }

  lemma SkewedSame(a: int, b: int, ev: nat, m: int, k: int)
    requires m > 0 && Cong(a, b, m)
    ensures Ladder(k, a * k, BitLen(ev), ev) % m == SkewedPower(b, ev, m, k)
  {
    CongSelf(k, m);
    CongMul(a, b, k, k, m);
    PowCong(a * k, b * k, ev, m);
    var f := Pow(k, TwoTo(BitLen(ev)));
    CongSelf(f, m);
    CongMul(f, f, Pow(a * k, ev), Pow(b * k, ev), m);
    EqualMods(f * Pow(a * k, ev), f * Pow(b * k, ev), m);
  }

  // Entering with k * R^2 instead of R^2.
  lemma MontEnterBy(t: int, x: int, r2: int, k: int, n: nat, m: int)
    requires m > 0 && m % 2 == 1
    requires Cong(t * W(n), x * r2, m) && Cong(k * W(n) * W(n), r2, m)
    ensures Cong(t, x * k * W(n), m)
  {
    var r := W(n);
    CongSelf(x, m);
    CongFlip(k * r * r, r2, m);
    CongMul(x, x, r2, k * r * r, m);
    CongTrans(t * r, x * r2, x * (k * r * r), m);
    EnterShuffle(x, k, r);
    CancelR(t, x * k * r, n, m);
  }

  lemma EnterShuffle(x: int, k: int, r: int)
    ensures x * (k * r * r) == (x * k * r) * r
  {
    assert x * (k * r * r) == (x * (k * r)) * r;
    assert x * (k * r) == x * k * r;
  }

  lemma CongFlip(a: int, b: int, m: int)
    requires m > 0 && Cong(a, b, m)
    ensures Cong(b, a, m)
  {
    Multiple(b - a, m, - ((a - b) / m));
  }

  lemma UnitValue(s: seq<Word>, n: nat)
    requires 1 <= n <= |s| && s[0] == 1 && forall i :: 1 <= i < n ==> s[i] == 0
    ensures Val(s, n) == 1
  {
    ValTrim(s, 1, n);
    assert Val(s, 1) == Val(s, 0) + s[0] * W(0);
  }

  // --- tls_modpow ---

  function ModLen(modulus: seq<Byte>): (n: nat)
    ensures n <= |modulus| && n <= MAX_MODULUS
  {
    if |modulus| > MAX_MODULUS then MAX_MODULUS else |modulus|
  }

  // What tls_modpow leaves in out, as a number.
  ghost function ModpowVal(base: seq<Byte>, exp: seq<Byte>, mv: int): (v: int)
    requires mv >= 0
    ensures 0 <= v && (v < mv || v == 0)
  {
    if mv % 2 == 0 then 0
    else Pow(EffectiveBase(BytesVal(LastBytes(base, MAX_MODULUS)), mv), BytesVal(LastBytes(exp, MAX_MODULUS))) % mv
  }

  // The limb above the modulus, as bn_mod sees it.
  ghost function Pad(mv: int, stale: int): int
    requires mv >= 0
  {
    if LimbCount(mv) == BN_LIMBS then stale else 0
  }

  ghost function ModpowStale(base: seq<Byte>, exp: seq<Byte>, mv: int, stale: int): int
    requires mv >= 0 && stale >= 0
  {
    if mv % 2 == 0 then 0
    else
      SkewedPower(EffectiveBase(BytesVal(LastBytes(base, MAX_MODULUS)), mv), BytesVal(LastBytes(exp, MAX_MODULUS)), mv,
                  Skew(mv, LimbCount(mv), Pad(mv, stale)))
  }

  // bn_mod shifts its remainder left by one bit and has no limb left for the
  // carry once the limb above the modulus reaches 2^31.
  ghost predicate Defined(mv: int, stale: int) {
    mv >= 0 && 0 <= Pad(mv, stale) < 0x8000_0000
  }

  // `stale` is what the never-written limb m[128] happens to hold. It is
  // read only when the modulus fills all 128 limbs.
  method TlsModpow(base: seq<Byte>, exp: seq<Byte>, modulus: seq<Byte>, stale: Word, out: array<Byte>)
    requires ModLen(modulus) <= out.Length && Defined(BytesVal(modulus[..ModLen(modulus)]), stale)
    modifies out
    ensures BytesVal(out[..ModLen(modulus)]) == ModpowStale(base, exp, BytesVal(modulus[..ModLen(modulus)]), stale)
    ensures forall i :: ModLen(modulus) <= i < out.Length ==> out[i] == old(out[i])
  {
    var modLen := ModLen(modulus);
    ghost var mv := BytesVal(modulus[..modLen]);
    var m := new Word[BN_LIMBS + 1];
    m[BN_LIMBS] := stale;
    BnFromBytes(m, BN_LIMBS, modulus[..modLen]);
    assert m[BN_LIMBS] == stale;
    var n := BnUsed(m, BN_LIMBS);
    EvenByLimb(m[..], n);
    if n == 0 || m[0] % 2 == 0 {
      ZeroOut(out, modLen);
      return;
    }
    LimbCountUsed(m[..], n);
    BytesBound(modulus[..modLen]);
    ModpowOdd(base, exp, m, n, mv, out, modLen);
  }

  method ZeroOut(out: array<Byte>, n: nat)
    requires n <= out.Length
    modifies out
    ensures BytesVal(out[..n]) == 0
    ensures forall i :: n <= i < out.Length ==> out[i] == old(out[i])
  {
    for i := 0 to n
      invariant forall k :: 0 <= k < i ==> out[k] == 0
      invariant forall i :: n <= i < out.Length ==> out[i] == old(out[i])
    {
      out[i] := 0;
    }
    ZeroBytes(out[..n]);
  }

  method ModpowOdd(base: seq<Byte>, exp: seq<Byte>, m: array<Word>, n: nat, ghost mv: int, out: array<Byte>,
                   modLen: nat)
    requires modLen <= out.Length && n <= BN_LIMBS
    requires Modulus(m[..], n, mv) && mv < Pow(256, modLen)
    modifies out
    ensures mv > 0 && BytesVal(out[..modLen]) == ModpowStale(base, exp, mv, m[n])
    ensures forall i :: modLen <= i < out.Length ==> out[i] == old(out[i])
  {
    hide *;
    ModulusFacts(m[..], n, mv);
    var nprime := BnMprime(m[0]);
    IsReady(m[..], n, mv, nprime);
    var e := new Word[BN_LIMBS];
    BnFromBytes(e, BN_LIMBS, exp);
    ValBound(e[..], BN_LIMBS);
    var b := new Word[BN_LIMBS];
    BnFromBytes(b, BN_LIMBS, base);
    ghost var bv := Val(b[..], BN_LIMBS);
    ValBound(b[..], BN_LIMBS);
    var r2 := new Word[BN_LIMBS + 1];
    ReduceBase(b, r2, m, n, mv);
    var r := new Word[BN_LIMBS];
    Exponentiate(r, b, m, e, n, nprime, mv, EffectiveBase(bv, mv));
    BnToBytes(r, n, out, modLen);
    SkewedBelow(EffectiveBase(bv, mv), Val(e[..], BN_LIMBS), mv, Skew(mv, n, m[n]));
    Remainder(Val(r[..], n), Pow(256, modLen), 0, Val(r[..], n));
    StaleIs(base, exp, mv, m[n], n, bv, Val(e[..], BN_LIMBS));
  }

  lemma IsReady(m: seq<Word>, n: nat, v: int, nprime: Word)
    requires Modulus(m, n, v) && v > 0 && (m[0] * nprime + 1) % BASE == 0
    ensures Ready(m, n, v, nprime)
  {}

  lemma StaleIs(base: seq<Byte>, exp: seq<Byte>, mv: int, top: Word, n: nat, bv: nat, ev: nat)
    requires mv > 0 && mv % 2 == 1 && n == LimbCount(mv) && (top == 0 || n == BN_LIMBS)
    requires bv == BytesVal(LastBytes(base, 4 * BN_LIMBS)) && ev == BytesVal(LastBytes(exp, 4 * BN_LIMBS))
    ensures ModpowStale(base, exp, mv, top) == SkewedPower(EffectiveBase(bv, mv), ev, mv, Skew(mv, n, top))
  {
    hide SkewedPower, Skew, EffectiveBase, BytesVal, LastBytes;
  }

  lemma SkewedBelow(base: int, ev: nat, m: int, k: int)
    requires m > 0
    ensures 0 <= SkewedPower(base, ev, m, k) < m
  {}

  lemma EvenByLimb(m: seq<Word>, n: nat)
    requires n <= |m|
    ensures n == 0 ==> Val(m, n) == 0
    ensures n > 0 ==> Val(m, n) % 2 == m[0] % 2
  {
    if n > 0 {
      ValSplit(m, 1, n);
      assert Val(m, 1) == Val(m, 0) + m[0] * W(0);
      assert W(1) == BASE * W(0);
      SameParity(Val(m, n), m[0], Val(m[1..], n - 1));
    }
  }

  lemma SameParity(v: int, x: int, h: int)
    requires v == x + BASE * h
    ensures v % 2 == x % 2
  {}

  lemma {:induction false} ZeroBytes(b: seq<Byte>)
    requires forall i :: 0 <= i < |b| ==> b[i] == 0
    ensures BytesVal(b) == 0
  {
    if b != [] { ZeroBytes(b[..|b| - 1]); }
  }

  // --- when the result is base^exp mod m ---

  // A base that fits the modulus's limbs is used whole.
  lemma BaseInLimbs(b: int, m: int, e: nat)
    requires m > 0 && 0 <= b < W(LimbCount(m))
    ensures Pow(EffectiveBase(b, m), e) % m == Pow(b, e) % m
  {
    Remainder(b, W(LimbCount(m)), 0, b);
  }

  // In general the result is right for every exponent exactly when the low
  // limbs reach m, or the dropped high limbs are a multiple of m.
  lemma BaseAgreesIff(b: int, m: int)
    requires b >= 0 && m > 0
    ensures SamePowers(EffectiveBase(b, m), b, m)
       <==> (b % W(LimbCount(m)) >= m || (b - b % W(LimbCount(m))) % m == 0)
  {
    var low := b % W(LimbCount(m));
    if low < m {
      SamePowersIff(low, b, m);
    } else {
      assert SamePowers(b, b, m);
    }
  }

  ghost predicate SamePowers(a: int, b: int, m: int)
    requires m > 0
  {
    forall e: nat :: Pow(a, e) % m == Pow(b, e) % m
  }

  lemma SamePowersIff(a: int, b: int, m: int)
    requires m > 0
    ensures SamePowers(a, b, m) <==> (b - a) % m == 0
  {
    if SamePowers(a, b, m) {
      FirstPower(a);
      FirstPower(b);
      CongFromMod(b, a, m);
    }
    if (b - a) % m == 0 {
      forall e: nat
        ensures Pow(a, e) % m == Pow(b, e) % m
      {
        EqualPowers(b, a, e, m);
      }
    }
  }

  lemma FirstPower(b: int)
    ensures Pow(b, 1) == b
  {
    assert Pow(b, 1) == b * Pow(b, 0);
  }

  lemma EqualPowers(a: int, b: int, e: nat, m: int)
    requires m > 0 && Cong(a, b, m)
    ensures Pow(a, e) % m == Pow(b, e) % m
  {
    PowCong(a, b, e, m);
    EqualMods(Pow(a, e), Pow(b, e), m);
  }

  lemma EqualMods(a: int, b: int, m: int)
    requires m > 0 && Cong(a, b, m)
    ensures a % m == b % m
  {
    CongruentBy(a, b, m, (a - b) / m);
  }

  // 2^32 + 1 modulo 3: the high limb is dropped and the base becomes 1.
  lemma BaseTruncated()
    ensures Pow(EffectiveBase(0x1_0000_0001, 3), 1) % 3 == 1
    ensures Pow(0x1_0000_0001, 1) % 3 == 2
  {
    assert LimbCount(3) == 1 + LimbCount(0);
    assert W(1) == BASE * W(0);
    assert 0x1_0000_0001 % BASE == 1;
    assert Pow(1, 1) == 1 * Pow(1, 0);
    assert Pow(0x1_0000_0001, 1) == 0x1_0000_0001 * Pow(0x1_0000_0001, 0);
  }

  // --- when the stale limb does no harm ---

  // A factor of 1 leaves the plain power.
  lemma NoSkew(base: int, ev: nat, m: int, k: int)
    requires m > 0 && k == 1 % m
    ensures SkewedPower(base, ev, m, k) == Pow(base, ev) % m
  {
    hide Pow, BitLen, TwoTo;
    CongMod(1, m);
    CongSelf(base, m);
    CongMul(base, base, k, 1, m);
    PowCong(base * k, base * 1, ev, m);
    PowCong(k, 1, TwoTo(BitLen(ev)), m);
    PowOne(TwoTo(BitLen(ev)));
    CongMul(Pow(k, TwoTo(BitLen(ev))), 1, Pow(base * k, ev), Pow(base, ev), m);
    EqualMods(Ladder(k, base * k, BitLen(ev), ev), 1 * Pow(base, ev), m);
  }

  // R^2 is right exactly when the factor is 1.
  lemma SkewIff(m: int, n: nat, pad: int)
    requires m > 0 && m % 2 == 1 && pad >= 0
    ensures Skew(m, n, pad) == 1 % m <==> Cong(Rho(m, n, pad), W(n) * W(n), m)
  {
    hide Rho, Skew;
    var k, r, rho := Skew(m, n, pad), W(n), Rho(m, n, pad);
    SkewRange(m, n, pad);
    SkewOk(m, n, pad);
    CongFlip(k * r * r, rho, m);
    if k == 1 % m {
      CongMod(1, m);
      CongSelf(r * r, m);
      CongMul(k, 1, r * r, r * r, m);
      assert k * (r * r) == k * r * r;
      CongTrans(rho, k * r * r, r * r, m);
    }
    if Cong(rho, r * r, m) {
      CongTrans(k * r * r, rho, r * r, m);
      assert (k * r) * r == k * r * r;
      CancelR(k * r, r, n, m);
      assert r == 1 * r;
      CancelR(k, 1, n, m);
      CongReduced(k, 1, m);
    }
  }

  lemma SkewRange(m: int, n: nat, pad: int)
    requires m > 0 && pad >= 0
    ensures 0 <= Skew(m, n, pad) < m
  {}

  ghost predicate AllPowersRight(m: int, k: int)
    requires m > 0
  {
    forall base: int, ev: nat :: base >= 0 ==> SkewedPower(base, ev, m, k) == Pow(base, ev) % m
  }

  // With a stale limb every base and exponent come out right exactly when the
  // division by m + stale * R still gives R^2 modulo m.
  lemma StaleHarmlessIff(m: int, n: nat, pad: int)
    requires m > 0 && m % 2 == 1 && pad >= 0
    ensures AllPowersRight(m, Skew(m, n, pad)) <==> Cong(Rho(m, n, pad), W(n) * W(n), m)
  {
    hide Rho, Skew, SkewedPower;
    var k := Skew(m, n, pad);
    SkewRange(m, n, pad);
    SkewIff(m, n, pad);
    if AllPowersRight(m, k) {
      PowerZero(m, k);
      assert SkewedPower(0, 0, m, k) == Pow(0, 0) % m;
      assert Pow(0, 0) == 1;
      Remainder(k, m, 0, k);
    }
    if k == 1 % m {
      forall base: int, ev: nat | base >= 0
        ensures SkewedPower(base, ev, m, k) == Pow(base, ev) % m
      {
        NoSkew(base, ev, m, k);
      }
    }
  }

  // base^0 comes out as the factor itself.
  lemma PowerZero(m: int, k: int)
    requires m > 0
    ensures forall base :: SkewedPower(base, 0, m, k) == k % m
  {
    forall base
      ensures SkewedPower(base, 0, m, k) == k % m
    {
      LadderStart(k, base * k);
    }
  }

  // The condition of StaleHarmlessIff for the modulus and limb of one call.
  ghost predicate Harmless(mv: int, stale: int)
    requires mv >= 0 && stale >= 0
  {
    var n := LimbCount(mv);
    mv % 2 == 1 ==> Cong(Rho(mv, n, Pad(mv, stale)), W(n) * W(n), mv)
  }

  lemma HarmlessModpow(base: seq<Byte>, exp: seq<Byte>, mv: int, stale: int)
    requires mv >= 0 && stale >= 0 && Harmless(mv, stale)
    ensures ModpowStale(base, exp, mv, stale) == ModpowVal(base, exp, mv)
  {
    hide Rho, Skew, SkewedPower;
    if mv % 2 == 1 {
      var n := LimbCount(mv);
      SkewIff(mv, n, Pad(mv, stale));
      var b, e := BytesVal(LastBytes(base, MAX_MODULUS)), BytesVal(LastBytes(exp, MAX_MODULUS));
      NoSkew(EffectiveBase(b, mv), e, mv, Skew(mv, n, Pad(mv, stale)));
    }
  }

  // A zero limb, or a modulus that does not fill the array, does no harm.
  lemma NoStale(mv: int, stale: int)
    requires mv >= 0 && stale >= 0 && Pad(mv, stale) == 0
    ensures Harmless(mv, stale)
  {
    hide Rho;
    if mv % 2 == 1 {
      PlainRho(mv, LimbCount(mv));
    }
  }

  lemma PlainRho(mv: int, n: nat)
    requires mv > 0 && n == LimbCount(mv)
    ensures Cong(Rho(mv, n, 0), W(n) * W(n), mv)
  {
    LimbCountBound(mv);
    var x := (W(n) * W(n)) % mv;
    Remainder(x, W(n), 0, x);
    CongMod(W(n) * W(n), mv);
  }

  lemma {:induction false} LimbCountBound(v: int)
    requires v >= 0
    ensures v < W(LimbCount(v))
    decreases v
  {
    if v > 0 {
      LimbCountBound(v / BASE);
      assert W(LimbCount(v)) == BASE * W(LimbCount(v / BASE));
    }
  }

  // A modulus that fills every limb with a stale 1 above it: bn_mod divides by
  // m + R, and already base^0 comes out as R / 2 instead of 1.
  lemma StaleLimbBreaks(n: nat, m: int, base: int)
    requires n > 0 && m == W(n) - 1 && m > 0
    ensures SkewedPower(base, 0, m, Skew(m, n, 1)) == W(n) / 2 && W(n) / 2 != 1
  {
    hide SkewedPower, Skew, InvR;
    var r := W(n);
    assert r == BASE * W(n - 1);
    var h := r / 2;
    assert r == 2 * h && h > 1;
    assert (2 * h) * (2 * h) == (4 * h - 1) * h + h;
    Remainder(r * r, 4 * h - 1, h, h);
    Remainder(h, r, 0, h);
    assert Rho(m, n, 1) == h;
    var k := Skew(m, n, 1);
    SkewRange(m, n, 1);
    SkewOk(m, n, 1);
    UnitR(k, m, r);
    UnitR(k * r, m, r);
    CongTrans(k, k * r, k * r * r, m);
    CongTrans(k, k * r * r, h, m);
    CongReduced(k, h, m);
    Remainder(h, m, 0, h);
    PowerZero(m, k);
  }

  // The same through the whole of tls_modpow, for any base.
  lemma StaleModpowBreaks(base: seq<Byte>, exp: seq<Byte>, n: nat, mv: int)
    requires n == BN_LIMBS && mv == W(n) - 1
    requires BytesVal(LastBytes(exp, MAX_MODULUS)) == 0
    ensures mv > 0 && LimbCount(mv) == n && Defined(mv, 1)
    ensures ModpowStale(base, exp, mv, 1) == W(n) / 2 && ModpowVal(base, exp, mv) == 1
    ensures W(n) / 2 != 1
  {
    hide SkewedPower, Skew, EffectiveBase, LimbCount, W;
    WEven(n);
    FullLimbs(n);
    var b := EffectiveBase(BytesVal(LastBytes(base, MAX_MODULUS)), mv);
    StaleLimbBreaks(n, mv, b);
    assert Pow(b, 0) == 1;
    Remainder(1, mv, 0, 1);
  }

  lemma {:induction false} FullLimbs(n: nat)
    ensures LimbCount(W(n) - 1) == n
  {
    if n > 0 {
      FullLimbs(n - 1);
      var w := W(n - 1);
      assert BASE * w - 1 == BASE * (w - 1) + (BASE - 1);
      assert (W(n) - 1) / BASE == w - 1;
    }
  }

  lemma WEven(n: nat)
    requires n > 0
    ensures W(n) % 2 == 0 && W(n) >= BASE
  {
    var w := W(n - 1);
    assert W(n) == 2 * (0x8000_0000 * w);
  }

  lemma UnitR(x: int, m: int, r: int)
    requires m > 0 && r == m + 1
    ensures Cong(x, x * r, m)
  {
    assert x - x * r == m * (- x);
    Multiple(x - x * r, m, - x);
  }
}
