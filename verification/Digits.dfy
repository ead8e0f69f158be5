// Bits and bytes of limb vectors, and the slow binary remainder
// (vlibc/src/tls/tls_bn.c).
module Digits {
  import opened Wrappers
  import opened Limbs
  import opened BigNum
  import opened Montgomery

  const BN_LIMBS: nat := 128

  // A big-endian byte string read as a number.
  ghost function BytesVal(b: seq<Byte>): (v: int)
    ensures v >= 0
  {
    if b == [] then 0 else 256 * BytesVal(b[..|b| - 1]) + b[|b| - 1]
  }

  lemma {:induction false} PowAdd(b: int, m: nat, n: nat)
    ensures Pow(b, m + n) == Pow(b, m) * Pow(b, n)
  {
    if m > 0 {
      PowAdd(b, m - 1, n);
      assert b * (Pow(b, m - 1) * Pow(b, n)) == (b * Pow(b, m - 1)) * Pow(b, n);
    }
  }

  lemma {:induction false} PowPositive(b: int, n: nat)
    requires b > 0
    ensures Pow(b, n) > 0
  {
    if n > 0 {
      PowPositive(b, n - 1);
      MulMono(1, b, Pow(b, n - 1));
    }
  }

  lemma SmallPowers()
    ensures Pow(2, 32) == BASE && Pow(256, 4) == BASE
    ensures Pow(256, 1) == 0x100 && Pow(256, 2) == 0x1_0000 && Pow(256, 3) == 0x100_0000
  {
    assert Pow(2, 8) == 256;
    PowAdd(2, 8, 8);
    PowAdd(2, 16, 16);
    assert Pow(256, 0) == 1;
    assert Pow(256, 1) == 256 * Pow(256, 0);
    assert Pow(256, 2) == 256 * Pow(256, 1);
    assert Pow(256, 3) == 256 * Pow(256, 2);
    assert Pow(256, 4) == 256 * Pow(256, 3);
  }

  lemma {:induction false} WeightAsPower(n: nat)
    ensures W(n) == Pow(2, 32 * n) && W(n) == Pow(256, 4 * n)
  {
    if n > 0 {
      WeightAsPower(n - 1);
      SmallPowers();
      PowAdd(2, 32, 32 * (n - 1));
      PowAdd(256, 4, 4 * (n - 1));
      assert 32 + 32 * (n - 1) == 32 * n && 4 + 4 * (n - 1) == 4 * n;
    }
  }

  // In v = lo + p * (x + BASE * hi) the base-e digit at weight p * d is the
  // one x has at weight d.
  lemma Digit(v: int, lo: int, p: int, x: int, hi: int, d: int, c: int, e: int)
    requires 0 <= lo < p && d > 0 && e > 0 && BASE == d * (c * e)
    requires v == lo + p * (x + BASE * hi)
    ensures p * d > 0
    ensures (v / (p * d)) % e == (x / d) % e
  {
    var y, z := x / d, x % d;
    var q, r := y + c * e * hi, lo + p * z;
    MulMono(1, d, p);
    MulMono(z, d - 1, p);
    assert p * (d - 1) + p == p * d;
    MulMono(0, z, p);
    assert x + BASE * hi == d * q + z by {
      assert d * (c * e) * hi == d * (c * e * hi);
    }
    assert p * (d * q + z) == (p * d) * q + p * z;
    Remainder(v, p * d, q, r);
    assert c * e * hi == e * (c * hi);
    CongruentBy(q, y, e, c * hi);
  }

  lemma MiddleLimb(s: seq<Word>, k: nat, n: nat) returns (hi: int)
    requires k < n <= |s|
    ensures Val(s, n) == Val(s, k) + W(k) * (s[k] + BASE * hi)
  {
    hi := Val(s[k + 1..], n - k - 1);
    ValSplit(s, k + 1, n);
    var x, w := s[k], W(k);
    assert W(k + 1) == BASE * w;
    assert (BASE * w) * hi == w * (BASE * hi);
    assert w * (x + BASE * hi) == x * w + w * (BASE * hi);
  }

  // The digit of a limb vector at weight W(k) * d.
  lemma LimbDigit(s: seq<Word>, k: nat, n: nat, d: int, c: int, e: int)
    requires k < n <= |s|
    requires d > 0 && e > 0 && BASE == d * (c * e)
    ensures W(k) * d > 0
    ensures (Val(s, n) / (W(k) * d)) % e == (s[k] / d) % e
  {
    var hi := MiddleLimb(s, k, n);
    ValBound(s, k);
    Digit(Val(s, n), Val(s, k), W(k), s[k], hi, d, c, e);
  }

  method BnGetbit(a: array<Word>, bit: nat, ghost n: nat) returns (r: Word)
    requires bit < 32 * n && n <= a.Length
    ensures Pow(2, bit) > 0
    ensures r == (Val(a[..], n) / Pow(2, bit)) % 2
  {
    var k, s := bit / 32, bit % 32;
    r := (a[k] / Shift(s)) % 2;
    ShiftSplit(s);
    ShiftIsPower(s);
    LimbDigit(a[..], k, n, Shift(s), Shift(31 - s), 2);
    WeightAsPower(k);
    PowAdd(2, 32 * k, s);
    assert 32 * k + s == bit;
  }

  // 1 << s
  function Shift(s: nat): (p: int)
    ensures p > 0
  {
    if s == 0 then 1 else 2 * Shift(s - 1)
  }

  lemma {:induction false} ShiftIsPower(s: nat)
    ensures Shift(s) == Pow(2, s)
  {
    if s > 0 { ShiftIsPower(s - 1); }
  }

  lemma ShiftSplit(s: nat)
    requires s < 32
    ensures BASE == Shift(s) * (Shift(31 - s) * 2)
  {
    ShiftIsPower(s);
    ShiftIsPower(31 - s);
    SmallPowers();
    var x, y := Shift(s), Shift(31 - s);
    PowAdd(2, s, 32 - s);
    assert Pow(2, 32 - s) == 2 * y;
    assert s + (32 - s) == 32;
  }

  lemma Cancel(x: int, y: int, z: int)
    requires z > 0 && x * z < y * z
    ensures x < y
  {
    if x >= y { MulMono(y, x, z); }
  }

  // A top limb x that reaches bit 31 after s left shifts has 32 - s bits.
  lemma TopLimbBits(x: Word, s: nat)
    requires s < 32 && 0x8000_0000 <= x * Shift(s) < BASE
    ensures x < Shift(32 - s) && Shift(31 - s) <= x
  {
    ShiftSplit(s);
    var p, q := Shift(s), Shift(31 - s);
    assert Shift(32 - s) == 2 * q;
    assert p * (q * 2) == (2 * q) * p;
    Cancel(x, 2 * q, p);
    if x < q {
      MulMono(x + 1, q, p);
    }
  }

  lemma ShiftsLeft(x: Word, s: nat)
    requires x > 0 && s < 32 && x * Shift(s) < 0x8000_0000
    ensures s < 31
  {
    ShiftSplit(0);
    MulMono(1, x, Shift(s));
  }

  lemma WeightShift(k: nat, s: nat)
    ensures Pow(2, 32 * k + s) == Shift(s) * W(k)
  {
    WeightAsPower(k);
    ShiftIsPower(s);
    PowAdd(2, s, 32 * k);
  }

  lemma MulSucc(x: int, p: int, w: int)
    requires x < p && 0 <= w
    ensures x * w + w <= p * w
  {
    MulMono(x + 1, p, w);
  }

  lemma BitlenBounds(a: seq<Word>, top: nat, s: nat)
    requires 0 < top <= |a| && s < 32 && 0x8000_0000 <= a[top - 1] * Shift(s) < BASE
    ensures Val(a, top) < Pow(2, 32 * top - s)
    ensures Pow(2, 32 * top - s - 1) <= Val(a, top)
  {
    var k, x, w := top - 1, a[top - 1], W(top - 1);
    TopLimbBits(x, s);
    ValBound(a, k);
    assert Pow(2, 32 * top - s) == Shift(32 - s) * w by { WeightShift(k, 32 - s); }
    assert Pow(2, 32 * top - s - 1) == Shift(31 - s) * w by { WeightShift(k, 31 - s); }
    var p, q := Shift(32 - s), Shift(31 - s);
    assert x * w + w <= p * w by { MulSucc(x, p, w); }
    assert q * w <= x * w by { MulMono(q, x, w); }
    assert Val(a, top) == Val(a, k) + x * w;
  }

  method BnBitlen(a: array<Word>, n: nat) returns (bits: nat)
    requires n <= a.Length
    ensures bits <= 32 * n && Val(a[..], n) < Pow(2, bits)
    ensures bits > 0 ==> Pow(2, bits - 1) <= Val(a[..], n)
  {
    var top := BnUsed(a, n);
    if top == 0 {
      return 0;
    }
    bits := top * 32;
    var v: Word := a[top - 1];
    ghost var s: nat := 0;
    while v < 0x8000_0000
      invariant v == a[top - 1] * Shift(s) && v > 0
      invariant bits == top * 32 - s && s < 32
      decreases 0x8000_0000 - v
    {
      ShiftsLeft(a[top - 1], s);
      assert a[top - 1] * (2 * Shift(s)) == 2 * v;
      v := 2 * v;
      bits := bits - 1;
      s := s + 1;
    }
    BitlenBounds(a[..], top, s);
  }

  // rem = rem << 1 | carry over n limbs.
  method ShiftIn(rem: array<Word>, n: nat, bit: Word)
    requires n <= rem.Length && bit <= 1
    requires 2 * Val(rem[..], n) + bit < W(n)
    modifies rem
    ensures Val(rem[..], n) == 2 * old(Val(rem[..], n)) + bit
    ensures Same(old(rem[..]), rem[..], n, rem.Length)
  {
    var carry: Word := bit;
    for j := 0 to n
      invariant carry <= 1
      invariant Same(old(rem[..]), rem[..], j, rem.Length)
      invariant Val(rem[..], n) + carry * W(j) == old(Val(rem[..], n)) + old(Val(rem[..], j)) + bit
    {
      var nc := rem[j] / 0x8000_0000;
      assert rem[j] == nc * 0x8000_0000 + rem[j] % 0x8000_0000;
      var x: Word := 2 * (rem[j] % 0x8000_0000) + carry;
      ShiftStep(rem[..], j, n, x, carry, nc);
      ghost var after := rem[..][j := x];
      rem[j] := x;
      assert rem[..] == after;
      carry := nc;
    }
  }

  lemma ShiftStep(r: seq<Word>, j: nat, n: nat, x: Word, carry: int, nc: int)
    requires j < n <= |r|
    requires x == 2 * r[j] + carry - nc * BASE
    ensures Val(r[j := x], n) + nc * W(j + 1) == Val(r, n) + r[j] * W(j) + carry * W(j)
  {
    ValUpdate(r, j, x, n);
    var w := W(j);
    assert (x - r[j]) * w == (r[j] + carry - nc * BASE) * w;
    assert (r[j] + carry - nc * BASE) * w == r[j] * w + carry * w - nc * (BASE * w);
  }

  // One bit of a binary division: shift the next bit in, subtract once.
  lemma DivideStep(q: int, bit: int, m: int, rem: int, x: int)
    requires m > 0 && q >= 0 && 0 <= bit <= 1
    requires rem == q % m && x == 2 * rem + bit
    ensures 0 <= x < 2 * m
    ensures (2 * q + bit) % m == if x >= m then x - m else x
  {
    var k := q / m;
    assert q == m * k + rem;
    var r := if x >= m then x - m else x;
    var k' := if x >= m then 2 * k + 1 else 2 * k;
    assert m * k' == if x >= m then 2 * (m * k) + m else 2 * (m * k);
    Remainder(2 * q + bit, m, k', r);
  }

  // x / 2^i is twice x / 2^(i+1), plus bit i.
  lemma NextBit(x: int, i: nat)
    requires x >= 0
    ensures Pow(2, i) > 0 && Pow(2, i + 1) > 0
    ensures x / Pow(2, i) == 2 * (x / Pow(2, i + 1)) + (x / Pow(2, i)) % 2
    ensures x / Pow(2, i) >= 0
  {
    PowPositive(2, i);
    var p := Pow(2, i);
    HalfQuotient(x, p);
  }

  lemma HalfQuotient(x: int, p: int)
    requires p > 0 && x >= 0
    ensures x / (2 * p) == (x / p) / 2 && x / p >= 0
  {
    var q := x / p;
    var h, b, r := q / 2, q % 2, x % p;
    assert x == p * q + r;
    assert p * (2 * h + b) == 2 * p * h + p * b;
    MulMono(0, b, p);
    MulMono(b, 1, p);
    Remainder(x, 2 * p, h, p * b + r);
    if q < 0 { MulMono(q, -1, p); }
  }

  // The loop body of bn_mod: rem = 2 * rem + bit, minus m when that is m or more.
  method DivideBit(rem: array<Word>, m: array<Word>, mlimbs: nat, bit: Word, ghost q: int)
    requires rem != m && mlimbs < rem.Length && mlimbs < m.Length && bit <= 1 && q >= 0
    requires 0 < Val(m[..], mlimbs + 1) && 2 * Val(m[..], mlimbs + 1) <= W(mlimbs + 1)
    requires Val(rem[..], mlimbs + 1) == q % Val(m[..], mlimbs + 1)
    modifies rem
    ensures Val(rem[..], mlimbs + 1) == (2 * q + bit) % Val(m[..], mlimbs + 1)
    ensures Same(old(rem[..]), rem[..], mlimbs + 1, rem.Length)
  {
    ghost var r := Val(rem[..], mlimbs + 1);
    DivideStep(q, bit, Val(m[..], mlimbs + 1), r, 2 * r + bit);
    ShiftIn(rem, mlimbs + 1, bit);
    var c := BnCmp(rem, m, mlimbs + 1);
    if c >= 0 {
      BnSub(rem, m, mlimbs + 1);
    }
  }

  // rem = x mod m by shift and subtract. Limb mlimbs of m takes part in the
  // comparison; the caller promises twice that number fits.
  method BnMod(rem: array<Word>, x: array<Word>, xlimbs: nat, m: array<Word>, mlimbs: nat)
    requires rem != x && rem != m
    requires rem.Length == BN_LIMBS + 1 && mlimbs <= BN_LIMBS && mlimbs < m.Length
    requires mlimbs <= xlimbs <= x.Length
    requires 0 < Val(m[..], mlimbs + 1) && 2 * Val(m[..], mlimbs + 1) <= W(mlimbs + 1)
    modifies rem
    ensures Val(rem[..], mlimbs + 1) == Val(x[..], xlimbs) % Val(m[..], mlimbs + 1)
    ensures forall i :: mlimbs < i < rem.Length ==> rem[i] == 0
  {
    ghost var mv, xv := Val(m[..], mlimbs + 1), Val(x[..], xlimbs);
    var bits := BnBitlen(x, xlimbs);
    BnZero(rem, BN_LIMBS + 1);
    var used := BnUsed(x, xlimbs);
    if used <= mlimbs {
      var c := BnCmp(x, m, mlimbs);
      if c < 0 {
        CopySmall(rem, x, xlimbs, mlimbs, used);
        SmallMod(xv, m[..], mlimbs);
        return;
      }
    }
    BinaryDivision(rem, x, xlimbs, m, mlimbs, bits);
  }

  method BinaryDivision(rem: array<Word>, x: array<Word>, xlimbs: nat, m: array<Word>, mlimbs: nat, bits: nat)
    requires rem != x && rem != m && xlimbs <= x.Length
    requires mlimbs < rem.Length && mlimbs < m.Length
    requires 0 < Val(m[..], mlimbs + 1) && 2 * Val(m[..], mlimbs + 1) <= W(mlimbs + 1)
    requires bits <= 32 * xlimbs && Val(x[..], xlimbs) < Pow(2, bits)
    requires forall i :: 0 <= i < rem.Length ==> rem[i] == 0
    modifies rem
    ensures Val(rem[..], mlimbs + 1) == Val(x[..], xlimbs) % Val(m[..], mlimbs + 1)
    ensures forall i :: mlimbs < i < rem.Length ==> rem[i] == 0
  {
    ghost var mv, xv := Val(m[..], mlimbs + 1), Val(x[..], xlimbs);
    ValZero(rem[..], mlimbs + 1);
    TopQuotient(xv, bits, mv);
    var i := bits;
    while i > 0
      invariant 0 <= i <= bits
      invariant forall k :: mlimbs < k < rem.Length ==> rem[k] == 0
      invariant Pow(2, i) > 0 && xv / Pow(2, i) >= 0
      invariant Val(rem[..], mlimbs + 1) == (xv / Pow(2, i)) % mv
    {
      i := i - 1;
      NextBit(xv, i);
      var bit := BnGetbit(x, i, xlimbs);
      DivideBit(rem, m, mlimbs, bit, xv / Pow(2, i + 1));
    }
    assert xv / Pow(2, 0) == xv;
  }

  lemma SmallMod(x: int, m: seq<Word>, k: nat)
    requires k < |m| && 0 <= x < Val(m, k)
    ensures Val(m, k + 1) > 0 && x % Val(m, k + 1) == x
  {
    MulMono(0, m[k], W(k));
    Remainder(x, Val(m, k + 1), 0, x);
  }

  lemma TopQuotient(x: int, bits: nat, m: int)
    requires 0 <= x < Pow(2, bits) && m > 0
    ensures x / Pow(2, bits) == 0 && 0 % m == 0
  {
    Remainder(x, Pow(2, bits), 0, x);
  }

  // The early exit: x is already below m, its used limbs are copied.
  method CopySmall(rem: array<Word>, x: array<Word>, xlimbs: nat, mlimbs: nat, used: nat)
    requires rem != x && used <= mlimbs <= xlimbs <= x.Length && mlimbs < rem.Length
    requires forall i :: 0 <= i < rem.Length ==> rem[i] == 0
    requires forall i :: used <= i < xlimbs ==> x[i] == 0
    modifies rem
    ensures Val(rem[..], mlimbs + 1) == Val(x[..], xlimbs) == Val(x[..], mlimbs)
    ensures forall i :: mlimbs < i < rem.Length ==> rem[i] == 0
  {
    for i := 0 to used
      invariant forall k :: 0 <= k < i ==> rem[k] == x[k]
      invariant forall k :: i <= k < rem.Length ==> rem[k] == 0
    {
      rem[i] := x[i];
    }
    ValSame(rem[..], x[..], used);
    ValTrim(rem[..], used, mlimbs + 1);
    ValTrim(x[..], used, xlimbs);
    ValTrim(x[..], used, mlimbs);
  }
}
