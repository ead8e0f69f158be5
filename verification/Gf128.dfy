// Multiplication in GF(2^128): the definition of section 6.3 of NIST
// SP 800-38D on bit strings, and the byte form of vlibc/src/tls/tls_crypto.c,
// which reverses every block and shifts left.
module Gf128 {
  import opened ByteFacts

  type Bytes = seq<bv8>
  type Block = s: Bytes | |s| == 16 witness seq(16, _ => 0)
  type Bits = s: seq<bool> | |s| == 128 witness seq(128, _ => false)

  // --- the definition ---

  function XorBits(x: Bits, y: Bits): Bits {
    seq(128, i requires 0 <= i < 128 => x[i] != y[i])
  }

  function Zero(): Bits {
    seq(128, _ => false)
  }

  // 11100001 followed by zeros.
  function Reduction(): Bits {
    seq(128, i => i == 0 || i == 1 || i == 2 || i == 7)
  }

  function ShiftRight(v: Bits): Bits {
    [false] + v[..127]
  }

  function TimesX(v: Bits): Bits {
    if v[127] then XorBits(ShiftRight(v), Reduction()) else ShiftRight(v)
  }

  function MulFrom(x: Bits, i: nat, z: Bits, v: Bits): Bits
    requires i <= 128
    decreases 128 - i
  {
    if i == 128 then z else MulFrom(x, i + 1, if x[i] then XorBits(z, v) else z, TimesX(v))
  }

  function Mul(x: Bits, y: Bits): Bits {
    MulFrom(x, 0, Zero(), y)
  }

  // Section 6.4: GHASH over whole blocks.
  function Ghash(h: Bits, y: Bits, blocks: seq<Bits>): Bits
    decreases |blocks|
  {
    if blocks == [] then y else Ghash(h, Mul(XorBits(y, blocks[0]), h), blocks[1..])
  }

  lemma {:induction false} GhashAppend(h: Bits, y: Bits, a: seq<Bits>, b: seq<Bits>)
    ensures Ghash(h, y, a + b) == Ghash(h, Ghash(h, y, a), b)
    decreases |a|
  {
    if a == [] {
      assert a + b == b;
    } else {
      assert (a + b)[1..] == a[1..] + b;
      GhashAppend(h, Mul(XorBits(y, a[0]), h), a[1..], b);
    }
  }

  // --- bits of bytes ---

  function Mask(i: nat): bv8
    requires i < 8
  {
    if i == 0 then 0x80 else if i == 1 then 0x40 else if i == 2 then 0x20 else if i == 3 then 0x10
    else if i == 4 then 0x08 else if i == 5 then 0x04 else if i == 6 then 0x02 else 0x01
  }

  // Bit i of a byte, the most significant first.
  predicate Bit(b: bv8, i: nat)
    requires i < 8
  {
    b & Mask(i) != 0
  }

  // A block as a bit string, leftmost bit first.
  function BitsOf(b: Block): Bits {
    seq(128, i requires 0 <= i < 128 => Bit(b[i / 8], i % 8))
  }

  // A reversed block as a field element: coefficient i first.
  function FieldOf(b: Block): Bits {
    seq(128, i requires 0 <= i < 128 => Bit(b[15 - i / 8], 7 - i % 8))
  }

  function ByteOf(b: seq<bool>): bv8
    requires |b| == 8
  {
    (if b[0] then 0x80 else 0) | (if b[1] then 0x40 else 0) | (if b[2] then 0x20 else 0) | (if b[3] then 0x10 else 0) |
    (if b[4] then 0x08 else 0) | (if b[5] then 0x04 else 0) | (if b[6] then 0x02 else 0) | (if b[7] then 0x01 else 0)
  }

  function BlockOf(x: Bits): Block {
    seq(16, i requires 0 <= i < 16 => ByteOf(x[8 * i..8 * i + 8]))
  }

  lemma ByteOfBit(b: seq<bool>, i: nat)
    requires |b| == 8 && i < 8
    ensures Bit(ByteOf(b), i) == b[i]
  {}

  lemma BitsOfBlockOf(x: Bits)
    ensures BitsOf(BlockOf(x)) == x
  {
    hide Bit, ByteOf;
    forall i | 0 <= i < 128
      ensures BitsOf(BlockOf(x))[i] == x[i]
    {
      ByteOfBit(x[8 * (i / 8)..8 * (i / 8) + 8], i % 8);
    }
  }

  lemma SameByte(a: bv8, b: bv8)
    requires forall i :: 0 <= i < 8 ==> Bit(a, i) == Bit(b, i)
    ensures a == b
  {
    assert Bit(a, 0) == Bit(b, 0) && Bit(a, 1) == Bit(b, 1) && Bit(a, 2) == Bit(b, 2) && Bit(a, 3) == Bit(b, 3);
    assert Bit(a, 4) == Bit(b, 4) && Bit(a, 5) == Bit(b, 5) && Bit(a, 6) == Bit(b, 6) && Bit(a, 7) == Bit(b, 7);
  }

  lemma SameBlock(a: Block, b: Block)
    requires BitsOf(a) == BitsOf(b)
    ensures a == b
  {
    hide Bit;
    forall k | 0 <= k < 16
      ensures a[k] == b[k]
    {
      forall i | 0 <= i < 8
        ensures Bit(a[k], i) == Bit(b[k], i)
      {
        assert BitsOf(a)[8 * k + i] == BitsOf(b)[8 * k + i];
      }
      SameByte(a[k], b[k]);
    }
  }

  lemma XorBit(a: bv8, b: bv8, i: nat)
    requires i < 8
    ensures Bit(a ^ b, i) == (Bit(a, i) != Bit(b, i))
  {
    XorMask(a, b, Mask(i));
  }

  // --- the byte form ---

  // The three swaps of gcm_rev128 on one byte.
  function RevByte(v0: bv8): bv8 {
    var v1 := ((v0 & 0x0f) << 4) | ((v0 & 0xf0) >> 4);
    var v2 := ((v1 & 0x33) << 2) | ((v1 & 0xcc) >> 2);
    ((v2 & 0x55) << 1) | ((v2 & 0xaa) >> 1)
  }

  lemma RevByteBit(v: bv8, i: nat)
    requires i < 8
    ensures Bit(RevByte(v), i) == Bit(v, 7 - i)
  {}

  function Rev128(b: Block): Block {
    seq(16, i requires 0 <= i < 16 => RevByte(b[15 - i]))
  }

  method GcmRev128(input: Block) returns (out: array<bv8>)
    ensures fresh(out) && out.Length == 16 && out[..] == Rev128(input)
    ensures FieldOf(out[..]) == BitsOf(input) && BitsOf(out[..]) == FieldOf(input)
  {
    out := new bv8[16];
    for i := 0 to 16
      invariant forall k :: 0 <= k < i ==> out[k] == RevByte(input[15 - k])
    {
      out[i] := RevByte(input[15 - i]);
    }
    assert out[..] == Rev128(input);
    RevFields(input);
  }

  // Reversing turns the string reading into the field reading, and back.
  lemma RevFields(b: Block)
    ensures FieldOf(Rev128(b)) == BitsOf(b) && BitsOf(Rev128(b)) == FieldOf(b)
  {
    forall i | 0 <= i < 128
      ensures FieldOf(Rev128(b))[i] == BitsOf(b)[i] && BitsOf(Rev128(b))[i] == FieldOf(b)[i]
    {
      RevByteBit(b[i / 8], 7 - i % 8);
      RevByteBit(b[15 - i / 8], i % 8);
    }
  }

  function XorBytes(a: Bytes, b: Bytes): (c: Bytes)
    requires |a| <= |b|
    ensures |c| == |a|
  {
    seq(|a|, i requires 0 <= i < |a| => a[i] ^ b[i])
  }

  lemma XorFieldAt(a: Block, b: Block, c: Block, i: nat)
    requires i < 128 && c[15 - i / 8] == a[15 - i / 8] ^ b[15 - i / 8]
    ensures FieldOf(c)[i] == (FieldOf(a)[i] != FieldOf(b)[i])
  {
    hide Bit;
    XorBit(a[15 - i / 8], b[15 - i / 8], 7 - i % 8);
  }

  lemma XorField(a: Block, b: Block)
    ensures FieldOf(XorBytes(a, b)) == XorBits(FieldOf(a), FieldOf(b))
  {
    forall i | 0 <= i < 128
      ensures FieldOf(XorBytes(a, b))[i] == XorBits(FieldOf(a), FieldOf(b))[i]
    {
      XorFieldAt(a, b, XorBytes(a, b), i);
    }
  }

  method GfXor(z: array<bv8>, x: array<bv8>)
    requires z != x && z.Length == 16 && x.Length == 16
    modifies z
    ensures FieldOf(z[..]) == XorBits(old(FieldOf(z[..])), FieldOf(x[..]))
  {
    ghost var before: Block := z[..];
    for i := 0 to 16
      invariant forall k :: 0 <= k < 16 ==> z[k] == if k < i then before[k] ^ x[k] else before[k]
    {
      z[i] := z[i] ^ x[i];
    }
    assert z[..] == XorBytes(before, x[..]);
    hide *;
    XorField(before, x[..]);
  }

  predicate TopBit(v: bv8) {
    v >> 7 != 0
  }

  // One byte of a left shift: the next byte's top bit comes in.
  function ShiftByte(v: bv8, w: bv8): bv8 {
    (v << 1) | (w >> 7)
  }

  // The last byte takes the reduction instead.
  function LastByte(v: bv8, carry: bool): bv8 {
    if carry then (v << 1) ^ 0x87 else v << 1
  }

  lemma ShiftByteBit(v: bv8, w: bv8, i: nat)
    requires i < 8
    ensures Bit(ShiftByte(v, w), i) == if i < 7 then Bit(v, i + 1) else Bit(w, 0)
    ensures TopBit(v) == Bit(v, 0)
  {}

  lemma LastByteBit(v: bv8, carry: bool, i: nat)
    requires i < 8
    ensures Bit(LastByte(v, carry), i)
            == ((i < 7 && Bit(v, i + 1)) != (carry && (i == 0 || i == 5 || i == 6 || i == 7)))
  {}

  ghost predicate IsShifted(v: Block, v': Block) {
    && (forall j :: 0 <= j < 15 ==> v'[j] == ShiftByte(v[j], v[j + 1]))
    && v'[15] == LastByte(v[15], TopBit(v[0]))
  }

  // Coefficients 8 and up come from one place below.
  lemma ShiftHigh(v: Block, v': Block, i: nat)
    requires 8 <= i < 128 && v'[15 - i / 8] == ShiftByte(v[15 - i / 8], v[16 - i / 8])
    ensures FieldOf(v')[i] == FieldOf(v)[i - 1]
  {
    hide Bit, ShiftByte;
    ShiftByteBit(v[15 - i / 8], v[16 - i / 8], 7 - i % 8);
    OneBelow(v, i);
  }

  lemma OneBelow(v: Block, i: nat)
    requires 8 <= i < 128
    ensures FieldOf(v)[i - 1] == if i % 8 > 0 then Bit(v[15 - i / 8], 8 - i % 8) else Bit(v[16 - i / 8], 0)
  {
    hide Bit;
  }

  lemma ShiftLow(v: Block, v': Block, i: nat)
    requires i < 8 && v'[15] == LastByte(v[15], TopBit(v[0]))
    ensures FieldOf(v')[i]
            == ((i > 0 && FieldOf(v)[i - 1]) != (FieldOf(v)[127] && (i == 0 || i == 1 || i == 2 || i == 7)))
  {
    hide Bit, LastByte, TopBit;
    LastByteBit(v[15], TopBit(v[0]), 7 - i);
    ShiftByteBit(v[0], v[0], 0);
  }

  lemma ShiftField(v: Block, v': Block)
    requires IsShifted(v, v')
    ensures FieldOf(v') == TimesX(FieldOf(v))
  {
    hide Bit, ShiftByte, LastByte, TopBit, FieldOf;
    var f, f' := FieldOf(v), FieldOf(v');
    forall i | 0 <= i < 128
      ensures f'[i] == TimesX(f)[i]
    {
      if i >= 8 {
        assert v'[15 - i / 8] == ShiftByte(v[15 - i / 8], v[15 - i / 8 + 1]);
        ShiftHigh(v, v', i);
      } else {
        ShiftLow(v, v', i);
      }
    }
  }

  // v *= x
  method ShiftLeft(v: array<bv8>)
    requires v.Length == 16
    modifies v
    ensures FieldOf(v[..]) == TimesX(old(FieldOf(v[..])))
  {
    ghost var before: Block := v[..];
    hide ShiftByte, LastByte, TopBit;
    var carry := TopBit(v[0]);
    for j := 0 to 15
      invariant forall k :: 0 <= k < j ==> v[k] == ShiftByte(before[k], before[k + 1])
      invariant forall k :: j <= k < 16 ==> v[k] == before[k]
    {
      v[j] := ShiftByte(v[j], v[j + 1]);
    }
    v[15] := LastByte(v[15], carry);
    ShiftField(before, v[..]);
  }

  // Bit i of the field integer is byte 15 - i / 8, bit i % 8.
  function BitOfField(x: Block, i: nat): (b: bool)
    requires i < 128
    ensures b == FieldOf(x)[i]
  {
    BitByShift(x[15 - i / 8], i % 8);
    (x[15 - i / 8] >> (i % 8)) & 1 != 0
  }

  lemma BitByShift(v: bv8, i: nat)
    requires i < 8
    ensures ((v >> i) & 1 != 0) == Bit(v, 7 - i)
  {
    if i == 0 {} else if i == 1 {} else if i == 2 {} else if i == 3 {}
    else if i == 4 {} else if i == 5 {} else if i == 6 {} else {}
  }

  // One bit of x: add v when it is set, then v *= x.
  method AbsorbBit(z: array<bv8>, v: array<bv8>, x: array<bv8>, bit: nat)
    requires z != v && x != z && x != v && bit < 128
    requires z.Length == 16 && v.Length == 16 && x.Length == 16
    modifies z, v
    ensures FieldOf(z[..])
            == (if FieldOf(x[..])[bit] then XorBits(old(FieldOf(z[..])), old(FieldOf(v[..]))) else old(FieldOf(z[..])))
    ensures FieldOf(v[..]) == TimesX(old(FieldOf(v[..])))
  {
    hide *;
    var xb := BitOfField(x[..], bit);
    if xb {
      GfXor(z, v);
    }
    ShiftLeft(v);
  }

  // acc = (acc xor block) * H
  method GhashAbsorb(acc: array<bv8>, block: Block, h: Block)
    requires acc.Length == 16
    modifies acc
    ensures FieldOf(acc[..]) == Mul(XorBits(old(FieldOf(acc[..])), BitsOf(block)), FieldOf(h))
  {
    var x := GcmRev128(block);
    GfXor(x, acc);
    XorCommutes(BitsOf(block), FieldOf(acc[..]));
    FieldProduct(acc, x, h);
  }

  lemma XorCommutes(x: Bits, y: Bits)
    ensures XorBits(x, y) == XorBits(y, x)
  {}

  // acc = x * H: V holds H * x^i, Z the sum so far.
  method FieldProduct(acc: array<bv8>, x: array<bv8>, h: Block)
    requires acc != x && acc.Length == 16 && x.Length == 16
    modifies acc
    ensures FieldOf(acc[..]) == Mul(FieldOf(x[..]), FieldOf(h))
  {
    hide FieldOf, XorBits, TimesX;
    ghost var xf := FieldOf(x[..]);
    var v := new bv8[16](i requires 0 <= i < 16 => h[i]);
    var z := new bv8[16](_ => 0);
    assert v[..] == h;
    ZeroField(z[..]);
    for bit := 0 to 128
      invariant xf == FieldOf(x[..])
      invariant MulFrom(xf, bit, FieldOf(z[..]), FieldOf(v[..])) == Mul(xf, FieldOf(h))
    {
      AbsorbBit(z, v, x, bit);
    }
    CopyBlock(acc, z);
  }

  method CopyBlock(dst: array<bv8>, src: array<bv8>)
    requires dst != src && dst.Length == 16 && src.Length == 16
    modifies dst
    ensures dst[..] == src[..]
  {
    for i := 0 to 16
      invariant forall k :: 0 <= k < i ==> dst[k] == src[k]
    {
      dst[i] := src[i];
    }
  }

  lemma ZeroField(z: Block)
    requires forall k :: 0 <= k < 16 ==> z[k] == 0
    ensures FieldOf(z) == Zero() && BitsOf(z) == Zero()
  {}
}
