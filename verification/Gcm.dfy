// AES-GCM (vlibc/src/tls/tls_crypto.c) against sections 6.2, 6.5, 7.1 and 7.2
// of NIST SP 800-38D. `E` is AES under the key at hand: Block -> Block.
module Gcm {
  import opened ByteFacts
  import opened Gf128
  import opened Wrappers
  import Montgomery

  const TAG: nat := 16

  // --- numbers as big-endian bytes ---

  function BytesBE(v: int, n: nat): (b: Bytes)
    ensures |b| == n
    decreases n
  {
    if n == 0 then [] else BytesBE(v / 256, n - 1) + [(v % 256) as bv8]
  }

  function ValBE(b: Bytes): (v: int)
    ensures v >= 0
  {
    if b == [] then 0 else 256 * ValBE(b[..|b| - 1]) + b[|b| - 1] as int
  }

  // --- counters ---

  // inc_32: the last four bytes count modulo 2^32.
  function Inc32(b: Block): Block {
    b[..12] + BytesBE(ValBE(b[12..]) + 1, 4)
  }

  lemma LastDigit(v: int, x: bv8, n: nat)
    ensures BytesBE(256 * v + x as int, n + 1) == BytesBE(v, n) + [x]
  {
    hide ValBE;
    var y := x as int;
    DivMod256(v, y);
    IntRoundTrip(x);
  }

  lemma DivMod256(v: int, y: int)
    requires 0 <= y < 256
    ensures (256 * v + y) / 256 == v && (256 * v + y) % 256 == y
  {}

  lemma ValLast(b: Bytes, n: nat)
    requires |b| == n + 1
    ensures ValBE(b) == 256 * ValBE(b[..n]) + b[n] as int
  {}

  lemma {:induction false} BytesOfVal(b: Bytes)
    ensures BytesBE(ValBE(b), |b|) == b
  {
    if b != [] {
      var n := |b| - 1;
      BytesOfVal(b[..n]);
      LastDigit(ValBE(b[..n]), b[n], n);
      assert b == b[..n] + [b[n]];
    }
  }

  function Zeros(n: nat): (z: Bytes)
    ensures |z| == n
  {
    seq(n, _ => 0)
  }

  // Plus one: the last byte that is not 255 goes up, the ones behind it wrap.
  lemma {:induction false} PlusOne(b: Bytes, k: nat)
    requires k < |b| && b[k] != 255 && forall j :: k < j < |b| ==> b[j] == 255
    ensures BytesBE(ValBE(b) + 1, |b|) == b[..k] + [b[k] + 1] + Zeros(|b| - k - 1)
  {
    hide BytesBE, ValBE;
    var n := |b| - 1;
    var v := ValBE(b[..n]);
    ValLast(b, n);
    NextByte(b[n]);
    assert b[..n][..k] == b[..k];
    if k == n {
      BytesOfVal(b[..n]);
      LastDigit(v, b[n] + 1, n);
    } else {
      PlusOne(b[..n], k);
      LastDigit(v + 1, 0, n);
      assert Zeros(n - k - 1) + [0] == Zeros(n - k);
    }
  }

  lemma {:induction false} PlusOneWraps(b: Bytes)
    requires forall j :: 0 <= j < |b| ==> b[j] == 255
    ensures BytesBE(ValBE(b) + 1, |b|) == Zeros(|b|)
  {
    if b != [] {
      var n := |b| - 1;
      ValLast(b, n);
      NextByte(b[n]);
      PlusOneWraps(b[..n]);
      LastDigit(ValBE(b[..n]) + 1, 0, n);
      assert Zeros(n) + [0] == Zeros(n + 1);
    }
  }

  method GcmInc32(ctr: array<bv8>)
    requires ctr.Length == 16
    modifies ctr
    ensures ctr[..] == Inc32(old(ctr[..]))
  {
    hide BytesBE, ValBE;
    ghost var c: Block := ctr[..];
    for i := 0 to 4
      invariant forall k :: 0 <= k < 16 - i ==> ctr[k] == c[k]
      invariant forall k :: 16 - i <= k < 16 ==> c[k] == 255 && ctr[k] == 0
    {
      var idx := 15 - i;
      ctr[idx] := ctr[idx] + 1;
      if ctr[idx] != 0 {
        Incremented(c, ctr[..], idx);
        return;
      }
      NextByte(c[idx]);
    }
    PlusOneWraps(c[12..]);
    assert ctr[..] == c[..12] + Zeros(4);
  }

  lemma Incremented(c: Block, d: Block, idx: nat)
    requires 12 <= idx < 16 && c[idx] + 1 != 0 && d[idx] == c[idx] + 1
    requires forall k :: 0 <= k < idx ==> d[k] == c[k]
    requires forall k :: idx < k < 16 ==> c[k] == 255 && d[k] == 0
    ensures d == Inc32(c)
  {
    hide *;
    NextByte(c[idx]);
    PlusOne(c[12..], idx - 12);
    IncIs(c, d[12..]) by {
      Pieces(c[12..], d[12..], idx - 12);
    }
    assert d == c[..12] + d[12..];
  }

  lemma IncIs(c: Block, t: Bytes)
    requires t == BytesBE(ValBE(c[12..]) + 1, 4)
    ensures Inc32(c) == c[..12] + t
  {}

  lemma Pieces(b: Bytes, d: Bytes, k: nat)
    requires k < |b| == |d| && d[k] == b[k] + 1
    requires forall j :: 0 <= j < k ==> d[j] == b[j]
    requires forall j :: k < j < |b| ==> d[j] == 0
    ensures d == b[..k] + [b[k] + 1] + Zeros(|b| - k - 1)
  {}

  // --- GCTR ---

  function Gctr(E: Block -> Block, icb: Block, x: Bytes): (y: Bytes)
    ensures |y| == |x|
    decreases |x|
  {
    if |x| <= 16 then XorBytes(x, E(icb)) else XorBytes(x[..16], E(icb)) + Gctr(E, Inc32(icb), x[16..])
  }

  lemma XorTwice(a: Bytes, b: Bytes)
    requires |a| <= |b|
    ensures XorBytes(XorBytes(a, b), b) == a
  {
    forall i | 0 <= i < |a|
      ensures (a[i] ^ b[i]) ^ b[i] == a[i]
    {
      XorCancels(a[i], b[i]);
    }
  }

  lemma {:induction false} GctrTwice(E: Block -> Block, icb: Block, x: Bytes)
    ensures Gctr(E, icb, Gctr(E, icb, x)) == x
    decreases |x|
  {
    if |x| <= 16 {
      XorTwice(x, E(icb));
    } else {
      var head, tail := XorBytes(x[..16], E(icb)), Gctr(E, Inc32(icb), x[16..]);
      XorTwice(x[..16], E(icb));
      GctrTwice(E, Inc32(icb), x[16..]);
      assert (head + tail)[..16] == head && (head + tail)[16..] == tail;
      assert x == x[..16] + x[16..];
    }
  }

  lemma GctrSplit(E: Block -> Block, icb: Block, x: Bytes)
    requires |x| > 0
    ensures var n := if |x| > 16 then 16 else |x|;
            Gctr(E, icb, x) == XorBytes(x[..n], E(icb)) + Gctr(E, Inc32(icb), x[n..])
  {
    if |x| <= 16 { assert x[..|x|] == x; }
  }

  method XorRow(e: Block, input: Bytes, off: nat, n: nat, out: array<bv8>)
    requires n <= 16 && off + n <= |input| <= out.Length
    modifies out
    ensures out[..off + n] == old(out[..off]) + XorBytes(input[off..off + n], e)
    ensures forall k :: off + n <= k < out.Length ==> out[k] == old(out[k])
  {
    for i := 0 to n
      invariant out[..off] == old(out[..off])
      invariant forall k :: 0 <= k < i ==> out[off + k] == input[off + k] ^ e[k]
      invariant forall k :: off + n <= k < out.Length ==> out[k] == old(out[k])
    {
      out[off + i] := input[off + i] ^ e[i];
    }
    assert out[..off + n] == out[..off] + out[off..off + n];
    assert out[off..off + n] == XorBytes(input[off..off + n], e);
  }

  method GcmGctr(E: Block -> Block, ctr: array<bv8>, input: Bytes, out: array<bv8>)
    requires ctr.Length == 16 && |input| <= out.Length && ctr != out
    modifies ctr, out
    ensures out[..|input|] == Gctr(E, old(ctr[..]), input)
    ensures forall i :: |input| <= i < out.Length ==> out[i] == old(out[i])
  {
    var off := 0;
    hide Inc32, XorBytes;
    ghost var whole := Gctr(E, ctr[..], input);
    assert input[0..] == input;
    while off < |input|
      invariant off <= |input|
      invariant whole == out[..off] + Gctr(E, ctr[..], input[off..])
      invariant forall i :: |input| <= i < out.Length ==> out[i] == old(out[i])
    {
      var n := if |input| - off > 16 then 16 else |input| - off;
      GctrRow(E, ctr, input, off, n, out);
      off := off + n;
    }
  }

  method GctrRow(E: Block -> Block, ctr: array<bv8>, input: Bytes, off: nat, n: nat, out: array<bv8>)
    requires ctr.Length == 16 && |input| <= out.Length && ctr != out && off < |input|
    requires n == if |input| - off > 16 then 16 else |input| - off
    modifies ctr, out
    ensures old(out[..off]) + Gctr(E, old(ctr[..]), input[off..]) == out[..off + n] + Gctr(E, ctr[..], input[off + n..])
    ensures forall i :: |input| <= i < out.Length ==> out[i] == old(out[i])
  {
    hide *;
    var e := E(ctr[..]);
    GctrSplit(E, ctr[..], input[off..]);
    assert input[off..][..n] == input[off..off + n] && input[off..][n..] == input[off + n..];
    ghost var rest := Gctr(E, Inc32(ctr[..]), input[off + n..]);
    XorRow(e, input, off, n, out);
    GcmInc32(ctr);
    assert out[..off + n] + rest == old(out[..off]) + (XorBytes(input[off..off + n], e) + rest);
  }

  // --- hashing ---

  // Data cut into blocks, the last one filled up with zeros.
  function Blocks(s: Bytes): seq<Bits>
    decreases |s|
  {
    if s == [] then []
    else if |s| <= 16 then [BitsOf(s + Zeros(16 - |s|))]
    else [BitsOf(s[..16])] + Blocks(s[16..])
  }

  lemma BlocksSplit(s: Bytes)
    requires |s| > 0
    ensures var n := if |s| > 16 then 16 else |s|;
            Blocks(s) == [BitsOf(s[..n] + Zeros(16 - n))] + Blocks(s[n..])
  {
    if |s| > 16 {
      assert s[..16] + Zeros(0) == s[..16];
    } else {
      assert s[..|s|] == s;
    }
  }

  method AbsorbData(S: array<bv8>, data: Bytes, h: Block)
    requires S.Length == 16
    modifies S
    ensures FieldOf(S[..]) == Ghash(FieldOf(h), old(FieldOf(S[..])), Blocks(data))
  {
    hide *;
    var off := 0;
    ghost var whole := Ghash(FieldOf(h), FieldOf(S[..]), Blocks(data));
    assert data[0..] == data;
    while off < |data|
      invariant off <= |data|
      invariant whole == Ghash(FieldOf(h), FieldOf(S[..]), Blocks(data[off..]))
    {
      var n := if |data| - off > 16 then 16 else |data| - off;
      AbsorbRow(S, data, off, n, h);
      off := off + n;
    }
    assert data[off..] == [];
    NothingLeft(FieldOf(h), FieldOf(S[..]));
  }

  method AbsorbRow(S: array<bv8>, data: Bytes, off: nat, n: nat, h: Block)
    requires S.Length == 16 && off < |data|
    requires n == if |data| - off > 16 then 16 else |data| - off
    modifies S
    ensures Ghash(FieldOf(h), FieldOf(S[..]), Blocks(data[off + n..]))
            == Ghash(FieldOf(h), old(FieldOf(S[..])), Blocks(data[off..]))
  {
    hide *;
    var blk := PadRow(data, off, n);
    BlocksSplit(data[off..]);
    assert data[off..][..n] == data[off..off + n] && data[off..][n..] == data[off + n..];
    GhashOne(FieldOf(h), FieldOf(S[..]), BitsOf(blk), Blocks(data[off + n..]));
    GhashAbsorb(S, blk, h);
  }

  method PadRow(data: Bytes, off: nat, n: nat) returns (b: Block)
    requires off + n <= |data| && n <= 16
    ensures b == data[off..off + n] + Zeros(16 - n)
  {
    var blk := new bv8[16](_ => 0);
    for i := 0 to n
      invariant forall k :: 0 <= k < i ==> blk[k] == data[off + k]
    {
      blk[i] := data[off + i];
    }
    for i := n to 16
      invariant forall k :: 0 <= k < n ==> blk[k] == data[off + k]
      invariant forall k :: n <= k < i ==> blk[k] == 0
    {
      blk[i] := 0;
    }
    assert blk[..] == data[off..off + n] + Zeros(16 - n);
    b := blk[..];
  }

  lemma GhashOne(h: Bits, y: Bits, b: Bits, rest: seq<Bits>)
    ensures Ghash(h, y, [b] + rest) == Ghash(h, Mul(XorBits(y, b), h), rest)
  {
    assert ([b] + rest)[1..] == rest;
  }

  lemma NothingLeft(h: Bits, y: Bits)
    ensures Ghash(h, y, Blocks([])) == y
  {}

  function LenBlock(aadlen: nat, ctlen: nat): Block {
    BytesBE(8 * aadlen, 8) + BytesBE(8 * ctlen, 8)
  }

  function Authenticated(aad: Bytes, ct: Bytes): seq<Bits> {
    Blocks(aad) + Blocks(ct) + [BitsOf(LenBlock(|aad|, |ct|))]
  }

  // The string whose encryption is the tag. H arrives as a string and is
  // reversed once; S ends reversed back.
  method GcmHashFinal(aad: Bytes, ct: Bytes, H: Block, S: array<bv8>)
    requires S.Length == 16
    modifies S
    ensures BitsOf(S[..]) == Ghash(BitsOf(H), old(FieldOf(S[..])), Authenticated(aad, ct))
  {
    hide *;
    var hf := GcmRev128(H);
    ghost var h, y := BitsOf(H), FieldOf(S[..]);
    AbsorbData(S, aad, hf[..]);
    AbsorbData(S, ct, hf[..]);
    var lenblk := LengthBlock(|aad|, |ct|);
    GhashAbsorb(S, lenblk, hf[..]);
    AuthenticatedHash(h, y, aad, ct);
    var sr := GcmRev128(S[..]);
    CopyBlock(S, sr);
  }

  lemma AuthenticatedHash(h: Bits, y: Bits, aad: Bytes, ct: Bytes)
    ensures Ghash(h, y, Authenticated(aad, ct))
         == Mul(XorBits(Ghash(h, Ghash(h, y, Blocks(aad)), Blocks(ct)), BitsOf(LenBlock(|aad|, |ct|))), h)
  {
    var a, c, l := Blocks(aad), Blocks(ct), BitsOf(LenBlock(|aad|, |ct|));
    GhashAppend(h, y, a + c, [l]);
    GhashAppend(h, y, a, c);
    var y' := Ghash(h, Ghash(h, y, a), c);
    assert [l][1..] == [];
    assert Ghash(h, y', [l]) == Ghash(h, Mul(XorBits(y', l), h), []);
  }

  function Pow256(k: nat): (p: int)
    ensures p > 0
  {
    if k == 0 then 1 else 256 * Pow256(k - 1)
  }

  // (uint8_t)(v >> 8 * (n - 1 - i))
  function ByteBE(v: int, n: nat, i: nat): bv8
    requires i < n
  {
    ((v / Pow256(n - 1 - i)) % 256) as bv8
  }

  // Byte i of the big-endian form, by shifting.
  lemma {:induction false} ByteAt(v: int, n: nat, i: nat)
    requires v >= 0 && i < n
    ensures BytesBE(v, n)[i] == ByteBE(v, n, i)
    decreases n
  {
    if i < n - 1 {
      ByteAt(v / 256, n - 1, i);
      DivDiv(v, Pow256(n - 2 - i));
    }
  }

  lemma ValSnoc(p: Bytes, y: int)
    requires 0 <= y < 256
    ensures ValBE(p + [y as bv8]) == 256 * ValBE(p) + y
  {
    hide *;
    ByteRoundTrip(y);
    ValAppend(p, y as bv8);
  }

  lemma ValAppend(p: Bytes, x: bv8)
    ensures ValBE(p + [x]) == 256 * ValBE(p) + x as int
  {
    assert (p + [x])[..|p|] == p;
  }

  lemma {:induction false} ValOfBytes(v: int, n: nat)
    requires 0 <= v < Pow256(n)
    ensures ValBE(BytesBE(v, n)) == v
  {
    if n > 0 {
      ValOfBytes(v / 256, n - 1);
      ValSnoc(BytesBE(v / 256, n - 1), v % 256);
    }
  }

  lemma DivDiv(v: int, p: int)
    requires p > 0 && v >= 0
    ensures v / (256 * p) == (v / 256) / p
  {
    var q := (v / 256) / p;
    var r := (v / 256) % p;
    assert v / 256 == p * q + r;
    assert v == 256 * (p * q + r) + v % 256;
    assert 256 * (p * q) == (256 * p) * q;
    Montgomery.Remainder(v, 256 * p, q, 256 * r + v % 256);
  }

  method LengthBlock(aadlen: nat, ctlen: nat) returns (b: Block)
    ensures b == LenBlock(aadlen, ctlen)
  {
    var lenblk := new bv8[16](_ => 0);
    PutBE64(lenblk, 0, 8 * aadlen);
    PutBE64(lenblk, 8, 8 * ctlen);
    assert lenblk[..] == lenblk[..8] + lenblk[8..];
    b := lenblk[..];
  }

  method PutBE64(b: array<bv8>, at: nat, v: nat)
    requires at + 8 <= b.Length
    modifies b
    ensures b[at..at + 8] == BytesBE(v, 8)
    ensures b[..at] == old(b[..at]) && b[at + 8..] == old(b[at + 8..])
  {
    hide BytesBE, ByteBE;
    for i := 0 to 8
      invariant b[..at] == old(b[..at]) && b[at + 8..] == old(b[at + 8..])
      invariant forall k :: 0 <= k < i ==> b[at + k] == BytesBE(v, 8)[k]
    {
      ByteAt(v, 8, i);
      b[at + i] := ByteBE(v, 8, i);
    }
  }

  // --- seal and open ---

  type Nonce = s: Bytes | |s| == 12 witness seq(12, _ => 0)

  function ZeroBlock(): Block {
    Zeros(16)
  }

  function J0(nonce: Nonce): Block {
    nonce + [0, 0, 0, 1]
  }

  function Tag(E: Block -> Block, nonce: Nonce, aad: Bytes, ct: Bytes): (t: Bytes)
    ensures |t| == TAG
  {
    Gctr(E, J0(nonce), BlockOf(Ghash(BitsOf(E(ZeroBlock())), Zero(), Authenticated(aad, ct))))
  }

  // Section 7.1: ciphertext and tag.
  function Seal(E: Block -> Block, nonce: Nonce, aad: Bytes, pt: Bytes): (c: Bytes)
    ensures |c| == |pt| + TAG
  {
    var c := Gctr(E, Inc32(J0(nonce)), pt);
    c + Tag(E, nonce, aad, c)
  }

  // Section 7.2: the plaintext, if the tag is the right one.
  function Open(E: Block -> Block, nonce: Nonce, aad: Bytes, ct: Bytes): (p: Option<Bytes>)
    ensures p.Some? ==> |p.value| + TAG == |ct|
  {
    if |ct| < TAG then None
    else
      var n := |ct| - TAG;
      if ct[n..] == Tag(E, nonce, aad, ct[..n]) then Some(Gctr(E, Inc32(J0(nonce)), ct[..n])) else None
  }

  // Opening undoes sealing, for every key, nonce, associated data and length.
  lemma OpenSeal(E: Block -> Block, nonce: Nonce, aad: Bytes, pt: Bytes)
    ensures Open(E, nonce, aad, Seal(E, nonce, aad, pt)) == Some(pt)
  {
    hide Gctr, Tag, Inc32;
    var icb := Inc32(J0(nonce));
    var c := Gctr(E, icb, pt);
    var s := c + Tag(E, nonce, aad, c);
    assert s[..|s| - TAG] == c && s[|s| - TAG..] == Tag(E, nonce, aad, c);
    GctrTwice(E, icb, pt);
  }

  // The tag of the ciphertext at hand.
  method ComputeTag(E: Block -> Block, nonce: Nonce, aad: Bytes, ct: Bytes) returns (T: array<bv8>)
    ensures fresh(T) && T.Length == 16 && T[..] == Tag(E, nonce, aad, ct)
  {
    hide Gctr, Ghash, Authenticated, FieldOf, BitsOf, BlockOf;
    var H := E(ZeroBlock());
    var S := new bv8[16](_ => 0);
    ZeroField(S[..]);
    GcmHashFinal(aad, ct, H, S);
    BitsOfBlockOf(BitsOf(S[..]));
    SameBlock(S[..], BlockOf(BitsOf(S[..])));
    var j0 := new bv8[16](i requires 0 <= i < 16 => J0(nonce)[i]);
    assert j0[..] == J0(nonce);
    T := new bv8[16](_ => 0);
    GcmGctr(E, j0, S[..], T);
    assert T[..16] == T[..];
  }

  method TlsGcmSeal(E: Block -> Block, nonce: Nonce, aad: Bytes, pt: Bytes, ct: array<bv8>)
    requires ct.Length >= |pt| + TAG
    modifies ct
    ensures ct[..|pt| + TAG] == Seal(E, nonce, aad, pt)
    ensures forall i :: |pt| + TAG <= i < ct.Length ==> ct[i] == old(ct[i])
  {
    hide Gctr, Tag, Inc32;
    var jc := new bv8[16](i requires 0 <= i < 16 => J0(nonce)[i]);
    assert jc[..] == J0(nonce);
    GcmInc32(jc);
    GcmGctr(E, jc, pt, ct);
    ghost var c := ct[..|pt|];
    var T := ComputeTag(E, nonce, aad, ct[..|pt|]);
    for i := 0 to 16
      invariant ct[..|pt|] == c && T[..] == Tag(E, nonce, aad, c)
      invariant forall k :: 0 <= k < i ==> ct[|pt| + k] == T[k]
      invariant forall i :: |pt| + TAG <= i < ct.Length ==> ct[i] == old(ct[i])
    {
      ct[|pt| + i] := T[i];
    }
    assert ct[..|pt| + TAG] == ct[..|pt|] + ct[|pt|..|pt| + TAG];
    assert ct[|pt|..|pt| + TAG] == T[..];
  }

  // Returns 0 exactly when the recomputed tag is the received one; otherwise
  // the plaintext buffer is cleared.
  method TlsGcmOpen(E: Block -> Block, nonce: Nonce, aad: Bytes, ct: Bytes, pt: array<bv8>, tag: array<bv8>)
    returns (rc: int)
    requires |ct| >= TAG ==> pt.Length >= |ct| - TAG
    requires pt != tag && tag.Length == 16
    modifies pt, tag
    ensures rc == 0 || rc == -1
    ensures rc == 0 <==> Open(E, nonce, aad, ct).Some?
    ensures rc == 0 ==> pt[..|ct| - TAG] == Open(E, nonce, aad, ct).value
    ensures rc != 0 && |ct| >= TAG ==> pt[..|ct| - TAG] == Zeros(|ct| - TAG)
    ensures |ct| >= TAG ==> tag[..] == Tag(E, nonce, aad, ct[..|ct| - TAG])
    ensures forall i :: |ct| - TAG <= i < pt.Length && 0 <= i ==> pt[i] == old(pt[i])
  {
    hide Gctr, Tag, Inc32;
    if |ct| < TAG {
      return -1;
    }
    var n := |ct| - TAG;
    var jc := new bv8[16](i requires 0 <= i < 16 => J0(nonce)[i]);
    assert jc[..] == J0(nonce);
    GcmInc32(jc);
    GcmGctr(E, jc, ct[..n], pt);
    var T := ComputeTag(E, nonce, aad, ct[..n]);
    CopyBlock(tag, T);
    var bad := Differences(T, ct[n..]);
    if bad != 0 {
      for i := 0 to n
        invariant tag[..] == T[..] == Tag(E, nonce, aad, ct[..n])
        invariant forall k :: 0 <= k < i ==> pt[k] == 0
        invariant forall i :: n <= i < pt.Length ==> pt[i] == old(pt[i])
      {
        pt[i] := 0;
      }
      return -1;
    }
    return 0;
  }

  // tls_gcm_open where the tag output is the record's own tag field, as the
  // handshake passes it: the computed tag is compared with itself, so every
  // record is accepted and deciphered.
  method TlsGcmOpenOver(E: Block -> Block, nonce: Nonce, aad: Bytes, rec: array<bv8>, pt: array<bv8>) returns (rc: int)
    requires pt != rec && rec.Length >= TAG && pt.Length >= rec.Length - TAG
    modifies pt, rec
    ensures rc == 0
    ensures pt[..rec.Length - TAG] == Gctr(E, Inc32(J0(nonce)), old(rec[..rec.Length - TAG]))
    ensures rec[rec.Length - TAG..] == Tag(E, nonce, aad, old(rec[..rec.Length - TAG]))
    ensures rec[..rec.Length - TAG] == old(rec[..rec.Length - TAG])
  {
    hide Gctr, Tag, Inc32;
    var n := rec.Length - TAG;
    var ct := rec[..n];
    var jc := new bv8[16](i requires 0 <= i < 16 => J0(nonce)[i]);
    assert jc[..] == J0(nonce);
    GcmInc32(jc);
    GcmGctr(E, jc, ct, pt);
    var T := ComputeTag(E, nonce, aad, ct);
    for i := 0 to 16
      invariant T[..] == Tag(E, nonce, aad, ct)
      invariant pt[..n] == Gctr(E, Inc32(J0(nonce)), ct)
      invariant rec[..n] == ct && rec[n..n + i] == T[..i]
    {
      rec[n + i] := T[i];
      assert rec[n..n + i + 1] == rec[n..n + i] + [T[i]];
    }
    assert rec[n..] == rec[n..n + 16] && T[..16] == T[..];
    var bad := Differences(T, rec[n..]);
    return if bad != 0 then -1 else 0;
  }

  // bad |= T[i] ^ ct[i]
  method Differences(T: array<bv8>, t: Block) returns (bad: bv8)
    requires T.Length == 16
    ensures bad == 0 <==> T[..] == t
  {
    bad := 0;
    for i := 0 to 16
      invariant bad == 0 <==> forall k :: 0 <= k < i ==> T[k] == t[k]
    {
      OrZero(bad, T[i], t[i]);
      bad := bad | (T[i] ^ t[i]);
    }
  }

}
