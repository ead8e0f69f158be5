// RSAES-PKCS1-v1_5 as in vlibc/src/tls/tls_bn.c: block type 2 padding around
// tls_modpow (section 7.2 of RFC 8017).
module Pkcs1 {
  import opened Limbs
  import opened Montgomery
  import opened Digits
  import opened Octets
  import opened ModPow
  import opened Wrappers

  // (uint8_t)(0x01 + ((i * 37 + 11) & 0xFE)): clear the low bit, then add one.
  function PadByte(i: nat): (b: Byte)
    ensures b != 0
  {
    var v := (i * 37 + 11) % 256;
    v - v % 2 + 1
  }

  // 00 02 | PS | 00 | M
  function PadBlock(nlen: nat, m: seq<Byte>): (b: seq<Byte>)
    requires |m| + 11 <= nlen
    ensures |b| == nlen
  {
    [0, 2] + seq(nlen - |m| - 3, (i: nat) => PadByte(i)) + [0] + m
  }

  function FirstZero(b: seq<Byte>, i: nat): (k: nat)
    requires i <= |b|
    ensures i <= k <= |b|
    ensures forall j :: i <= j < k ==> b[j] != 0
    ensures k < |b| ==> b[k] == 0
    decreases |b| - i
  {
    if i < |b| && b[i] != 0 then FirstZero(b, i + 1) else i
  }

  function Unpad(b: seq<Byte>): (m: Option<seq<Byte>>) {
    if |b| < 2 || b[0] != 0 || b[1] != 2 then None
    else
      var i := FirstZero(b, 2);
      if i == |b| || i - 2 < 8 || i + 1 == |b| then None else Some(b[i + 1..])
  }

  // Zero bytes inside the message do not end it; an empty message is refused.
  lemma UnpadPad(nlen: nat, m: seq<Byte>)
    requires |m| + 11 <= nlen
    ensures Unpad(PadBlock(nlen, m)) == if m == [] then None else Some(m)
  {
    var b := PadBlock(nlen, m);
    var sep := nlen - |m| - 1;
    assert b[sep] == 0;
    assert forall j :: 2 <= j < sep ==> b[j] == PadByte(j - 2);
    assert FirstZero(b, 2) == sep;
    assert b[sep + 1..] == m;
  }

  predicate BadLength(nlen: nat) {
    nlen > MAX_MODULUS || nlen < 12
  }

  const PUBLIC_EXPONENT: seq<Byte> := [1, 0, 1]

  method RsaEncryptPkcs1(n: seq<Byte>, m: seq<Byte>, stale: Word, out: array<Byte>) returns (rc: int)
    requires |n| <= out.Length
    requires !BadLength(|n|) ==> Defined(BytesVal(n), stale)
    modifies out
    ensures rc == if BadLength(|n|) || |m| > |n| - 11 then -1 else 0
    ensures rc == 0 ==> BytesVal(out[..|n|]) == ModpowStale(PadBlock(|n|, m), PUBLIC_EXPONENT, BytesVal(n), stale)
    ensures rc != 0 ==> forall i :: 0 <= i < out.Length ==> out[i] == old(out[i])
  {
    if |n| > MAX_MODULUS || |n| < 12 {
      return -1;
    }
    if |m| > |n| - 11 {
      return -1;
    }
    var block := new Byte[MAX_MODULUS];
    var pslen := |n| - |m| - 3;
    block[0] := 0;
    block[1] := 2;
    for i := 0 to pslen
      invariant block[0] == 0 && block[1] == 2
      invariant forall k :: 0 <= k < i ==> block[2 + k] == PadByte(k)
    {
      block[2 + i] := PadByte(i);
    }
    block[2 + pslen] := 0;
    for i := 0 to |m|
      invariant block[0] == 0 && block[1] == 2 && block[2 + pslen] == 0
      invariant forall k :: 0 <= k < pslen ==> block[2 + k] == PadByte(k)
      invariant forall k :: 0 <= k < i ==> block[3 + pslen + k] == m[k]
    {
      block[3 + pslen + i] := m[i];
    }
    assert block[..|n|] == PadBlock(|n|, m);
    assert n[..ModLen(n)] == n;
    TlsModpow(block[..|n|], PUBLIC_EXPONENT, n, stale, out);
    return 0;
  }

  method RsaDecryptPkcs1(n: seq<Byte>, d: seq<Byte>, input: seq<Byte>, stale: Word, out: array<Byte>)
    returns (mlen: int, ghost block: seq<Byte>)
    requires |input| == |n| && |n| <= out.Length
    requires !BadLength(|n|) ==> Defined(BytesVal(n), stale)
    modifies out
    ensures BadLength(|n|) ==> mlen == -1
    ensures !BadLength(|n|) ==> |block| == |n| && BytesVal(block) == ModpowStale(input, d, BytesVal(n), stale)
    ensures !BadLength(|n|) ==> (Unpad(block) == None <==> mlen == -1)
    ensures mlen != -1 ==> 0 < mlen <= out.Length && Unpad(block) == Some(out[..mlen])
    ensures forall i :: (if mlen < 0 then 0 else mlen) <= i < out.Length ==> out[i] == old(out[i])
  {
    block := [];
    if |n| > MAX_MODULUS || |n| < 12 {
      return -1, [];
    }
    var blk := new Byte[MAX_MODULUS];
    assert n[..ModLen(n)] == n;
    TlsModpow(input, d, n, stale, blk);
    block := blk[..|n|];
    mlen := StripPadding(blk, |n|, out);
  }

  method StripPadding(block: array<Byte>, nlen: nat, out: array<Byte>) returns (mlen: int)
    requires block != out && 2 <= nlen <= block.Length && nlen <= out.Length
    modifies out
    ensures Unpad(block[..nlen]) == None <==> mlen == -1
    ensures mlen != -1 ==> 0 < mlen <= nlen && Unpad(block[..nlen]) == Some(out[..mlen])
    ensures forall i :: (if mlen < 0 then 0 else mlen) <= i < out.Length ==> out[i] == old(out[i])
  {
    ghost var b := block[..nlen];
    if block[0] != 0 || block[1] != 2 {
      return -1;
    }
    var i := 2;
    while i < nlen && block[i] != 0
      invariant 2 <= i <= nlen
      invariant FirstZero(b, i) == FirstZero(b, 2)
    {
      i := i + 1;
    }
    if i == nlen || i - 2 < 8 {
      return -1;
    }
    i := i + 1;
    var msg := i;
    mlen := nlen - i;
    if mlen <= 0 {
      return -1;
    }
    while i < nlen
      invariant msg <= i <= nlen
      invariant forall k :: 0 <= k < i - msg ==> out[k] == b[msg + k]
      invariant forall k :: mlen <= k < out.Length ==> out[k] == old(out[k])
    {
      out[i - msg] := block[i];
      i := i + 1;
    }
    assert out[..mlen] == b[msg..];
  }

  // --- round trip ---

  lemma {:induction false} BytesValInjective(a: seq<Byte>, b: seq<Byte>)
    requires |a| == |b| && BytesVal(a) == BytesVal(b)
    ensures a == b
  {
    if a != [] {
      BytesValInjective(a[..|a| - 1], b[..|b| - 1]);
      assert a == a[..|a| - 1] + [a[|a| - 1]];
      assert b == b[..|b| - 1] + [b[|b| - 1]];
    }
  }

  // A leading zero byte leaves the number below one with a non-zero byte there.
  lemma BelowModulus(b: seq<Byte>, n: seq<Byte>)
    requires |b| == |n| > 0 && b[0] == 0 && n[0] != 0
    ensures BytesVal(b) < BytesVal(n)
  {
    assert b == [0] + b[1..] && n == [n[0]] + n[1..];
    BytesValAppend([0], b[1..]);
    BytesValAppend([n[0]], n[1..]);
    BytesBound(b[1..]);
    assert BytesVal([n[0]]) == 256 * BytesVal([]) + n[0];
    assert BytesVal([0]) == 256 * BytesVal([]) + 0;
    MulMono(1, n[0], Pow(256, |n| - 1));
  }

  ghost predicate RsaPair(n: int, e: nat, d: nat)
    requires n > 0
  {
    forall x :: 0 <= x < n ==> Pow(Pow(x, e) % n, d) % n == x
  }

  lemma BaseBelowModulus(x: int, m: int)
    requires 0 <= x < m
    ensures EffectiveBase(x, m) == x
  {
    LimbCountBound(m);
    Remainder(x, W(LimbCount(m)), 0, x);
  }

  // Decrypting what was encrypted gives the padded block back, and stripping
  // it gives the message: for every message but the empty one.
  lemma RoundTrip(n: seq<Byte>, d: seq<Byte>, m: seq<Byte>, enc: seq<Byte>, block: seq<Byte>)
    requires !BadLength(|n|) && |m| + 11 <= |n| && |d| <= MAX_MODULUS
    requires n[0] != 0 && BytesVal(n) % 2 == 1
    requires RsaPair(BytesVal(n), BytesVal(PUBLIC_EXPONENT), BytesVal(d))
    requires |enc| == |n| && BytesVal(enc) == ModpowVal(PadBlock(|n|, m), PUBLIC_EXPONENT, BytesVal(n))
    requires |block| == |n| && BytesVal(block) == ModpowVal(enc, d, BytesVal(n))
    ensures block == PadBlock(|n|, m)
    ensures Unpad(block) == if m == [] then None else Some(m)
  {
    var nv, p := BytesVal(n), PadBlock(|n|, m);
    var x, e := BytesVal(p), BytesVal(PUBLIC_EXPONENT);
    BelowModulus(p, n);
    BaseBelowModulus(x, nv);
    assert BytesVal(enc) == Pow(x, e) % nv;
    BaseBelowModulus(BytesVal(enc), nv);
    BytesValInjective(block, p);
    UnpadPad(|n|, m);
  }
}
