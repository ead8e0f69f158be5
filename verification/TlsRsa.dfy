// The RSA calls of the handshake, on the byte strings it exchanges.
module TlsRsa {
  import opened Limbs
  import opened Digits
  import opened Octets
  import opened ModPow
  import opened Pkcs1
  import opened ByteFacts
  import opened Wrappers
  import Gf128

  type Bytes = Gf128.Bytes

  function Widen(b: Bytes): (s: seq<Byte>)
    ensures |s| == |b|
  {
    seq(|b|, i requires 0 <= i < |b| => ToInt(b[i]))
  }

  function Narrow(s: seq<Byte>): (b: Bytes)
    ensures |b| == |s|
  {
    seq(|s|, i requires 0 <= i < |s| => s[i] as bv8)
  }

  function ToInt(x: bv8): (y: Byte) {
    IntRoundTrip(x);
    x as int
  }

  lemma NarrowWiden(b: Bytes)
    ensures Narrow(Widen(b)) == b
  {
    forall i | 0 <= i < |b|
      ensures Narrow(Widen(b))[i] == b[i]
    {
      IntRoundTrip(b[i]);
    }
  }

  lemma WidenNarrow(s: seq<Byte>)
    ensures Widen(Narrow(s)) == s
  {
    forall i | 0 <= i < |s|
      ensures Widen(Narrow(s))[i] == s[i]
    {
      ByteRoundTrip(s[i]);
    }
  }

  // v as n big-endian bytes.
  ghost function OctetsOf(v: int, n: nat): (s: seq<Byte>)
    ensures |s| == n
    decreases n
  {
    if n == 0 then [] else OctetsOf(v / 256, n - 1) + [v % 256]
  }

  lemma {:induction false} OctetsVal(v: int, n: nat)
    requires 0 <= v < Pow(256, n)
    ensures BytesVal(OctetsOf(v, n)) == v
    decreases n
  {
    if n > 0 {
      OctetsVal(v / 256, n - 1);
      assert OctetsOf(v, n)[..n - 1] == OctetsOf(v / 256, n - 1);
    }
  }

  // What tls_rsa_encrypt_pkcs1 leaves in out.
  ghost function RsaEncrypt(n: Bytes, m: Bytes): Option<Bytes> {
    if BadLength(|n|) || |m| > |n| - 11 then None
    else Some(Narrow(OctetsOf(ModpowVal(PadBlock(|n|, Widen(m)), PUBLIC_EXPONENT, BytesVal(Widen(n))), |n|)))
  }

  // What tls_rsa_decrypt_pkcs1 returns.
  ghost function RsaDecrypt(n: Bytes, d: Bytes, c: Bytes): Option<Bytes> {
    if BadLength(|n|) then None
    else
      match Unpad(OctetsOf(ModpowVal(Widen(c), Widen(d), BytesVal(Widen(n))), |n|))
      case None => None
      case Some(m) => Some(Narrow(m))
  }

  // A private exponent that belongs to the modulus.
  ghost predicate GoodKey(n: Bytes, d: Bytes) {
    && !BadLength(|n|) && |d| <= MAX_MODULUS
    && Widen(n)[0] != 0 && BytesVal(Widen(n)) % 2 == 1
    && RsaPair(BytesVal(Widen(n)), BytesVal(PUBLIC_EXPONENT), BytesVal(Widen(d)))
  }

  lemma ModpowFits(base: seq<Byte>, exp: seq<Byte>, n: seq<Byte>)
    ensures var v := ModpowVal(base, exp, BytesVal(n)); 0 <= v < Pow(256, |n|) && BytesVal(OctetsOf(v, |n|)) == v
  {
    hide *;
    BytesBound(n);
    var v := ModpowVal(base, exp, BytesVal(n));
    OctetsVal(v, |n|);
  }

  lemma RsaRoundTrip(n: Bytes, d: Bytes, m: Bytes)
    requires GoodKey(n, d) && 1 <= |m| <= |n| - 11
    ensures RsaEncrypt(n, m).Some? && |RsaEncrypt(n, m).value| == |n|
    ensures RsaDecrypt(n, d, RsaEncrypt(n, m).value) == Some(m)
  {
    hide ModpowVal, BytesVal, OctetsOf, Widen, Narrow, PadBlock, Unpad;
    var nv := Widen(n);
    var e := OctetsOf(ModpowVal(PadBlock(|n|, Widen(m)), PUBLIC_EXPONENT, BytesVal(nv)), |n|);
    var c := Narrow(e);
    WidenNarrow(e);
    var b := OctetsOf(ModpowVal(Widen(c), Widen(d), BytesVal(nv)), |n|);
    ModpowFits(PadBlock(|n|, Widen(m)), PUBLIC_EXPONENT, nv);
    ModpowFits(Widen(c), Widen(d), nv);
    RoundTrip(nv, Widen(d), Widen(m), e, b);
    NarrowWiden(m);
  }

  // The bytes the in-place routines write are the ones named above.
  method EncryptBytes(n: Bytes, m: Bytes, stale: Word) returns (c: Option<Bytes>)
    requires !BadLength(|n|) ==> Defined(BytesVal(Widen(n)), stale) && Harmless(BytesVal(Widen(n)), stale)
    ensures c == RsaEncrypt(n, m)
  {
    hide ModpowVal, ModpowStale, BytesVal, OctetsOf, PadBlock, Harmless, Defined;
    var ni, mi := Widen(n), Widen(m);
    var out := new Byte[|n|](_ => 0);
    var rc := RsaEncryptPkcs1(ni, mi, stale, out);
    if rc != 0 {
      return None;
    }
    HarmlessModpow(PadBlock(|n|, mi), PUBLIC_EXPONENT, BytesVal(ni), stale);
    ModpowFits(PadBlock(|n|, mi), PUBLIC_EXPONENT, ni);
    assert out[..] == out[..|n|];
    BytesValInjective(out[..], OctetsOf(ModpowVal(PadBlock(|n|, mi), PUBLIC_EXPONENT, BytesVal(ni)), |n|));
    return Some(Narrow(out[..]));
  }

  method DecryptBytes(n: Bytes, d: Bytes, c: Bytes, stale: Word) returns (m: Option<Bytes>)
    requires |c| == |n|
    requires !BadLength(|n|) ==> Defined(BytesVal(Widen(n)), stale) && Harmless(BytesVal(Widen(n)), stale)
    ensures m == RsaDecrypt(n, d, c)
  {
    hide ModpowVal, ModpowStale, BytesVal, OctetsOf, Unpad, Harmless, Defined;
    var ni, di, ci := Widen(n), Widen(d), Widen(c);
    var out := new Byte[|n|](_ => 0);
    var mlen, block := RsaDecryptPkcs1(ni, di, ci, stale, out);
    if !BadLength(|n|) {
      HarmlessModpow(ci, di, BytesVal(ni), stale);
      ModpowFits(ci, di, ni);
      BytesValInjective(block, OctetsOf(ModpowVal(ci, di, BytesVal(ni)), |n|));
    }
    if mlen < 0 {
      return None;
    }
    return Some(Narrow(out[..mlen]));
  }

  // The two calls over the wire: what went in comes out.
  method Exchange(n: Bytes, d: Bytes, m: Bytes, stale: Word, stale': Word) returns (r: Option<Bytes>)
    requires GoodKey(n, d) && 1 <= |m| <= |n| - 11
    requires Defined(BytesVal(Widen(n)), stale) && Harmless(BytesVal(Widen(n)), stale)
    requires Defined(BytesVal(Widen(n)), stale') && Harmless(BytesVal(Widen(n)), stale')
    ensures r == Some(m)
  {
    hide RsaEncrypt, RsaDecrypt, Harmless, Defined;
    RsaRoundTrip(n, d, m);
    var c := EncryptBytes(n, m, stale);
    r := DecryptBytes(n, d, c.value, stale');
  }
}
