// Big-endian byte strings to limbs and back (bn_from_bytes, bn_to_bytes of
// vlibc/src/tls/tls_bn.c).
module Octets {
  import opened Wrappers
  import opened Limbs
  import opened BigNum
  import opened Montgomery
  import opened Digits

  // 1 << (8 * s) for a byte position inside a word.
  function Weight256(s: nat): (w: int)
    requires s < 4
    ensures w > 0
  {
    if s == 0 then 1 else if s == 1 then 0x100 else if s == 2 then 0x1_0000 else 0x100_0000
  }

  lemma ByteWeight(k: nat)
    ensures Pow(256, k) == W(k / 4) * Weight256(k % 4) && Pow(256, k) > 0
  {
    WeightAsPower(k / 4);
    SmallPowers();
    PowAdd(256, 4 * (k / 4), k % 4);
    PowPositive(256, k);
    assert 4 * (k / 4) + k % 4 == k;
  }

  lemma BytesValNext(b: seq<Byte>, i: nat)
    requires i < |b|
    ensures BytesVal(b[..i + 1]) == 256 * BytesVal(b[..i]) + b[i]
  {
    assert b[..i + 1][..i] == b[..i];
  }

  function LastBytes(b: seq<Byte>, k: nat): (t: seq<Byte>)
    ensures |t| <= k && |t| <= |b|
  {
    if |b| <= k then b else b[|b| - k..]
  }

  lemma {:induction false} BytesBound(b: seq<Byte>)
    ensures BytesVal(b) < Pow(256, |b|)
  {
    if b != [] { BytesBound(b[..|b| - 1]); }
  }

  lemma {:induction false} BytesValAppend(h: seq<Byte>, t: seq<Byte>)
    ensures BytesVal(h + t) == BytesVal(h) * Pow(256, |t|) + BytesVal(t)
  {
    if t == [] {
      assert h + t == h;
    } else {
      var t' := t[..|t| - 1];
      BytesValAppend(h, t');
      assert (h + t)[..|h + t| - 1] == h + t';
      var v, p := BytesVal(h), Pow(256, |t'|);
      assert v * (256 * p) == 256 * (v * p);
    }
  }

  lemma {:induction false} PowMono(b: int, m: nat, n: nat)
    requires b > 0 && m <= n
    ensures Pow(b, m) <= Pow(b, n)
  {
    if m < n {
      PowMono(b, m, n - 1);
      PowPositive(b, n - 1);
      MulMono(1, b, Pow(b, n - 1));
    }
  }

  // The last k bytes are the number modulo 256^k.
  lemma LastBytesVal(b: seq<Byte>, k: nat)
    ensures Pow(256, k) > 0 && BytesVal(LastBytes(b, k)) == BytesVal(b) % Pow(256, k)
  {
    var t := LastBytes(b, k);
    var h := b[..|b| - |t|];
    assert b == h + t;
    PowPositive(256, k);
    BytesBound(t);
    PowMono(256, |t|, k);
    if |b| <= k {
      Remainder(BytesVal(b), Pow(256, k), 0, BytesVal(b));
    } else {
      BytesValAppend(h, t);
      assert BytesVal(h) * Pow(256, k) == Pow(256, k) * BytesVal(h);
      Remainder(BytesVal(b), Pow(256, k), BytesVal(h), BytesVal(t));
    }
  }

  // What a limb must be a multiple of while the d bytes above its low end
  // are still to come.
  ghost function Clear(d: int): (c: int)
    ensures c > 0
  {
    if d <= 0 then 1 else if d < 4 then Weight256(d) else BASE
  }

  lemma RoomForByte(x: Word, y: Byte, s: nat)
    requires s < 4 && x % Clear(s + 1) == 0
    ensures x + y * Weight256(s) < BASE
    ensures (x + y * Weight256(s)) % Clear(s) == 0
  {
    var c, w := Clear(s + 1), Weight256(s);
    var q := x / c;
    assert c == 0x100 * w && x == c * q;
    RoomInBase(w, q, y);
    CongruentBy(x + y * w, 0, w, 0x100 * q + y);
  }

  lemma RoomInBase(w: int, q: int, y: Byte)
    requires w == 1 || w == 0x100 || w == 0x1_0000 || w == 0x100_0000
    requires 0 <= 0x100 * w * q < BASE
    ensures 0x100 * w * q + y * w < BASE && 0x100 * w * q + y * w == w * (0x100 * q + y)
  {}

  // Byte y, whose weight is 256^k, lands in limb k / 4 ...
  lemma ByteInside(a: seq<Word>, n: nat, k: nat, y: Byte)
    requires k / 4 < n <= |a| && a[k / 4] + y * Weight256(k % 4) < BASE
    ensures Val(a[k / 4 := a[k / 4] + y * Weight256(k % 4)], n) == Val(a, n) + y * Pow(256, k)
  {
    ByteWeight(k);
    ValUpdate(a, k / 4, a[k / 4] + y * Weight256(k % 4), n);
    Reorder(y, Weight256(k % 4), W(k / 4));
  }

  // ... or weighs a multiple of what n limbs hold, and is dropped.
  lemma ByteOutside(n: nat, k: nat, y: Byte, q: int) returns (q': int)
    requires n <= k / 4
    ensures W(n) * q' == W(n) * q + y * Pow(256, k)
  {
    WeightAsPower(n);
    PowAdd(256, 4 * n, k - 4 * n);
    assert 4 * n + (k - 4 * n) == k;
    q' := q + y * Pow(256, k - 4 * n);
    Reorder3(W(n), q, y, Pow(256, k - 4 * n));
  }

  lemma NextByte(bv: int, y: int, k: nat)
    ensures (256 * bv + y) * Pow(256, k) == bv * Pow(256, k + 1) + y * Pow(256, k)
  {
    var p := Pow(256, k);
    assert bv * (256 * p) == 256 * bv * p;
  }

  lemma Reorder(y: int, c: int, w: int)
    ensures (y * c) * w == y * (w * c)
  {}

  lemma Reorder3(w: int, q: int, y: int, r: int)
    ensures w * (q + y * r) == w * q + y * (w * r)
  {
    assert w * (y * r) == y * (w * r);
  }

  // Or-ing a byte into bits that are still clear is adding it.
  method PutByte(a: array<Word>, n: nat, y: Byte, k: nat, ghost q: int) returns (ghost q': int)
    requires n <= a.Length
    requires forall l :: 0 <= l < n ==> a[l] % Clear(k + 1 - 4 * l) == 0
    modifies a
    ensures Val(a[..], n) + W(n) * q' == old(Val(a[..], n)) + W(n) * q + y * Pow(256, k)
    ensures forall l :: 0 <= l < n ==> a[l] % Clear(k - 4 * l) == 0
    ensures Same(old(a[..]), a[..], n, a.Length)
  {
    var limb, s := k / 4, k % 4;
    if limb < n {
      RoomForByte(a[limb], y, s);
      ByteInside(a[..], n, k, y);
      StillClear(a[..], n, k, y);
      ghost var after := a[..][limb := a[limb] + y * Weight256(s)];
      a[limb] := a[limb] + y * Weight256(s);
      assert a[..] == after;
      q' := q;
    } else {
      q' := ByteOutside(n, k, y, q);
    }
  }

  method BnFromBytes(a: array<Word>, n: nat, b: seq<Byte>)
    requires n <= a.Length
    modifies a
    ensures Val(a[..], n) == BytesVal(LastBytes(b, 4 * n))
    ensures Same(old(a[..]), a[..], n, a.Length)
  {
    BnZero(a, n);
    ghost var q := 0;
    assert BytesVal(b[..0]) * Pow(256, |b|) == 0;
    for i := 0 to |b|
      invariant Same(old(a[..]), a[..], n, a.Length)
      invariant BytesVal(b[..i]) * Pow(256, |b| - i) == Val(a[..], n) + W(n) * q
      invariant forall l :: 0 <= l < n ==> a[l] % Clear(|b| - i - 4 * l) == 0
    {
      var k := |b| - 1 - i;
      q := PutByte(a, n, b[i], k, q);
      BytesValNext(b, i);
      NextByte(BytesVal(b[..i]), b[i], k);
    }
    assert b[..|b|] == b;
    ValBound(a[..], n);
    Remainder(BytesVal(b), W(n), q, Val(a[..], n));
    WeightAsPower(n);
    LastBytesVal(b, 4 * n);
  }

  lemma StillClear(a: seq<Word>, n: nat, k: nat, y: Byte)
    requires k / 4 < n <= |a|
    requires forall l :: 0 <= l < n ==> a[l] % Clear(k + 1 - 4 * l) == 0
    requires a[k / 4] + y * Weight256(k % 4) < BASE
    ensures var a' := a[k / 4 := a[k / 4] + y * Weight256(k % 4)];
            forall l :: 0 <= l < n ==> a'[l] % Clear(k - 4 * l) == 0
  {
    RoomForByte(a[k / 4], y, k % 4);
  }

  // out = the n low bytes of a, most significant first.
  method BnToBytes(a: array<Word>, na: nat, out: array<Byte>, n: nat)
    requires na <= a.Length && n <= out.Length
    modifies out
    ensures Pow(256, n) > 0 && BytesVal(out[..n]) == Val(a[..], na) % Pow(256, n)
    ensures forall i :: n <= i < out.Length ==> out[i] == old(out[i])
  {
    ghost var v := Val(a[..], na);
    ByteWeight(n);
    for i := 0 to n
      invariant Pow(256, n - i) > 0 && Pow(256, i) > 0
      invariant BytesVal(out[..i]) == (v / Pow(256, n - i)) % Pow(256, i)
      invariant forall i :: n <= i < out.Length ==> out[i] == old(out[i])
    {
      var k := n - 1 - i;
      var limb, s := k / 4, k % 4;
      ghost var before := out[..i];
      out[i] := if limb < na then (a[limb] / Weight256(s)) % 256 else 0;
      ByteDigit(a[..], na, k);
      HornerStep(v, k, i);
      assert out[..i] == before;
      BytesValNext(out[..], i);
      assert out[..][..i + 1] == out[..i + 1] && out[..][..i] == before;
    }
  }

  lemma ByteDigit(a: seq<Word>, na: nat, k: nat)
    requires na <= |a|
    ensures Pow(256, k) > 0
    ensures (Val(a, na) / Pow(256, k)) % 256 == if k / 4 < na then (a[k / 4] / Weight256(k % 4)) % 256 else 0
  {
    ByteWeight(k);
    if k / 4 < na {
      LimbDigit(a, k / 4, na, Weight256(k % 4), Weight256(3 - k % 4), 256);
    } else {
      ZeroDigit(a, na, k);
    }
  }

  lemma ZeroDigit(a: seq<Word>, na: nat, k: nat)
    requires na <= |a| && na <= k / 4
    ensures Pow(256, k) > 0 && Val(a, na) / Pow(256, k) == 0
  {
    hide Pow, W, Val;
    ByteWeight(k);
    ValBound(a, na);
    WMono(na, k / 4);
    MulMono(1, Weight256(k % 4), W(k / 4));
    Remainder(Val(a, na), Pow(256, k), 0, Val(a, na));
  }

  lemma QuotientBy256(v: int, p: int)
    requires p > 0
    ensures v / (256 * p) == (v / p) / 256
  {
    var q := v / p;
    var h, d, r := q / 256, q % 256, v % p;
    assert v == p * q + r;
    assert p * (256 * h + d) == 256 * p * h + p * d;
    MulMono(0, d, p);
    MulMono(d, 255, p);
    Remainder(v, 256 * p, h, p * d + r);
  }

  lemma LowDigit(q: int, m: int)
    requires m > 0
    ensures q % (256 * m) == 256 * ((q / 256) % m) + q % 256
  {
    var h, d := q / 256, q % 256;
    var e, f := h / m, h % m;
    assert h == m * e + f;
    assert 256 * (m * e) == 256 * m * e;
    Remainder(q, 256 * m, e, 256 * f + d);
  }

  lemma HornerStep(v: int, k: nat, i: nat)
    ensures Pow(256, k) > 0 && Pow(256, k + 1) > 0 && Pow(256, i) > 0 && Pow(256, i + 1) > 0
    ensures (v / Pow(256, k)) % Pow(256, i + 1) == 256 * ((v / Pow(256, k + 1)) % Pow(256, i)) + (v / Pow(256, k)) % 256
  {
    ByteWeight(k);
    ByteWeight(i);
    QuotientBy256(v, Pow(256, k));
    LowDigit(v / Pow(256, k), Pow(256, i));
  }
}
