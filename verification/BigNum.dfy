// The limb arithmetic of vlibc/src/tls/tls_bn.c: every routine works in
// place on word arrays, and is specified by the numbers those arrays hold.
module BigNum {
  import opened Limbs

  ghost predicate Same(s: seq<Word>, t: seq<Word>, lo: nat, hi: nat)
    requires |s| == |t| && hi <= |s|
  {
    forall i :: lo <= i < hi ==> s[i] == t[i]
  }

  method BnZero(a: array<Word>, n: nat)
    requires n <= a.Length
    modifies a
    ensures forall i :: 0 <= i < n ==> a[i] == 0
    ensures Same(old(a[..]), a[..], n, a.Length)
    ensures Val(a[..], n) == 0
  {
    for i := 0 to n
      invariant forall k :: 0 <= k < i ==> a[k] == 0
      invariant Same(old(a[..]), a[..], n, a.Length)
    {
      a[i] := 0;
    }
    ValZero(a[..], n);
  }

  method BnUsed(a: array<Word>, n0: nat) returns (n: nat)
    requires n0 <= a.Length
    ensures n <= n0
    ensures n > 0 ==> a[n - 1] != 0
    ensures forall i :: n <= i < n0 ==> a[i] == 0
    ensures Val(a[..], n) == Val(a[..], n0)
  {
    n := n0;
    while n > 0 && a[n - 1] == 0
      invariant n <= n0
      invariant forall i :: n <= i < n0 ==> a[i] == 0
    {
      n := n - 1;
    }
    ValTrim(a[..], n, n0);
  }

  // Equal high limbs, a larger limb below: the number is larger.
  lemma {:induction false} CmpLemma(s: seq<Word>, t: seq<Word>, i: nat, n: nat)
    requires i < n <= |s| && n <= |t|
    requires s[i] > t[i]
    requires forall k :: i < k < n ==> s[k] == t[k]
    ensures Val(s, n) > Val(t, n)
  {
    if i == n - 1 {
      ValBound(t, i);
      MulMono(t[i] + 1, s[i], W(i));
      assert (t[i] + 1) * W(i) == t[i] * W(i) + W(i);
    } else {
      CmpLemma(s, t, i, n - 1);
    }
  }

  method BnCmp(a: array<Word>, b: array<Word>, n0: nat) returns (r: int)
    requires n0 <= a.Length && n0 <= b.Length
    ensures r == (if Val(a[..], n0) > Val(b[..], n0) then 1
                  else if Val(a[..], n0) == Val(b[..], n0) then 0 else -1)
  {
    var n := n0;
    while n > 0
      invariant 0 <= n <= n0
      invariant forall k :: n <= k < n0 ==> a[k] == b[k]
    {
      var i := n - 1;
      if a[i] != b[i] {
        if a[i] > b[i] {
          CmpLemma(a[..], b[..], i, n0);
          return 1;
        } else {
          CmpLemma(b[..], a[..], i, n0);
          return -1;
        }
      }
      n := n - 1;
    }
    ValSame(a[..], b[..], n0);
    return 0;
  }

  // One limb of a subtraction: what is added to the difference equals what
  // is owed to the next limb.
  lemma SubStep(a: seq<Word>, b: seq<Word>, i: nat, n: nat, x: Word, borrow: int, borrow': int)
    requires i < n <= |a| && i < |b|
    requires x == a[i] - b[i] - borrow + borrow' * BASE
    ensures Val(a[i := x], n) - borrow' * W(i + 1) + Val(b, i + 1) == Val(a, n) - borrow * W(i) + Val(b, i)
  {
    ValUpdate(a, i, x, n);
    var w, d := W(i), - b[i] - borrow;
    assert (d + borrow' * BASE) * w == d * w + borrow' * (BASE * w);
    assert d * w == - b[i] * w - borrow * w;
  }

  // a -= b; the borrow out of the top limb is dropped.
  method BnSub(a: array<Word>, b: array<Word>, n: nat)
    requires a != b && n <= a.Length && n <= b.Length
    modifies a
    ensures Val(a[..], n) == old(Val(a[..], n)) - Val(b[..], n)
              + (if old(Val(a[..], n)) < Val(b[..], n) then W(n) else 0)
    ensures Same(old(a[..]), a[..], n, a.Length)
  {
    var borrow := 0;
    for i := 0 to n
      invariant 0 <= borrow <= 1
      invariant Same(old(a[..]), a[..], i, a.Length)
      invariant Val(a[..], n) - borrow * W(i) == old(Val(a[..], n)) - Val(b[..], i)
    {
      var ai := a[i];
      var sub := b[i] + borrow;
      var x: Word := (ai - sub) % BASE;
      var borrow' := if ai < sub then 1 else 0;
      SubStep(a[..], b[..], i, n, x, borrow, borrow');
      ghost var after := a[..][i := x];
      a[i] := x;
      assert a[..] == after;
      borrow := borrow';
    }
    ValBound(a[..], n);
    ValBound(b[..], n);
    ValBound(old(a[..]), n);
  }

  lemma CarryStep(w: int, x: int, y: int, t: int, carry: int, lo: int, hi: int)
    requires x * y + t + carry == hi * BASE + lo
    ensures (lo - t) * w + hi * (BASE * w) == x * (y * w) + carry * w
  {
    assert hi * (BASE * w) == (hi * BASE) * w;
    assert x * (y * w) == (x * y) * w;
    assert (lo - t) * w + (hi * BASE) * w == (lo - t + hi * BASE) * w;
    assert (x * y + carry) * w == (x * y) * w + carry * w;
  }

  lemma ProductBound(x: Word, y: Word, t: Word, carry: Word)
    ensures 0 <= x * y + t + carry < BASE * BASE
  {
    var top := BASE - 1;
    MulMono(0, x, y);
    MulMono(x, top, y);
    MulMono(y, top, top);
  }

  // The inner loop of bn_mul and bn_mont_mul: t += x * b * W(i), with the
  // carry out of limb i + blim - 1 handed back. Limbs are 32 bits, the
  // running product fits 64.
  method AddScaledRow(t: array<Word>, i: nat, x: Word, b: array<Word>, blim: nat, ghost n: nat)
    returns (carry: Word)
    requires t != b && blim <= b.Length && i + blim <= n <= t.Length
    modifies t
    ensures Val(t[..], n) + carry * W(i + blim) == old(Val(t[..], n)) + x * (Val(b[..], blim) * W(i))
    ensures Same(old(t[..]), t[..], 0, i) && Same(old(t[..]), t[..], i + blim, t.Length)
    ensures blim > 0 ==> t[i] == (old(t[i]) + x * b[0]) % BASE
  {
    carry := 0;
    for j := 0 to blim
      invariant Same(old(t[..]), t[..], 0, i) && Same(old(t[..]), t[..], i + j, t.Length)
      invariant Val(t[..], n) + carry * W(i + j) == old(Val(t[..], n)) + x * (Val(b[..], j) * W(i))
      invariant j > 0 ==> t[i] == (old(t[i]) + x * b[0]) % BASE
      invariant j == 0 ==> carry == 0
    {
      ProductBound(x, b[j], t[i + j], carry);
      var cur := x * b[j] + t[i + j] + carry;
      ghost var before := t[..];
      t[i + j] := cur % BASE;
      assert t[..] == before[i + j := cur % BASE];
      ValUpdate(before, i + j, cur % BASE, n);
      CarryStep(W(i + j), x, b[j], before[i + j], carry, cur % BASE, cur / BASE);
      RowStep(x, b[..], j, i);
      carry := cur / BASE;
    }
  }

  lemma Distribute4(x: int, v: int, y: int, p: int, q: int)
    ensures x * ((v + y * p) * q) == x * (v * q) + x * (y * (p * q))
  {
    assert (v + y * p) * q == v * q + (y * p) * q;
    assert (y * p) * q == y * (p * q);
  }

  lemma RowStep(x: int, b: seq<Word>, j: nat, i: nat)
    requires j < |b|
    ensures x * (Val(b, j + 1) * W(i)) == x * (Val(b, j) * W(i)) + x * (b[j] * W(i + j))
  {
    WAdd(j, i);
    Distribute4(x, Val(b, j), b[j], W(j), W(i));
  }

  lemma RippleInside(s: seq<Word>, k: nat, n: nat, carry: int)
    requires k <= n <= |s| && carry > 0
    requires Val(s, n) + carry * W(k) < W(n)
    ensures k < n
  {
    if k == n { MulMono(1, carry, W(k)); }
  }

  // The carry loop after a row; it ends inside the n limbs because the sum
  // fits there.
  method RippleCarry(t: array<Word>, k0: nat, carry0: Word, ghost n: nat)
    requires k0 <= n <= t.Length
    requires Val(t[..], n) + carry0 * W(k0) < W(n)
    modifies t
    ensures Val(t[..], n) == old(Val(t[..], n)) + carry0 * W(k0)
    ensures Same(old(t[..]), t[..], 0, k0) && Same(old(t[..]), t[..], n, t.Length)
  {
    var k: nat, carry: Word := k0, carry0;
    ghost var sum := Val(t[..], n) + carry0 * W(k0);
    while carry != 0
      invariant k0 <= k <= n
      invariant Same(old(t[..]), t[..], 0, k0) && Same(old(t[..]), t[..], n, t.Length)
      invariant Val(t[..], n) + carry * W(k) == sum
      decreases n - k
    {
      RippleInside(t[..], k, n, carry);
      k, carry := RippleStep(t, k, carry, n);
    }
  }

  method RippleStep(t: array<Word>, k: nat, carry: Word, ghost n: nat) returns (k': nat, carry': Word)
    requires k < n <= t.Length
    modifies t
    ensures k' == k + 1
    ensures Val(t[..], n) + carry' * W(k') == old(Val(t[..], n)) + carry * W(k)
    ensures Same(old(t[..]), t[..], 0, k) && Same(old(t[..]), t[..], k + 1, t.Length)
  {
    var cur := t[k] + carry;
    ghost var before := t[..];
    t[k] := cur % BASE;
    assert t[..] == before[k := cur % BASE];
    ValUpdate(before, k, cur % BASE, n);
    CarryStep(W(k), 0, 0, before[k], carry, cur % BASE, cur / BASE);
    k', carry' := k + 1, cur / BASE;
  }

  // After i rows the product is exact and fits i + blim limbs.
  lemma RowsFit(a: seq<Word>, i: nat, alim: nat, b: seq<Word>, blim: nat)
    requires i <= alim <= |a| && blim <= |b|
    ensures Val(a, i) * Val(b, blim) < W(alim + blim + 1)
  {
    hide *;
    ValBound(a, i);
    ValBound(b, blim);
    WMono(i, alim);
    ProductLess(Val(a, i), Val(b, blim), W(alim), W(blim));
    WAdd(alim, blim);
    WMono(alim + blim, alim + blim + 1);
  }

  lemma ProductLess(x: int, y: int, p: int, q: int)
    requires 0 <= x < p && 0 <= y < q
    ensures x * y < p * q
  {
    MulMono(x, p, y);
    assert p * q == p * y + p * (q - y);
    MulMono(1, q - y, p);
  }

  lemma NextRow(a: seq<Word>, i: nat, v: int)
    requires i < |a|
    ensures Val(a, i + 1) * v == Val(a, i) * v + a[i] * (v * W(i))
  {
    var u, x, w := Val(a, i), a[i], W(i);
    assert (u + x * w) * v == u * v + x * (v * w);
  }

  // prod = a * b, exactly.
  method BnMul(prod: array<Word>, a: array<Word>, alim: nat, b: array<Word>, blim: nat)
    requires prod != a && prod != b
    requires alim <= a.Length && blim <= b.Length && alim + blim + 1 <= prod.Length
    modifies prod
    ensures Val(prod[..], alim + blim + 1) == Val(a[..], alim) * Val(b[..], blim)
    ensures Same(old(prod[..]), prod[..], alim + blim + 1, prod.Length)
  {
    BnZero(prod, alim + blim + 1);
    ghost var n := alim + blim + 1;
    for i := 0 to alim
      invariant Same(old(prod[..]), prod[..], n, prod.Length)
      invariant Val(prod[..], n) == Val(a[..], i) * Val(b[..], blim)
    {
      NextRow(a[..], i, Val(b[..], blim));
      if a[i] == 0 {
        continue;
      }
      var carry := AddScaledRow(prod, i, a[i], b, blim, n);
      RowsFit(a[..], i + 1, alim, b[..], blim);
      RippleCarry(prod, i + blim, carry, n);
    }
  }
}
