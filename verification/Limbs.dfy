// Little-endian limb vectors and the numbers they stand for
// (the uint32_t arrays of vlibc/src/tls/tls_bn.c).
module Limbs {
  const BASE: int := 0x1_0000_0000

  type Word = x: int | 0 <= x < 0x1_0000_0000

  ghost function Pow(b: int, n: nat): int {
    if n == 0 then 1 else b * Pow(b, n - 1)
  }

  // The weight of limb n.
  ghost function W(n: nat): (w: int)
    ensures w > 0
  {
    if n == 0 then 1 else BASE * W(n - 1)
  }

  // The number held by the n low limbs of s.
  ghost function Val(s: seq<Word>, n: nat): (v: int)
    requires n <= |s|
    ensures v >= 0
  {
    if n == 0 then 0 else Val(s, n - 1) + s[n - 1] * W(n - 1)
  }

  lemma MulMono(a: int, b: int, c: int)
    requires a <= b && 0 <= c
    ensures a * c <= b * c
  {}

  lemma {:induction false} ValBound(s: seq<Word>, n: nat)
    requires n <= |s|
    ensures Val(s, n) < W(n)
  {
    if n > 0 {
      ValBound(s, n - 1);
      MulMono(s[n - 1], BASE - 1, W(n - 1));
    }
  }

  lemma {:induction false} ValSame(s: seq<Word>, t: seq<Word>, n: nat)
    requires n <= |s| && n <= |t|
    requires forall i :: 0 <= i < n ==> s[i] == t[i]
    ensures Val(s, n) == Val(t, n)
  {
    if n > 0 { ValSame(s, t, n - 1); }
  }

  lemma {:induction false} ValUpdate(s: seq<Word>, i: nat, x: Word, n: nat)
    requires i < n <= |s|
    ensures Val(s[i := x], n) == Val(s, n) + (x - s[i]) * W(i)
  {
    if i == n - 1 {
      ValSame(s[i := x], s, i);
      assert s[i := x][i] == x;
      assert x * W(i) == s[i] * W(i) + (x - s[i]) * W(i);
    } else {
      ValUpdate(s, i, x, n - 1);
      assert s[i := x][n - 1] == s[n - 1];
    }
  }

  lemma {:induction false} ValZero(s: seq<Word>, n: nat)
    requires n <= |s|
    requires forall i :: 0 <= i < n ==> s[i] == 0
    ensures Val(s, n) == 0
  {
    if n > 0 { ValZero(s, n - 1); }
  }

  // High zero limbs do not count.
  lemma {:induction false} ValTrim(s: seq<Word>, k: nat, n: nat)
    requires k <= n <= |s|
    requires forall i :: k <= i < n ==> s[i] == 0
    ensures Val(s, n) == Val(s, k)
  {
    if k < n {
      ValTrim(s, k, n - 1);
      assert s[n - 1] * W(n - 1) == 0;
    }
  }

  lemma {:induction false} WAdd(a: nat, b: nat)
    ensures W(a + b) == W(a) * W(b)
  {
    if a > 0 {
      WAdd(a - 1, b);
      assert W(a + b) == BASE * W(a - 1 + b);
      assert BASE * (W(a - 1) * W(b)) == (BASE * W(a - 1)) * W(b);
    }
  }

  // The low k limbs and the rest.
  lemma {:induction false} ValSplit(s: seq<Word>, k: nat, n: nat)
    requires k <= n <= |s|
    ensures Val(s, n) == Val(s, k) + W(k) * Val(s[k..], n - k)
  {
    if k < n {
      ValSplit(s, k, n - 1);
      WAdd(k, n - 1 - k);
      var x, p, q, r := s[n - 1], W(k), W(n - 1 - k), Val(s[k..], n - 1 - k);
      assert s[k..][n - 1 - k] == x;
      Distribute3(p, r, x, q);
    }
  }

  lemma Distribute3(p: int, r: int, x: int, q: int)
    ensures p * (r + x * q) == p * r + x * (p * q)
  {
    assert p * (x * q) == x * (p * q);
  }

  // A limb with non-zero content at or above k makes the number at least W(k).
  lemma {:induction false} ValAtLeast(s: seq<Word>, k: nat, n: nat)
    requires k < n <= |s| && s[k] != 0
    ensures Val(s, n) >= W(k)
  {
    if k == n - 1 {
      assert s[k] * W(k) >= W(k);
    } else {
      ValAtLeast(s, k, n - 1);
      assert s[n - 1] * W(n - 1) >= 0;
    }
  }

  lemma WMono(a: nat, b: nat)
    requires a <= b
    ensures W(a) <= W(b)
  {
    WAdd(a, b - a);
    assert W(a) * 1 <= W(a) * W(b - a);
  }
}
