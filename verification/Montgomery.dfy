// Newton inverse and Montgomery product (vlibc/src/tls/tls_bn.c).
module Montgomery {
  import opened Limbs
  import opened BigNum

  // a and b agree modulo m, with the quotient in hand.
  lemma CongruentBy(a: int, b: int, m: int, k: int)
    requires m > 0 && a == b + m * k
    ensures a % m == b % m
  {
    var q := b / m;
    assert b == m * q + b % m;
    assert a == m * (q + k) + b % m;
    Remainder(a, m, q + k, b % m);
  }

  lemma Remainder(a: int, m: int, q: int, r: int)
    requires m > 0 && 0 <= r < m && a == m * q + r
    ensures a / m == q && a % m == r
  {
    var q', r' := a / m, a % m;
    assert m * (q' - q) == r - r';
    if q' - q >= 1 {
      MulMono(1, q' - q, m);
    } else if q' - q <= -1 {
      MulMono(q' - q, -1, m);
    }
  }

  // If m0 * x is 1 modulo s, one Newton round makes it 1 modulo s * s.
  lemma NewtonRound(m0: int, x: int, k: int, s: int, x': int, t: int, c: int)
    requires m0 * x == 1 + k * s
    requires x' == x * (2 - m0 * x) + BASE * t
    requires BASE == c * (s * s)
    ensures m0 * x' == 1 + (c * t * m0 - k * k) * (s * s)
  {
    var p, q, y := k * s, s * s, x * (2 - m0 * x);
    NewtonError(m0, x, p);
    assert p * p == (k * k) * q;
    assert m0 * (c * q * t) == (c * t * m0) * q by { Regroup(m0, c, q, t); }
    assert m0 * (y + BASE * t) == m0 * y + m0 * (BASE * t);
    assert (c * t * m0 - k * k) * q == (c * t * m0) * q - (k * k) * q;
  }

  lemma NewtonError(m0: int, x: int, p: int)
    requires m0 * x == 1 + p
    ensures m0 * (x * (2 - m0 * x)) == 1 - p * p
  {
    assert m0 * (x * (1 - p)) == (m0 * x) * (1 - p);
    assert (1 + p) * (1 - p) == 1 - p * p;
  }

  lemma Regroup(m0: int, c: int, q: int, t: int)
    ensures m0 * (c * q * t) == (c * t * m0) * q
  {
    assert c * q * t == (c * t) * q;
    assert m0 * ((c * t) * q) == (m0 * (c * t)) * q;
  }

  // Five doublings of the number of correct bits: m0 * result is -1.
  method BnMprime(m0: Word) returns (r: Word)
    requires m0 % 2 == 1
    ensures (m0 * r + 1) % BASE == 0
  {
    var x: Word := 1;
    ghost var k, s := m0 / 2, 2;
    for i := 0 to 5
      invariant m0 * x == 1 + k * s
      invariant s == if i == 0 then 2 else if i == 1 then 4 else if i == 2 then 16
                     else if i == 3 then 256 else if i == 4 then 65536 else BASE
    {
      k, s, x := NewtonStep(m0, x, k, s);
    }
    r := (0 - x) % BASE;
    NegateInverse(m0, x, k, r);
  }

  method NewtonStep(m0: Word, x: Word, ghost k: int, ghost s: int)
    returns (ghost k': int, ghost s': int, x': Word)
    requires s == 2 || s == 4 || s == 16 || s == 256 || s == 65536
    requires m0 * x == 1 + k * s
    ensures s' == s * s && m0 * x' == 1 + k' * s'
  {
    var d: Word := (2 - m0 * x) % BASE;
    x' := (x * d) % BASE;
    ghost var t := WrapProduct(x, 2 - m0 * x);
    s' := s * s;
    ghost var c := SquareDivides(s);
    k' := c * t * m0 - k * k;
    NewtonRound(m0, x, k, s, x', t, c);
  }

  lemma SquareDivides(s: int) returns (c: int)
    requires s == 2 || s == 4 || s == 16 || s == 256 || s == 65536
    ensures BASE == c * (s * s)
  {
    c := if s == 2 then 0x4000_0000 else if s == 4 then 0x1000_0000 else if s == 16 then 0x100_0000
         else if s == 256 then 0x1_0000 else 1;
  }

  lemma WrapProduct(x: int, y: int) returns (t: int)
    ensures (x * (y % BASE)) % BASE == x * y + BASE * t
  {
    var d, e := y % BASE, y / BASE;
    assert y == BASE * e + d;
    assert x * y == x * (BASE * e) + x * d;
    assert x * (BASE * e) == BASE * (x * e);
    t := 0 - (x * d) / BASE - x * e;
  }

  lemma NegateInverse(m0: int, x: Word, k: int, r: int)
    requires m0 * x == 1 + k * BASE && r == (0 - x) % BASE
    ensures (m0 * r + 1) % BASE == 0
  {
    var e := if x == 0 then 0 else 1;
    assert r == BASE * e - x;
    assert m0 * (BASE * e - x) == BASE * (m0 * e) - m0 * x;
    assert m0 * r + 1 == BASE * (m0 * e - k);
  }

  // Adding u * m with u = t_i * n' mod b annuls limb i.
  lemma Annul(ti: Word, nprime: Word, m0: Word, u: int)
    requires (m0 * nprime + 1) % BASE == 0
    requires u == (ti * nprime) % BASE
    ensures (ti + u * m0) % BASE == 0
  {
    var e := (m0 * nprime + 1) / BASE;
    var q := (ti * nprime) / BASE;
    AnnulSum(ti, nprime, m0, u, e, q, BASE);
    var z := ti * e - q * m0;
    assert (BASE * z) % BASE == 0;
  }

  lemma AnnulSum(ti: int, nprime: int, m0: int, u: int, e: int, q: int, b: int)
    requires m0 * nprime + 1 == b * e && u == ti * nprime - b * q
    ensures ti + u * m0 == b * (ti * e - q * m0)
  {
    assert u * m0 == (ti * nprime) * m0 - (b * q) * m0;
    assert (ti * nprime) * m0 == ti * (b * e - 1);
    assert ti * (b * e - 1) == b * (ti * e) - ti;
    assert (b * q) * m0 == b * (q * m0);
  }

  // The multiple of m added so far grows by one limb.
  lemma NextMultiple(u: int, ui: Word, mv: int, i: nat)
    requires 0 <= u < W(i)
    ensures mv * (u + ui * W(i)) == mv * u + ui * (mv * W(i))
    ensures 0 <= u + ui * W(i) < W(i + 1)
  {
    var w := W(i);
    assert mv * (u + ui * w) == mv * u + mv * (ui * w);
    assert mv * (ui * w) == ui * (mv * w);
    MulMono(0, ui, w);
    MulMono(ui, BASE - 1, w);
  }

  // a * b + u * m stays below (R + m) * R, hence inside 2n + 1 limbs.
  lemma SumFits(ab: int, mv: int, u: int, n: nat)
    requires 0 <= u < W(n) && 0 < mv < W(n) && 0 <= ab < W(n) * W(n)
    ensures ab + mv * u < (W(n) + mv) * W(n)
    ensures ab < mv * W(n) ==> ab + mv * u < 2 * mv * W(n)
    ensures ab + mv * u < W(2 * n + 1)
  {
    var r := W(n);
    MulMono(u, r, mv);
    MulMono(mv, r, r);
    assert (r + mv) * r == r * r + mv * r && 2 * mv * r == mv * r + mv * r;
    WAdd(n, n);
    assert n + n == 2 * n;
    assert W(2 * n + 1) == BASE * W(2 * n);
  }

  // The carry loop of bn_mont_mul: guarded by the buffer end, which the
  // carry never reaches.
  method RippleCarryGuarded(t: array<Word>, k0: nat, carry0: Word, top: nat)
    requires k0 <= top + 1 <= t.Length
    requires Val(t[..], top + 1) + carry0 * W(k0) < W(top + 1)
    modifies t
    ensures Val(t[..], top + 1) == old(Val(t[..], top + 1)) + carry0 * W(k0)
    ensures Same(old(t[..]), t[..], 0, k0) && Same(old(t[..]), t[..], top + 1, t.Length)
  {
    var k: nat, carry: Word := k0, carry0;
    ghost var sum := Val(t[..], top + 1) + carry0 * W(k0);
    while carry != 0 && k <= top
      invariant k0 <= k <= top + 1
      invariant Same(old(t[..]), t[..], 0, k0) && Same(old(t[..]), t[..], top + 1, t.Length)
      invariant Val(t[..], top + 1) + carry * W(k) == sum
      decreases top + 1 - k
    {
      k, carry := RippleStep(t, k, carry, top + 1);
    }
    if carry != 0 {
      RippleInside(t[..], k, top + 1, carry);
    }
  }

  // One word of the reduction: t += u * m * W(i) with limb i becoming zero.
  method ReduceWord(t: array<Word>, m: array<Word>, n: nat, nprime: Word, i: nat, ghost ab: int, ghost u: int)
    returns (ghost u': int)
    requires t != m && i < n <= m.Length && 2 * n + 1 <= t.Length
    requires (m[0] * nprime + 1) % BASE == 0
    requires 0 < Val(m[..], n) && 0 <= ab < W(n) * W(n)
    requires 0 <= u < W(i) && Val(t[..], 2 * n + 1) == ab + Val(m[..], n) * u
    requires forall k :: 0 <= k < i ==> t[k] == 0
    modifies t
    ensures 0 <= u' < W(i + 1) && Val(t[..], 2 * n + 1) == ab + Val(m[..], n) * u'
    ensures forall k :: 0 <= k < i + 1 ==> t[k] == 0
  {
    var ui := (t[i] * nprime) % BASE;
    Annul(t[i], nprime, m[0], ui);
    var carry := AddScaledRow(t, i, ui, m, n, 2 * n + 1);
    NextMultiple(u, ui, Val(m[..], n), i);
    u' := u + ui * W(i);
    WMono(i + 1, n);
    ValBound(m[..], n);
    SumFits(ab, Val(m[..], n), u', n);
    RippleCarryGuarded(t, i + n, carry, 2 * n);
  }

  lemma QuotientBound(q: int, x: int, r: int)
    requires r > 0 && q * r < x * r
    ensures q < x
  {
    if q >= x {
      MulMono(x, q, r);
    }
  }

  lemma QuotientCongruent(q: int, ab: int, mv: int, u: int, r: int)
    requires 0 < mv && q * r == ab + mv * u
    ensures (q * r) % mv == ab % mv && ((q - mv) * r) % mv == ab % mv
  {
    CongruentBy(q * r, ab, mv, u);
    assert (q - mv) * r == q * r - mv * r;
    assert mv * u - mv * r == mv * (u - r);
    CongruentBy((q - mv) * r, ab, mv, u - r);
  }

  // The n + 1 high limbs hold q with q * R = a * b + u * m and q < R + m, so q,
  // reduced at most once, is the product; below m if a * b is below m * R.
  lemma HighLimbs(s: seq<Word>, n: nat, ab: int, mv: int, u: int) returns (q: int)
    requires 2 * n + 1 <= |s| && forall k :: 0 <= k < n ==> s[k] == 0
    requires 0 <= u < W(n) && 0 < mv < W(n) && 0 <= ab < W(n) * W(n)
    requires Val(s, 2 * n + 1) == ab + mv * u
    ensures q == Val(s[n..], n) + s[2 * n] * W(n)
    ensures 0 <= s[2 * n] <= 1 && 0 <= q < W(n) + mv && (ab < mv * W(n) ==> q < 2 * mv)
    ensures (q * W(n)) % mv == ab % mv && ((q - mv) * W(n)) % mv == ab % mv
  {
    q := Val(s[n..], n + 1);
    assert s[n..][n] == s[2 * n];
    ValZero(s, n);
    ValSplit(s, n, 2 * n + 1);
    assert q * W(n) == W(n) * q;
    SumFits(ab, mv, u, n);
    QuotientBound(q, W(n) + mv, W(n));
    if ab < mv * W(n) { QuotientBound(q, 2 * mv, W(n)); }
    QuotientCongruent(q, ab, mv, u, W(n));
    if s[2 * n] >= 2 { MulMono(2, s[2 * n], W(n)); }
  }

  // t = a * b / R mod m: any operands give a number below R in the right class,
  // and below m when a * b is below m * R.
  method BnMontMul(t: array<Word>, a: array<Word>, b: array<Word>, m: array<Word>, n: nat, nprime: Word)
    requires t != a && t != b && t != m
    requires 1 <= n <= a.Length && n <= b.Length && n <= m.Length && 2 * n + 2 <= t.Length
    requires (m[0] * nprime + 1) % BASE == 0
    requires 0 < Val(m[..], n)
    modifies t
    ensures Val(a[..], n) * Val(b[..], n) < Val(m[..], n) * W(n) ==> Val(t[..], n) < Val(m[..], n)
    ensures (Val(t[..], n) * W(n)) % Val(m[..], n) == (Val(a[..], n) * Val(b[..], n)) % Val(m[..], n)
  {
    BnMul(t, a, n, b, n);
    assert n + n + 1 == 2 * n + 1;
    ghost var ab, mv, u := Val(a[..], n) * Val(b[..], n), Val(m[..], n), 0;
    ProductFits(a[..], b[..], n);
    for i := 0 to n
      invariant 0 <= u < W(i) && Val(t[..], 2 * n + 1) == ab + mv * u
      invariant forall k :: 0 <= k < i ==> t[k] == 0
    {
      u := ReduceWord(t, m, n, nprime, i, ab, u);
    }
    HighHalf(t, m, n, ab, u);
  }

  lemma ProductFits(a: seq<Word>, b: seq<Word>, n: nat)
    requires n <= |a| && n <= |b|
    ensures 0 <= Val(a, n) * Val(b, n) < W(n) * W(n)
  {
    ValBound(a, n);
    ValBound(b, n);
    ProductBelow(Val(a, n), Val(b, n), W(n));
  }

  lemma ProductBelow(x: int, y: int, r: int)
    requires 0 <= x < r && 0 <= y < r
    ensures 0 <= x * y < r * r
  {
    MulMono(0, x, y);
    MulMono(x, r, y);
    MulMono(y, r - 1, r);
    assert (r - 1) * r == r * r - r && y * r == r * y;
  }

  // The closing block: move the quotient down and subtract m once if needed.
  method HighHalf(t: array<Word>, m: array<Word>, n: nat, ghost ab: int, ghost u: int)
    requires t != m && 1 <= n <= m.Length && 2 * n + 1 <= t.Length
    requires 0 < Val(m[..], n) && 0 <= ab < W(n) * W(n) && 0 <= u < W(n)
    requires Val(t[..], 2 * n + 1) == ab + Val(m[..], n) * u
    requires forall k :: 0 <= k < n ==> t[k] == 0
    modifies t
    ensures ab < Val(m[..], n) * W(n) ==> Val(t[..], n) < Val(m[..], n)
    ensures (Val(t[..], n) * W(n)) % Val(m[..], n) == ab % Val(m[..], n)
  {
    var ql := t[2 * n];
    ghost var high := t[..][n..];
    ghost var mv := Val(m[..], n);
    ValBound(m[..], n);
    ghost var q := HighLimbs(t[..], n, ab, mv, u);
    ValBound(high, n);
    for j := 0 to n
      invariant forall k :: 0 <= k < j ==> t[k] == high[k]
      invariant Same(old(t[..]), t[..], n, t.Length)
    {
      assert t[n + j] == high[j];
      t[j] := t[n + j];
    }
    ValSame(t[..], high, n);
    SubtractOnce(t, m, n, ql, q);
  }

  // q = t + ql * W(n) is below R + m: the borrow out of the low limbs absorbs ql.
  method SubtractOnce(t: array<Word>, m: array<Word>, n: nat, ql: Word, ghost q: int)
    requires t != m && n <= m.Length && n <= t.Length && ql <= 1
    requires q == Val(t[..], n) + ql * W(n) && q < W(n) + Val(m[..], n)
    modifies t
    ensures Val(t[..], n) == if q >= Val(m[..], n) then q - Val(m[..], n) else q
  {
    ValBound(t[..], n);
    ValBound(m[..], n);
    var c := BnCmp(t, m, n);
    if ql == 1 || c >= 0 {
      BnSub(t, m, n);
    }
  }
}
