// The allocator of vlibc/src/stdlib/malloc.c over a memory of words.
module Heap {
  import opened HeapList

  const MIN_ALLOC: nat := 16
  const HEAP_LUMP: nat := 1024 * 1024

  type Memory = map<nat, nat>

  function Flag(free: bool): nat { if free then 1 else 0 }

  // A header: size, next, free, one word each.
  ghost predicate Header(w: nat, m: Memory, b: Blk, next: nat) {
    && b.at in m && m[b.at] == b.size
    && b.at + w in m && m[b.at + w] == next
    && b.at + 2 * w in m && m[b.at + 2 * w] == Flag(b.free)
  }

  ghost function NextAt(l: seq<Blk>, i: nat): nat {
    if i + 1 < |l| then l[i + 1].at else 0
  }

  ghost predicate Linked(w: nat, m: Memory, l: seq<Blk>) {
    forall i {:trigger NextAt(l, i)} :: 0 <= i < |l| ==> Header(w, m, l[i], NextAt(l, i))
  }

  // Memory agrees outside [lo, hi).
  ghost predicate SameBut(m0: Memory, m1: Memory, lo: nat, hi: nat) {
    forall a :: !(lo <= a < hi) ==> (a in m0 <==> a in m1) && (a in m0 ==> m1[a] == m0[a])
  }

  // The payloads in use are as they were.
  ghost predicate Untouched(h: nat, l: seq<Blk>, m0: Memory, m1: Memory) {
    forall b, a :: b in Busy(l) && b.at + h <= a < End(h, b) ==> (a in m0 <==> a in m1) && (a in m0 ==> m1[a] == m0[a])
  }

  // Pointer p is the payload of a block in use.
  ghost predicate Owned(h: nat, busy: seq<Blk>, p: nat) {
    exists b :: b in busy && b.at + h == p
  }

  ghost predicate Enough(h: nat, b: Blk, live: map<nat, nat>) {
    b.at + h in live && live[b.at + h] <= b.size
  }

  // The pointers handed out are the payloads of the blocks in use, and each
  // is as long as was asked for.
  ghost predicate LiveOk(h: nat, busy: seq<Blk>, live: map<nat, nat>) {
    && (forall b :: b in busy ==> Enough(h, b, live))
    && (forall p :: p in live ==> Owned(h, busy, p))
  }

  lemma HeaderKept(w: nat, m0: Memory, m1: Memory, b: Blk, next: nat, lo: nat, hi: nat)
    requires w > 0 && Header(w, m0, b, next) && SameBut(m0, m1, lo, hi) && (b.at + 3 * w <= lo || hi <= b.at)
    ensures Header(w, m1, b, next)
  {}

  // Live payloads are pairwise disjoint.
  lemma LiveApart(h: nat, l: seq<Blk>, lo: nat, hi: nat, b: Blk, c: Blk)
    requires Tiles(h, l, lo, hi) && b in Busy(l) && c in Busy(l) && b != c && h > 0
    ensures End(h, b) <= c.at + h || End(h, c) <= b.at + h
  {
    InBusy(l, b);
    InBusy(l, c);
    var i :| 0 <= i < |l| && l[i] == b;
    var j :| 0 <= j < |l| && l[j] == c;
    if i < j { TilesApart(h, l, lo, hi, i, j); } else { TilesApart(h, l, lo, hi, j, i); }
  }

  // --- sizes, in the machine word ---

  // 2^W for a machine with w-byte words: unsigned long is W bits wide.
  function Word(w: nat): nat {
    if w == 4 then 0x1_0000_0000 else 0x1_0000_0000_0000_0000
  }

  // (size + 7) & ~7UL
  function RoundUp(m: nat, size: nat): (r: nat)
    requires m > 0
    ensures r % 8 == 0 && r < m + 8
  {
    (size + 7) % m / 8 * 8
  }

  // The rounded request is enough, except in the last seven sizes of the word.
  lemma RoundEnough(w: nat, size: nat)
    requires size < Word(w)
    ensures RoundUp(Word(w), size) >= size <==> size + 7 < Word(w)
    ensures size + 7 < Word(w) ==> RoundUp(Word(w), size) < size + 8
    ensures size + 7 >= Word(w) ==> RoundUp(Word(w), size) == 0
  {
    var m := Word(w);
    if size + 7 < m {
      assert (size + 7) % m == size + 7;
    } else {
      assert (size + 7) % m == size + 7 - m;
    }
  }

  // The largest size there is: malloc goes looking for a block of 0 bytes.
  lemma RoundToNothing(w: nat)
    ensures RoundUp(Word(w), Word(w) - 1) == 0
  {
    RoundEnough(w, Word(w) - 1);
  }

  // What the growth loop asks for: the payload, a header and a bit more.
  function Demand(w: nat, need: nat): (t: nat)
    ensures t < Word(w)
  {
    (need + 3 * w + MIN_ALLOC) % Word(w)
  }

  // `grow` after k rounds of grow <<= 1.
  ghost function GrowAt(w: nat, k: nat): (g: nat)
    ensures g < Word(w)
  {
    if k == 0 then HEAP_LUMP else 2 * GrowAt(w, k - 1) % Word(w)
  }

  ghost function Pow2(k: nat): nat {
    if k == 0 then 1 else 2 * Pow2(k - 1)
  }

  // Rounds until the top bit.
  ghost function Rounds(w: nat): nat {
    if w == 4 then 11 else 43
  }

  lemma RoundsReachTop(w: nat)
    ensures HEAP_LUMP * Pow2(Rounds(w)) == Word(w) / 2
  {
    assert Pow2(11) == 2048;
    assert Pow2(21) == 1024 * Pow2(11);
    assert Pow2(31) == 1024 * Pow2(21);
    assert Pow2(41) == 1024 * Pow2(31);
    assert Pow2(43) == 4 * Pow2(41);
  }

  // Doubling climbs to the top bit, then falls to 0 and stays there.
  lemma {:induction false} GrowShape(w: nat, k: nat)
    ensures k <= Rounds(w) ==> GrowAt(w, k) * Pow2(Rounds(w) - k) == Word(w) / 2 && GrowAt(w, k) > 0
    ensures k > Rounds(w) ==> GrowAt(w, k) == 0
  {
    if k == 0 {
      RoundsReachTop(w);
    } else {
      GrowShape(w, k - 1);
      var g, m := GrowAt(w, k - 1), Word(w);
      if k <= Rounds(w) {
        var q := Pow2(Rounds(w) - k);
        assert Pow2(Rounds(w) - (k - 1)) == 2 * q;
        Halves(g, q, m);
      } else if k == Rounds(w) + 1 {
        assert Pow2(0) == 1;
      }
    }
  }

  lemma Halves(g: nat, q: nat, m: nat)
    requires g > 0 && g * (2 * q) == m / 2 && m % 2 == 0 && m > 0
    ensures 2 * g % m == 2 * g && 2 * g * q == m / 2
  {
    var x := g * q;
    Doubled(g, q);
    if q >= 1 { Times(g, q); } else { ZeroTimes(g, q); }
    SmallMod(2 * g, m);
  }

  lemma Doubled(g: nat, q: nat)
    ensures g * (2 * q) == 2 * (g * q) && 2 * g * q == 2 * (g * q)
  {}

  lemma ZeroTimes(g: nat, q: nat)
    requires q < 1
    ensures g * q == 0
  {}

  lemma SmallMod(a: nat, m: nat)
    requires a < m
    ensures a % m == a
  {}

  lemma Times(a: nat, q: nat)
    requires q >= 1
    ensures a * q >= a
  {}

  lemma GrowBound(w: nat, k: nat)
    ensures GrowAt(w, k) <= Word(w) / 2
  {
    GrowShape(w, k);
    if k <= Rounds(w) {
      PowPositive(Rounds(w) - k);
      Times(GrowAt(w, k), Pow2(Rounds(w) - k));
    }
  }

  lemma {:induction false} PowPositive(k: nat)
    ensures Pow2(k) >= 1
  {
    if k > 0 { PowPositive(k - 1); }
  }

  ghost predicate Reaches(w: nat, t: nat, k: nat) {
    GrowAt(w, k) >= t
  }

  // The growth loop ends exactly when what it wants is at most half the word.
  lemma GrowthEnds(w: nat, t: nat)
    ensures (exists k :: Reaches(w, t, k)) <==> t <= Word(w) / 2
  {
    if t <= Word(w) / 2 {
      GrowShape(w, Rounds(w));
      assert Pow2(0) == 1;
      assert Reaches(w, t, Rounds(w));
    } else {
      forall k: nat
        ensures !Reaches(w, t, k)
      {
        GrowBound(w, k);
      }
    }
  }

  // The first doubling of g that is enough.
  function Lump(g: nat, need: nat): (r: nat)
    requires g > 0
    ensures r >= need && r >= g
    decreases if g >= need then 0 else need - g
  {
    if g >= need then g else Lump(2 * g, need)
  }

  // --- the list after a change ---

  // Only the bytes of block i were written: the others keep their headers.
  lemma OthersLinked(w: nat, m0: Memory, m1: Memory, l: seq<Blk>, lo: nat, hi: nat, i: nat, k: nat)
    requires w > 0 && Tiles(3 * w, l, lo, hi) && Linked(w, m0, l) && i < |l| && k < |l| && k != i
    requires SameBut(m0, m1, l[i].at, End(3 * w, l[i]))
    ensures Header(w, m1, l[k], NextAt(l, k))
  {
    hide Tiles;
    if k < i { TilesApart(3 * w, l, lo, hi, k, i); } else { TilesApart(3 * w, l, lo, hi, i, k); }
    HeaderKept(w, m0, m1, l[k], NextAt(l, k), l[i].at, End(3 * w, l[i]));
  }

  ghost function NextIn(l: seq<Blk>, k: nat, after: nat): nat {
    if k + 1 < |l| then l[k + 1].at else after
  }

  // Block i replaced by one or two blocks over the same bytes.
  lemma Relinked(w: nat, m0: Memory, m1: Memory, l: seq<Blk>, lo: nat, hi: nat, i: nat, new': seq<Blk>)
    requires w > 0 && Tiles(3 * w, l, lo, hi) && Linked(w, m0, l) && i < |l|
    requires SameBut(m0, m1, l[i].at, End(3 * w, l[i]))
    requires 1 <= |new'| <= 2 && new'[0].at == l[i].at
    requires Headed(w, m1, new', NextAt(l, i))
    ensures Linked(w, m1, l[..i] + new' + l[i + 1..])
  {
    hide Tiles, SameBut, Header;
    var r := l[..i] + new' + l[i + 1..];
    var n := |new'|;
    forall k | 0 <= k < |r|
      ensures Header(w, m1, r[k], NextAt(r, k))
    {
      if k < i {
        OthersLinked(w, m0, m1, l, lo, hi, i, k);
        if k + 1 == i { assert r[k + 1] == new'[0]; }
        assert r[k] == l[k] && NextAt(r, k) == NextAt(l, k);
      } else if k < i + n {
        var x := k - i;
        assert r[k] == new'[x];
        assert Header(w, m1, new'[x], NextIn(new', x, NextAt(l, i)));
        if x + 1 < n {
          assert r[k + 1] == new'[x + 1];
        } else if i + 1 < |l| {
          assert r[k + 1] == l[i + 1];
        }
      } else {
        var q := k - n + 1;
        OthersLinked(w, m0, m1, l, lo, hi, i, q);
        assert r[k] == l[q] && NextAt(r, k) == NextAt(l, q);
      }
    }
  }

  lemma UntouchedBy(h: nat, l: seq<Blk>, lo: nat, hi: nat, i: nat, m0: Memory, m1: Memory, a: nat, b: nat)
    requires Tiles(h, l, lo, hi) && i < |l| && SameBut(m0, m1, a, b)
    requires l[i].at <= a && (if l[i].free then b <= End(h, l[i]) else b <= l[i].at + h)
    ensures Untouched(h, l, m0, m1)
  {
    hide Tiles;
    forall c, x | c in Busy(l) && c.at + h <= x < End(h, c)
      ensures (x in m0 <==> x in m1) && (x in m0 ==> m1[x] == m0[x])
    {
      InBusy(l, c);
      var k :| 0 <= k < |l| && l[k] == c;
      if k < i { TilesApart(h, l, lo, hi, k, i); } else if i < k { TilesApart(h, l, lo, hi, i, k); }
    }
  }

  // Blocks i and i + 1 made one.
  ghost function JoinOf(h: nat, l: seq<Blk>, i: nat): (r: seq<Blk>)
    requires i + 1 < |l|
    ensures |r| == |l| - 1
  {
    l[..i] + [Joined(h, l[i], l[i + 1])] + l[i + 2..]
  }

  // Blocks i and i + 1 made one: only the header of block i is written.
  lemma JoinedList(w: nat, m0: Memory, m1: Memory, l: seq<Blk>, lo: nat, hi: nat, i: nat)
    requires w > 0 && Tiles(3 * w, l, lo, hi) && Linked(w, m0, l) && i + 1 < |l|
    requires SameBut(m0, m1, l[i].at, l[i].at + 3 * w)
    requires Header(w, m1, Joined(3 * w, l[i], l[i + 1]), NextAt(l, i + 1))
    ensures Tiles(3 * w, JoinOf(3 * w, l, i), lo, hi) && Linked(w, m1, JoinOf(3 * w, l, i))
  {
    var h, r := 3 * w, JoinOf(3 * w, l, i);
    JoinedTiles(h, l, lo, hi, i);
    hide Tiles, SameBut, Header, NextAt, JoinOf;
    forall k | 0 <= k < |r|
      ensures Header(w, m1, r[k], NextAt(r, k))
    {
      JoinedAt(h, l, i, k);
      if k < i {
        TilesApart(h, l, lo, hi, k, i);
        HeaderKept(w, m0, m1, l[k], NextAt(l, k), l[i].at, l[i].at + 3 * w);
      } else if k > i {
        TilesApart(h, l, lo, hi, i, k + 1);
        HeaderKept(w, m0, m1, l[k + 1], NextAt(l, k + 1), l[i].at, l[i].at + 3 * w);
      }
    }
  }

  lemma JoinedAt(h: nat, l: seq<Blk>, i: nat, k: nat)
    requires i + 1 < |l| && k + 1 < |l|
    ensures var j := Joined(h, l[i], l[i + 1]); var r := JoinOf(h, l, i);
            && (k < i ==> r[k] == l[k] && NextAt(r, k) == NextAt(l, k))
            && (k == i ==> r[k] == j && NextAt(r, k) == NextAt(l, k + 1))
            && (k > i ==> r[k] == l[k + 1] && NextAt(r, k) == NextAt(l, k + 1))
  {}

  lemma JoinedTiles(h: nat, l: seq<Blk>, lo: nat, hi: nat, i: nat)
    requires Tiles(h, l, lo, hi) && i + 1 < |l|
    ensures Tiles(h, l[..i] + [Joined(h, l[i], l[i + 1])] + l[i + 2..], lo, hi)
  {
    var j := Joined(h, l[i], l[i + 1]);
    TilesAt(h, l, lo, hi, i);
    TilesAt(h, l, lo, hi, i + 1);
    TilesNext(h, l, lo, hi);
    assert Tiles(h, [j], l[i].at, End(h, l[i + 1])) by { assert [j][1..] == []; }
    TilesJoin(h, l[..i], [j], lo, l[i].at, End(h, l[i + 1]));
    TilesJoin(h, l[..i] + [j], l[i + 2..], lo, End(h, l[i + 1]), hi);
  }

  // A step of coalesce, on the list.
  lemma MergeStep(h: nat, l: seq<Blk>, i: nat, whole: seq<Blk>)
    requires i + 1 < |l| && l[..i] + Merge(h, l[i..]) == whole
    ensures l[i].free && l[i + 1].free ==>
      var r := JoinOf(h, l, i); r[..i] + Merge(h, r[i..]) == whole && Busy(r) == Busy(l)
    ensures !(l[i].free && l[i + 1].free) ==> l[..i + 1] + Merge(h, l[i + 1..]) == whole
  {
    var t := l[i..];
    assert t[0] == l[i] && t[1] == l[i + 1] && t[2..] == l[i + 2..] && t[1..] == l[i + 1..];
    if l[i].free && l[i + 1].free {
      var j := Joined(h, l[i], l[i + 1]);
      var r := l[..i] + [j] + l[i + 2..];
      assert r[..i] == l[..i] && r[i..] == [j] + t[2..];
      JoinBusy(h, l, i);
    } else {
      assert l[..i + 1] == l[..i] + [l[i]];
      assert l[..i] + ([l[i]] + Merge(h, t[1..])) == (l[..i] + [l[i]]) + Merge(h, t[1..]);
    }
  }

  lemma JoinBusy(h: nat, l: seq<Blk>, i: nat)
    requires i + 1 < |l| && l[i].free && l[i + 1].free
    ensures Busy(l[..i] + [Joined(h, l[i], l[i + 1])] + l[i + 2..]) == Busy(l)
  {
    var j := Joined(h, l[i], l[i + 1]);
    var a, z := l[..i], l[i + 2..];
    AllFree(j, j);
    AllFree(l[i], l[i + 1]);
    assert l == a + [l[i], l[i + 1]] + z;
    hide Busy;
    BusyConcat(a + [j], z);
    BusyConcat(a, [j]);
    BusyConcat(a + [l[i], l[i + 1]], z);
    BusyConcat(a, [l[i], l[i + 1]]);
  }

  lemma AllFree(a: Blk, b: Blk)
    requires a.free && b.free
    ensures Busy([a]) == [] && Busy([a, b]) == []
  {
    assert [a, b][1..] == [b] && [b][1..] == [] && [a][1..] == [];
  }

  lemma UntouchedTrans(h: nat, l0: seq<Blk>, l1: seq<Blk>, m0: Memory, m1: Memory, m2: Memory)
    requires Busy(l0) == Busy(l1) && Untouched(h, l0, m0, m1) && Untouched(h, l1, m1, m2)
    ensures Untouched(h, l0, m0, m2)
  {}

  // The list with a block behind its end.
  lemma ExtendedList(w: nat, m0: Memory, m1: Memory, l: seq<Blk>, lo: nat, hi: nat, b: Blk)
    requires w > 0 && l != [] && Tiles(3 * w, l, lo, hi) && Linked(w, m0, l) && b.at == hi
    requires var t := l[|l| - 1];
             Header(w, m1, t, b.at) && Header(w, m1, b, 0) && SameBut2(m0, m1, t.at, t.at + 3 * w, hi)
    ensures Tiles(3 * w, l + [b], lo, End(3 * w, b)) && Linked(w, m1, l + [b])
  {
    var h, n := 3 * w, |l| - 1;
    assert Tiles(h, [b], hi, End(h, b)) by { assert [b][1..] == []; }
    TilesJoin(h, l, [b], lo, hi, End(h, b));
    hide Tiles;
    var r := l + [b];
    forall k | 0 <= k < |r|
      ensures Header(w, m1, r[k], NextAt(r, k))
    {
      if k < n {
        TilesApart(h, l, lo, hi, k, n);
        assert Header(w, m0, l[k], NextAt(l, k));
        TilesAt(h, l, lo, hi, k);
        assert r[k] == l[k] && r[k + 1] == l[k + 1];
      }
    }
  }

  // Memory agrees outside [lo, hi) and below `from`.
  ghost predicate SameBut2(m0: Memory, m1: Memory, lo: nat, hi: nat, from: nat) {
    forall a :: !(lo <= a < hi) && a < from ==> (a in m0 <==> a in m1) && (a in m0 ==> m1[a] == m0[a])
  }

  // The two stores that make block b swallow block nx.
  function JoinedMem(w: nat, m: Memory, b: nat, nx: nat): Memory
    requires b in m && nx in m && nx + w in m
  {
    m[b := m[b] + (3 * w + m[nx])][b + w := m[nx + w]]
  }

  lemma JoinedHeader(w: nat, m: Memory, a: Blk, b: Blk, na: nat, nb: nat)
    requires w > 0 && Header(w, m, a, na) && Header(w, m, b, nb) && a.at + 3 * w <= b.at && a.free && b.free
    ensures var m' := JoinedMem(w, m, a.at, b.at);
            Header(w, m', Joined(3 * w, a, b), nb) && SameBut(m, m', a.at, a.at + 3 * w)
  {}

  lemma LinkedAt(w: nat, m: Memory, l: seq<Blk>, i: nat)
    requires Linked(w, m, l) && i < |l|
    ensures Header(w, m, l[i], NextAt(l, i)) && l[i].at in m && l[i].at + w in m
  {}

  lemma JoinDone(w: nat, m: Memory, l: seq<Blk>, lo: nat, hi: nat, i: nat)
    requires w > 0 && Tiles(3 * w, l, lo, hi) && Linked(w, m, l) && i + 1 < |l| && l[i].free && l[i + 1].free
    ensures l[i].at in m && l[i + 1].at in m && l[i + 1].at + w in m
    ensures var m' := JoinedMem(w, m, l[i].at, l[i + 1].at);
            && Tiles(3 * w, JoinOf(3 * w, l, i), lo, hi)
            && Linked(w, m', JoinOf(3 * w, l, i)) && Untouched(3 * w, l, m, m')
  {
    hide Tiles, Linked, SameBut, Untouched, NextAt, JoinOf, JoinedMem, Header;
    LinkedAt(w, m, l, i);
    LinkedAt(w, m, l, i + 1);
    TilesApart(3 * w, l, lo, hi, i, i + 1);
    JoinedHeader(w, m, l[i], l[i + 1], NextAt(l, i), NextAt(l, i + 1));
    var m' := JoinedMem(w, m, l[i].at, l[i + 1].at);
    JoinedList(w, m, m', l, lo, hi, i);
    UntouchedBy(3 * w, l, lo, hi, i, m, m', l[i].at, l[i].at + 3 * w);
  }

  lemma NothingYet(h: nat, l: seq<Blk>, m: Memory)
    ensures Untouched(h, l, m, m) && Merge(h, []) == []
  {}

  lemma MergeOne(h: nat, b: Blk)
    ensures Merge(h, [b]) == [b]
  {}

  // --- more_heap ---

  ghost predicate ListOk(w: nat, m: Memory, l: seq<Blk>, lo: nat, hi: nat) {
    l == [] || (Tiles(3 * w, l, lo, hi) && Linked(w, m, l))
  }

  // The header of a new block behind the end.
  lemma NewHeader(w: nat, m: Memory, b: Blk, l: seq<Blk>, lo: nat, hi: nat)
    requires w > 0 && b.at == hi && b.free && ListOk(w, m, l, lo, hi)
    ensures var m1 := m[b.at := b.size][b.at + w := 0][b.at + 2 * w := 1];
            && Header(w, m1, b, 0) && ListOk(w, m1, l, lo, hi) && Untouched(3 * w, l, m, m1)
            && Tiles(3 * w, [] + [b], hi, End(3 * w, b)) && Linked(w, m1, [] + [b])
  {
    var m1 := m[b.at := b.size][b.at + w := 0][b.at + 2 * w := 1];
    assert [] + [b] == [b] && [b][1..] == [];
    if l != [] {
      forall k | 0 <= k < |l|
        ensures Header(w, m1, l[k], NextAt(l, k))
      {
        TilesAt(3 * w, l, lo, hi, k);
        assert Header(w, m, l[k], NextAt(l, k));
      }
      BelowUntouched(3 * w, l, lo, hi, m, m1);
    }
  }

  lemma BelowUntouched(h: nat, l: seq<Blk>, lo: nat, hi: nat, m0: Memory, m1: Memory)
    requires Tiles(h, l, lo, hi) && forall a :: a < hi ==> (a in m0 <==> a in m1) && (a in m0 ==> m1[a] == m0[a])
    ensures Untouched(h, l, m0, m1)
  {
    forall c, x | c in Busy(l) && c.at + h <= x < End(h, c)
      ensures (x in m0 <==> x in m1) && (x in m0 ==> m1[x] == m0[x])
    {
      InBusy(l, c);
      var k :| 0 <= k < |l| && l[k] == c;
      TilesAt(h, l, lo, hi, k);
    }
  }

  // The last header points at the new block.
  lemma LinkTail(w: nat, m0: Memory, m1: Memory, l: seq<Blk>, lo: nat, hi: nat, b: Blk)
    requires w > 0 && l != [] && Tiles(3 * w, l, lo, hi) && Linked(w, m1, l) && b.at == hi && Header(w, m1, b, 0)
    requires Untouched(3 * w, l, m0, m1)
    ensures var m2 := m1[l[|l| - 1].at + w := b.at];
            && Tiles(3 * w, l + [b], lo, End(3 * w, b)) && Linked(w, m2, l + [b]) && Untouched(3 * w, l, m0, m2)
  {
    var n := |l| - 1;
    var t := l[n];
    var m2 := m1[t.at + w := b.at];
    TilesAt(3 * w, l, lo, hi, n);
    assert Header(w, m1, t, NextAt(l, n));
    hide Tiles, Linked, Untouched;
    TailHeaders(w, m1, t, NextAt(l, n), b);
    ExtendedList(w, m1, m2, l, lo, hi, b);
    HeaderOnly(3 * w, l, lo, hi, n, m1, m2);
    UntouchedTrans(3 * w, l, l, m0, m1, m2);
  }

  lemma TailHeaders(w: nat, m: Memory, t: Blk, next: nat, b: Blk)
    requires w > 0 && Header(w, m, t, next) && Header(w, m, b, 0) && End(3 * w, t) <= b.at
    ensures var m' := m[t.at + w := b.at];
            && Header(w, m', t, b.at) && Header(w, m', b, 0)
            && SameBut(m, m', t.at, t.at + 3 * w) && SameBut2(m, m', t.at, t.at + 3 * w, b.at)
  {}

  // A header write leaves every payload alone.
  lemma HeaderOnly(h: nat, l: seq<Blk>, lo: nat, hi: nat, i: nat, m0: Memory, m1: Memory)
    requires Tiles(h, l, lo, hi) && i < |l| && SameBut(m0, m1, l[i].at, l[i].at + h)
    ensures Untouched(h, l, m0, m1)
  {
    hide Tiles;
    UntouchedBy(h, l, lo, hi, i, m0, m1, l[i].at, l[i].at + h);
  }

  // --- take ---

  ghost function Split(h: nat, b: Blk, size: nat): (r: seq<Blk>)
    ensures 1 <= |r| <= 2 && r[0].at == b.at
  {
    if b.size > size + h + MIN_ALLOC then [Blk(b.at, size, false), Blk(b.at + h + size, b.size - size - h, true)]
    else [Blk(b.at, b.size, false)]
  }

  // The stores of a split.
  function SplitMem(w: nat, m: Memory, b: nat, nb: nat, size: nat): Memory
    requires b in m && b + w in m && m[b] >= size + 3 * w
  {
    m[nb := m[b] - size - 3 * w][nb + w := m[b + w]][nb + 2 * w := 1][b + w := nb][b := size]
  }

  ghost predicate Headed(w: nat, m: Memory, r: seq<Blk>, next: nat) {
    forall k :: 0 <= k < |r| ==> Header(w, m, r[k], NextIn(r, k, next))
  }

  lemma TakenHeaders(w: nat, m: Memory, b: Blk, size: nat, next: nat)
    requires w > 0 && Header(w, m, b, next) && b.free && b.size >= size
    ensures var m2 := TakenMem(w, m, b, size);
            SameBut(m, m2, b.at, End(3 * w, b)) && Headed(w, m2, Split(3 * w, b, size), next)
  {
    var m2 := TakenMem(w, m, b, size);
    if b.size > size + 3 * w + MIN_ALLOC {
      SplitHeaders(w, m, b, size, next);
    } else {
      assert Header(w, m2, Blk(b.at, b.size, false), next);
    }
  }

  lemma SplitHeaders(w: nat, m: Memory, b: Blk, size: nat, next: nat)
    requires w > 0 && Header(w, m, b, next) && b.free && b.size > size + 3 * w + MIN_ALLOC
    ensures var m2 := TakenMem(w, m, b, size); var nb := Blk(b.at + 3 * w + size, b.size - size - 3 * w, true);
            Header(w, m2, Blk(b.at, size, false), nb.at) && Header(w, m2, nb, next)
  {}

  lemma SplitTiles(h: nat, l: seq<Blk>, lo: nat, hi: nat, i: nat, size: nat)
    requires Tiles(h, l, lo, hi) && i < |l| && l[i].size >= size
    ensures Tiles(h, l[..i] + Split(h, l[i], size) + l[i + 1..], lo, hi)
  {
    var r := Split(h, l[i], size);
    if |r| == 2 {
      var t := [r[1]];
      assert r[1..] == t && t[1..] == [];
      assert Tiles(h, t, End(h, r[0]), End(h, l[i]));
    } else {
      assert r[1..] == [];
    }
    assert Tiles(h, r, l[i].at, End(h, l[i]));
    hide Tiles, Split;
    Replace(h, l, lo, hi, i, r);
  }

  // The new pointer is none of the live ones, and they stay what they were.
  lemma TakenLive(h: nat, l: seq<Blk>, lo: nat, hi: nat, i: nat, size: nat, live: map<nat, nat>)
    requires h > 0 && Tiles(h, l, lo, hi) && i < |l| && l[i].free && l[i].size >= size && LiveOk(h, Busy(l), live)
    ensures l[i].at + h !in live
    ensures LiveOk(h, Busy(l[..i] + Split(h, l[i], size) + l[i + 1..]), live[l[i].at + h := size])
  {
    var r, p := Split(h, l[i], size), l[i].at + h;
    BusyReplace(l, i, r);
    SplitBusy(h, l[i], size);
    hide Busy, Split;
    forall c | c in Busy(l)
      ensures c.at + h != p
    {
      InBusy(l, c);
      var k :| 0 <= k < |l| && l[k] == c;
      if k < i { TilesApart(h, l, lo, hi, k, i); } else if i < k { TilesApart(h, l, lo, hi, i, k); }
    }
    hide Tiles;
    var a, z := Busy(l[..i]), Busy(l[i + 1..]);
    Around(a, r[0], z);
    AddLive(h, a + z, a + [r[0]] + z, r[0], live, p, size);
  }

  lemma SplitBusy(h: nat, b: Blk, size: nat)
    requires b.size >= size
    ensures var r := Split(h, b, size); Busy(r) == [r[0]] && r[0].size >= size
  {
    var r := Split(h, b, size);
    if |r| == 2 {
      assert r[1..] == [r[1]];
      AllFree(r[1], r[1]);
    } else {
      assert r[1..] == [];
    }
  }

  lemma AddLive(h: nat, busy: seq<Blk>, busy': seq<Blk>, b: Blk, live: map<nat, nat>, p: nat, size: nat)
    requires LiveOk(h, busy, live) && b.at + h == p && size <= b.size
    requires forall c :: c in busy' <==> c in busy || c == b
    requires forall c :: c in busy ==> c.at + h != p
    ensures p !in live && LiveOk(h, busy', live[p := size])
  {
    hide Owned;
    var live' := live[p := size];
    NotOwned(h, busy, p);
    OwnedBy(h, busy', b);
    forall q | q in live'
      ensures Owned(h, busy', q)
    {
      if q != p { MoreOwned(h, busy, busy', q); }
    }
    forall c | c in busy'
      ensures Enough(h, c, live')
    {
      if c in busy { assert Enough(h, c, live); }
    }
  }

  lemma NotOwned(h: nat, busy: seq<Blk>, p: nat)
    requires forall c :: c in busy ==> c.at + h != p
    ensures !Owned(h, busy, p)
  {}

  lemma OwnedBy(h: nat, busy: seq<Blk>, b: Blk)
    requires b in busy
    ensures Owned(h, busy, b.at + h)
  {}

  lemma Around(a: seq<Blk>, x: Blk, z: seq<Blk>)
    ensures forall c :: c in a + [x] + z <==> c in a + z || c == x
    ensures a + [] + z == a + z
  {}

  lemma MoreOwned(h: nat, busy: seq<Blk>, busy': seq<Blk>, q: nat)
    requires Owned(h, busy, q) && forall c :: c in busy && c.at + h == q ==> c in busy'
    ensures Owned(h, busy', q)
  {}

  ghost function TakeOf(h: nat, l: seq<Blk>, i: nat, size: nat): (r: seq<Blk>)
    requires i < |l|
    ensures r != []
  {
    l[..i] + Split(h, l[i], size) + l[i + 1..]
  }

  ghost function TakenMem(w: nat, m: Memory, b: Blk, size: nat): Memory {
    if b.at in m && b.at + w in m && m[b.at] > size + 3 * w + MIN_ALLOC
    then SplitMem(w, m, b.at, b.at + 3 * w + size, size)[b.at + 2 * w := 0]
    else m[b.at + 2 * w := 0]
  }

  lemma TakenMemIs(w: nat, m: Memory, b: Blk, size: nat, next: nat)
    requires Header(w, m, b, next)
    ensures TakenMem(w, m, b, size) ==
            if b.size > size + 3 * w + MIN_ALLOC then SplitMem(w, m, b.at, b.at + 3 * w + size, size)[b.at + 2 * w := 0]
            else m[b.at + 2 * w := 0]
  {}

  // What take leaves.
  lemma TakeDone(w: nat, m: Memory, l: seq<Blk>, lo: nat, hi: nat, i: nat, size: nat, live: map<nat, nat>)
    requires w > 0 && Tiles(3 * w, l, lo, hi) && Linked(w, m, l) && LiveOk(3 * w, Busy(l), live)
    requires i < |l| && l[i].free && l[i].size >= size
    ensures var m2 := TakenMem(w, m, l[i], size); var r := TakeOf(3 * w, l, i, size);
            && Tiles(3 * w, r, lo, hi) && Linked(w, m2, r) && Untouched(3 * w, l, m, m2)
            && l[i].at + 3 * w !in live && LiveOk(3 * w, Busy(r), live[l[i].at + 3 * w := size])
  {
    hide Tiles, Linked, Untouched, Busy, LiveOk, SameBut, Split, SplitMem, TakenMem, Header, Headed, NextAt;
    LinkedAt(w, m, l, i);
    var m2 := TakenMem(w, m, l[i], size);
    TakenHeaders(w, m, l[i], size, NextAt(l, i));
    SplitTiles(3 * w, l, lo, hi, i, size);
    Relinked(w, m, m2, l, lo, hi, i, Split(3 * w, l[i], size));
    UntouchedBy(3 * w, l, lo, hi, i, m, m2, l[i].at, End(3 * w, l[i]));
    TakenLive(3 * w, l, lo, hi, i, size, live);
  }

  // --- free ---

  lemma OwnerOf(h: nat, l: seq<Blk>, live: map<nat, nat>, p: nat) returns (i: nat)
    requires LiveOk(h, Busy(l), live) && p in live
    ensures i < |l| && !l[i].free && l[i].at + h == p
  {
    assert Owned(h, Busy(l), p);
    hide LiveOk, Busy;
    var b :| b in Busy(l) && b.at + h == p;
    InBusy(l, b);
    i :| i < |l| && l[i] == b;
  }

  lemma FreedHeader(w: nat, m: Memory, b: Blk, next: nat)
    requires w > 0 && Header(w, m, b, next)
    ensures var m1 := m[b.at + 2 * w := 1];
            Headed(w, m1, [b.(free := true)], next) && SameBut(m, m1, b.at, b.at + 3 * w)
    ensures var m1 := m[b.at + 2 * w := 1]; SameBut(m, m1, b.at, End(3 * w, b))
  {}

  lemma SameTiles(h: nat, l: seq<Blk>, lo: nat, hi: nat, i: nat)
    requires Tiles(h, l, lo, hi) && i < |l|
    ensures Tiles(h, l[..i] + [l[i].(free := true)] + l[i + 1..], lo, hi)
  {
    var r := [l[i].(free := true)];
    assert r[1..] == [];
    assert Tiles(h, r, l[i].at, End(h, l[i]));
    Replace(h, l, lo, hi, i, r);
  }

  lemma FreedLive(h: nat, l: seq<Blk>, lo: nat, hi: nat, i: nat, live: map<nat, nat>)
    requires h > 0 && Tiles(h, l, lo, hi) && i < |l| && !l[i].free && LiveOk(h, Busy(l), live)
    ensures LiveOk(h, Busy(l[..i] + [l[i].(free := true)] + l[i + 1..]), live - {l[i].at + h})
  {
    var f, p := l[i].(free := true), l[i].at + h;
    AllFree(f, f);
    hide Busy, Tiles, LiveOk;
    BusyReplace(l, i, [f]);
    var a, z := Busy(l[..i]), Busy(l[i + 1..]);
    forall c: Blk | c in a + z
      ensures c.at + h != p
    {
      OtherAt(h, l, lo, hi, i, c);
    }
    Around(a, l[i], z);
    DropLive(h, a + [l[i]] + z, a + z, l[i], live, p);
  }

  // A block in use beside block i starts elsewhere.
  lemma OtherAt(h: nat, l: seq<Blk>, lo: nat, hi: nat, i: nat, c: Blk)
    requires h > 0 && Tiles(h, l, lo, hi) && i < |l| && (c in Busy(l[..i]) || c in Busy(l[i + 1..]))
    ensures c.at != l[i].at
  {
    hide Tiles, Busy;
    InBusy(l[..i], c);
    InBusy(l[i + 1..], c);
    if c in Busy(l[..i]) {
      var k :| 0 <= k < i && l[k] == c;
      TilesApart(h, l, lo, hi, k, i);
    } else {
      var k :| 0 <= k < |l[i + 1..]| && l[i + 1..][k] == c;
      TilesApart(h, l, lo, hi, i, i + 1 + k);
    }
  }

  lemma DropLive(h: nat, busy: seq<Blk>, busy': seq<Blk>, b: Blk, live: map<nat, nat>, p: nat)
    requires LiveOk(h, busy, live) && b.at + h == p && (forall c :: c in busy <==> c in busy' || c == b)
    requires forall c :: c in busy' ==> c.at + h != p
    ensures LiveOk(h, busy', live - {p})
  {
    hide Owned;
    forall q | q in live - {p}
      ensures Owned(h, busy', q)
    {
      MoreOwned(h, busy, busy', q);
    }
    forall c | c in busy'
      ensures Enough(h, c, live - {p})
    {
      assert Enough(h, c, live);
    }
  }

  // --- malloc ---

  // No free run of the list is n bytes long.
  ghost predicate AllShort(h: nat, l: seq<Blk>, n: nat) {
    forall i, j :: FreeRun(l, i, j) ==> RunSize(h, l, i, j) < n
  }

  // No block of the merged list fits: no free run did.
  lemma NoRun(h: nat, l0: seq<Blk>, l: seq<Blk>, n: nat, lo: nat, hi: nat)
    requires (l0 == [] || Tiles(h, l0, lo, hi)) && l == Merge(h, l0) && !Fits(l, n)
    ensures AllShort(h, l0, n)
  {
    if l0 != [] { TilesNext(h, l0, lo, hi); }
    hide Tiles, Merge;
    forall i, j | FreeRun(l0, i, j)
      ensures RunSize(h, l0, i, j) < n
    {
      var k := RunMerged(h, l0, i, j);
      assert !(l[k].free && l[k].size >= n);
    }
  }

  // The kernel's answer to a break grow bytes further on.
  predicate Granted(w: nat, kernel: (nat, nat) -> bool, brk: nat, grow: nat) {
    brk + grow < Word(w) && kernel(brk, grow)
  }

  // A new lump adds no block in use, and holds the request unless the demand
  // wrapped.
  lemma LumpFits(w: nat, l: seq<Blk>, l': seq<Blk>, n: nat)
    requires l' != [] && l == l'[..|l'| - 1] && l'[|l'| - 1].free
    requires l'[|l'| - 1].size == Lump(HEAP_LUMP, Demand(w, n)) - 3 * w
    ensures Busy(l') == Busy(l) && (n + 3 * w + MIN_ALLOC < Word(w) ==> Fits(l', n))
  {
    var b := l'[|l'| - 1];
    hide Lump;
    assert l' == l + [b];
    BusyConcat(l, [b]);
    AllFree(b, b);
  }

  lemma FirstGrow(w: nat)
    ensures GrowAt(w, 0) == HEAP_LUMP && Rounds(w) >= 0
  {}

  // One round of the growth loop.
  lemma NextGrow(w: nat, k: nat, t: nat)
    requires k <= Rounds(w) && 0 < GrowAt(w, k) < t
    ensures GrowAt(w, k + 1) == 2 * GrowAt(w, k) % Word(w)
    ensures k < Rounds(w) ==> GrowAt(w, k + 1) > 0 && Lump(GrowAt(w, k + 1), t) == Lump(GrowAt(w, k), t)
    ensures k == Rounds(w) ==> t > Word(w) / 2
  {
    GrowShape(w, k);
    if k < Rounds(w) {
      GrowShape(w, k + 1);
      var q := Pow2(Rounds(w) - k - 1);
      assert Pow2(Rounds(w) - k) == 2 * q;
      Halves(GrowAt(w, k), q, Word(w));
    } else {
      assert Pow2(0) == 1;
    }
  }

  class Allocator {
    // Bytes per machine word: 4 on i386, 8 on x86_64.
    const w: nat
    var mem: Memory
    var heapStart: nat
    var brk: nat
    ghost var blocks: seq<Blk>
    ghost var live: map<nat, nat>

    ghost predicate Shape()
      reads this
    {
      && w in {4, 8} && MIN_ALLOC <= brk < Word(w)
      && if blocks == [] then heapStart == 0
         else heapStart >= MIN_ALLOC && Tiles(3 * w, blocks, heapStart, brk) && Linked(w, mem, blocks)
    }

    ghost predicate Valid()
      reads this
    {
      Shape() && LiveOk(3 * w, Busy(blocks), live)
    }

    constructor (w: nat, brk: nat)
      requires w in {4, 8} && MIN_ALLOC <= brk < Word(w)
      ensures Valid() && blocks == [] && live == map[] && this.w == w && this.brk == brk
    {
      this.w, this.mem, this.heapStart, this.brk := w, map[], 0, brk;
      this.blocks, this.live := [], map[];
    }

    // The block under a list pointer.
    lemma Under(i: nat)
      requires Shape() && i < |blocks|
      ensures Header(w, mem, blocks[i], NextAt(blocks, i)) && MIN_ALLOC <= blocks[i].at && End(3 * w, blocks[i]) <= brk
      ensures i + 1 < |blocks| ==> 0 < NextAt(blocks, i)
      ensures blocks[0].at == heapStart
    {
      TilesAt(3 * w, blocks, heapStart, brk, i);
      if i + 1 < |blocks| { TilesAt(3 * w, blocks, heapStart, brk, i + 1); }
    }

    // find_block: the first free block that is big enough.
    method FindBlock(size: nat) returns (b: nat, ghost i: nat)
      requires Shape()
      ensures b == 0 ==> !Fits(blocks, size)
      ensures b != 0 ==> i < |blocks| && blocks[i].at == b && blocks[i].free && blocks[i].size >= size
      ensures b != 0 ==> forall k :: 0 <= k < i ==> !(blocks[k].free && blocks[k].size >= size)
    {
      hide Tiles, Linked;
      b := heapStart;
      i := 0;
      if blocks != [] { Under(0); }
      while b != 0
        invariant i <= |blocks| && b == (if i < |blocks| then blocks[i].at else 0) && (b != 0 <==> i < |blocks|)
        invariant forall k :: 0 <= k < i ==> !(blocks[k].free && blocks[k].size >= size)
        decreases |blocks| - i
      {
        Under(i);
        if i + 1 < |blocks| { Under(i + 1); }
        if mem[b + 2 * w] == 1 && mem[b] >= size {
          return;
        }
        b := mem[b + w];
        i := i + 1;
      }
    }

    // coalesce: the list becomes its merged form, payloads in use untouched.
    method Coalesce()
      requires Shape()
      modifies this`mem, this`blocks
      ensures Shape() && blocks == Merge(3 * w, old(blocks)) && Untouched(3 * w, old(blocks), old(mem), mem)
      ensures Busy(blocks) == Busy(old(blocks))
    {
      hide Tiles, Linked, Merge, Busy, Untouched, JoinOf;
      ghost var h, whole := 3 * w, Merge(3 * w, blocks);
      NothingYet(h, blocks, mem);
      var b := heapStart;
      ghost var i := 0;
      if blocks != [] { Under(0); }
      assert blocks[0..] == blocks && blocks[..0] == [];
      while b != 0 && mem[b + w] != 0
        invariant Shape() && (blocks == [] <==> old(blocks) == []) && Busy(blocks) == Busy(old(blocks))
        invariant blocks == [] ==> b == 0
        invariant blocks != [] ==> i < |blocks| && b == blocks[i].at && b + w in mem && mem[b + w] == NextAt(blocks, i)
        invariant blocks == [] || blocks[..i] + Merge(h, blocks[i..]) == whole
        invariant Untouched(h, old(blocks), old(mem), mem)
        invariant blocks != [] ==> b != 0 && (mem[b + w] == 0 <==> i + 1 == |blocks|)
        decreases |blocks| - i
      {
        Under(i);
        Under(i + 1);
        var nx := mem[b + w];
        MergeStep(h, blocks, i, whole);
        if mem[b + 2 * w] == 1 && mem[nx + 2 * w] == 1 {
          ghost var l, m := blocks, mem;
          JoinAt(b, nx, i);
          JoinedAt(h, l, i, i);
          UntouchedTrans(h, old(blocks), l, old(mem), m, mem);
          Under(i);
        } else {
          b := nx;
          i := i + 1;
        }
      }
      if blocks != [] {
        assert blocks[i..] == [blocks[i]] && blocks[..i] + [blocks[i]] == blocks;
        MergeOne(h, blocks[i]);
      }
    }

    // b->size += BLOCK_SIZE + b->next->size; b->next = b->next->next
    method JoinAt(b: nat, nx: nat, ghost i: nat)
      requires Shape() && i + 1 < |blocks| && b == blocks[i].at && nx == blocks[i + 1].at && blocks[i].free
      requires blocks[i + 1].free
      modifies this`mem, this`blocks
      ensures Shape()
      ensures blocks == JoinOf(3 * w, old(blocks), i)
      ensures Untouched(3 * w, old(blocks), old(mem), mem)
    {
      hide Tiles, Linked, Untouched, JoinOf, JoinedMem;
      JoinDone(w, mem, blocks, heapStart, brk, i);
      Under(i);
      Under(i + 1);
      mem := JoinedMem(w, mem, b, nx);
      blocks := JoinOf(3 * w, blocks, i);
    }

    // The growth loop: it ends with the first doubling that is enough. Past the
    // top bit `grow` is 0 and stays 0, and the loop never ends.
    method GrowLump(t: nat) returns (hangs: bool, grow: nat)
      requires w in {4, 8} && t < Word(w)
      ensures hangs <==> t > Word(w) / 2
      ensures !hangs ==> grow == Lump(HEAP_LUMP, t) && grow <= Word(w) / 2
    {
      hide GrowAt, Rounds, Word;
      grow := HEAP_LUMP;
      ghost var k := 0;
      GrowShape(w, 0);
      GrowBound(w, 0);
      FirstGrow(w);
      while grow < t
        invariant grow == GrowAt(w, k) && k <= Rounds(w) + 1 && grow <= Word(w) / 2 && (grow == 0 <==> k > Rounds(w))
        invariant grow > 0 ==> Lump(grow, t) == Lump(HEAP_LUMP, t)
        invariant grow == 0 ==> t > Word(w) / 2
        decreases Rounds(w) + 1 - k
      {
        if grow == 0 {
          return true, 0;
        }
        GrowShape(w, k);
        GrowShape(w, k + 1);
        GrowBound(w, k + 1);
        NextGrow(w, k, t);
        grow := 2 * grow % Word(w);
        k := k + 1;
      }
      hangs := false;
    }

    // more_heap: a lump behind the end, or nothing when the kernel refuses. The
    // kernel answers as it likes, but gives no break past the word.
    method MoreHeap(need: nat, kernel: (nat, nat) -> bool) returns (ok: bool, hangs: bool)
      requires Shape()
      modifies this`mem, this`heapStart, this`brk, this`blocks
      ensures Shape() && (hangs <==> Demand(w, need) > Word(w) / 2)
      ensures ok <==> !hangs && Granted(w, kernel, old(brk), Lump(HEAP_LUMP, Demand(w, need)))
      ensures !ok ==> mem == old(mem) && blocks == old(blocks) && brk == old(brk) && heapStart == old(heapStart)
      ensures ok ==> blocks == old(blocks) + [Blk(old(brk), Lump(HEAP_LUMP, Demand(w, need)) - 3 * w, true)]
      ensures ok ==> brk > old(brk)
      ensures Untouched(3 * w, old(blocks), old(mem), mem)
    {
      hide Tiles, Linked, Untouched, Busy, Demand, Word, Lump;
      var cur := brk;
      NothingYet(3 * w, blocks, mem);
      var grow;
      hangs, grow := GrowLump(Demand(w, need));
      if hangs {
        return false, true;
      }
      if cur + grow >= Word(w) || !kernel(cur, grow) {
        return false, false;
      }
      ghost var b := Blk(cur, grow - 3 * w, true);
      ghost var m0 := mem;
      NewHeader(w, mem, b, blocks, heapStart, brk);
      mem := mem[cur := grow - 3 * w][cur + w := 0][cur + 2 * w := 1];
      if heapStart == 0 {
        heapStart := cur;
      } else {
        var c := LastBlock();
        LinkTail(w, m0, mem, blocks, heapStart, brk, b);
        mem := mem[c + w := cur];
      }
      brk := cur + grow;
      blocks := blocks + [b];
      assert blocks[0..] == blocks;
      ok := true;
    }

    method LastBlock() returns (c: nat)
      requires Shape() && blocks != []
      ensures c == blocks[|blocks| - 1].at
    {
      hide Tiles, Linked;
      c := heapStart;
      ghost var i := 0;
      Under(0);
      while mem[c + w] != 0
        invariant i < |blocks| && c == blocks[i].at && c + w in mem && mem[c + w] == NextAt(blocks, i)
        invariant (i + 1 < |blocks| <==> mem[c + w] != 0)
        decreases |blocks| - i
      {
        c := mem[c + w];
        i := i + 1;
        Under(i);
      }
    }

    // take: the block, split when the rest is worth it.
    method Take(b: nat, size: nat, ghost i: nat) returns (p: nat)
      requires Valid() && i < |blocks| && blocks[i].at == b && blocks[i].free && blocks[i].size >= size
      modifies this`mem, this`blocks, this`live
      ensures Valid() && p == b + 3 * w && p > 0 && p !in old(live) && live == old(live)[p := size]
      ensures Untouched(3 * w, old(blocks), old(mem), mem)
      ensures blocks == TakeOf(3 * w, old(blocks), i, size)
    {
      hide Tiles, Linked, Untouched, Busy, LiveOk, TakeOf, TakenMem, SplitMem;
      Under(i);
      TakeDone(w, mem, blocks, heapStart, brk, i, size, live);
      ghost var m2 := TakenMem(w, mem, blocks[i], size);
      TakenMemIs(w, mem, blocks[i], size, NextAt(blocks, i));
      assert size + 3 * w + MIN_ALLOC < Word(w);
      if mem[b] > (size + 3 * w + MIN_ALLOC) % Word(w) {
        var nb := b + 3 * w + size;
        mem := SplitMem(w, mem, b, nb, size);
      }
      mem := mem[b + 2 * w := 0];
      p := b + 3 * w;
      blocks := TakeOf(3 * w, blocks, i, size);
      live := live[p := size];
    }

    // malloc: nothing only when no free run is long enough and the kernel
    // refused, and no more than three searches unless the demand wraps. The
    // pointer has RoundUp(size) bytes; RoundEnough says when that is enough.
    method Malloc(size: nat, kernel: (nat, nat) -> bool) returns (p: nat, searches: nat, hangs: bool)
      requires Valid() && size < Word(w)
      modifies this`mem, this`heapStart, this`brk, this`blocks, this`live
      ensures Valid() && Untouched(3 * w, old(blocks), old(mem), mem)
      ensures RoundUp(Word(w), size) + 3 * w + MIN_ALLOC < Word(w) ==> searches <= 3
      ensures p == 0 ==> live == old(live)
      ensures p != 0 ==> size > 0 && !hangs && p !in old(live) && live == old(live)[p := RoundUp(Word(w), size)]
      ensures hangs ==> size > 0 && Demand(w, RoundUp(Word(w), size)) > Word(w) / 2
      ensures p == 0 && size > 0 && !hangs ==>
        Demand(w, RoundUp(Word(w), size)) <= Word(w) / 2
        && !Granted(w, kernel, brk, Lump(HEAP_LUMP, Demand(w, RoundUp(Word(w), size))))
      ensures p == 0 && size > 0 ==> AllShort(3 * w, old(blocks), RoundUp(Word(w), size))
    {
      hide Tiles, Linked, Untouched, Busy, LiveOk, Merge, Fits, FreeRun, TakeOf, AllShort, Demand, Word, Lump, Granted;
      ghost var h, l0, m0, lo := 3 * w, blocks, mem, heapStart;
      NothingYet(h, blocks, mem);
      searches := 0;
      if size == 0 {
        return 0, 0, false;
      }
      var n := RoundUp(Word(w), size);
      var coalesced := false;
      ghost var grown := false;
      while true
        invariant Valid() && live == old(live) && Untouched(h, l0, m0, mem) && Busy(blocks) == Busy(l0)
        invariant grown ==> AllShort(h, l0, n) && Demand(w, n) <= Word(w) / 2
        invariant grown && n + 3 * w + MIN_ALLOC < Word(w) ==> !coalesced && Fits(blocks, n) && searches == 2
        invariant !grown ==> brk == old(brk) && searches == (if coalesced then 1 else 0)
        invariant !grown ==> blocks == if coalesced then Merge(h, l0) else l0
        decreases Word(w) - brk, if coalesced then 0 else 1
      {
        var b, i := FindBlock(n);
        searches := searches + 1;
        if b != 0 {
          ghost var l, m := blocks, mem;
          p := Take(b, n, i);
          UntouchedTrans(h, l0, l, m0, m, mem);
          return p, searches, false;
        }
        ghost var l, m := blocks, mem;
        if !coalesced {
          Coalesce();
          UntouchedTrans(h, l0, l, m0, m, mem);
          coalesced := true;
          continue;
        }
        if !grown { NoRun(h, l0, l, n, lo, old(brk)); }
        var more, stuck := MoreHeap(n, kernel);
        UntouchedTrans(h, l0, l, m0, m, mem);
        if stuck {
          return 0, searches, true;
        }
        if !more {
          return 0, searches, false;
        }
        LumpFits(w, l, blocks, n);
        grown, coalesced := true, false;
      }
    }

    // free
    method Free(p: nat)
      requires Valid() && (p == 0 || p in live)
      modifies this`mem, this`blocks, this`live
      ensures Valid() && live == old(live) - {p} && Untouched(3 * w, old(blocks), old(mem), mem)
    {
      hide Tiles, Linked, Untouched, Busy, LiveOk, SameBut;
      NothingYet(3 * w, blocks, mem);
      if p == 0 {
        if 0 in live {
          ghost var k := OwnerOf(3 * w, blocks, live, 0);
          Under(k);
          assert false;
        }
        assert live - {p} == live;
        return;
      }
      ghost var l := blocks;
      ghost var i := OwnerOf(3 * w, l, live, p);
      Under(i);
      var b := p - 3 * w;
      ghost var m0, freed := mem, l[i].(free := true);
      FreedHeader(w, mem, l[i], NextAt(l, i));
      mem := mem[b + 2 * w := 1];
      SameTiles(3 * w, l, heapStart, brk, i);
      Relinked(w, m0, mem, l, heapStart, brk, i, [freed]);
      UntouchedBy(3 * w, l, heapStart, brk, i, m0, mem, b, b + 3 * w);
      FreedLive(3 * w, l, heapStart, brk, i, live);
      blocks := l[..i] + [freed] + l[i + 1..];
      live := live - {p};
    }

    // The program writes into memory it was given: the list stays intact.
    method UserStore(p: nat, a: nat, v: nat)
      requires Valid() && p in live && p <= a < p + live[p]
      modifies this`mem
      ensures Valid() && mem == old(mem)[a := v]
    {
      hide Tiles, Linked, Busy, LiveOk, Header;
      ghost var i := OwnerOf(3 * w, blocks, live, p);
      LiveSize(3 * w, blocks, live, i);
      PayloadWrite(w, mem, blocks, heapStart, brk, i, a, v);
      mem := mem[a := v];
    }
  }

  lemma LiveSize(h: nat, l: seq<Blk>, live: map<nat, nat>, i: nat)
    requires LiveOk(h, Busy(l), live) && i < |l| && !l[i].free
    ensures Enough(h, l[i], live)
  {
    hide Owned;
    InBusy(l, l[i]);
  }

  lemma PayloadWrite(w: nat, m: Memory, l: seq<Blk>, lo: nat, hi: nat, i: nat, a: nat, v: nat)
    requires w > 0 && Tiles(3 * w, l, lo, hi) && Linked(w, m, l) && i < |l| && l[i].at + 3 * w <= a < End(3 * w, l[i])
    ensures Linked(w, m[a := v], l)
  {
    hide Tiles, Header;
    forall k | 0 <= k < |l|
      ensures Header(w, m[a := v], l[k], NextAt(l, k))
    {
      LinkedAt(w, m, l, k);
      if k < i { TilesApart(3 * w, l, lo, hi, k, i); } else if i < k { TilesApart(3 * w, l, lo, hi, i, k); }
      HeaderKept(w, m, m[a := v], l[k], NextAt(l, k), a, a + 1);
    }
  }
}
