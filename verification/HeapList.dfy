// The block list of vlibc/src/stdlib/malloc.c: blocks that tile the heap, and
// what merging free neighbours does to them. The size of a header, h, is that
// of three machine words.
module HeapList {
  datatype Blk = Blk(at: nat, size: nat, free: bool)

  function End(h: nat, b: Blk): nat {
    b.at + h + b.size
  }

  // Address order without gaps from lo to hi.
  ghost predicate Tiles(h: nat, l: seq<Blk>, lo: nat, hi: nat) {
    if l == [] then lo == hi
    else l[0].at == lo && Tiles(h, l[1..], End(h, l[0]), hi)
  }

  lemma {:induction false} TilesOrder(h: nat, l: seq<Blk>, lo: nat, hi: nat)
    requires Tiles(h, l, lo, hi)
    ensures lo <= hi
  {
    if l != [] { TilesOrder(h, l[1..], End(h, l[0]), hi); }
  }

  lemma {:induction false} TilesAt(h: nat, l: seq<Blk>, lo: nat, hi: nat, i: nat)
    requires Tiles(h, l, lo, hi) && i < |l|
    ensures lo <= l[i].at && End(h, l[i]) <= hi
    ensures Tiles(h, l[..i], lo, l[i].at) && Tiles(h, l[i + 1..], End(h, l[i]), hi)
  {
    if i == 0 {
      TilesOrder(h, l[1..], End(h, l[0]), hi);
    } else {
      TilesAt(h, l[1..], End(h, l[0]), hi, i - 1);
      assert l[1..][i - 1] == l[i] && l[..i][1..] == l[1..][..i - 1] && l[1..][i..] == l[i + 1..];
    }
  }

  lemma {:induction false} TilesApart(h: nat, l: seq<Blk>, lo: nat, hi: nat, i: nat, j: nat)
    requires Tiles(h, l, lo, hi) && i < j < |l|
    ensures End(h, l[i]) <= l[j].at
  {
    TilesAt(h, l, lo, hi, i);
    TilesAt(h, l[i + 1..], End(h, l[i]), hi, j - i - 1);
    assert l[i + 1..][j - i - 1] == l[j];
  }

  lemma {:induction false} TilesJoin(h: nat, a: seq<Blk>, b: seq<Blk>, lo: nat, mid: nat, hi: nat)
    requires Tiles(h, a, lo, mid) && Tiles(h, b, mid, hi)
    ensures Tiles(h, a + b, lo, hi)
  {
    if a == [] {
      assert a + b == b;
    } else {
      TilesJoin(h, a[1..], b, End(h, a[0]), mid, hi);
      assert (a + b)[1..] == a[1..] + b;
    }
  }

  // Replacing block i by blocks that tile the same bytes.
  lemma Replace(h: nat, l: seq<Blk>, lo: nat, hi: nat, i: nat, new': seq<Blk>)
    requires Tiles(h, l, lo, hi) && i < |l| && Tiles(h, new', l[i].at, End(h, l[i]))
    ensures Tiles(h, l[..i] + new' + l[i + 1..], lo, hi)
  {
    TilesAt(h, l, lo, hi, i);
    TilesJoin(h, l[..i], new', lo, l[i].at, End(h, l[i]));
    TilesJoin(h, l[..i] + new', l[i + 1..], lo, End(h, l[i]), hi);
  }

  // --- coalesce ---

  function Joined(h: nat, a: Blk, b: Blk): Blk {
    Blk(a.at, a.size + h + b.size, true)
  }

  // One pass over the list.
  function Merge(h: nat, l: seq<Blk>): seq<Blk>
    decreases |l|
  {
    if |l| <= 1 then l
    else if l[0].free && l[1].free then Merge(h, [Joined(h, l[0], l[1])] + l[2..])
    else [l[0]] + Merge(h, l[1..])
  }

  ghost predicate NoFreePair(l: seq<Blk>) {
    forall i :: 0 <= i < |l| - 1 ==> !(l[i].free && l[i + 1].free)
  }

  // The blocks in use, in order.
  function Busy(l: seq<Blk>): seq<Blk> {
    if l == [] then [] else (if l[0].free then [] else [l[0]]) + Busy(l[1..])
  }

  // Bytes of the heap, headers included.
  function Bytes(h: nat, l: seq<Blk>): nat {
    if l == [] then 0 else h + l[0].size + Bytes(h, l[1..])
  }

  // A pass leaves no two free neighbours, keeps the tiling and every block in
  // use, and conserves bytes.
  lemma {:induction false} MergeOk(h: nat, l: seq<Blk>, lo: nat, hi: nat)
    requires Tiles(h, l, lo, hi)
    ensures Tiles(h, Merge(h, l), lo, hi) && NoFreePair(Merge(h, l))
    ensures Busy(Merge(h, l)) == Busy(l) && Bytes(h, Merge(h, l)) == Bytes(h, l)
    ensures l != [] ==> Merge(h, l) != [] && Merge(h, l)[0].free == l[0].free
    decreases |l|
  {
    if |l| > 1 {
      if l[0].free && l[1].free {
        var m := [Joined(h, l[0], l[1])] + l[2..];
        assert m[1..] == l[2..] == l[1..][1..];
        MergeOk(h, m, lo, hi);
      } else {
        MergeOk(h, l[1..], End(h, l[0]), hi);
        var r := Merge(h, l[1..]);
        assert ([l[0]] + r)[1..] == r;
        forall i | 0 <= i < |[l[0]] + r| - 1
          ensures !(([l[0]] + r)[i].free && ([l[0]] + r)[i + 1].free)
        {
          if i > 0 { assert !(r[i - 1].free && r[i].free); }
        }
      }
    }
  }

  // The free bytes from the payload of block i to the end of block j.
  ghost predicate FreeRun(l: seq<Blk>, i: nat, j: nat) {
    i <= j < |l| && forall k :: i <= k <= j ==> l[k].free
  }

  function RunSize(h: nat, l: seq<Blk>, i: nat, j: nat): int
    requires i <= j < |l|
  {
    End(h, l[j]) - (l[i].at + h)
  }

  ghost predicate Fits(l: seq<Blk>, n: nat) {
    exists k :: 0 <= k < |l| && l[k].free && l[k].size >= n
  }

  // Block k is free and holds the bytes from a to b.
  ghost predicate Spans(h: nat, l: seq<Blk>, k: nat, a: nat, b: nat) {
    k < |l| && l[k].free && l[k].at <= a && b <= End(h, l[k])
  }

  // Every free run of the list lies in one free block of the merged list.
  lemma {:induction false} RunMerged(h: nat, l: seq<Blk>, i: nat, j: nat) returns (k: nat)
    requires FreeRun(l, i, j) && forall x :: 0 <= x < |l| - 1 ==> l[x + 1].at == End(h, l[x])
    ensures Spans(h, Merge(h, l), k, l[i].at, End(h, l[j]))
    decreases |l|
  {
    if |l| <= 1 {
      k := 0;
    } else if l[0].free && l[1].free {
      var m := [Joined(h, l[0], l[1])] + l[2..];
      Shifted(h, l, m);
      var a, b := (if i == 0 then 0 else i - 1), (if j == 0 then 0 else j - 1);
      k := RunMerged(h, m, a, b);
      assert m[a].at <= l[i].at && End(h, l[j]) <= End(h, m[b]);
    } else {
      var t := l[1..];
      var r := Merge(h, t);
      if i == 0 {
        assert j == 0;
        k := 0;
      } else {
        assert FreeRun(t, i - 1, j - 1);
        k := RunMerged(h, t, i - 1, j - 1);
        assert ([l[0]] + r)[k + 1] == r[k];
        k := k + 1;
      }
    }
  }

  // The list with its first two blocks joined.
  lemma Shifted(h: nat, l: seq<Blk>, m: seq<Blk>)
    requires |l| > 1 && m == [Joined(h, l[0], l[1])] + l[2..]
    requires forall x :: 0 <= x < |l| - 1 ==> l[x + 1].at == End(h, l[x])
    ensures m[0].at == l[0].at && End(h, m[0]) == End(h, l[1]) && m[0].free
    ensures forall x :: 1 <= x < |m| ==> m[x] == l[x + 1]
    ensures forall x :: 0 <= x < |m| - 1 ==> m[x + 1].at == End(h, m[x])
  {
    forall x | 0 <= x < |m| - 1
      ensures m[x + 1].at == End(h, m[x])
    {
      assert l[x + 2].at == End(h, l[x + 1]);
    }
  }

  lemma {:induction false} TilesNext(h: nat, l: seq<Blk>, lo: nat, hi: nat)
    requires Tiles(h, l, lo, hi)
    ensures forall x :: 0 <= x < |l| - 1 ==> l[x + 1].at == End(h, l[x])
  {
    if |l| > 1 {
      TilesNext(h, l[1..], End(h, l[0]), hi);
      forall x | 0 <= x < |l| - 1
        ensures l[x + 1].at == End(h, l[x])
      {
        if x > 0 { assert l[1..][x - 1 + 1].at == End(h, l[1..][x - 1]); }
      }
    }
  }

  lemma {:induction false} BusyConcat(a: seq<Blk>, b: seq<Blk>)
    ensures Busy(a + b) == Busy(a) + Busy(b)
  {
    if a == [] {
      assert a + b == b;
    } else {
      BusyConcat(a[1..], b);
      assert (a + b)[1..] == a[1..] + b;
    }
  }

  // Block i replaced.
  lemma BusyReplace(l: seq<Blk>, i: nat, new': seq<Blk>)
    requires i < |l|
    ensures Busy(l[..i] + new' + l[i + 1..]) == Busy(l[..i]) + Busy(new') + Busy(l[i + 1..])
    ensures Busy(l) == Busy(l[..i]) + (if l[i].free then [] else [l[i]]) + Busy(l[i + 1..])
  {
    BusyConcat(l[..i] + new', l[i + 1..]);
    BusyConcat(l[..i], new');
    BusyConcat(l[..i] + [l[i]], l[i + 1..]);
    BusyConcat(l[..i], [l[i]]);
    assert l == l[..i] + [l[i]] + l[i + 1..];
  }

  lemma {:induction false} InBusy(l: seq<Blk>, b: Blk)
    ensures b in Busy(l) <==> b in l && !b.free
  {
    if l != [] { InBusy(l[1..], b); }
  }
}
