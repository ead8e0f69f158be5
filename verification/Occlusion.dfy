// The occlusion test of vnu/kernel/gui/gui.cpp: the area of a union of
// rectangles by slabs, against the set of its pixels.
module Occlusion {
  const MAX_TASKS: nat := 6

  // The source's int.
  type Coord = x: int | -0x8000_0000 <= x <= 0x7FFF_FFFF

  datatype Rect = Rect(x: Coord, y: Coord, w: Coord, h: Coord)
  datatype Span = Span(y0: Coord, y1: Coord)
  type Pixel = (Coord, Coord)

  ghost predicate Inside(r: Rect, x: int, y: int) {
    r.x <= x < r.x + r.w && r.y <= y < r.y + r.h
  }

  // A rectangle whose far edges are ints too.
  predicate Proper(r: Rect) {
    0 <= r.w && 0 <= r.h && r.x + r.w <= 0x7FFF_FFFF && r.y + r.h <= 0x7FFF_FFFF
  }

  // clip_rect: exactly the pixels in both.
  function ClipRect(a: Rect, b: Rect): (c: Rect)
    requires Proper(a) && Proper(b)
    ensures Proper(c)
    ensures forall x, y :: Inside(c, x, y) <==> Inside(a, x, y) && Inside(b, x, y)
  {
    var x0 := if a.x > b.x then a.x else b.x;
    var y0 := if a.y > b.y then a.y else b.y;
    var x1 := if a.x + a.w < b.x + b.w then a.x + a.w else b.x + b.w;
    var y1 := if a.y + a.h < b.y + b.h then a.y + a.h else b.y + b.h;
    if x1 <= x0 || y1 <= y0 then Rect(0, 0, 0, 0) else Rect(x0, y0, x1 - x0, y1 - y0)
  }

  // --- sets of pixels ---

  ghost function Block(x0: int, x1: int, ys: set<Coord>): set<Pixel> {
    set x: Coord, y: Coord | x0 <= x < x1 && y in ys :: (x, y)
  }

  ghost predicate Between(lo: int, y: int, hi: int) {
    lo <= y < hi
  }

  ghost function Range(lo: int, hi: int): set<Coord> {
    set y: Coord | lo <= y < hi && Between(lo, y, hi)
  }

  ghost function Pixels(r: Rect): set<Pixel> {
    Block(r.x, r.x + r.w, Range(r.y, r.y + r.h))
  }

  ghost function Union(rs: seq<Rect>): set<Pixel> {
    if rs == [] then {} else Union(rs[..|rs| - 1]) + Pixels(rs[|rs| - 1])
  }

  lemma {:induction false} InUnion(rs: seq<Rect>, x: Coord, y: Coord)
    ensures (x, y) in Union(rs) <==> exists i :: 0 <= i < |rs| && Inside(rs[i], x, y)
  {
    if rs != [] {
      var n := |rs| - 1;
      InUnion(rs[..n], x, y);
      if exists i :: 0 <= i < |rs| && Inside(rs[i], x, y) {
        var i :| 0 <= i < |rs| && Inside(rs[i], x, y);
        if i < n { assert Inside(rs[..n][i], x, y); }
      }
    }
  }

  lemma {:induction false} RangeSize(lo: Coord, hi: Coord)
    requires lo <= hi
    ensures |Range(lo, hi)| == hi - lo
    decreases hi - lo
  {
    if lo == hi {
      assert Range(lo, hi) == {};
    } else {
      RangeSize(lo, hi - 1);
      assert Range(lo, hi) == Range(lo, hi - 1) + {hi - 1};
    }
  }

  lemma OneMore(x: Coord, ys: set<Coord>, y: Coord)
    requires y in ys
    ensures |Block(x, x + 1, ys)| == |Block(x, x + 1, ys - {y})| + 1
  {
    var b := Block(x, x + 1, ys - {y});
    assert (x, y) !in b;
    assert Block(x, x + 1, ys) == b + {(x, y)};
  }

  lemma {:induction false} ColumnSize(x: Coord, ys: set<Coord>)
    ensures |Block(x, x + 1, ys)| == |ys|
  {
    if y :| y in ys {
      ColumnSize(x, ys - {y});
      OneMore(x, ys, y);
    } else {
      assert ys == {} && Block(x, x + 1, ys) == {};
    }
  }

  lemma {:induction false} BlockSize(x0: Coord, x1: Coord, ys: set<Coord>)
    requires x0 <= x1
    ensures |Block(x0, x1, ys)| == (x1 - x0) * |ys|
    decreases x1 - x0
  {
    if x0 == x1 {
      assert Block(x0, x1, ys) == {};
    } else {
      BlockSize(x0, x1 - 1, ys);
      ColumnSize(x1 - 1, ys);
      var a, b := Block(x0, x1 - 1, ys), Block(x1 - 1, x1, ys);
      assert Block(x0, x1, ys) == a + b && a !! b;
      Distribute(x1 - x0, |ys|);
    }
  }

  lemma Distribute(a: int, b: int)
    ensures a * b == (a - 1) * b + b
  {}

  // --- sorting the local arrays ---

  // Element i moved down to j, the ones between up by one.
  ghost function Moved<T>(s: seq<T>, i: nat, j: nat): (t: seq<T>)
    requires j <= i < |s|
    ensures |t| == |s|
  {
    s[..j] + [s[i]] + s[j..i] + s[i + 1..]
  }

  lemma MovedSame<T>(s: seq<T>, i: nat, j: nat, n: nat)
    requires j <= i < n <= |s|
    ensures multiset(Moved(s, i, j)[..n]) == multiset(s[..n])
  {
    var x, y, z := s[..j], s[j..i], s[i + 1..n];
    assert Moved(s, i, j)[..n] == x + [s[i]] + y + z;
    assert s[..n] == x + y + [s[i]] + z;
  }

  lemma MovedIs<T>(s: seq<T>, t: seq<T>, i: nat, j: nat)
    requires j <= i < |s| && |t| == |s| && t[j] == s[i]
    requires forall k :: 0 <= k < j ==> t[k] == s[k]
    requires forall k :: j < k <= i ==> t[k] == s[k - 1]
    requires forall k :: i < k < |s| ==> t[k] == s[k]
    ensures t == Moved(s, i, j)
  {}

  ghost predicate Ascending(s: seq<int>, n: nat) {
    n <= |s| && forall i, j :: 0 <= i < j < n ==> s[i] <= s[j]
  }

  lemma MovedAscending(s: seq<int>, i: nat, j: nat)
    requires i < |s| && Ascending(s, i) && j <= i && (j > 0 ==> s[j - 1] <= s[i])
    requires forall k :: j <= k < i ==> s[k] > s[i]
    ensures Ascending(Moved(s, i, j), i + 1)
  {
    var t := Moved(s, i, j);
    assert forall k :: 0 <= k <= i ==> t[k] == if k < j then s[k] else if k == j then s[i] else s[k - 1];
    forall a, b | 0 <= a < b <= i
      ensures t[a] <= t[b]
    {
      if a < j { assert s[a] <= s[j - 1]; }
    }
  }

  // The inner loop of the sort: xs[i] moves down to where it belongs.
  method InsertEdge(xs: array<int>, i: nat) returns (ghost at: nat)
    requires i < xs.Length
    modifies xs
    ensures at <= i && xs[..] == Moved(old(xs[..]), i, at)
    ensures (at > 0 ==> old(xs[..])[at - 1] <= old(xs[i])) && forall k :: at <= k < i ==> old(xs[..])[k] > old(xs[i])
  {
    var key := xs[i];
    var j := i;
    ghost var s := xs[..];
    while j > 0 && xs[j - 1] > key
      invariant 0 <= j <= i
      invariant forall k :: 0 <= k < j ==> xs[k] == s[k]
      invariant forall k :: j < k <= i ==> xs[k] == s[k - 1]
      invariant forall k :: i < k < xs.Length ==> xs[k] == s[k]
      invariant forall k :: j <= k < i ==> s[k] > key
    {
      xs[j] := xs[j - 1];
      j := j - 1;
    }
    xs[j] := key;
    MovedIs(s, xs[..], i, j);
    at := j;
  }

  method SortEdges(xs: array<int>, n: nat)
    requires n <= xs.Length
    modifies xs
    ensures Ascending(xs[..], n) && multiset(xs[..][..n]) == multiset(old(xs[..])[..n])
  {
    hide Moved;
    var i := 1;
    while i < n
      invariant 1 <= i && Ascending(xs[..], if i <= n then i else n)
      invariant multiset(xs[..][..n]) == multiset(old(xs[..])[..n])
    {
      ghost var s := xs[..];
      var at := InsertEdge(xs, i);
      MovedAscending(s, i, at);
      MovedSame(s, i, at, n);
      i := i + 1;
    }
  }

  ghost predicate ByStart(s: seq<Span>, n: nat) {
    n <= |s| && forall i, j :: 0 <= i < j < n ==> s[i].y0 <= s[j].y0
  }

  lemma MovedByStart(s: seq<Span>, i: nat, j: nat)
    requires i < |s| && ByStart(s, i) && j <= i && (j > 0 ==> s[j - 1].y0 <= s[i].y0)
    requires forall k :: j <= k < i ==> s[k].y0 > s[i].y0
    ensures ByStart(Moved(s, i, j), i + 1)
  {
    var t := Moved(s, i, j);
    assert forall k :: 0 <= k <= i ==> t[k] == if k < j then s[k] else if k == j then s[i] else s[k - 1];
    forall a, b | 0 <= a < b <= i
      ensures t[a].y0 <= t[b].y0
    {
      if a < j { assert s[a].y0 <= s[j - 1].y0; }
    }
  }

  method InsertSpan(iv: array<Span>, i: nat) returns (ghost at: nat)
    requires i < iv.Length
    modifies iv
    ensures at <= i && iv[..] == Moved(old(iv[..]), i, at)
    ensures (at > 0 ==> old(iv[..])[at - 1].y0 <= old(iv[i]).y0)
    ensures forall k :: at <= k < i ==> old(iv[..])[k].y0 > old(iv[i]).y0
  {
    var key := iv[i];
    var j := i;
    ghost var s := iv[..];
    while j > 0 && iv[j - 1].y0 > key.y0
      invariant 0 <= j <= i
      invariant forall k :: 0 <= k < j ==> iv[k] == s[k]
      invariant forall k :: j < k <= i ==> iv[k] == s[k - 1]
      invariant forall k :: i < k < iv.Length ==> iv[k] == s[k]
      invariant forall k :: j <= k < i ==> s[k].y0 > key.y0
    {
      iv[j] := iv[j - 1];
      j := j - 1;
    }
    iv[j] := key;
    MovedIs(s, iv[..], i, j);
    at := j;
  }

  method SortSpans(iv: array<Span>, n: nat)
    requires n <= iv.Length
    modifies iv
    ensures ByStart(iv[..], n) && multiset(iv[..][..n]) == multiset(old(iv[..])[..n])
  {
    hide Moved;
    var i := 1;
    while i < n
      invariant 1 <= i && ByStart(iv[..], if i <= n then i else n)
      invariant multiset(iv[..][..n]) == multiset(old(iv[..])[..n])
    {
      ghost var s := iv[..];
      var at := InsertSpan(iv, i);
      MovedByStart(s, i, at);
      MovedSame(s, i, at, n);
      i := i + 1;
    }
  }

  // --- one slab ---

  ghost function Ys(iv: seq<Span>): set<Coord> {
    if iv == [] then {} else Ys(iv[..|iv| - 1]) + Range(iv[|iv| - 1].y0, iv[|iv| - 1].y1)
  }

  lemma {:induction false} InYs(iv: seq<Span>, y: Coord)
    ensures y in Ys(iv) <==> exists i :: 0 <= i < |iv| && iv[i].y0 <= y < iv[i].y1
  {
    if iv != [] {
      var n := |iv| - 1;
      InYs(iv[..n], y);
      if exists i :: 0 <= i < |iv| && iv[i].y0 <= y < iv[i].y1 {
        var i :| 0 <= i < |iv| && iv[i].y0 <= y < iv[i].y1;
        if i < n { assert iv[..n][i] == iv[i]; }
      }
    }
  }

  // Only which spans there are matters.
  lemma SameYs(a: seq<Span>, b: seq<Span>)
    requires multiset(a) == multiset(b)
    ensures Ys(a) == Ys(b)
  {
    forall y: Coord
      ensures y in Ys(a) <==> y in Ys(b)
    {
      InYs(a, y);
      InYs(b, y);
      if y in Ys(a) { SameMember(a, b, y); }
      if y in Ys(b) { SameMember(b, a, y); }
    }
  }

  lemma SameMember(a: seq<Span>, b: seq<Span>, y: int)
    requires multiset(a) == multiset(b) && exists i :: 0 <= i < |a| && a[i].y0 <= y < a[i].y1
    ensures exists i :: 0 <= i < |b| && b[i].y0 <= y < b[i].y1
  {
    var i :| 0 <= i < |a| && a[i].y0 <= y < a[i].y1;
    assert a[i] in multiset(b);
  }

  // The spans up to here: `done` below lo, and one open run from lo to hi.
  ghost predicate Runs(ys: set<Coord>, done: set<Coord>, lo: Coord, hi: Coord) {
    lo <= hi && ys == done + Range(lo, hi) && forall y :: y in done ==> y < lo
  }

  lemma Closed(ys: set<Coord>, done: set<Coord>, lo: Coord, hi: Coord, y0: Coord, y1: Coord)
    requires Runs(ys, done, lo, hi) && hi < y0 <= y1
    ensures Runs(ys + Range(y0, y1), ys, y0, y1) && |ys| == |done| + (hi - lo)
  {
    RunSize(ys, done, lo, hi);
  }

  lemma RunSize(ys: set<Coord>, done: set<Coord>, lo: Coord, hi: Coord)
    requires Runs(ys, done, lo, hi)
    ensures |ys| == |done| + (hi - lo)
  {
    RangeSize(lo, hi);
    assert done !! Range(lo, hi);
  }

  lemma Joined(ys: set<Coord>, done: set<Coord>, lo: Coord, hi: Coord, y0: Coord, y1: Coord)
    requires Runs(ys, done, lo, hi) && lo <= y0 <= hi && y0 <= y1
    ensures Runs(ys + Range(y0, y1), done, lo, if y1 > hi then y1 else hi)
  {
    assert Range(lo, hi) + Range(y0, y1) == Range(lo, if y1 > hi then y1 else hi);
  }

  lemma YsSnoc(s: seq<Span>, i: nat)
    requires i < |s|
    ensures Ys(s[..i + 1]) == Ys(s[..i]) + Range(s[i].y0, s[i].y1) && Ys(s[..0]) == {}
  {
    assert s[..i + 1][..i] == s[..i];
  }

  lemma OneRun(y0: Coord, y1: Coord)
    requires y0 <= y1
    ensures Runs({} + Range(y0, y1), {}, y0, y1)
  {}

  // The merge loop: the spans in order, joined where they touch.
  method MergeSpans(iv: array<Span>, n: nat) returns (span: int)
    requires n <= iv.Length && ByStart(iv[..], n) && forall i :: 0 <= i < n ==> iv[i].y0 <= iv[i].y1
    ensures span == |Ys(iv[..][..n])|
  {
    hide Ys, Range, Runs;
    var lo: Coord, hi: Coord := 0, 0;
    span := 0;
    var first := true;
    ghost var done: set<Coord>, k := {}, 0;
    ghost var s := iv[..];
    for i := 0 to n
      invariant first == (i == 0) && span == |done| && (first ==> done == {})
      invariant !first ==> Runs(Ys(s[..i]), done, lo, hi) && 0 <= k < i && s[k].y0 == lo
    {
      YsSnoc(s, i);
      if first {
        lo, hi, first := iv[i].y0, iv[i].y1, false;
        OneRun(lo, hi);
        k := i;
      } else if iv[i].y0 > hi {
        Closed(Ys(s[..i]), done, lo, hi, s[i].y0, s[i].y1);
        span := span + (hi - lo);
        done := Ys(s[..i]);
        lo, hi := iv[i].y0, iv[i].y1;
        k := i;
      } else {
        assert s[k].y0 <= s[i].y0;
        Joined(Ys(s[..i]), done, lo, hi, s[i].y0, s[i].y1);
        if iv[i].y1 > hi {
          hi := iv[i].y1;
        }
      }
    }
    if !first {
      RunSize(Ys(s[..n]), done, lo, hi);
      span := span + (hi - lo);
    } else {
      NoSpans(s);
    }
  }

  lemma NoSpans(s: seq<Span>)
    ensures Ys(s[..0]) == {}
  {}

  // The spans of the rectangles that reach across the slab [a, b).
  ghost predicate Across(r: Rect, a: int, b: int) {
    r.x <= a && b <= r.x + r.w
  }

  ghost function Active(rs: seq<Rect>, a: int, b: int): seq<Span>
    requires forall i :: 0 <= i < |rs| ==> Proper(rs[i])
  {
    if rs == [] then []
    else
      var r, front := rs[|rs| - 1], Active(rs[..|rs| - 1], a, b);
      assert Proper(r);
      if Across(r, a, b) then front + [Span(r.y, r.y + r.h)] else front
  }

  lemma {:induction false} InActive(rs: seq<Rect>, a: int, b: int, y: Coord)
    requires forall i :: 0 <= i < |rs| ==> Proper(rs[i])
    ensures y in Ys(Active(rs, a, b)) <==>
              (exists i :: 0 <= i < |rs| && Across(rs[i], a, b) && rs[i].y <= y < rs[i].y + rs[i].h)
    ensures |Active(rs, a, b)| <= |rs|
    ensures forall k :: 0 <= k < |Active(rs, a, b)| ==> Active(rs, a, b)[k].y0 <= Active(rs, a, b)[k].y1
  {
    if rs != [] {
      var n := |rs| - 1;
      var front := rs[..n];
      InActive(front, a, b, y);
      assert forall i :: 0 <= i < n ==> front[i] == rs[i];
      if Across(rs[n], a, b) {
        var f := Active(front, a, b);
        assert (f + [Span(rs[n].y, rs[n].y + rs[n].h)])[..|f|] == f;
      }
    }
  }

  // The y extent of one slab: collect, sort, merge.
  method SlabSpan(rs: seq<Rect>, a: int, b: int) returns (span: int)
    requires |rs| <= MAX_TASKS && forall i :: 0 <= i < |rs| ==> Proper(rs[i])
    ensures span == |Ys(Active(rs, a, b))|
  {
    hide Ys;
    var iv := new Span[2 * MAX_TASKS];
    var n := 0;
    for i := 0 to |rs|
      invariant n <= i && iv[..n] == Active(rs[..i], a, b)
    {
      assert rs[..i + 1][..i] == rs[..i];
      if rs[i].x <= a && b <= rs[i].x + rs[i].w {
        iv[n] := Span(rs[i].y, rs[i].y + rs[i].h);
        n := n + 1;
      }
    }
    assert rs[..|rs|] == rs;
    ghost var s := iv[..][..n];
    assert s == Active(rs, a, b);
    InActive(rs, a, b, 0);
    SortSpans(iv, n);
    SameOrder(s, iv[..][..n]);
    SameYs(s, iv[..][..n]);
    assert forall k :: 0 <= k < n ==> iv[..][..n][k] == iv[k];
    span := MergeSpans(iv, n);
  }

  lemma SameOrder(a: seq<Span>, b: seq<Span>)
    requires multiset(a) == multiset(b) && forall k :: 0 <= k < |a| ==> a[k].y0 <= a[k].y1
    ensures forall k :: 0 <= k < |b| ==> b[k].y0 <= b[k].y1
  {
    forall k | 0 <= k < |b|
      ensures b[k].y0 <= b[k].y1
    {
      assert b[k] in multiset(a);
    }
  }

  // --- the edges ---

  ghost predicate IsEdge(rs: seq<Rect>, v: int) {
    exists i :: 0 <= i < |rs| && (v == rs[i].x || v == rs[i].x + rs[i].w)
  }

  ghost predicate Strict(s: seq<int>) {
    forall i, j :: 0 <= i < j < |s| ==> s[i] < s[j]
  }

  // The x coordinates at which something begins or ends, in order.
  ghost predicate Cuts(s: seq<int>, rs: seq<Rect>) {
    Strict(s) && forall v :: v in s <==> IsEdge(rs, v)
  }

  // Without repeats of the element before.
  ghost function Distinct(s: seq<int>): seq<int> {
    if s == [] then []
    else
      var n, front := |s| - 1, Distinct(s[..|s| - 1]);
      if n > 0 && s[n] == s[n - 1] then front else front + [s[n]]
  }

  lemma {:induction false} DistinctOk(s: seq<int>)
    requires Ascending(s, |s|)
    ensures |Distinct(s)| <= |s| && Strict(Distinct(s)) && forall v :: v in Distinct(s) <==> v in s
    ensures s != [] ==> Distinct(s) != [] && Distinct(s)[|Distinct(s)| - 1] == s[|s| - 1]
  {
    if s != [] {
      var n := |s| - 1;
      var front := s[..n];
      DistinctOk(front);
      hide Strict;
      assert s == front + [s[n]];
      var f := Distinct(front);
      if n > 0 && s[n] == s[n - 1] {
        assert s[n] in front;
      } else {
        StrictSnoc(f, s[n]);
      }
    }
  }

  lemma StrictSnoc(f: seq<int>, v: int)
    requires Strict(f) && (f != [] ==> f[|f| - 1] < v)
    ensures Strict(f + [v])
  {}

  lemma DistinctSnoc(s: seq<int>, i: nat)
    ensures Distinct(s[..0]) == []
    ensures i < |s| ==>
      Distinct(s[..i + 1]) == if i > 0 && s[i] == s[i - 1] then Distinct(s[..i]) else Distinct(s[..i]) + [s[i]]
  {
    if i < |s| {
      assert s[..i + 1][..i] == s[..i];
    }
  }

  // Dropping repeats in place.
  method Dedupe(xs: array<int>, n: nat) returns (m: nat)
    requires n <= xs.Length && Ascending(xs[..], n)
    modifies xs
    ensures m <= n && Strict(xs[..m]) && forall v :: v in xs[..m] <==> v in old(xs[..])[..n]
  {
    hide Strict, Distinct;
    ghost var s := xs[..];
    m := 0;
    DistinctSnoc(s, 0);
    for i := 0 to n
      invariant m <= i && xs[..m] == Distinct(s[..i])
      invariant forall k :: i <= k < xs.Length ==> xs[k] == s[k]
    {
      DistinctOk(s[..i]);
      DistinctSnoc(s, i);
      if i == 0 || xs[i] != xs[m - 1] {
        ghost var before := xs[..m];
        xs[m] := xs[i];
        m := m + 1;
        assert xs[..m] == before + [s[i]];
      }
    }
    DistinctOk(s[..n]);
  }

  method Edges(rs: seq<Rect>) returns (xs: array<int>, m: nat)
    requires |rs| <= MAX_TASKS
    ensures fresh(xs) && m <= xs.Length && Cuts(xs[..m], rs)
  {
    xs := new int[2 * MAX_TASKS];
    for i := 0 to |rs|
      invariant forall v :: v in xs[..2 * i] <==> IsEdge(rs[..i], v)
    {
      ghost var before := xs[..2 * i];
      xs[2 * i] := rs[i].x;
      xs[2 * i + 1] := rs[i].x + rs[i].w;
      assert xs[..2 * i + 2] == before + [rs[i].x, rs[i].x + rs[i].w];
      EdgeSnoc(rs, i);
    }
    var n := 2 * |rs|;
    ghost var s := xs[..n];
    assert rs[..|rs|] == rs;
    assert xs[..][..n] == s;
    SortEdges(xs, n);
    SameValues(s, xs[..][..n]);
    m := Dedupe(xs, n);
  }

  lemma EdgeSnoc(rs: seq<Rect>, i: nat)
    requires i < |rs|
    ensures forall v :: IsEdge(rs[..i + 1], v) <==> IsEdge(rs[..i], v) || v == rs[i].x || v == rs[i].x + rs[i].w
  {
    var a, b := rs[..i], rs[..i + 1];
    assert b == a + [rs[i]];
    forall v
      ensures IsEdge(b, v) <==> IsEdge(a, v) || v == rs[i].x || v == rs[i].x + rs[i].w
    {
      if IsEdge(a, v) {
        var k :| 0 <= k < |a| && (v == a[k].x || v == a[k].x + a[k].w);
        assert b[k] == a[k];
      }
      if v == rs[i].x || v == rs[i].x + rs[i].w { assert b[i] == rs[i]; }
    }
  }

  lemma SameValues(a: seq<int>, b: seq<int>)
    requires multiset(a) == multiset(b)
    ensures forall v :: v in a <==> v in b
  {
    forall v
      ensures v in a <==> v in b
    {
      assert v in a <==> v in multiset(a);
    }
  }

  // --- the sweep ---

  ghost function Part(s: set<Pixel>, a: int, b: int): set<Pixel> {
    set p | p in s && a <= p.0 < b
  }

  // Inside a slab every column is the same.
  lemma SlabPixels(rs: seq<Rect>, s: seq<int>, k: nat)
    requires Cuts(s, rs) && k + 1 < |s| && forall i :: 0 <= i < |rs| ==> Proper(rs[i])
    ensures Part(Union(rs), s[k], s[k + 1]) == Block(s[k], s[k + 1], Ys(Active(rs, s[k], s[k + 1])))
  {
    hide Ys, Union, Active;
    var a, b := s[k], s[k + 1];
    forall x: Coord, y: Coord
      ensures (x, y) in Part(Union(rs), a, b) <==> (x, y) in Block(a, b, Ys(Active(rs, a, b)))
    {
      InUnion(rs, x, y);
      InActive(rs, a, b, y);
      if a <= x < b {
        forall i | 0 <= i < |rs|
          ensures Across(rs[i], a, b) <==> rs[i].x <= x < rs[i].x + rs[i].w
        {
          NoCutInside(rs, s, k, i, x);
        }
      }
    }
  }

  lemma NoCutInside(rs: seq<Rect>, s: seq<int>, k: nat, i: nat, x: int)
    requires Cuts(s, rs) && k + 1 < |s| && i < |rs| && s[k] <= x < s[k + 1]
    ensures Across(rs[i], s[k], s[k + 1]) <==> rs[i].x <= x < rs[i].x + rs[i].w
  {
    var l, r := rs[i].x, rs[i].x + rs[i].w;
    assert IsEdge(rs, l) && IsEdge(rs, r);
    var p :| 0 <= p < |s| && s[p] == l;
    var q :| 0 <= q < |s| && s[q] == r;
  }

  lemma AllInside(rs: seq<Rect>, s: seq<int>)
    requires Cuts(s, rs)
    ensures s == [] ==> Union(rs) == {}
    ensures s != [] ==> Part(Union(rs), s[0], s[|s| - 1]) == Union(rs) && Part(Union(rs), s[0], s[0]) == {}
  {
    if rs == [] { return; }
    assert IsEdge(rs, rs[0].x);
    hide Union;
    forall x: Coord, y: Coord
      ensures (x, y) in Union(rs) ==> s != [] && s[0] <= x < s[|s| - 1]
    {
      InUnion(rs, x, y);
      if (x, y) in Union(rs) {
        var i :| 0 <= i < |rs| && Inside(rs[i], x, y);
        assert IsEdge(rs, rs[i].x) && IsEdge(rs, rs[i].x + rs[i].w);
      }
    }
  }

  lemma PartSum(s: set<Pixel>, a: int, b: int, c: int)
    requires a <= b <= c
    ensures |Part(s, a, c)| == |Part(s, a, b)| + |Part(s, b, c)|
  {
    assert Part(s, a, c) == Part(s, a, b) + Part(s, b, c);
    assert Part(s, a, b) !! Part(s, b, c);
  }

  lemma CutRange(rs: seq<Rect>, s: seq<int>, k: nat)
    requires Cuts(s, rs) && k < |s| && forall i :: 0 <= i < |rs| ==> Proper(rs[i])
    ensures -0x8000_0000 <= s[k] <= 0x7FFF_FFFF && s[0] <= s[k]
  {
    assert IsEdge(rs, s[k]);
  }

  // union_area is the number of pixels in the union.
  method UnionArea(rs: seq<Rect>) returns (area: int)
    requires |rs| <= MAX_TASKS && forall i :: 0 <= i < |rs| ==> Proper(rs[i])
    ensures area == |Union(rs)|
  {
    hide Union, Cuts, Active, Ys, Part, Block;
    var xs, m := Edges(rs);
    ghost var s := xs[..m];
    AllInside(rs, s);
    area := 0;
    var k := 0;
    while k + 1 < m
      invariant k <= m && (m > 0 ==> k < m && area == |Part(Union(rs), s[0], s[k])|) && (m == 0 ==> area == 0)
      invariant xs[..m] == s
    {
      CutRange(rs, s, k);
      CutRange(rs, s, k + 1);
      StrictAt(rs, s, k);
      SlabPixels(rs, s, k);
      var span := SlabSpan(rs, xs[k], xs[k + 1]);
      BlockSize(s[k], s[k + 1], Ys(Active(rs, s[k], s[k + 1])));
      PartSum(Union(rs), s[0], s[k], s[k + 1]);
      area := area + (xs[k + 1] - xs[k]) * span;
      k := k + 1;
    }
  }

  lemma StrictAt(rs: seq<Rect>, s: seq<int>, k: nat)
    requires Cuts(s, rs) && k + 1 < |s|
    ensures s[k] < s[k + 1]
  {}

  // --- fully_covered ---

  // Window h hides what lies under it.
  predicate Hides(minimized: seq<bool>, solid: seq<bool>, h: nat) {
    h < |minimized| && h < |solid| && !minimized[h] && solid[h]
  }

  ghost predicate CoveredAt(order: seq<nat>, geom: seq<Rect>, minimized: seq<bool>, solid: seq<bool>, i: nat,
                            x: int, y: int) {
    exists j ::
      i < j < |order| && order[j] < |geom| && Hides(minimized, solid, order[j]) && Inside(geom[order[j]], x, y)
  }

  ghost predicate SomeInside(rs: seq<Rect>, x: int, y: int) {
    exists k :: 0 <= k < |rs| && Inside(rs[k], x, y)
  }

  lemma SubsetSizes(a: set<Pixel>, b: set<Pixel>)
    requires a <= b
    ensures |a| <= |b| && (|a| == |b| ==> a == b)
  {
    assert b == a + (b - a);
    assert |b| == |a| + |b - a|;
  }

  // Enough area inside the window is all of the window.
  lemma AreaTest(win: Rect, covers: seq<Rect>)
    requires Proper(win) && forall x: Coord, y: Coord :: SomeInside(covers, x, y) ==> Inside(win, x, y)
    ensures |Union(covers)| >= win.w * win.h <==>
              forall x: Coord, y: Coord :: Inside(win, x, y) ==> SomeInside(covers, x, y)
  {
    hide Union, Pixels, SomeInside, Inside;
    var u, w := Union(covers), Pixels(win);
    WindowPixels(win);
    forall p: Pixel | p in u
      ensures p in w
    {
      UnionIs(covers, p.0, p.1);
    }
    SubsetSizes(u, w);
    if |u| >= win.w * win.h {
      forall x: Coord, y: Coord | Inside(win, x, y)
        ensures SomeInside(covers, x, y)
      {
        UnionIs(covers, x, y);
      }
    } else if forall x: Coord, y: Coord :: Inside(win, x, y) ==> SomeInside(covers, x, y) {
      forall p: Pixel | p in w
        ensures p in u
      {
        UnionIs(covers, p.0, p.1);
      }
      SubsetSizes(w, u);
    }
  }

  lemma UnionIs(rs: seq<Rect>, x: Coord, y: Coord)
    ensures (x, y) in Union(rs) <==> SomeInside(rs, x, y)
  {
    InUnion(rs, x, y);
  }

  lemma WindowPixels(win: Rect)
    requires Proper(win)
    ensures |Pixels(win)| == win.w * win.h
    ensures forall x: Coord, y: Coord :: (x, y) in Pixels(win) <==> Inside(win, x, y)
  {
    RangeSize(win.y, win.y + win.h);
    BlockSize(win.x, win.x + win.w, Range(win.y, win.y + win.h));
  }

  lemma CoverSnoc(covers: seq<Rect>, c: Rect, x: int, y: int)
    ensures SomeInside(covers + [c], x, y) <==> SomeInside(covers, x, y) || Inside(c, x, y)
  {
    var d := covers + [c];
    assert d[|covers|] == c;
    if SomeInside(covers, x, y) {
      var k :| 0 <= k < |covers| && Inside(covers[k], x, y);
      assert d[k] == covers[k];
    }
  }

  lemma CoveredSnoc(order: seq<nat>, j: nat, geom: seq<Rect>, minimized: seq<bool>, solid: seq<bool>, i: nat,
                    x: int, y: int)
    requires i < j < |order|
    ensures CoveredAt(order[..j + 1], geom, minimized, solid, i, x, y) <==>
      (CoveredAt(order[..j], geom, minimized, solid, i, x, y) ||
       (order[j] < |geom| && Hides(minimized, solid, order[j]) && Inside(geom[order[j]], x, y)))
  {
    var a, b := order[..j], order[..j + 1];
    assert forall k :: 0 <= k < j ==> a[k] == b[k] == order[k];
    assert b[j] == order[j];
  }

  // The covers found up to z-position j are the part of the window hidden
  // by the windows between i and j.
  ghost predicate Gathered(covers: seq<Rect>, win: Rect, order: seq<nat>, geom: seq<Rect>, minimized: seq<bool>,
                           solid: seq<bool>, i: nat) {
    forall x: Coord, y: Coord :: SomeInside(covers, x, y) <==>
      (Inside(win, x, y) && CoveredAt(order, geom, minimized, solid, i, x, y))
  }

  // The loop over the windows above.
  method Gather(i: nat, win: Rect, geom: seq<Rect>, order: seq<nat>, minimized: seq<bool>, solid: seq<bool>)
    returns (covers: seq<Rect>)
    requires Proper(win) && |order| <= MAX_TASKS && |minimized| == |geom| == |solid|
    requires forall j :: 0 <= j < |order| ==> order[j] < |geom|
    requires forall h :: 0 <= h < |geom| ==> Proper(geom[h])
    ensures |covers| <= |order| && (forall k :: 0 <= k < |covers| ==> Proper(covers[k]))
    ensures Gathered(covers, win, order, geom, minimized, solid, i)
  {
    covers := [];
    if i + 1 >= |order| {
      return;
    }
    var j := i + 1;
    while j < |order|
      invariant i < j <= |order| && |covers| <= j
      invariant forall k :: 0 <= k < |covers| ==> Proper(covers[k])
      invariant Gathered(covers, win, order[..j], geom, minimized, solid, i)
    {
      var h := order[j];
      ghost var was := covers;
      if Hides(minimized, solid, h) {
        var c := ClipRect(win, geom[h]);
        if c.w > 0 && c.h > 0 {
          covers := covers + [c];
        }
      }
      forall x: Coord, y: Coord
        ensures SomeInside(covers, x, y) <==>
                  (Inside(win, x, y) && CoveredAt(order[..j + 1], geom, minimized, solid, i, x, y))
      {
        hide SomeInside, CoveredAt;
        CoveredSnoc(order, j, geom, minimized, solid, i, x, y);
        if covers != was { CoverSnoc(was, ClipRect(win, geom[h]), x, y); }
      }
      j := j + 1;
    }
    assert order[..|order|] == order;
  }

  // A window is dropped exactly when it has pixels and each of them lies
  // under a window above that is neither minimized nor see-through.
  method FullyCovered(i: nat, win: Rect, geom: seq<Rect>, order: seq<nat>, minimized: seq<bool>, solid: seq<bool>)
    returns (covered: bool)
    requires Proper(win) && |order| <= MAX_TASKS && |minimized| == |geom| == |solid|
    requires forall j :: 0 <= j < |order| ==> order[j] < |geom|
    requires forall h :: 0 <= h < |geom| ==> Proper(geom[h])
    ensures covered <==> win.w * win.h != 0 && AllHidden(win, order, geom, minimized, solid, i)
  {
    hide Union, SomeInside, CoveredAt;
    var total := win.w * win.h;
    if total == 0 {
      return false;
    }
    var covers := Gather(i, win, geom, order, minimized, solid);
    AreaTest(win, covers);
    if |covers| == 0 {
      NothingCovered(win, covers);
      return false;
    }
    var area := UnionArea(covers);
    covered := area >= total;
  }

  lemma NothingCovered(win: Rect, covers: seq<Rect>)
    requires Proper(win) && win.w * win.h != 0 && covers == []
    ensures Inside(win, win.x, win.y) && !SomeInside(covers, win.x, win.y)
  {}

  ghost predicate AllHidden(win: Rect, order: seq<nat>, geom: seq<Rect>, minimized: seq<bool>, solid: seq<bool>,
                            i: nat) {
    forall x: Coord, y: Coord :: Inside(win, x, y) ==> CoveredAt(order, geom, minimized, solid, i, x, y)
  }
}
