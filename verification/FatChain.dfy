// Cluster chains of vnu/kernel/fs/fat16.cpp: following, freeing, allocating
// and growing them, on a device that does not fail.
module FatChain {
  import opened FatDisk
  import opened FatExtent

  // A complete chain in a table: in range, no cluster twice, linked, ended.
  ghost predicate IsChain(g: Geo, fat: Fat, ch: Chain) {
    && |fat| == g.maxCluster + 1
    && ch != [] && InRange(g, ch) && NoDup(ch)
    && (forall i :: 0 <= i < |ch| - 1 ==> fat[ch[i]] == ch[i + 1])
    && fat[ch[|ch| - 1]] == FAT_EOC
  }

  // fat_next: the link, or 0 at the end of a chain.
  function NextOf(v: int): int {
    if v == 0 || v == FAT_BAD || v >= 0xFFF8 then 0 else v
  }

  lemma ChainNext(g: Geo, fat: Fat, ch: Chain, i: nat)
    requires GoodGeo(g) && IsChain(g, fat, ch) && i < |ch|
    ensures ch[i] < |fat| && NextOf(fat[ch[i]]) == if i + 1 < |ch| then ch[i + 1] else 0
  {
    if i + 1 < |ch| { assert fat[ch[i]] == ch[i + 1]; }
  }

  // Pigeonhole: a chain is no longer than the volume.
  lemma ChainFits(g: Geo, ch: Chain)
    requires InRange(g, ch) && NoDup(ch)
    ensures |ch| <= g.maxCluster
  {
    var s := set c | c in ch;
    SetSize(ch, s);
    RangeSize(s, g.maxCluster);
  }

  lemma {:induction false} SetSize(ch: seq<nat>, s: set<nat>)
    requires NoDup(ch) && s == set c | c in ch
    ensures |s| == |ch|
  {
    if ch == [] {
      assert s == {};
    } else {
      var n := |ch| - 1;
      var t := set c | c in ch[..n];
      SetSize(ch[..n], t);
      assert ch[n] !in t;
      assert s == t + {ch[n]};
    }
  }

  lemma {:induction false} RangeSize(s: set<nat>, n: nat)
    requires forall c :: c in s ==> 0 < c <= n
    ensures |s| <= n
  {
    if n == 0 {
      assert s == {};
    } else {
      RangeSize(s - {n}, n - 1);
      if n in s { assert |s| == |s - {n}| + 1; } else { assert s - {n} == s; }
    }
  }

  // --- growth ---

  // Sectors that may change when the clusters of `taken` are taken.
  ghost predicate Kept(g: Geo, disk: Disk, disk': Disk, taken: Chain)
    requires g.spc > 0
  {
    && |disk| == |disk'|
    && forall k ::
      0 <= k < |disk| && !(g.firstFat <= k < g.firstRoot) && (k < g.firstData || ClusterOf(g, k) !in taken) ==>
         disk'[k] == disk[k]
  }

  ghost predicate ZeroedAll(g: Geo, disk: Disk, taken: Chain)
    requires OnDisk(disk, g) && InRange(g, taken)
  {
    forall i :: 0 <= i < |taken| ==> Zeroed(g, disk, taken[i])
  }

  ghost predicate Zeroed(g: Geo, disk: Disk, c: nat)
    requires OnDisk(disk, g) && 2 <= c <= g.maxCluster
  {
    ClusterInside(g, c);
    forall k :: ClusterSector(g, c) <= k < ClusterSector(g, c) + g.spc ==> disk[k] == Zeros(512)
  }

  // ch grew to ch' by taking free clusters, and nothing else changed.
  ghost predicate Grew(g: Geo, disk: Disk, disk': Disk, ch: Chain, ch': Chain) {
    && OnDisk(disk, g) && OnDisk(disk', g) && Mirrored(disk, g) && Mirrored(disk', g)
    && InRange(g, ch') && NoDup(ch') && ch <= ch'
    && (ch != [] ==> IsChain(g, FatOf(disk, g), ch))
    && (ch' != [] ==> IsChain(g, FatOf(disk', g), ch'))
    && (forall i :: |ch| <= i < |ch'| ==> FatOf(disk, g)[ch'[i]] == FAT_FREE)
    && (forall c :: 0 <= c <= g.maxCluster && c !in ch' ==> FatOf(disk', g)[c] == FatOf(disk, g)[c])
    && Kept(g, disk, disk', ch'[|ch|..])
    && ZeroedAll(g, disk', ch'[|ch|..])
  }

  lemma GrewNothing(g: Geo, disk: Disk, ch: Chain)
    requires OnDisk(disk, g) && Mirrored(disk, g) && (ch != [] ==> IsChain(g, FatOf(disk, g), ch))
    ensures Grew(g, disk, disk, ch, ch)
  {
    assert ch[|ch|..] == [];
  }

  lemma FreeNotInChain(g: Geo, fat: Fat, ch: Chain, c: nat)
    requires IsChain(g, fat, ch) && c <= g.maxCluster && fat[c] == FAT_FREE
    ensures c !in ch
  {
    forall i | 0 <= i < |ch|
      ensures ch[i] != c
    {
      if i < |ch| - 1 { assert fat[ch[i]] == ch[i + 1]; }
    }
  }

  // The table after one allocation behind the last cluster of ch.
  lemma LinkedOne(g: Geo, fat: Fat, ch: Chain, c: nat, fat': Fat)
    requires |fat| == g.maxCluster + 1 && 2 <= c <= g.maxCluster && fat[c] == FAT_FREE
    requires ch != [] ==> IsChain(g, fat, ch)
    requires fat' == if ch == [] then fat[c := FAT_EOC] else fat[c := FAT_EOC][ch[|ch| - 1] := c]
    ensures c !in ch && IsChain(g, fat', ch + [c])
    ensures forall d :: 0 <= d <= g.maxCluster && d !in ch + [c] ==> fat'[d] == fat[d]
  {
    if ch != [] { FreeNotInChain(g, fat, ch, c); }
    var ch' := ch + [c];
    assert forall i :: 0 <= i < |ch| ==> ch'[i] == ch[i];
    if ch != [] {
      var n := |ch| - 1;
      assert fat'[ch[n]] == c;
      forall i | 0 <= i < n
        ensures fat'[ch[i]] == ch[i + 1]
      {
        assert ch[i] != ch[n] && ch[i] != c;
      }
    }
  }

  lemma GrewTrans(g: Geo, d0: Disk, d1: Disk, d2: Disk, a: Chain, b: Chain, c: Chain)
    requires Grew(g, d0, d1, a, b) && Grew(g, d1, d2, b, c)
    ensures Grew(g, d0, d2, a, c)
  {
    hide FatOf, Mirrored, IsChain, Zeroed, Kept, ZeroedAll;
    var f0, f1 := FatOf(d0, g), FatOf(d1, g);
    KeptTrans(g, d0, d1, d2, b[|a|..], c[|b|..], c[|a|..]);
    forall i | |a| <= i < |c|
      ensures f0[c[i]] == FAT_FREE
    {
      if i < |b| {
        assert c[i] == b[i];
      } else {
        assert f1[c[i]] == FAT_FREE;
        NotInPrefix(c, b, i);
      }
    }
    forall x | 0 <= x <= g.maxCluster && x !in c
      ensures FatOf(d2, g)[x] == f0[x]
    {
      assert x !in b by { PrefixMember(b, c, x); }
    }
    StillZero(g, d1, d2, a, b, c);
  }

  lemma PrefixMember(b: Chain, c: Chain, x: nat)
    requires b <= c
    ensures x in b ==> x in c
  {}

  lemma KeptTrans(g: Geo, d0: Disk, d1: Disk, d2: Disk, a: Chain, b: Chain, ab: Chain)
    requires g.spc > 0 && Kept(g, d0, d1, a) && Kept(g, d1, d2, b) && ab == a + b
    ensures Kept(g, d0, d2, ab)
  {
    hide ClusterOf;
  }

  lemma NotInPrefix(c: Chain, b: Chain, i: nat)
    requires b <= c && NoDup(c) && |b| <= i < |c|
    ensures c[i] !in b
  {
  }

  // Clusters zeroed earlier stay zero while others are taken.
  lemma StillZero(g: Geo, d1: Disk, d2: Disk, a: Chain, b: Chain, c: Chain)
    requires OnDisk(d1, g) && OnDisk(d2, g) && a <= b && b <= c && InRange(g, c) && NoDup(c)
    requires ZeroedAll(g, d1, b[|a|..]) && ZeroedAll(g, d2, c[|b|..]) && Kept(g, d1, d2, c[|b|..])
    ensures ZeroedAll(g, d2, c[|a|..])
  {
    var taken := c[|b|..];
    forall i | 0 <= i < |c[|a|..]|
      ensures Zeroed(g, d2, c[|a|..][i])
    {
      var x := c[|a|..][i];
      if |a| + i < |b| {
        assert x == b[|a|..][i] && Zeroed(g, d1, x);
        assert x !in taken;
        ZeroKept(g, d1, d2, taken, x);
      } else {
        assert x == taken[|a| + i - |b|];
      }
    }
  }

  lemma ZeroKept(g: Geo, d1: Disk, d2: Disk, taken: Chain, x: nat)
    requires OnDisk(d1, g) && OnDisk(d2, g) && 2 <= x <= g.maxCluster && x !in taken
    requires Zeroed(g, d1, x) && Kept(g, d1, d2, taken)
    ensures Zeroed(g, d2, x)
  {
    ClusterInside(g, x);
    forall k | ClusterSector(g, x) <= k < ClusterSector(g, x) + g.spc
      ensures d2[k] == Zeros(512)
    {
      ClusterOfSector(g, x, k - ClusterSector(g, x));
    }
  }

  // --- the driver ---

  class Fs {
    const g: Geo
    var disk: Disk
    var sec: Sector

    ghost predicate Ok()
      reads this
    {
      OnDisk(disk, g) && Mirrored(disk, g)
    }

    ghost function Table(): Fat
      requires Ok()
      reads this
    {
      FatOf(disk, g)
    }

    constructor (g: Geo, disk: Disk)
      requires OnDisk(disk, g) && Mirrored(disk, g)
      ensures this.g == g && this.disk == disk && Ok()
    {
      this.g, this.disk, this.sec := g, disk, Zeros(512);
    }

    // fat_next reads into a buffer of its own: sec keeps its staged data.
    method FatNext(c: nat) returns (nx: int)
      requires Ok() && c <= g.maxCluster
      ensures nx == NextOf(Table()[c]) && 0 <= nx < 0x1_0000
    {
      FatSectorInRange(g, 0, c);
      var tmp := disk[g.firstFat + c / 256];
      var v := Rd16(tmp, 2 * (c % 256));
      assert v == FatAt(disk, g, 0, c);
      nx := if v == 0 || v == FAT_BAD || v >= 0xFFF8 then 0 else v;
    }

    // fat_set: the entry in every copy of the table, through sec.
    method FatSet(c: nat, v: int)
      requires Ok() && c <= g.maxCluster && 0 <= v < 0x1_0000
      modifies this`disk, this`sec
      ensures Ok() && Table() == old(Table())[c := v]
      ensures SameOutside(old(disk), disk, g.firstFat, g.firstRoot)
    {
      hide GoodGeo, FatAt, Wr16;
      for copy := 0 to g.numFats
        invariant OnDisk(disk, g) && SameOutside(old(disk), disk, g.firstFat, g.firstRoot)
        invariant forall p, d :: 0 <= p < g.numFats && 0 <= d <= g.maxCluster ==>
          FatAt(disk, g, p, d) == if p < copy && d == c then v else FatAt(old(disk), g, p, d)
      {
        FatSectorInRange(g, copy, c);
        var s := g.firstFat + copy * g.fatsz + c / 256;
        sec := disk[s];
        sec := Wr16(sec, 2 * (c % 256), v);
        ghost var disk' := disk[s := sec];
        SetOneCopy(disk, g, copy, c, v, disk');
        disk := disk[s := sec];
      }
      TableAfterSet(old(disk), disk, g, c, v);
    }

    method ChainLen(first: nat, ghost ch: Chain) returns (ok: bool, n: nat)
      requires Ok() && if ch == [] then first < 2 else IsChain(g, Table(), ch) && ch[0] == first
      ensures ok && n == |ch|
    {
      var c := first;
      n := 0;
      if ch != [] { ChainFits(g, ch); }
      while 2 <= c <= g.maxCluster
        invariant n <= |ch|
        invariant n < |ch| ==> c == ch[n]
        invariant n == |ch| ==> !(2 <= c <= g.maxCluster)
        decreases |ch| - n
      {
        n := n + 1;
        if n > g.maxCluster + 2 {
          return false, n;
        }
        var nx := FatNext(c);
        ChainNext(g, Table(), ch, n - 1);
        if nx == 0 {
          break;
        }
        c := nx;
      }
      ok := true;
    }

    // chain_at: the n-th cluster, or a failure past the end.
    method ChainAt(first: nat, n: nat, ghost ch: Chain) returns (ok: bool, c: nat)
      requires Ok() && IsChain(g, Table(), ch) && ch[0] == first
      ensures ok == (n < |ch|) && (ok ==> c == ch[n])
    {
      c := first;
      for i := 0 to n
        invariant i < |ch| && c == ch[i]
      {
        ChainNext(g, Table(), ch, i);
        var nx := FatNext(c);
        if nx == 0 {
          return false, 0;
        }
        c := nx;
      }
      ok := c != 0;
    }

    // free_chain: every cluster of the chain, and no other.
    method FreeChain(first: nat, ghost ch: Chain) returns (ok: bool)
      requires Ok() && IsChain(g, Table(), ch) && ch[0] == first
      modifies this`disk, this`sec
      ensures ok && Ok() && SameOutside(old(disk), disk, g.firstFat, g.firstRoot)
      ensures forall c :: 0 <= c <= g.maxCluster ==> Table()[c] == if c in ch then FAT_FREE else old(Table())[c]
    {
      hide Mirrored, FatOf, GoodGeo;
      ghost var fat := Table();
      var c := first;
      var guard := 0;
      ghost var i := 0;
      ChainFits(g, ch);
      while 2 <= c <= g.maxCluster
        invariant Ok() && SameOutside(old(disk), disk, g.firstFat, g.firstRoot)
        invariant guard == i <= |ch| && (if i < |ch| then c == ch[i] else c == 0)
        invariant forall d :: 0 <= d <= g.maxCluster ==> Table()[d] == if d in ch[..i] then FAT_FREE else fat[d]
        decreases |ch| - i
      {
        guard := guard + 1;
        if guard > g.maxCluster + 2 {
          return false;
        }
        ghost var now := Table();
        assert c !in ch[..i];
        var nx := FatNext(c);
        ChainNext(g, fat, ch, i);
        FatSet(c, FAT_FREE);
        assert ch[..i + 1] == ch[..i] + [ch[i]];
        c := nx;
        i := i + 1;
      }
      assert ch[..i] == ch;
      ok := true;
    }

    // zero_cluster
    method ZeroCluster(c: nat)
      requires Ok() && 2 <= c <= g.maxCluster
      modifies this`disk, this`sec
      ensures Ok() && Table() == old(Table()) && Zeroed(g, disk, c)
      ensures SameOutside(old(disk), disk, ClusterSector(g, c), ClusterSector(g, c) + g.spc)
    {
      ClusterInside(g, c);
      var rel := ClusterSector(g, c);
      sec := Zeros(512);
      for i := 0 to g.spc
        invariant |disk| == |old(disk)| && sec == Zeros(512)
        invariant SameOutside(old(disk), disk, rel, rel + g.spc)
        invariant forall k :: rel <= k < rel + i ==> disk[k] == Zeros(512)
      {
        disk := disk[rel + i := sec];
      }
      TableUntouched(old(disk), disk, g);
    }

    // The scan of cluster_alloc: the lowest free cluster, or 0.
    method FindFree() returns (found: nat)
      requires Ok()
      modifies this`sec
      ensures found == 0 <==> !HasFree(g, old(Table()))
      ensures found != 0 ==> 2 <= found <= g.maxCluster && Table()[found] == FAT_FREE
      ensures found != 0 ==> forall c :: 2 <= c < found ==> old(Table())[c] != FAT_FREE
    {
      TableCovers(g);
      hide Mirrored, FatOf, GoodGeo;
      ghost var fat := Table();
      found := 0;
      var s := 0;
      while s < g.fatsz && found == 0
        invariant s <= g.fatsz && fat == Table()
        invariant found == 0 ==> forall c :: 2 <= c <= g.maxCluster && c < 256 * s ==> fat[c] != FAT_FREE
        invariant found != 0 ==> 2 <= found <= g.maxCluster && fat[found] == FAT_FREE
        invariant found != 0 ==> forall c :: 2 <= c < found ==> fat[c] != FAT_FREE
      {
        found := ScanFatSector(s);
        s := s + 1;
      }
    }

    method ScanFatSector(s: nat) returns (found: nat)
      requires Ok() && s < g.fatsz
      modifies this`sec
      ensures found == 0 ==> forall c :: 2 <= c <= g.maxCluster && 256 * s <= c < 256 * s + 256 ==>
                Table()[c] != FAT_FREE
      ensures found != 0 ==> 2 <= found <= g.maxCluster && 256 * s <= found && Table()[found] == FAT_FREE
      ensures found != 0 ==> forall c :: 2 <= c < found && 256 * s <= c ==> Table()[c] != FAT_FREE
    {
      hide Mirrored, FatOf, GoodGeo;
      FirstCopyInside(g, s);
      ghost var fat := Table();
      sec := disk[g.firstFat + s];
      for i := 0 to 256
        invariant sec == disk[g.firstFat + s] && fat == Table()
        invariant forall c :: 2 <= c <= g.maxCluster && 256 * s <= c < 256 * s + i ==> fat[c] != FAT_FREE
      {
        var cluster := s * 256 + i;
        if cluster < 2 || cluster > g.maxCluster {
          continue;
        }
        EntryInSector(disk, g, s, i);
        if sec[i * 2] == 0 && sec[i * 2 + 1] == 0 {
          return cluster;
        }
      }
      return 0;
    }

    // Mark the cluster as an end and hang it behind the chain.
    method LinkCluster(prev: nat, c: nat, ghost ch: Chain)
      requires Ok() && 2 <= c <= g.maxCluster && Table()[c] == FAT_FREE
      requires if ch == [] then prev == 0 else IsChain(g, Table(), ch) && prev == ch[|ch| - 1]
      modifies this`disk, this`sec
      ensures Ok() && SameOutside(old(disk), disk, g.firstFat, g.firstRoot)
      ensures IsChain(g, Table(), ch + [c])
      ensures forall d :: 0 <= d <= g.maxCluster && d !in ch + [c] ==> Table()[d] == old(Table())[d]
    {
      TableCovers(g);
      hide Mirrored, FatOf, GoodGeo;
      ghost var fat := Table();
      FatSet(c, FAT_EOC);
      if prev != 0 {
        FatSet(prev, c);
      }
      LinkedOne(g, fat, ch, c, Table());
    }

    // cluster_alloc: take a free cluster, link it behind the chain, zero it.
    method ClusterAlloc(prev: nat, ghost ch: Chain) returns (ok: bool, c: nat)
      requires Ok() && if ch == [] then prev == 0 else IsChain(g, Table(), ch) && prev == ch[|ch| - 1]
      modifies this`disk, this`sec
      ensures Ok()
      ensures ok == HasFree(g, old(Table()))
      ensures !ok ==> disk == old(disk)
      ensures ok ==> 2 <= c <= g.maxCluster && Grew(g, old(disk), disk, ch, ch + [c])
      ensures ok ==> forall d :: 2 <= d < c ==> old(Table())[d] != FAT_FREE
    {
      hide Mirrored, FatOf, GoodGeo, IsChain, Grew, Zeroed, ClusterSector;
      var found := FindFree();
      if found == 0 {
        return false, 0;
      }
      LinkCluster(prev, found, ch);
      ghost var mid := disk;
      ZeroCluster(found);
      AllocGrew(g, old(disk), mid, disk, ch, found);
      return true, found;
    }

    // ensure_chain: grow to `need` clusters; a full volume may stop it midway.
    method EnsureChain(first: nat, need: nat, ghost ch: Chain) returns (ok: bool, nf: nat, ghost ch': Chain)
      requires Ok() && if ch == [] then first == 0 else IsChain(g, Table(), ch) && ch[0] == first
      modifies this`disk, this`sec
      ensures Ok() && Grew(g, old(disk), disk, ch, ch')
      ensures ok ==> |ch'| == (if need > |ch| then need else |ch|) && nf == if ch' == [] then 0 else ch'[0]
      ensures !ok ==> |ch'| < need
      ensures ok <==> need <= |ch| + FreeCount(g, old(Table()))
    {
      hide Mirrored, FatOf, GoodGeo, Grew, FreeCount, HasFree;
      GrewNothing(g, disk, ch);
      ch' := ch;
      if need == 0 {
        return true, first, ch;
      }
      var good, len := ChainLen(first, ch);
      if len >= need {
        return true, first, ch;
      }
      var last := first;
      nf := first;
      if len == 0 {
        var nc;
        good, nc := ClusterAlloc(0, []);
        if !good {
          NoneFree(g, Table());
          return false, 0, ch;
        }
        ch' := [nc];
        nf, last, len := nc, nc, 1;
        assert [] + [nc] == [nc];
        GrewIsChain(g, old(disk), disk, [], [nc]);
      } else {
        good, last := ChainAt(first, len - 1, ch);
      }
      while len < need
        invariant Ok() && len <= need && ch' != [] && len == |ch'|
        invariant Grew(g, old(disk), disk, ch, ch')
        invariant IsChain(g, Table(), ch') && last == ch'[|ch'| - 1] && nf == ch'[0]
      {
        ghost var before, was := disk, ch';
        var nc;
        good, nc := ClusterAlloc(last, ch');
        if !good {
          NoneFree(g, Table());
          GrewFree(g, old(disk), disk, ch, ch');
          return false, 0, ch';
        }
        ch' := ch' + [nc];
        GrewTrans(g, old(disk), before, disk, ch, was, ch');
        GrewIsChain(g, before, disk, was, ch');
        last := nc;
        len := len + 1;
      }
      GrewFree(g, old(disk), disk, ch, ch');
      return true, nf, ch';
    }
  }

  lemma GrewIsChain(g: Geo, d0: Disk, d1: Disk, a: Chain, b: Chain)
    requires Grew(g, d0, d1, a, b) && b != []
    ensures IsChain(g, FatOf(d1, g), b)
  {}

  lemma FirstCopyInside(g: Geo, s: nat)
    requires GoodGeo(g) && s < g.fatsz
    ensures g.firstFat + s < g.total
  {
    RowFits(g, 0);
    MulStep(0, g.numFats, g.fatsz);
  }

  lemma AllocGrew(g: Geo, d0: Disk, d1: Disk, d2: Disk, ch: Chain, c: nat)
    requires OnDisk(d0, g) && OnDisk(d1, g) && OnDisk(d2, g) && Mirrored(d0, g) && Mirrored(d2, g)
    requires 2 <= c <= g.maxCluster
    requires (ch != [] ==> IsChain(g, FatOf(d0, g), ch)) && FatOf(d0, g)[c] == FAT_FREE
    requires IsChain(g, FatOf(d1, g), ch + [c]) && FatOf(d2, g) == FatOf(d1, g)
    requires forall d :: 0 <= d <= g.maxCluster && d !in ch + [c] ==> FatOf(d1, g)[d] == FatOf(d0, g)[d]
    requires SameOutside(d0, d1, g.firstFat, g.firstRoot)
    requires SameOutside(d1, d2, ClusterSector(g, c), ClusterSector(g, c) + g.spc) && Zeroed(g, d2, c)
    ensures Grew(g, d0, d2, ch, ch + [c])
  {
    hide FatOf, Mirrored, IsChain, GoodGeo, Zeroed, Kept, ClusterSector;
    var t := (ch + [c])[|ch|..];
    assert t == [c];
    AllocKept(g, d0, d1, d2, c);
    assert forall i :: |ch| <= i < |ch + [c]| ==> (ch + [c])[i] == c;
    ChainShape(g, FatOf(d1, g), ch + [c]);
  }

  lemma ChainShape(g: Geo, fat: Fat, ch: Chain)
    requires IsChain(g, fat, ch)
    ensures InRange(g, ch) && NoDup(ch)
  {}

  lemma AllocKept(g: Geo, d0: Disk, d1: Disk, d2: Disk, c: nat)
    requires OnDisk(d0, g) && 2 <= c <= g.maxCluster
    requires SameOutside(d0, d1, g.firstFat, g.firstRoot)
    requires SameOutside(d1, d2, ClusterSector(g, c), ClusterSector(g, c) + g.spc)
    ensures Kept(g, d0, d2, [c])
  {
    ClusterInside(g, c);
    hide GoodGeo;
    forall k | 0 <= k < |d0| && !(g.firstFat <= k < g.firstRoot) && (k < g.firstData || ClusterOf(g, k) !in [c])
      ensures d2[k] == d0[k]
    {
      if ClusterSector(g, c) <= k < ClusterSector(g, c) + g.spc {
        ClusterOfSector(g, c, k - ClusterSector(g, c));
      }
    }
  }

  lemma EntryInSector(disk: Disk, g: Geo, s: nat, i: nat)
    requires OnDisk(disk, g) && i < 256 && 256 * s + i <= g.maxCluster
    ensures g.firstFat + s < |disk| && FatOf(disk, g)[256 * s + i] == Rd16(disk[g.firstFat + s], 2 * i)
  {
    var c := 256 * s + i;
    assert c / 256 == s && c % 256 == i;
    FatSectorInRange(g, 0, c);
  }

  lemma TableCovers(g: Geo)
    requires GoodGeo(g)
    ensures g.maxCluster < 256 * g.fatsz && g.maxCluster + 1 < 0x1_0000
  {}

  ghost predicate HasFree(g: Geo, fat: Fat)
    requires |fat| == g.maxCluster + 1
  {
    exists c :: 2 <= c <= g.maxCluster && fat[c] == FAT_FREE
  }

  // --- how many clusters are left ---

  ghost function FreeSet(g: Geo, fat: Fat): set<nat> {
    set c: nat | 2 <= c <= g.maxCluster && c < |fat| && fat[c] == FAT_FREE
  }

  ghost function FreeCount(g: Geo, fat: Fat): nat {
    |FreeSet(g, fat)|
  }

  lemma NoneFree(g: Geo, fat: Fat)
    requires |fat| == g.maxCluster + 1
    ensures FreeCount(g, fat) == 0 <==> !HasFree(g, fat)
  {
    var s := FreeSet(g, fat);
    if HasFree(g, fat) {
      var c :| 2 <= c <= g.maxCluster && fat[c] == FAT_FREE;
      assert c in s;
    } else {
      assert s == {};
    }
  }

  // A chain cluster is not free.
  lemma ChainNotFree(g: Geo, fat: Fat, ch: Chain, c: nat)
    requires IsChain(g, fat, ch) && c in ch
    ensures c <= g.maxCluster && fat[c] != FAT_FREE
  {
    if fat[c] == FAT_FREE { FreeNotInChain(g, fat, ch, c); }
  }

  // Growing takes as many free clusters as the chain got longer.
  lemma GrewFree(g: Geo, d0: Disk, d1: Disk, a: Chain, b: Chain)
    requires Grew(g, d0, d1, a, b)
    ensures |a| <= |b| && FreeCount(g, FatOf(d0, g)) == FreeCount(g, FatOf(d1, g)) + (|b| - |a|)
  {
    hide FatOf, Mirrored, GoodGeo, Grew, FreeSet;
    GrewShape(g, d0, d1, a, b);
    var taken := b[|a|..];
    var s0, s1, t := FreeSet(g, FatOf(d0, g)), FreeSet(g, FatOf(d1, g)), set c: nat | c in taken;
    SetSize(taken, t);
    forall c: nat
      ensures c in s0 <==> c in s1 || c in t
      ensures !(c in s1 && c in t)
    {
      TakenOne(g, d0, d1, a, b, c);
    }
    DisjointSizes(s0, s1, t);
  }

  lemma GrewShape(g: Geo, d0: Disk, d1: Disk, a: Chain, b: Chain)
    requires Grew(g, d0, d1, a, b)
    ensures OnDisk(d0, g) && OnDisk(d1, g) && |a| <= |b| && NoDup(b[|a|..])
  {
    hide FatOf, Mirrored, GoodGeo, Zeroed, Kept, ZeroedAll, IsChain;
  }

  lemma DisjointSizes(s: set<nat>, a: set<nat>, b: set<nat>)
    requires forall c: nat :: (c in s <==> c in a || c in b) && !(c in a && c in b)
    ensures |s| == |a| + |b|
  {
    assert s == a + b && a !! b;
  }

  lemma TakenOne(g: Geo, d0: Disk, d1: Disk, a: Chain, b: Chain, c: nat)
    requires Grew(g, d0, d1, a, b)
    ensures c in FreeSet(g, FatOf(d0, g)) <==> c in FreeSet(g, FatOf(d1, g)) || c in b[|a|..]
    ensures !(c in FreeSet(g, FatOf(d1, g)) && c in b[|a|..])
  {
    hide FatOf, Mirrored, GoodGeo, Zeroed, Kept, ZeroedAll, IsChain;
    if c in b {
      ChainNotFree(g, FatOf(d1, g), b, c);
      var i :| 0 <= i < |b| && b[i] == c;
      if i < |a| {
        assert a[i] == c;
        ChainNotFree(g, FatOf(d0, g), a, c);
        NotInSuffix(b, |a|, i);
      } else {
        assert b[|a|..][i - |a|] == c;
      }
    }
  }

  lemma NotInSuffix(b: Chain, n: nat, i: nat)
    requires NoDup(b) && i < n <= |b|
    ensures b[i] !in b[n..]
  {}
}
