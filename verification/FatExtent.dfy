// A file or directory as the list of sectors its chain stands for, and the
// bytes on them (vnu/kernel/fs/fat16.cpp).
module FatExtent {
  import opened FatDisk

  type Extent = seq<nat>
  type Chain = seq<nat>

  // cluster_to_sector
  function ClusterSector(g: Geo, c: nat): nat
    requires c >= 2
  {
    g.firstData + (c - 2) * g.spc
  }

  function SectorOf(g: Geo, c: nat, i: nat): nat
    requires c >= 2
  {
    ClusterSector(g, c) + i
  }

  function ClusterSecs(g: Geo, c: nat): (s: Extent)
    requires c >= 2
    ensures |s| == g.spc
  {
    seq(g.spc, i requires 0 <= i < g.spc => SectorOf(g, c, i))
  }

  predicate InRange(g: Geo, ch: Chain) {
    forall i :: 0 <= i < |ch| ==> 2 <= ch[i] <= g.maxCluster
  }

  predicate NoDup(s: seq<nat>) {
    forall i, j :: 0 <= i < j < |s| ==> s[i] != s[j]
  }

  function Secs(g: Geo, ch: Chain): Extent
    requires InRange(g, ch)
  {
    if ch == [] then [] else Secs(g, ch[..|ch| - 1]) + ClusterSecs(g, ch[|ch| - 1])
  }

  // Sector s of the q-th cluster.
  lemma {:induction false} SecsAt(g: Geo, ch: Chain, q: nat, s: nat)
    requires InRange(g, ch) && q < |ch| && s < g.spc
    ensures |Secs(g, ch)| == |ch| * g.spc && q * g.spc + s < |ch| * g.spc
    ensures Secs(g, ch)[q * g.spc + s] == ClusterSector(g, ch[q]) + s
  {
    var n := |ch| - 1;
    SecsLen(g, ch);
    SecsLen(g, ch[..n]);
    MulStep(q, |ch|, g.spc);
    if q < n {
      SecsAt(g, ch[..n], q, s);
    }
  }

  lemma {:induction false} SecsLen(g: Geo, ch: Chain)
    requires InRange(g, ch)
    ensures |Secs(g, ch)| == |ch| * g.spc
  {
    if ch != [] {
      var n := |ch| - 1;
      SecsLen(g, ch[..n]);
      assert (n + 1) * g.spc == n * g.spc + g.spc;
    }
  }

  // The cluster a data sector belongs to.
  ghost function ClusterOf(g: Geo, k: nat): int
    requires g.spc > 0
  {
    2 + (k - g.firstData) / g.spc
  }

  lemma ClusterOfSector(g: Geo, c: nat, s: nat)
    requires g.spc > 0 && c >= 2 && s < g.spc
    ensures ClusterOf(g, ClusterSector(g, c) + s) == c
  {
    DivUnique((c - 2) * g.spc + s, g.spc, c - 2, s);
  }

  lemma DivUnique(a: int, m: int, q: int, r: int)
    requires m > 0 && 0 <= r < m && a == q * m + r
    ensures a / m == q && a % m == r
  {
    var q', r' := a / m, a % m;
    assert a == m * q' + r';
    assert m * (q' - q) == r - r';
    if q' - q >= 1 { MulAtLeast(m, q' - q); }
    if q' - q <= -1 { MulAtLeast(m, q - q'); }
  }

  lemma MulAtLeast(m: int, k: int)
    requires m > 0 && k >= 1
    ensures m * k >= m
  {}

  lemma ClusterInside(g: Geo, c: nat)
    requires GoodGeo(g) && 2 <= c <= g.maxCluster
    ensures g.firstData <= ClusterSector(g, c) && ClusterSector(g, c) + g.spc <= g.total
    ensures g.firstRoot <= g.firstData && g.firstFat <= g.firstRoot
  {
    DataRegion(g);
    hide GoodGeo;
    var a, b := (c - 2) * g.spc, (g.maxCluster - 1) * g.spc;
    assert 0 <= a && a + g.spc <= b by { MulStep(c - 2, g.maxCluster - 1, g.spc); MulNonneg(c - 2, g.spc); }
  }

  lemma DataRegion(g: Geo)
    requires GoodGeo(g)
    ensures g.firstFat <= g.firstRoot <= g.firstData && 1 <= g.spc
    ensures g.firstData + (g.maxCluster - 1) * g.spc <= g.total
  {
    MulNonneg(g.numFats, g.fatsz);
  }

  // Every sector of an extent lies in the data region, in one of its clusters.
  lemma {:induction false} SecsInside(g: Geo, ch: Chain, k: nat)
    requires GoodGeo(g) && InRange(g, ch) && k in Secs(g, ch)
    ensures g.firstData <= k < g.total && ClusterOf(g, k) in ch
  {
    var n := |ch| - 1;
    var last := ClusterSecs(g, ch[n]);
    ClusterInside(g, ch[n]);
    if k in last {
      var s :| 0 <= s < |last| && last[s] == k;
      ClusterOfSector(g, ch[n], s);
      assert ch[n] in ch;
    } else {
      SecsInside(g, ch[..n], k);
      var i :| 0 <= i < n && ch[..n][i] == ClusterOf(g, k);
      assert ch[i] in ch;
    }
  }

  // A chain without repetition gives an extent without repetition.
  lemma {:induction false} SecsNoDup(g: Geo, ch: Chain)
    requires GoodGeo(g) && InRange(g, ch) && NoDup(ch)
    ensures NoDup(Secs(g, ch))
  {
    if ch != [] {
      var n := |ch| - 1;
      var front, last := Secs(g, ch[..n]), ClusterSecs(g, ch[n]);
      SecsNoDup(g, ch[..n]);
      forall i, j | 0 <= i < |front| && 0 <= j < |last|
        ensures front[i] != last[j]
      {
        if front[i] == last[j] {
          SecsInside(g, ch[..n], front[i]);
          ClusterOfSector(g, ch[n], j);
        }
      }
      AppendNoDup(front, last);
    }
  }

  lemma AppendNoDup(a: seq<nat>, b: seq<nat>)
    requires NoDup(a) && NoDup(b) && forall i, j :: 0 <= i < |a| && 0 <= j < |b| ==> a[i] != b[j]
    ensures NoDup(a + b)
  {}

  // Chains that share no cluster share no sector.
  lemma SecsDisjoint(g: Geo, a: Chain, b: Chain, k: nat)
    requires GoodGeo(g) && InRange(g, a) && InRange(g, b) && (forall c :: c in a ==> c !in b)
    requires k in Secs(g, a)
    ensures k !in Secs(g, b)
  {
    SecsInside(g, a, k);
    if k in Secs(g, b) { SecsInside(g, b, k); }
  }

  lemma SecsSnoc(g: Geo, ch: Chain, c: nat)
    requires InRange(g, ch) && 2 <= c <= g.maxCluster
    ensures InRange(g, ch + [c]) && Secs(g, ch + [c]) == Secs(g, ch) + ClusterSecs(g, c)
  {
    assert (ch + [c])[..|ch|] == ch;
  }

  // --- bytes ---

  ghost predicate Within(secs: Extent, disk: Disk) {
    forall t :: 0 <= t < |secs| ==> secs[t] < |disk|
  }

  function Content(disk: Disk, secs: Extent): (b: Bytes)
    requires Within(secs, disk)
    ensures |b| == 512 * |secs|
  {
    if secs == [] then [] else Content(disk, secs[..|secs| - 1]) + disk[secs[|secs| - 1]]
  }

  lemma {:induction false} ContentSame(disk: Disk, disk': Disk, secs: Extent)
    requires Within(secs, disk) && |disk'| == |disk|
    requires forall t :: 0 <= t < |secs| ==> disk'[secs[t]] == disk[secs[t]]
    ensures Content(disk', secs) == Content(disk, secs)
  {
    if secs != [] { ContentSame(disk, disk', secs[..|secs| - 1]); }
  }

  lemma ContentSnoc(disk: Disk, a: Extent, k: nat)
    requires Within(a, disk) && k < |disk|
    ensures Within(a + [k], disk) && Content(disk, a + [k]) == Content(disk, a) + disk[k]
  {
    assert (a + [k])[..|a|] == a;
  }

  lemma {:induction false} ContentAppend(disk: Disk, a: Extent, b: Extent)
    requires Within(a, disk) && Within(b, disk)
    ensures Within(a + b, disk) && Content(disk, a + b) == Content(disk, a) + Content(disk, b)
  {
    if b == [] {
      assert a + b == a;
    } else {
      var n := |b| - 1;
      ContentAppend(disk, a, b[..n]);
      hide Content;
      ContentSnoc(disk, a + b[..n], b[n]);
      ContentSnoc(disk, b[..n], b[n]);
      assert a + b == (a + b[..n]) + [b[n]] && b == b[..n] + [b[n]];
    }
  }

  // The t-th sector's worth of an extent's bytes.
  lemma {:induction false} ContentSector(disk: Disk, secs: Extent, t: nat)
    requires Within(secs, disk) && t < |secs|
    ensures Content(disk, secs)[512 * t..512 * t + 512] == disk[secs[t]]
  {
    var n := |secs| - 1;
    if t < n {
      ContentSector(disk, secs[..n], t);
      assert Content(disk, secs)[512 * t..512 * t + 512] == Content(disk, secs[..n])[512 * t..512 * t + 512];
    }
  }

  // b with data laid over it from off, where it fits.
  function Overwrite(b: Bytes, off: nat, data: Bytes): (r: Bytes)
    ensures |r| == |b|
  {
    if off + |data| <= |b| then b[..off] + data + b[off + |data|..] else b
  }

  // Writing one sector of an extent.
  lemma {:induction false} ContentUpdate(disk: Disk, secs: Extent, t: nat, s: Sector)
    requires Within(secs, disk) && NoDup(secs) && t < |secs|
    ensures Content(disk[secs[t] := s], secs) == Overwrite(Content(disk, secs), 512 * t, s)
  {
    var n := |secs| - 1;
    var disk' := disk[secs[t] := s];
    var front := secs[..n];
    if t == n {
      ContentSame(disk, disk', front);
    } else {
      ContentUpdate(disk, front, t, s);
      assert secs[n] != secs[t];
      OverwriteFront(Content(disk, front), disk[secs[n]], 512 * t, s);
    }
  }

  lemma OverwriteFront(a: Bytes, z: Bytes, off: nat, data: Bytes)
    requires off + |data| <= |a|
    ensures Overwrite(a + z, off, data) == Overwrite(a, off, data) + z
  {}

  // Two runs laid one behind the other are one.
  lemma OverwriteTwice(b: Bytes, off: nat, x: Bytes, y: Bytes)
    requires off + |x| + |y| <= |b|
    ensures Overwrite(Overwrite(b, off, x), off + |x|, y) == Overwrite(b, off, x + y)
  {}
}
