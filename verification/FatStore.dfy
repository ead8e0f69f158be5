// The volume as a map from storage to bytes (vnu/kernel/fs/fat16.cpp): 0 is
// the fixed root directory, any other key the first cluster of a live chain.
module FatStore {
  import opened FatDisk
  import opened FatExtent
  import opened FatChain
  import opened FatData

  type Exts = map<nat, Chain>
  type Data = map<nat, Bytes>

  ghost predicate Apart(a: Chain, b: Chain) {
    forall c :: c in a ==> c !in b
  }

  ghost predicate AllApart(ext: Exts) {
    forall a, b :: a in ext && b in ext && a != b ==> Apart(ext[a], ext[b])
  }

  // Every live chain is a complete chain of the table, under its first cluster.
  ghost predicate AllChains(g: Geo, fat: Fat, ext: Exts) {
    forall k :: k in ext ==> IsChain(g, fat, ext[k]) && ext[k][0] == k
  }

  ghost function RootSecs(g: Geo): (s: Extent)
    ensures |s| == g.rootSectors
  {
    seq(g.rootSectors, i requires 0 <= i < g.rootSectors => RootSec(g, i))
  }

  ghost function RootSec(g: Geo, i: nat): nat {
    g.firstRoot + i
  }

  ghost function RootBytes(g: Geo, disk: Disk): (b: Bytes) {
    if OnDisk(disk, g) then RootWithin(g, disk); Content(disk, RootSecs(g)) else []
  }

  lemma RootWithin(g: Geo, disk: Disk)
    requires OnDisk(disk, g)
    ensures Within(RootSecs(g), disk)
  {
    DataRegion(g);
    MulNonneg(g.maxCluster - 1, g.spc);
  }

  ghost predicate Holds(g: Geo, disk: Disk, ext: Exts, data: Data) {
    && 0 !in ext && data.Keys == ext.Keys + {0}
    && data[0] == RootBytes(g, disk)
    && forall k :: k in ext ==> data[k] == ChainBytes(g, disk, ext[k])
  }

  ghost predicate StoreOk(g: Geo, disk: Disk, ext: Exts, data: Data) {
    && OnDisk(disk, g) && Mirrored(disk, g)
    && AllChains(g, FatOf(disk, g), ext) && AllApart(ext)
    && Holds(g, disk, ext, data)
  }

  // Neither the links nor the sectors of ch changed.
  ghost predicate Untouched(g: Geo, d0: Disk, d1: Disk, ch: Chain) {
    && OnDisk(d0, g) && OnDisk(d1, g) && InRange(g, ch)
    && (forall c :: c in ch ==> FatOf(d1, g)[c] == FatOf(d0, g)[c])
    && (forall k :: k in Secs(g, ch) && k < |d0| ==> d1[k] == d0[k])
  }

  lemma UntouchedChain(g: Geo, d0: Disk, d1: Disk, ch: Chain)
    requires Untouched(g, d0, d1, ch) && IsChain(g, FatOf(d0, g), ch)
    ensures IsChain(g, FatOf(d1, g), ch) && ChainBytes(g, d1, ch) == ChainBytes(g, d0, ch)
  {
    hide FatOf, GoodGeo, Content, Secs;
    forall i | 0 <= i < |ch|
      ensures FatOf(d1, g)[ch[i]] == FatOf(d0, g)[ch[i]]
    {
      assert ch[i] in ch;
    }
    ExtentOk(g, d0, ch);
    ContentSame(d0, d1, Secs(g, ch));
  }

  lemma RootSame(g: Geo, d0: Disk, d1: Disk)
    requires OnDisk(d0, g) && OnDisk(d1, g)
    requires forall k :: g.firstRoot <= k < g.firstData && k < |d0| ==> d1[k] == d0[k]
    ensures RootBytes(g, d1) == RootBytes(g, d0)
  {
    RootWithin(g, d0);
    ContentSame(d0, d1, RootSecs(g));
  }

  // Rebuilding the invariant after a step on one key.
  lemma Rebuild(g: Geo, d0: Disk, d1: Disk, e0: Exts, e1: Exts, x0: Data, x1: Data, a: nat)
    requires StoreOk(g, d0, e0, x0) && OnDisk(d1, g) && Mirrored(d1, g)
    requires 0 !in e1 && x1.Keys == e1.Keys + {0}
    requires forall b :: b in e1 && b != a ==>
               (b in e0 && e1[b] == e0[b] && x1[b] == x0[b] && Untouched(g, d0, d1, e0[b]))
    requires a in e1 ==> IsChain(g, FatOf(d1, g), e1[a]) && e1[a][0] == a && x1[a] == ChainBytes(g, d1, e1[a])
    requires a in e1 ==> forall b :: b in e1 && b != a ==> Apart(e1[a], e1[b]) && Apart(e1[b], e1[a])
    requires x1[0] == RootBytes(g, d1)
    ensures StoreOk(g, d1, e1, x1)
  {
    hide FatOf, Mirrored, Content, Secs, IsChain, GoodGeo, Untouched, ChainBytes, Apart, RootBytes;
    forall b | b in e1 && b != a
      ensures IsChain(g, FatOf(d1, g), e1[b]) && e1[b] != [] && e1[b][0] == b && x1[b] == ChainBytes(g, d1, e1[b])
    {
      UntouchedChain(g, d0, d1, e0[b]);
      ChainStart(g, FatOf(d0, g), e0[b]);
    }
  }

  // --- one step on one key ---

  // Sectors of one chain rewritten.
  lemma AfterWrite(g: Geo, d0: Disk, d1: Disk, ext: Exts, data: Data, a: nat)
    requires StoreOk(g, d0, ext, data) && a in ext && OnDisk(d1, g) && Mirrored(d1, g) && FatOf(d1, g) == FatOf(d0, g)
    requires InRange(g, ext[a]) && forall k :: 0 <= k < |d1| && k !in Secs(g, ext[a]) ==> d1[k] == d0[k]
    ensures StoreOk(g, d1, ext, data[a := ChainBytes(g, d1, ext[a])])
  {
    hide FatOf, Mirrored, Content, Secs, GoodGeo, ChainBytes, RootBytes;
    forall b | b in ext && b != a
      ensures Untouched(g, d0, d1, ext[b])
    {
      forall k | k in Secs(g, ext[b]) && k < |d0|
        ensures d1[k] == d0[k]
      {
        SecsDisjoint(g, ext[b], ext[a], k);
      }
    }
    forall k | g.firstRoot <= k < g.firstData && k < |d0|
      ensures d1[k] == d0[k]
    {
      if k in Secs(g, ext[a]) { SecsInside(g, ext[a], k); }
    }
    RootSame(g, d0, d1);
    Rebuild(g, d0, d1, ext, ext, data, data[a := ChainBytes(g, d1, ext[a])], a);
  }

  // A sector of the root directory rewritten.
  lemma AfterRootWrite(g: Geo, d0: Disk, d1: Disk, ext: Exts, data: Data)
    requires StoreOk(g, d0, ext, data) && OnDisk(d1, g) && Mirrored(d1, g) && FatOf(d1, g) == FatOf(d0, g)
    requires SameOutside(d0, d1, g.firstRoot, g.firstData)
    ensures StoreOk(g, d1, ext, data[0 := RootBytes(g, d1)])
  {
    hide FatOf, Mirrored, Content, Secs, GoodGeo, ChainBytes, RootBytes;
    forall b | b in ext
      ensures Untouched(g, d0, d1, ext[b])
    {
      forall k | k in Secs(g, ext[b]) && k < |d0|
        ensures d1[k] == d0[k]
      {
        SecsInside(g, ext[b], k);
      }
    }
    Rebuild(g, d0, d1, ext, ext, data, data[0 := RootBytes(g, d1)], 0);
  }

  // A chain that grew elsewhere leaves the live chain b alone.
  lemma GrewApart(g: Geo, d0: Disk, d1: Disk, ch: Chain, ch': Chain, b: Chain)
    requires Grew(g, d0, d1, ch, ch') && IsChain(g, FatOf(d0, g), b) && Apart(b, ch)
    ensures Untouched(g, d0, d1, b) && Apart(b, ch') && Apart(ch', b)
  {
    hide FatOf, Mirrored, Content, Secs, GoodGeo, ClusterOf, Zeroed;
    forall i | 0 <= i < |ch'|
      ensures ch'[i] !in b
    {
      if i < |ch| {
        assert ch'[i] in ch;
      } else {
        FreeNotInChain(g, FatOf(d0, g), b, ch'[i]);
      }
    }
    DataRegion(g);
    forall k | k in Secs(g, b) && k < |d0|
      ensures d1[k] == d0[k]
    {
      SecsInside(g, b, k);
      assert ClusterOf(g, k) !in ch'[|ch|..];
    }
  }

  lemma GrewRoot(g: Geo, d0: Disk, d1: Disk, ch: Chain, ch': Chain)
    requires Grew(g, d0, d1, ch, ch')
    ensures RootBytes(g, d1) == RootBytes(g, d0)
  {
    DataRegion(g);
    hide FatOf, Mirrored, GoodGeo, ClusterOf, Zeroed, IsChain;
    RootSame(g, d0, d1);
  }

  // The live chain a grew.
  lemma AfterGrow(g: Geo, d0: Disk, d1: Disk, ext: Exts, data: Data, a: nat, ch': Chain)
    requires StoreOk(g, d0, ext, data) && a in ext && Grew(g, d0, d1, ext[a], ch')
    ensures Span(g, |ch'| - |ext[a]|) >= 0
    ensures StoreOk(g, d1, ext[a := ch'], data[a := data[a] + Zeros(Span(g, |ch'| - |ext[a]|))])
  {
    hide FatOf, Mirrored, Content, Secs, GoodGeo, ChainBytes, RootBytes, IsChain, Untouched, Zeroed, Kept, Span;
    ChainStart(g, FatOf(d0, g), ext[a]);
    GrewBytes(g, d0, d1, ext[a], ch');
    forall b | b in ext && b != a
      ensures Untouched(g, d0, d1, ext[b]) && Apart(ext[b], ch') && Apart(ch', ext[b])
    {
      GrewApart(g, d0, d1, ext[a], ch', ext[b]);
    }
    GrewRoot(g, d0, d1, ext[a], ch');
    Rebuild(g, d0, d1, ext, ext[a := ch'], data, data[a := data[a] + Zeros(Span(g, |ch'| - |ext[a]|))], a);
  }

  // Clusters were taken from the free ones and not handed to anyone.
  lemma AfterLoss(g: Geo, d0: Disk, d1: Disk, ext: Exts, data: Data, ch': Chain)
    requires StoreOk(g, d0, ext, data) && Grew(g, d0, d1, [], ch')
    ensures StoreOk(g, d1, ext, data)
    ensures ch' != [] ==> ch'[0] !in ext
  {
    hide FatOf, Mirrored, Content, Secs, GoodGeo, ChainBytes, RootBytes, IsChain, Untouched, Zeroed, Kept;
    forall b | b in ext
      ensures Untouched(g, d0, d1, ext[b]) && Apart(ext[b], ch') && Apart(ch', ext[b])
    {
      GrewApart(g, d0, d1, [], ch', ext[b]);
    }
    GrewRoot(g, d0, d1, [], ch');
    if ch' != [] && ch'[0] in ext {
      ChainStart(g, FatOf(d0, g), ext[ch'[0]]);
    }
    Rebuild(g, d0, d1, ext, ext, data, data, 0);
  }

  lemma ChainStart(g: Geo, fat: Fat, ch: Chain)
    requires IsChain(g, fat, ch)
    ensures ch[0] in ch && 2 <= ch[0] <= g.maxCluster
  {}

  // A chain of its own for taken clusters.
  lemma AfterNew(g: Geo, d0: Disk, d1: Disk, ext: Exts, data: Data, ch': Chain)
    requires StoreOk(g, d0, ext, data) && Grew(g, d0, d1, [], ch') && ch' != []
    ensures ch'[0] !in ext && ch'[0] != 0 && ch'[0] !in data
    ensures StoreOk(g, d1, ext[ch'[0] := ch'], data[ch'[0] := Zeros(Span(g, |ch'|))])
  {
    hide FatOf, Mirrored, Content, Secs, GoodGeo, ChainBytes, RootBytes, IsChain, Untouched, Zeroed, Kept, Span;
    AfterLoss(g, d0, d1, ext, data, ch');
    var a := ch'[0];
    ChainStart(g, FatOf(d1, g), ch');
    forall b | b in ext
      ensures Untouched(g, d0, d1, ext[b]) && Apart(ext[b], ch') && Apart(ch', ext[b])
    {
      GrewApart(g, d0, d1, [], ch', ext[b]);
    }
    GrewBytes(g, d0, d1, [], ch');
    NoBytes(g, d0);
    Rebuild(g, d0, d1, ext, ext[a := ch'], data, data[a := Zeros(Span(g, |ch'|))], a);
  }

  lemma NoBytes(g: Geo, disk: Disk)
    ensures ChainBytes(g, disk, []) == []
  {}

  // Only links of the chain a changed.
  lemma LinksOnly(g: Geo, d0: Disk, d1: Disk, ext: Exts, a: nat, b: nat)
    requires OnDisk(d0, g) && OnDisk(d1, g) && AllChains(g, FatOf(d0, g), ext) && AllApart(ext)
    requires a in ext && b in ext && a != b && SameOutside(d0, d1, g.firstFat, g.firstRoot)
    requires forall c :: 0 <= c <= g.maxCluster && c !in ext[a] ==> FatOf(d1, g)[c] == FatOf(d0, g)[c]
    ensures Untouched(g, d0, d1, ext[b])
  {
    hide FatOf, Mirrored, Content, Secs, GoodGeo;
    DataRegion(g);
    forall k | k in Secs(g, ext[b]) && k < |d0|
      ensures d1[k] == d0[k]
    {
      SecsInside(g, ext[b], k);
    }
  }

  lemma AfterFree(g: Geo, d0: Disk, d1: Disk, ext: Exts, data: Data, a: nat)
    requires StoreOk(g, d0, ext, data) && a in ext && OnDisk(d1, g) && Mirrored(d1, g)
    requires SameOutside(d0, d1, g.firstFat, g.firstRoot)
    requires forall c :: 0 <= c <= g.maxCluster && c !in ext[a] ==> FatOf(d1, g)[c] == FatOf(d0, g)[c]
    ensures StoreOk(g, d1, ext - {a}, data - {a})
  {
    hide FatOf, Mirrored, Content, Secs, GoodGeo, ChainBytes, RootBytes, IsChain, Untouched;
    forall b | b in ext && b != a
      ensures Untouched(g, d0, d1, ext[b])
    {
      LinksOnly(g, d0, d1, ext, a, b);
    }
    RootSame(g, d0, d1);
    Rebuild(g, d0, d1, ext, ext - {a}, data, data - {a}, a);
  }

  // The chain a shortened to a prefix.
  lemma AfterCut(g: Geo, d0: Disk, d1: Disk, ext: Exts, data: Data, a: nat, n: nat)
    requires StoreOk(g, d0, ext, data) && a in ext && OnDisk(d1, g) && Mirrored(d1, g)
    requires SameOutside(d0, d1, g.firstFat, g.firstRoot) && 0 < n <= |ext[a]|
    requires forall c :: 0 <= c <= g.maxCluster && c !in ext[a] ==> FatOf(d1, g)[c] == FatOf(d0, g)[c]
    requires IsChain(g, FatOf(d1, g), ext[a][..n])
    ensures Span(g, n) <= |data[a]| && StoreOk(g, d1, ext[a := ext[a][..n]], data[a := data[a][..Span(g, n)]])
  {
    hide FatOf, Mirrored, Content, Secs, GoodGeo, ChainBytes, RootBytes, IsChain, Untouched, Span;
    var ch := ext[a];
    var ch' := ch[..n];
    forall b | b in ext && b != a
      ensures Untouched(g, d0, d1, ext[b]) && Apart(ch', ext[b]) && Apart(ext[b], ch')
    {
      LinksOnly(g, d0, d1, ext, a, b);
      assert forall c :: c in ch' ==> c in ch;
    }
    RootSame(g, d0, d1);
    CutBytes(g, d0, d1, ch, n);
    Rebuild(g, d0, d1, ext, ext[a := ch'], data, data[a := data[a][..Span(g, n)]], a);
  }

  lemma CutBytes(g: Geo, d0: Disk, d1: Disk, ch: Chain, n: nat)
    requires OnDisk(d0, g) && OnDisk(d1, g) && IsChain(g, FatOf(d0, g), ch) && n <= |ch|
    requires SameOutside(d0, d1, g.firstFat, g.firstRoot)
    ensures InRange(g, ch[..n])
    ensures Span(g, n) <= |ChainBytes(g, d0, ch)| && ChainBytes(g, d1, ch[..n]) == ChainBytes(g, d0, ch)[..Span(g, n)]
  {
    hide FatOf, Content, Secs, GoodGeo, ChainBytes, Span;
    DataRegion(g);
    BytesLen(g, d0, ch);
    SpanMono(g, n, |ch|);
    FatOnly(g, d0, d1, ch[..n]);
    PrefixBytes(g, d0, ch, n);
  }

  lemma FatOnly(g: Geo, d0: Disk, d1: Disk, ch: Chain)
    requires OnDisk(d0, g) && OnDisk(d1, g) && InRange(g, ch) && SameOutside(d0, d1, g.firstFat, g.firstRoot)
    ensures ChainBytes(g, d1, ch) == ChainBytes(g, d0, ch)
  {
    hide Content, Secs, GoodGeo;
    DataRegion(g);
    ExtentOk(g, d0, ch);
    var secs := Secs(g, ch);
    assert forall t :: 0 <= t < |secs| ==> secs[t] in secs;
    ContentSame(d0, d1, secs);
  }

  lemma {:induction false} PrefixBytes(g: Geo, disk: Disk, ch: Chain, n: nat)
    requires OnDisk(disk, g) && InRange(g, ch) && n <= |ch|
    ensures Span(g, n) <= |ChainBytes(g, disk, ch)|
    ensures ChainBytes(g, disk, ch[..n]) == ChainBytes(g, disk, ch)[..Span(g, n)]
    decreases |ch|
  {
    hide Content, Secs, GoodGeo, ChainBytes, Span;
    BytesLen(g, disk, ch);
    if n == |ch| {
      assert ch[..n] == ch;
    } else {
      var m := |ch| - 1;
      var front := ch[..m];
      PrefixBytes(g, disk, front, n);
      BytesLen(g, disk, front);
      assert front[..n] == ch[..n] && ch == front + [ch[m]];
      BytesSnoc(g, disk, front, ch[m]);
    }
  }

  // --- the store ---

  // Storage k may only have gained zeros at its end.
  ghost predicate Padded(x0: Data, x1: Data, k: nat) {
    && k in x0 && k in x1 && |x0[k]| <= |x1[k]|
    && x1 == x0[k := x0[k] + Zeros(|x1[k]| - |x0[k]|)]
  }

  lemma KeyRange(g: Geo, disk: Disk, ext: Exts, data: Data, k: nat)
    requires StoreOk(g, disk, ext, data) && k in data && k != 0
    ensures k in ext && 2 <= k <= g.maxCluster && |data[k]| == Span(g, |ext[k]|) && 0 < |ext[k]|
    ensures IsChain(g, FatOf(disk, g), ext[k]) && ext[k][0] == k
  {
    hide FatOf, Mirrored, Content, Secs, GoodGeo;
    ChainStart(g, FatOf(disk, g), ext[k]);
    BytesLen(g, disk, ext[k]);
  }

  lemma StoreDisk(g: Geo, disk: Disk, ext: Exts, data: Data)
    requires StoreOk(g, disk, ext, data)
    ensures OnDisk(disk, g) && Mirrored(disk, g) && GoodGeo(g) && |disk| == g.total
  {}

  lemma SpanLe(g: Geo, a: nat, b: nat)
    requires g.spc >= 1 && Span(g, a) <= Span(g, b)
    ensures a <= b
  {
    hide Span;
    if b < a {
      SpanMono(g, b + 1, a);
      SpanStep(g, b);
    }
  }

  // Cluster and sector within it of sector idx of a chain.
  function ClusterIx(g: Geo, idx: nat): nat {
    if g.spc == 0 then 0 else idx / g.spc
  }

  function SectorIx(g: Geo, idx: nat): nat {
    if g.spc == 0 then 0 else idx % g.spc
  }

  lemma IxParts(g: Geo, idx: nat)
    requires g.spc > 0
    ensures idx == ClusterIx(g, idx) * g.spc + SectorIx(g, idx) && SectorIx(g, idx) < g.spc
  {}

  ghost function SecOf(g: Geo, ch: Chain, idx: nat): nat {
    if InRange(g, ch) && idx < |Secs(g, ch)| then Secs(g, ch)[idx] else 0
  }

  // The sector of a chain that holds its bytes 512 * idx ..
  lemma SectorAt(g: Geo, ch: Chain, idx: nat)
    requires GoodGeo(g) && InRange(g, ch) && 512 * idx < Span(g, |ch|)
    ensures ClusterIx(g, idx) < |ch| && idx < |Secs(g, ch)|
    ensures SecOf(g, ch, idx) == ClusterSector(g, ch[ClusterIx(g, idx)]) + SectorIx(g, idx)
  {
    hide Secs, ClusterSector, ClusterIx, SectorIx;
    var q, r := ClusterIx(g, idx), SectorIx(g, idx);
    IxParts(g, idx);
    if q >= |ch| { MulLe(|ch|, q, g.spc); }
    SecsAt(g, ch, q, r);
  }

  // The rest of a chain from an inner cluster on.
  lemma SuffixChain(g: Geo, fat: Fat, ch: Chain, n: nat)
    requires IsChain(g, fat, ch) && n < |ch|
    ensures IsChain(g, fat, ch[n..])
  {
    var t := ch[n..];
    assert forall i :: 0 <= i < |t| ==> t[i] == ch[n + i];
    forall i | 0 <= i < |t| - 1
      ensures fat[t[i]] == t[i + 1]
    {
      assert fat[ch[n + i]] == ch[n + i + 1];
    }
  }

  // The front of a chain, ended, with the rest freed.
  lemma FrontChain(g: Geo, f0: Fat, f1: Fat, ch: Chain, n: nat)
    requires IsChain(g, f0, ch) && 0 < n <= |ch| && |f1| == |f0|
    requires forall i :: 0 <= i < n - 1 ==> f1[ch[i]] == f0[ch[i]]
    requires f1[ch[n - 1]] == FAT_EOC
    ensures IsChain(g, f1, ch[..n])
  {
    var t := ch[..n];
    assert forall i :: 0 <= i < |t| ==> t[i] == ch[i];
    forall i | 0 <= i < |t| - 1
      ensures f1[t[i]] == t[i + 1]
    {
      assert f0[ch[i]] == ch[i + 1];
    }
  }

  // The bytes of a chain, none for a file without one.
  ghost function Held(data: Data, first: nat): nat {
    if first != 0 && first in data then |data[first]| else 0
  }

  // Counting clusters and counting their bytes come to the same.
  lemma GrowFits(g: Geo, disk: Disk, ext: Exts, data: Data, first: nat, need: nat)
    requires StoreOk(g, disk, ext, data) && first in data
    ensures var n := if first != 0 && first in ext then |ext[first]| else 0;
            forall f: nat :: need <= n + f <==> Span(g, need) <= Held(data, first) + Span(g, f)
  {
    hide FatOf, Mirrored, Content, Secs, GoodGeo, ChainBytes, RootBytes, Span, IsChain;
    StoreDisk(g, disk, ext, data);
    DataRegion(g);
    var n := if first != 0 && first in ext then |ext[first]| else 0;
    if first != 0 { KeyRange(g, disk, ext, data, first); } else { SpanStep(g, 0); }
    forall f: nat
      ensures need <= n + f <==> Span(g, need) <= Held(data, first) + Span(g, f)
    {
      SpanMono(g, n, n + f);
      if need <= n + f {
        SpanMono(g, need, n + f);
      } else {
        SpanMono(g, n + f + 1, need);
        SpanStep(g, n + f);
      }
    }
  }

  class Store {
    const fs: Fs
    ghost var ext: Exts
    ghost var data: Data

    ghost predicate Ok()
      reads this, fs
    {
      StoreOk(fs.g, fs.disk, ext, data)
    }

    // Free clusters.
    ghost function Spare(): nat
      reads fs`disk
    {
      if OnDisk(fs.disk, fs.g) then FreeCount(fs.g, FatOf(fs.disk, fs.g)) else 0
    }

    constructor (fs: Fs, ghost ext: Exts, ghost data: Data)
      requires StoreOk(fs.g, fs.disk, ext, data)
      ensures this.fs == fs && this.ext == ext && this.data == data && Ok()
    {
      this.fs, this.ext, this.data := fs, ext, data;
    }

    // range_write
    method WriteAt(first: nat, off: nat, bytes: Bytes)
      requires Ok() && first in data && first != 0 && off < |data[first]| && off + |bytes| <= |data[first]|
      modifies this`data, fs`disk, fs`sec
      ensures Ok() && data == old(data)[first := Overwrite(old(data)[first], off, bytes)] && Spare() == old(Spare())
    {
      hide FatOf, Mirrored, Content, Secs, GoodGeo, ChainBytes, RootBytes, Span, Overwrite, FreeCount;
      ghost var ch := ext[first];
      KeyRange(fs.g, fs.disk, ext, data, first);
      var ok := RangeWrite(fs, first, off, bytes, ch);
      AfterWrite(fs.g, old(fs.disk), fs.disk, ext, data, first);
      data := data[first := ChainBytes(fs.g, fs.disk, ch)];
    }

    // The copy loop of read.
    method ReadAt(first: nat, off: nat, len: nat) returns (out: Bytes)
      requires Ok() && first in data && first != 0 && off < |data[first]| && off + len <= |data[first]|
      modifies fs`sec
      ensures Ok() && out == data[first][off..off + len]
    {
      hide FatOf, Mirrored, Content, Secs, GoodGeo, ChainBytes, RootBytes, Span;
      KeyRange(fs.g, fs.disk, ext, data, first);
      out := RangeRead(fs, first, off, len, ext[first]);
    }

    // ensure_chain: on a full volume an existing chain may stay longer, and
    // the clusters of a chain that was being started are lost.
    method Grow(first: nat, need: nat) returns (ok: bool, nf: nat)
      requires Ok() && first in data
      modifies this`ext, this`data, fs`disk, fs`sec
      ensures Ok()
      ensures first == 0 && (!ok || need == 0) ==> data == old(data) && (ok ==> nf == 0)
      ensures first == 0 && ok && need > 0 ==>
        nf != 0 && nf !in old(data) && data == old(data)[nf := Zeros(Span(fs.g, need))]
      ensures first != 0 ==> Padded(old(data), data, first) && (ok ==> nf == first && |data[first]| >= Span(fs.g, need))
      ensures ok <==> Span(fs.g, need) <= Held(old(data), first) + Span(fs.g, old(Spare()))
      ensures need == 0 ==> ok && nf == first && data == old(data)
    {
      hide StoreOk, FatOf, Mirrored, OnDisk, GoodGeo, Span, Grew, IsChain, FreeCount;
      StoreDisk(fs.g, fs.disk, ext, data);
      GrowFits(fs.g, fs.disk, ext, data, first, need);
      SpanStep(fs.g, 0);
      if first != 0 { KeyRange(fs.g, fs.disk, ext, data, first); }
      ghost var ch: Chain := if first == 0 then [] else ext[first];
      ghost var ch';
      ok, nf, ch' := fs.EnsureChain(first, need, ch);
      if first != 0 {
        AfterGrow(fs.g, old(fs.disk), fs.disk, ext, data, first, ch');
        GrewPrefix(fs.g, old(fs.disk), fs.disk, ch, ch');
        ghost var more := Zeros(Span(fs.g, |ch'| - |ch|));
        if need == 0 { assert more == [] && data[first] + more == data[first]; }
        ext, data := ext[first := ch'], data[first := data[first] + more];
        SpanMono(fs.g, |ch|, |ch'|);
        if ok { SpanMono(fs.g, need, |ch'|); }
      } else if ok && need > 0 {
        AfterNew(fs.g, old(fs.disk), fs.disk, ext, data, ch');
        ext, data := ext[nf := ch'], data[nf := Zeros(Span(fs.g, |ch'|))];
      } else {
        AfterLoss(fs.g, old(fs.disk), fs.disk, ext, data, ch');
      }
    }

    // cluster_alloc without a chain to extend.
    method NewCluster() returns (ok: bool, c: nat)
      requires Ok()
      modifies this`ext, this`data, fs`disk, fs`sec
      ensures Ok()
      ensures !ok ==> data == old(data)
      ensures ok ==> 2 <= c <= fs.g.maxCluster && c !in old(data) && data == old(data)[c := Zeros(512 * fs.g.spc)]
      ensures ok <==> old(Spare()) > 0
      ensures Spare() == old(Spare()) - (if ok then 1 else 0)
    {
      hide FatOf, Mirrored, Content, Secs, GoodGeo, ChainBytes, RootBytes, Span, Grew, IsChain, FreeCount, HasFree;
      NoneFree(fs.g, fs.Table());
      ok, c := fs.ClusterAlloc(0, []);
      if ok {
        assert [] + [c] == [c];
        GrewFree(fs.g, old(fs.disk), fs.disk, [], [c]);
        AfterNew(fs.g, old(fs.disk), fs.disk, ext, data, [c]);
        SpanStep(fs.g, 0);
        ext, data := ext[c := [c]], data[c := Zeros(Span(fs.g, 1))];
      }
    }

    method Free(first: nat)
      requires Ok() && first in data && first != 0
      modifies this`ext, this`data, fs`disk, fs`sec
      ensures Ok() && data == old(data) - {first}
    {
      hide FatOf, Mirrored, Content, Secs, GoodGeo, ChainBytes, RootBytes, Span;
      KeyRange(fs.g, fs.disk, ext, data, first);
      var ok := fs.FreeChain(first, ext[first]);
      AfterFree(fs.g, old(fs.disk), fs.disk, ext, data, first);
      ext, data := ext - {first}, data - {first};
    }

    // Shortening a chain to `keep` clusters, as truncate does it.
    method Cut(first: nat, keep: nat)
      requires Ok() && first in data && first != 0 && 0 < keep && Span(fs.g, keep) <= |data[first]|
      modifies this`ext, this`data, fs`disk, fs`sec
      ensures Ok() && data == old(data)[first := old(data)[first][..Span(fs.g, keep)]]
    {
      hide StoreOk, FatOf, Mirrored, OnDisk, GoodGeo, Span, Grew, IsChain, HasFree;
      StoreDisk(fs.g, fs.disk, ext, data);
      KeyRange(fs.g, fs.disk, ext, data, first);
      DataRegion(fs.g);
      ghost var ch := ext[first];
      SpanLe(fs.g, keep, |ch|);
      ghost var f0 := fs.Table();
      var ok, last := fs.ChainAt(first, keep - 1, ch);
      ChainNext(fs.g, f0, ch, keep - 1);
      ChainShape(fs.g, f0, ch);
      var rest := fs.FatNext(last);
      if rest != 0 {
        SuffixChain(fs.g, f0, ch, keep);
        ok := fs.FreeChain(rest, ch[keep..]);
        fs.FatSet(last, FAT_EOC);
      }
      CutTable(fs.g, f0, fs.Table(), ch, keep);
      AfterCut(fs.g, old(fs.disk), fs.disk, ext, data, first, keep);
      ext, data := ext[first := ch[..keep]], data[first := data[first][..Span(fs.g, keep)]];
    }

    // dir_total_bytes
    method DirTotal(d: nat) returns (n: nat)
      requires Ok() && d in data
      ensures n == |data[d]|
    {
      if d == 0 {
        n := fs.g.rootSectors * 512;
      } else {
        KeyRange(fs.g, fs.disk, ext, data, d);
        var ok, len := fs.ChainLen(d, ext[d]);
        n := len * fs.g.spc * 512;
      }
    }

    // Where dir_read_sector and dir_write_sector find a sector of a subdirectory.
    method DirSectorNumber(d: nat, idx: nat) returns (k: nat)
      requires Ok() && d in data && d != 0 && 512 * idx < |data[d]|
      ensures k == SecOf(fs.g, ext[d], idx) && InRange(fs.g, ext[d]) && idx < |Secs(fs.g, ext[d])|
    {
      KeyRange(fs.g, fs.disk, ext, data, d);
      hide FatOf, Mirrored, Content, Secs, GoodGeo, ChainBytes, RootBytes, Span, ClusterSector, ClusterIx, SectorIx,
           SecOf;
      SectorAt(fs.g, ext[d], idx);
      var ok, clu := fs.ChainAt(d, ClusterIx(fs.g, idx), ext[d]);
      k := ClusterSector(fs.g, clu) + SectorIx(fs.g, idx);
    }

    // dir_read_sector
    method DirSector(d: nat, idx: nat) returns (s: Sector)
      requires Ok() && d in data && 512 * idx + 512 <= |data[d]|
      ensures s == data[d][512 * idx..512 * idx + 512]
    {
      hide FatOf, Mirrored, Content, Secs, GoodGeo, Span, ClusterSector;
      if d == 0 {
        RootWithin(fs.g, fs.disk);
        ContentSector(fs.disk, RootSecs(fs.g), idx);
        s := fs.disk[fs.g.firstRoot + idx];
      } else {
        var k := DirSectorNumber(d, idx);
        ExtentOk(fs.g, fs.disk, ext[d]);
        ContentSector(fs.disk, Secs(fs.g, ext[d]), idx);
        s := fs.disk[k];
      }
    }

    // dir_write_sector
    method PutDirSector(d: nat, idx: nat, s: Sector)
      requires Ok() && d in data && 512 * idx + 512 <= |data[d]|
      modifies this`data, fs`disk
      ensures Ok() && data == old(data)[d := Overwrite(old(data)[d], 512 * idx, s)] && Spare() == old(Spare())
    {
      hide FatOf, Mirrored, Content, Secs, GoodGeo, RootBytes, ChainBytes, Span, ClusterSector, Overwrite, FreeCount;
      if d == 0 {
        RootPut(fs.g, fs.disk, ext, data, idx, s);
        fs.disk := fs.disk[fs.g.firstRoot + idx := s];
      } else {
        var k := DirSectorNumber(d, idx);
        ChainPut(fs.g, fs.disk, ext, data, d, idx, s);
        fs.disk := fs.disk[k := s];
      }
      data := data[d := Overwrite(data[d], 512 * idx, s)];
    }

    // The growth step of dir_append.
    method ExtendDir(d: nat) returns (ok: bool)
      requires Ok() && d in data && d != 0
      modifies this`ext, this`data, fs`disk, fs`sec
      ensures Ok()
      ensures data == if ok then old(data)[d := old(data)[d] + Zeros(512 * fs.g.spc)] else old(data)
      ensures ok <==> old(Spare()) > 0
      ensures Spare() == old(Spare()) - (if ok then 1 else 0)
    {
      hide StoreOk, FatOf, Mirrored, OnDisk, GoodGeo, Span, Grew, IsChain, HasFree, FreeCount;
      StoreDisk(fs.g, fs.disk, ext, data);
      NoneFree(fs.g, fs.Table());
      KeyRange(fs.g, fs.disk, ext, data, d);
      ghost var ch := ext[d];
      var good, len := fs.ChainLen(d, ch);
      var last;
      good, last := fs.ChainAt(d, len - 1, ch);
      var nc;
      ok, nc := fs.ClusterAlloc(last, ch);
      if ok {
        AfterGrow(fs.g, old(fs.disk), fs.disk, ext, data, d, ch + [nc]);
        GrewFree(fs.g, old(fs.disk), fs.disk, ch, ch + [nc]);
        SpanStep(fs.g, 0);
        assert |ch + [nc]| - |ch| == 1;
        ext, data := ext[d := ch + [nc]], data[d := data[d] + Zeros(Span(fs.g, 1))];
      }
    }
  }

  lemma GrewPrefix(g: Geo, d0: Disk, d1: Disk, a: Chain, b: Chain)
    requires Grew(g, d0, d1, a, b)
    ensures |a| <= |b| && (a != [] ==> b[0] == a[0])
  {}

  // The table after truncate's cut.
  lemma CutTable(g: Geo, f0: Fat, f1: Fat, ch: Chain, n: nat)
    requires GoodGeo(g) && IsChain(g, f0, ch) && 0 < n <= |ch| && |f1| == |f0|
    requires if n == |ch| then f1 == f0 else
             forall c :: 0 <= c <= g.maxCluster ==>
               f1[c] == if c == ch[n - 1] then FAT_EOC else if c in ch[n..] then FAT_FREE else f0[c]
    ensures IsChain(g, f1, ch[..n])
    ensures forall c :: 0 <= c <= g.maxCluster && c !in ch ==> f1[c] == f0[c]
  {
    if n < |ch| {
      forall i | 0 <= i < n - 1
        ensures f1[ch[i]] == f0[ch[i]]
      {
        assert ch[i] !in ch[n..];
      }
      assert forall c :: c in ch[n..] ==> c in ch;
    }
    FrontChain(g, f0, f1, ch, n);
  }

  lemma RootPut(g: Geo, disk: Disk, ext: Exts, data: Data, idx: nat, s: Sector)
    requires StoreOk(g, disk, ext, data) && 512 * idx + 512 <= |data[0]|
    ensures g.firstRoot + idx < |disk|
    ensures StoreOk(g, disk[g.firstRoot + idx := s], ext, data[0 := Overwrite(data[0], 512 * idx, s)])
    ensures FatOf(disk[g.firstRoot + idx := s], g) == FatOf(disk, g)
  {
    RootWithin(g, disk);
    DataRegion(g);
    hide FatOf, Mirrored, Content, Secs, GoodGeo, ChainBytes, Overwrite;
    var secs := RootSecs(g);
    assert secs[idx] == g.firstRoot + idx;
    ContentUpdate(disk, secs, idx, s);
    var disk' := disk[g.firstRoot + idx := s];
    TableUntouched(disk, disk', g);
    AfterRootWrite(g, disk, disk', ext, data);
  }

  lemma ChainPut(g: Geo, disk: Disk, ext: Exts, data: Data, d: nat, idx: nat, s: Sector)
    requires StoreOk(g, disk, ext, data) && d in ext && InRange(g, ext[d]) && 512 * idx + 512 <= |data[d]|
    requires idx < |Secs(g, ext[d])|
    ensures Secs(g, ext[d])[idx] < |disk|
    ensures StoreOk(g, disk[Secs(g, ext[d])[idx] := s], ext, data[d := Overwrite(data[d], 512 * idx, s)])
    ensures FatOf(disk[Secs(g, ext[d])[idx] := s], g) == FatOf(disk, g)
  {
    hide FatOf, Mirrored, Content, Secs, GoodGeo, RootBytes, Overwrite;
    var ch := ext[d];
    ExtentOk(g, disk, ch);
    var secs := Secs(g, ch);
    assert secs[idx] in secs;
    ContentUpdate(disk, secs, idx, s);
    DataWrite(g, disk, secs[idx], s);
    var disk' := disk[secs[idx] := s];
    AfterWrite(g, disk, disk', ext, data, d);
  }
}
