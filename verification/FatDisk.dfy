// Sectors, geometry and the mirrored tables of vnu/kernel/fs/fat16.cpp.
module FatDisk {
  import opened Wrappers

  const SECTOR: nat := 512
  const FAT_FREE: int := 0x0000
  const FAT_EOC: int := 0xFFFF
  const FAT_BAD: int := 0xFFF7
  const FAT16_MAX_CLUSTER: nat := 0xFFF4

  type Bytes = seq<Byte>
  type Sector = s: Bytes | |s| == 512 witness seq(512, _ => 0)
  type Disk = seq<Sector>
  type Fat = seq<int>

  function Zeros(n: nat): (z: Bytes)
    ensures |z| == n
  {
    seq(n, _ => 0)
  }

  datatype Geo = Geo(
    total: nat, spc: nat, fatsz: nat, numFats: nat, rootSectors: nat,
    firstFat: nat, firstRoot: nat, firstData: nat, maxCluster: nat)

  // What mount() establishes: regions in order, every cluster inside the
  // volume and inside the table.
  ghost predicate GoodGeo(g: Geo) {
    && 1 <= g.spc <= 128 && 1 <= g.fatsz && 1 <= g.numFats && 1 <= g.firstFat && 1 <= g.rootSectors
    && g.firstRoot == g.firstFat + g.numFats * g.fatsz
    && g.firstData == g.firstRoot + g.rootSectors
    && 2 <= g.maxCluster && g.maxCluster + 1 <= FAT16_MAX_CLUSTER
    && g.maxCluster + 1 <= 256 * g.fatsz
    && g.firstData + (g.maxCluster - 1) * g.spc <= g.total
  }

  // --- little-endian fields ---

  function Rd16(b: Bytes, o: nat): (v: int)
    requires o + 2 <= |b|
    ensures 0 <= v < 0x1_0000
  {
    b[o] as int + 256 * (b[o + 1] as int)
  }

  function Rd32(b: Bytes, o: nat): (v: nat)
    requires o + 4 <= |b|
  {
    b[o] as int + 256 * (b[o + 1] as int) + 0x1_0000 * (b[o + 2] as int) + 0x100_0000 * (b[o + 3] as int)
  }

  function Wr16(b: Bytes, o: nat, v: int): (r: Bytes)
    requires o + 2 <= |b| && 0 <= v < 0x1_0000
    ensures |r| == |b| && Rd16(r, o) == v
    ensures forall i :: 0 <= i < |b| && i != o && i != o + 1 ==> r[i] == b[i]
  {
    b[o := v % 256][o + 1 := v / 256]
  }

  // --- the tables ---

  function FatSector(g: Geo, copy: nat, c: nat): nat {
    g.firstFat + copy * g.fatsz + c / 256
  }

  lemma FatSectorInRange(g: Geo, copy: nat, c: nat)
    requires GoodGeo(g) && copy < g.numFats && c <= g.maxCluster
    ensures g.firstFat <= FatSector(g, copy, c) < g.firstRoot <= g.total
  {
    RowFits(g, c);
    hide GoodGeo;
    MulStep(copy, g.numFats, g.fatsz);
  }

  lemma RowFits(g: Geo, c: nat)
    requires GoodGeo(g) && c <= g.maxCluster
    ensures c / 256 < g.fatsz && g.firstRoot == g.firstFat + g.numFats * g.fatsz && g.firstRoot <= g.total
  {
    MulNonneg(g.maxCluster - 1, g.spc);
  }

  lemma MulStep(a: nat, b: nat, c: nat)
    requires a < b
    ensures a * c + c <= b * c
  {
    assert (a + 1) * c <= b * c by { MulLe(a + 1, b, c); }
  }

  lemma MulLe(a: nat, b: nat, c: nat)
    requires a <= b
    ensures a * c <= b * c
  {}

  lemma MulNonneg(a: nat, b: nat)
    ensures a * b >= 0
  {}

  // Different copies, or different rows of one copy, are different sectors.
  lemma FatSectorsDiffer(g: Geo, p: nat, c: nat, q: nat, d: nat)
    requires GoodGeo(g) && c <= g.maxCluster && d <= g.maxCluster
    requires p != q || c / 256 != d / 256
    ensures FatSector(g, p, c) != FatSector(g, q, d)
  {
    RowFits(g, c);
    RowFits(g, d);
    hide GoodGeo;
    if p < q {
      MulStep(p, q, g.fatsz);
    } else if q < p {
      MulStep(q, p, g.fatsz);
    }
  }

  ghost predicate OnDisk(disk: Disk, g: Geo) {
    GoodGeo(g) && |disk| == g.total
  }

  function FatAt(disk: Disk, g: Geo, copy: nat, c: nat): (v: int)
    requires OnDisk(disk, g) && copy < g.numFats && c <= g.maxCluster
    ensures 0 <= v < 0x1_0000
  {
    FatSectorInRange(g, copy, c);
    Rd16(disk[FatSector(g, copy, c)], 2 * (c % 256))
  }

  function FatOf(disk: Disk, g: Geo): (f: Fat)
    requires OnDisk(disk, g)
    ensures |f| == g.maxCluster + 1
  {
    seq(g.maxCluster + 1, c requires 0 <= c <= g.maxCluster => FatAt(disk, g, 0, c))
  }

  ghost predicate Mirrored(disk: Disk, g: Geo)
    requires OnDisk(disk, g)
  {
    forall p, c :: 0 <= p < g.numFats && 0 <= c <= g.maxCluster ==> FatAt(disk, g, p, c) == FatAt(disk, g, 0, c)
  }

  // Two disks that differ at most inside [lo, hi).
  ghost predicate SameOutside(a: Disk, b: Disk, lo: nat, hi: nat) {
    |a| == |b| && forall k :: 0 <= k < |a| && !(lo <= k < hi) ==> a[k] == b[k]
  }

  // Rewriting one entry's sector of one copy.
  lemma SetOneCopy(disk: Disk, g: Geo, copy: nat, c: nat, v: int, disk': Disk)
    requires OnDisk(disk, g) && copy < g.numFats && c <= g.maxCluster && 0 <= v < 0x1_0000
    requires FatSector(g, copy, c) < |disk|
    requires disk' == disk[FatSector(g, copy, c) := Wr16(disk[FatSector(g, copy, c)], 2 * (c % 256), v)]
    ensures OnDisk(disk', g) && SameOutside(disk, disk', g.firstFat, g.firstRoot)
    ensures forall p, d :: 0 <= p < g.numFats && 0 <= d <= g.maxCluster ==>
      FatAt(disk', g, p, d) == if p == copy && d == c then v else FatAt(disk, g, p, d)
  {
    FatSectorInRange(g, copy, c);
    forall p, d | 0 <= p < g.numFats && 0 <= d <= g.maxCluster
      ensures FatAt(disk', g, p, d) == if p == copy && d == c then v else FatAt(disk, g, p, d)
    {
      OtherEntry(disk, g, copy, c, v, disk', p, d);
    }
  }

  lemma OtherEntry(disk: Disk, g: Geo, copy: nat, c: nat, v: int, disk': Disk, p: nat, d: nat)
    requires OnDisk(disk, g) && copy < g.numFats && c <= g.maxCluster && 0 <= v < 0x1_0000
    requires FatSector(g, copy, c) < |disk|
    requires disk' == disk[FatSector(g, copy, c) := Wr16(disk[FatSector(g, copy, c)], 2 * (c % 256), v)]
    requires p < g.numFats && d <= g.maxCluster
    ensures FatAt(disk', g, p, d) == if p == copy && d == c then v else FatAt(disk, g, p, d)
  {
    hide GoodGeo, Wr16;
    FatSectorInRange(g, p, d);
    if p != copy || c / 256 != d / 256 {
      FatSectorsDiffer(g, copy, c, p, d);
    } else if d != c {
      assert c % 256 != d % 256;
    }
  }

  // What fat_set does to the table: one entry, in every copy.
  lemma TableAfterSet(disk: Disk, disk': Disk, g: Geo, c: nat, v: int)
    requires OnDisk(disk, g) && OnDisk(disk', g) && Mirrored(disk, g) && c <= g.maxCluster
    requires forall p, d :: 0 <= p < g.numFats && 0 <= d <= g.maxCluster ==>
      FatAt(disk', g, p, d) == if d == c then v else FatAt(disk, g, p, d)
    ensures Mirrored(disk', g) && FatOf(disk', g) == FatOf(disk, g)[c := v]
  {
    hide FatAt;
    assert forall d :: 0 <= d <= g.maxCluster ==> FatAt(disk', g, 0, d) == if d == c then v else FatAt(disk, g, 0, d);
  }

  // Sectors outside the tables leave them alone.
  lemma TableUntouched(disk: Disk, disk': Disk, g: Geo)
    requires OnDisk(disk, g) && OnDisk(disk', g)
    requires forall k :: g.firstFat <= k < g.firstRoot && k < |disk| ==> disk'[k] == disk[k]
    ensures FatOf(disk', g) == FatOf(disk, g) && (Mirrored(disk, g) ==> Mirrored(disk', g))
  {
    forall p, c | 0 <= p < g.numFats && 0 <= c <= g.maxCluster
      ensures FatAt(disk', g, p, c) == FatAt(disk, g, p, c)
    {
      FatSectorInRange(g, p, c);
    }
  }
}
