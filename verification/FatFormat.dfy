// format and mount (vnu/kernel/fs/fat16.cpp).
module FatFormat {
  import opened FatDisk
  import opened FatExtent
  import opened FatChain
  import opened FatData
  import opened FatStore
  import opened FatNames
  import opened FatSlots
  import opened FatRows
  import opened FatModel

  const FAT16_MIN_CLUSTERS: nat := 4085

  predicate PowerOfTwo(b: int) {
    b in {1, 2, 4, 8, 16, 32, 64, 128}
  }

  // Clusters in the data region.
  function Clusters(total: nat, firstData: nat, spc: nat): nat {
    if spc == 0 || total < firstData then 0 else (total - firstData) / spc
  }

  // Geometry as format lays it down.
  ghost predicate Laid(g: Geo) {
    && GoodGeo(g) && PowerOfTwo(g.spc) && g.fatsz <= 0xFFFF && g.numFats == 2 && g.rootSectors == 32 && g.firstFat == 1
    && g.total < 0x1_0000_0000 && g.firstData < g.total
    && g.maxCluster == Clusters(g.total, g.firstData, g.spc) + 1 && FAT16_MIN_CLUSTERS < g.maxCluster
  }

  // The cluster size format settles on.
  ghost predicate Chosen(total: nat, spc: nat) {
    PowerOfTwo(spc) && (total / spc <= 60000 || spc == 128) && (spc == 1 || total / (spc / 2) > 60000)
  }

  method ClusterSize(total: nat) returns (spc: nat)
    ensures Chosen(total, spc)
  {
    spc := 1;
    while total / spc > 60000 && spc < 128
      invariant PowerOfTwo(spc) && (spc == 1 || total / (spc / 2) > 60000)
      decreases 128 - spc
    {
      spc := spc * 2;
    }
  }

  // Sectors of a table for this many clusters.
  function TableSectors(clusters: nat): (n: nat)
    ensures n >= 1
  {
    ((clusters + 2) * 2 + 511) / 512
  }

  // The size the loop settles on: that of a volume with one-sector tables.
  function TableFor(total: nat, spc: nat): (n: nat)
    ensures n >= 1
  {
    TableSectors(Clusters(total, 35, spc))
  }

  lemma FewerClusters(total: nat, a: nat, b: nat, spc: nat)
    requires a <= b <= total && 1 <= spc
    ensures Clusters(total, b, spc) <= Clusters(total, a, spc)
    ensures TableSectors(Clusters(total, b, spc)) <= TableSectors(Clusters(total, a, spc))
  {
    DivMono(total - b, total - a, spc);
    SectorsMono(Clusters(total, b, spc), Clusters(total, a, spc));
  }

  lemma SectorsMono(a: nat, b: nat)
    requires a <= b
    ensures TableSectors(a) <= TableSectors(b)
  {}

  lemma DivMono(a: nat, b: nat, m: nat)
    requires a <= b && m > 0
    ensures a / m <= b / m
  {
    QuotientBounds(a, m);
    QuotientBounds(b, m);
    if a / m > b / m {
      MulLe(b / m + 1, a / m, m);
    }
  }

  // A table that covers its clusters, found in at most two rounds.
  method TableSize(total: nat, spc: nat) returns (ok: bool, fatsz: nat)
    requires 1 <= spc
    ensures ok <==> 35 < total && TableFor(total, spc) <= 0xFFFF && 33 + 2 * TableFor(total, spc) < total
    ensures ok ==> fatsz == TableFor(total, spc) && TableSectors(Clusters(total, 33 + 2 * fatsz, spc)) <= fatsz
  {
    hide Clusters, TableSectors;
    fatsz := 1;
    while true
      invariant 1 <= fatsz <= 0xFFFF && (fatsz == 1 || (fatsz == TableFor(total, spc) && 35 < total))
      decreases 0xFFFF - fatsz
    {
      if total <= 1 + 2 * fatsz + 32 {
        return false, 0;
      }
      var clusters := Clusters(total, 33 + 2 * fatsz, spc);
      FewerClusters(total, 35, 33 + 2 * fatsz, spc);
      var fatsecs := TableSectors(clusters);
      if fatsecs <= fatsz {
        return true, fatsz;
      }
      fatsz := fatsecs;
      if fatsz > 0xFFFF {
        return false, 0;
      }
    }
  }

  // The sector counts format can lay a volume on.
  predicate Formattable(total: nat) {
    4152 <= total <= 8387488
  }

  // What format checks at the end, given its choices.
  ghost predicate Accepted(total: nat, spc: nat) {
    && 35 < total && TableFor(total, spc) <= 0xFFFF && 33 + 2 * TableFor(total, spc) < total
    && FAT16_MIN_CLUSTERS <= Clusters(total, 33 + 2 * TableFor(total, spc), spc)
    && Clusters(total, 33 + 2 * TableFor(total, spc), spc) + 2 <= FAT16_MAX_CLUSTER
  }

  lemma AcceptedSmall(total: nat)
    requires total <= 60000
    ensures Accepted(total, 1) <==> Formattable(total)
  {}

  lemma AcceptedMiddle(total: nat, spc: nat)
    requires spc in {2, 4, 8, 16, 32, 64} && Chosen(total, spc)
    ensures Accepted(total, spc) && Formattable(total)
  {
    if spc == 2 {
      assert 60001 <= total <= 120001;
    } else if spc == 4 {
      assert 120002 <= total <= 240003;
    } else if spc == 8 {
      assert 240004 <= total <= 480007;
    } else if spc == 16 {
      assert 480008 <= total <= 960015;
    } else if spc == 32 {
      assert 960016 <= total <= 1920031;
    } else {
      assert 1920032 <= total <= 3840063;
    }
  }

  lemma AcceptedLarge(total: nat)
    requires 3840064 <= total < 0x1_0000_0000
    ensures Accepted(total, 128) <==> Formattable(total)
  {
    var c := (total - 35) / 128;
    var s := ((c + 2) * 2 + 511) / 512;
    assert TableFor(total, 128) == s;
  }

  lemma WhenAccepted(total: nat, spc: nat)
    requires Chosen(total, spc) && total < 0x1_0000_0000
    ensures Accepted(total, spc) <==> Formattable(total)
  {
    hide Accepted, Formattable;
    if spc == 1 {
      AcceptedSmall(total);
    } else if spc == 128 {
      AcceptedLarge(total);
    } else {
      AcceptedMiddle(total, spc);
    }
  }

  // The sizes of format: sectors per cluster, then the table.
  method Geometry(total: nat) returns (ok: bool, g: Geo)
    requires total < 0x1_0000_0000
    ensures ok <==> Formattable(total)
    ensures ok ==> Laid(g) && g.total == total
  {
    hide Clusters, TableFor, Formattable, TableSectors;
    g := Geo(0, 0, 0, 0, 0, 0, 0, 0, 0);
    var spc := ClusterSize(total);
    WhenAccepted(total, spc);
    var fatsz;
    ok, fatsz := TableSize(total, spc);
    if !ok {
      return;
    }
    var clusters := Clusters(total, 33 + 2 * fatsz, spc);
    if clusters < FAT16_MIN_CLUSTERS || clusters + 2 > FAT16_MAX_CLUSTER {
      return false, g;
    }
    TableCoversThem(clusters, fatsz);
    g := Geo(total, spc, fatsz, 2, 32, 1, 1 + 2 * fatsz, 33 + 2 * fatsz, clusters + 1);
    ClustersFit(total, 33 + 2 * fatsz, spc);
  }

  lemma TableCoversThem(clusters: nat, fatsz: nat)
    requires TableSectors(clusters) <= fatsz
    ensures clusters + 2 <= 256 * fatsz
  {}

  lemma ClustersFit(total: nat, firstData: nat, spc: nat)
    requires firstData <= total && 1 <= spc
    ensures firstData + Clusters(total, firstData, spc) * spc <= total
  {
    QuotientBounds(total - firstData, spc);
  }

  // --- the boot sector ---

  // The fields mount reads.
  ghost predicate BootOf(b: Sector, g: Geo) {
    && b[510] == 0x55 && b[511] == 0xAA && Rd16(b, 11) == 512 && b[13] == g.spc && Rd16(b, 14) == 1 && b[16] == 2
    && Rd16(b, 17) == 512 && Rd16(b, 22) == g.fatsz
    && (if g.total < 65536 then Rd16(b, 19) == g.total else Rd16(b, 19) == 0 && Rd32(b, 32) == g.total)
  }

  // copy_padded at offset o.
  method CopyPadded(b: Bytes, o: nat, cap: nat, src: Bytes) returns (r: Bytes)
    requires o + cap <= |b|
    ensures |r| == |b| && forall k :: 0 <= k < |b| && !(o <= k < o + cap) ==> r[k] == b[k]
    ensures forall k :: o <= k < o + cap ==> r[k] == if k - o < |src| then src[k - o] else SPACE
  {
    r := b;
    for i := 0 to cap
      invariant |r| == |b| && forall k :: 0 <= k < |b| && !(o <= k < o + i) ==> r[k] == b[k]
      invariant forall k :: o <= k < o + i ==> r[k] == SPACE
    {
      r := r[o + i := SPACE];
    }
    ghost var blank := r;
    var i := 0;
    while i < |src| && i < cap
      invariant i <= |src| && i <= cap && |r| == |b|
      invariant forall k :: 0 <= k < |b| && !(o <= k < o + i) ==> r[k] == blank[k]
      invariant forall k :: o <= k < o + i ==> r[k] == src[k - o]
    {
      r := r[o + i := src[i]];
      i := i + 1;
    }
  }

  function Wr32(b: Bytes, o: nat, v: nat): (r: Bytes)
    requires o + 4 <= |b| && v < 0x1_0000_0000
    ensures |r| == |b| && Rd32(r, o) == v
    ensures forall i :: 0 <= i < |b| && !(o <= i < o + 4) ==> r[i] == b[i]
  {
    Le32RoundTrip(v);
    b[o := Le32(v)[0]][o + 1 := Le32(v)[1]][o + 2 := Le32(v)[2]][o + 3 := Le32(v)[3]]
  }

  method BootSector(g: Geo, partLba: nat, oem: Bytes, tag: Bytes, volumeId: nat) returns (s: Sector)
    requires Laid(g) && partLba < 0x1_0000_0000 && volumeId < 0x1_0000_0000
    ensures BootOf(s, g)
  {
    hide Wr16, Wr32, GoodGeo, Rd16, Rd32;
    var b: Bytes := Zeros(512);
    b := b[0 := 0xEB][1 := 0x3C][2 := 0x90];
    b := CopyPadded(b, 3, 8, oem);
    b := CopyPadded(b, 43, 11, tag);
    b := Wr32(Wr16(Wr16(b, 24, 63), 26, 255), 28, partLba);
    b := b[21 := 0xF8][36 := 0x80][38 := 0x29];
    b := Wr32(b, 39, volumeId);
    b := FsType(b);
    b := Fields(b, g);
    s := b;
  }

  method FsType(b: Bytes) returns (r: Bytes)
    requires |b| == 512
    ensures |r| == 512
  {
    r := b[54 := 70][55 := 65][56 := 84][57 := 49][58 := 54][59 := 32][60 := 32][61 := 32];
  }

  // The fields that describe the volume.
  method Fields(b: Bytes, g: Geo) returns (r: Sector)
    requires |b| == 512 && Laid(g)
    ensures BootOf(r, g)
  {
    hide GoodGeo, Wr16, Wr32;
    r := Wr16(b, 11, 512);
    r := r[13 := g.spc];
    r := Wr16(r, 14, 1);
    r := r[16 := 2];
    r := Wr16(r, 17, 512);
    if g.total < 65536 {
      r := Wr16(r, 19, g.total);
      r := Wr32(r, 32, 0);
    } else {
      r := Wr16(r, 19, 0);
      r := Wr32(r, 32, g.total);
    }
    r := Wr16(r, 22, g.fatsz);
    r := r[510 := 0x55][511 := 0xAA];
  }

  // --- mount ---

  // mount reads back exactly the geometry format laid down.
  method Mount(disk: Disk) returns (ok: bool, g: Geo)
    requires |disk| > 0
    ensures ok ==> PowerOfTwo(g.spc) && g.firstRoot == g.firstFat + g.numFats * g.fatsz
    ensures ok ==> g.firstData == g.firstRoot + g.rootSectors < g.total
    ensures ok ==> FAT16_MIN_CLUSTERS < g.maxCluster < FAT16_MAX_CLUSTER && 1 <= g.fatsz && 1 <= g.numFats
    ensures ok ==> 1 <= g.firstFat
    ensures forall h :: Laid(h) && BootOf(disk[0], h) ==> ok && g == h
  {
    hide GoodGeo, Clusters;
    g := Geo(0, 0, 0, 0, 0, 0, 0, 0, 0);
    var b := disk[0];
    if b[510] != 0x55 || b[511] != 0xAA || Rd16(b, 11) != 512 || !PowerOfTwo(b[13]) {
      return false, g;
    }
    var spc: nat, reserved: nat, numFats: nat, rootEntries: nat := b[13], Rd16(b, 14), b[16], Rd16(b, 17);
    var tot: nat := Rd16(b, 19);
    if tot == 0 {
      tot := Rd32(b, 32);
    }
    var fatsz: nat := Rd16(b, 22);
    if reserved == 0 || numFats == 0 || fatsz == 0 {
      BootFields(b);
      return false, g;
    }
    ok, g := Layout(tot, spc, fatsz, numFats, rootEntries, reserved);
    forall h | Laid(h) && BootOf(b, h)
      ensures ok && g == h
    {
      BootTotal(b, h);
      LaidFields(h);
      assert LaidAs(h, tot, spc, fatsz, numFats, rootEntries, reserved);
    }
  }

  lemma BootFields(b: Sector)
    ensures forall h :: Laid(h) && BootOf(b, h) ==> Rd16(b, 14) == 1 && b[16] == 2 && Rd16(b, 22) > 0
  {
    hide Rd16, Rd32, Clusters;
  }

  lemma BootTotal(b: Sector, h: Geo)
    requires Laid(h) && BootOf(b, h)
    ensures h.total == if Rd16(b, 19) == 0 then Rd32(b, 32) else Rd16(b, 19)
  {
    hide GoodGeo, Rd16, Rd32, Clusters;
  }

  lemma LaidFields(h: Geo)
    requires Laid(h)
    ensures h.firstRoot == 1 + 2 * h.fatsz && h.firstData == h.firstRoot + 32 && h.maxCluster + 1 <= FAT16_MAX_CLUSTER
    ensures 1 <= h.fatsz
  {}

  // The regions and the checks behind them.
  method Layout(tot: nat, spc: nat, fatsz: nat, numFats: nat, rootEntries: nat, reserved: nat)
    returns (ok: bool, g: Geo)
    ensures ok ==> g.spc == spc && g.fatsz == fatsz && g.numFats == numFats && g.firstFat == reserved && g.total == tot
    ensures ok ==> g.firstRoot == g.firstFat + g.numFats * g.fatsz
    ensures ok ==> g.firstData == g.firstRoot + g.rootSectors < g.total
    ensures ok ==> FAT16_MIN_CLUSTERS < g.maxCluster < FAT16_MAX_CLUSTER
    ensures forall h :: LaidAs(h, tot, spc, fatsz, numFats, rootEntries, reserved) ==> ok && g == h
  {
    hide Clusters;
    var rootSectors := (rootEntries * 32 + 511) / 512;
    var firstRoot := reserved + numFats * fatsz;
    var firstData := firstRoot + rootSectors;
    g := Geo(0, 0, 0, 0, 0, 0, 0, 0, 0);
    if tot <= firstData {
      return false, g;
    }
    var clusters := Clusters(tot, firstData, spc);
    if clusters < FAT16_MIN_CLUSTERS || clusters + 2 > FAT16_MAX_CLUSTER {
      return false, g;
    }
    g := Geo(tot, spc, fatsz, numFats, rootSectors, reserved, firstRoot, firstData, clusters + 1);
    ok := true;
  }

  ghost predicate LaidAs(h: Geo, tot: nat, spc: nat, fatsz: nat, numFats: nat, rootEntries: nat, reserved: nat) {
    && h.total == tot && h.spc == spc && h.fatsz == fatsz && numFats == 2 && rootEntries == 512 && reserved == 1
    && h.numFats == 2 && h.rootSectors == 32 && h.firstFat == 1 && h.firstRoot == 1 + 2 * fatsz
    && h.firstData == 33 + 2 * fatsz
    && h.firstData < h.total && h.maxCluster == Clusters(tot, h.firstData, spc) + 1
    && FAT16_MIN_CLUSTERS < h.maxCluster && h.maxCluster + 1 <= FAT16_MAX_CLUSTER
  }

  // --- format ---

  method ZeroSectors(disk: Disk, rel: nat, count: nat) returns (r: Disk)
    requires rel + count <= |disk|
    ensures SameOutside(disk, r, rel, rel + count) && forall k :: rel <= k < rel + count ==> r[k] == Zeros(512)
  {
    r := disk;
    for i := 0 to count
      invariant SameOutside(disk, r, rel, rel + count) && forall k :: rel <= k < rel + i ==> r[k] == Zeros(512)
    {
      r := r[rel + i := Zeros(512)];
    }
  }

  function FatHead(): (s: Sector) {
    Wr16(Wr16(Zeros(512), 0, 0xFFF8), 2, 0xFFFF)
  }

  // Both tables: the two reserved entries, then free ones.
  ghost predicate FreshTables(disk: Disk, g: Geo) {
    && OnDisk(disk, g) && g.numFats == 2 && g.firstFat == 1 && 1 + 2 * g.fatsz <= |disk|
    && forall k :: 1 <= k < 1 + 2 * g.fatsz ==> disk[k] == if k == 1 || k == 1 + g.fatsz then FatHead() else Zeros(512)
  }

  lemma FreshEntry(disk: Disk, g: Geo, p: nat, c: nat)
    requires FreshTables(disk, g) && p < 2 && c <= g.maxCluster
    ensures FatAt(disk, g, p, c) == if c == 0 then 0xFFF8 else if c == 1 then 0xFFFF else FAT_FREE
  {
    FatSectorInRange(g, p, c);
    RowFits(g, c);
    hide GoodGeo, Wr16;
    var k := FatSector(g, p, c);
    assert p * g.fatsz == if p == 0 then 0 else g.fatsz;
    assert k == 1 + p * g.fatsz + c / 256;
    if c / 256 == 0 {
      HeadEntries(c);
    }
  }

  lemma HeadEntries(c: nat)
    requires c < 256
    ensures Rd16(FatHead(), 2 * c) == if c == 0 then 0xFFF8 else if c == 1 then 0xFFFF else 0
  {
    hide Wr16;
  }

  lemma FreshVolume(disk: Disk, g: Geo)
    requires FreshTables(disk, g)
    ensures Mirrored(disk, g) && forall c :: 2 <= c <= g.maxCluster ==> FatOf(disk, g)[c] == FAT_FREE
  {
    hide FatAt, GoodGeo;
    forall p, c | 0 <= p < 2 && 0 <= c <= g.maxCluster
      ensures FatAt(disk, g, p, c) == if c == 0 then 0xFFF8 else if c == 1 then 0xFFFF else FAT_FREE
    {
      FreshEntry(disk, g, p, c);
    }
  }

  // The row of the volume name.
  method LabelRow(tag: Bytes) returns (e: Row, ghost s: Slot)
    requires NulFree(tag)
    ensures SlotOk(s) && RowsOf(s) == [e] && !Visible(s)
  {
    var b: Bytes := Zeros(32);
    b := CopyPadded(b, 0, 11, tag);
    e := b[11 := ATTR_VOLUME];
    s := if e[0] == 0xE5 then Dead([e]) else Group([], e);
  }

  // A root directory that holds one row.
  lemma RootDir(g: Geo, disk: Disk, e: Row, s: Slot)
    requires OnDisk(disk, g) && g.firstRoot < |disk| && disk[g.firstRoot] == Overwrite(Zeros(512), 0, e)
    requires SlotOk(s) && RowsOf(s) == [e]
    ensures DirOk(RootBytes(g, disk), [s])
  {
    RootWithin(g, disk);
    DataRegion(g);
    var b := RootBytes(g, disk);
    ContentSector(disk, RootSecs(g), 0);
    assert RootSecs(g)[0] == g.firstRoot;
    Mult(|b|, 512, g.rootSectors);
    hide GoodGeo, RootBytes, SlotOk, RowsOf, Content, RootSecs;
    FirstRows(b, e);
    FlatSnoc([], s);
    assert [] + [s] == [s];
    hide Rows, Flat;
    PrefixIs(Flat([s]), Rows(b));
  }

  lemma FirstRows(b: Bytes, e: Row)
    requires |b| >= 512 && b[512 * 0..512 * 0 + 512] == Overwrite(Zeros(512), 0, e)
    ensures |Rows(b)| >= 2 && Rows(b)[0] == e && Rows(b)[1][0] == 0
  {
    var s := b[0..512];
    assert Rows(b)[0] == RowAt(b, 0) == s[0..32];
    assert s[0..32] == e;
    assert Rows(b)[1][0] == s[32];
  }

  // An empty volume means the empty map.
  lemma EmptyVolume(g: Geo, disk: Disk, s: Slot)
    requires FreshTables(disk, g) && DirOk(RootBytes(g, disk), [s]) && !Visible(s)
    ensures StoreOk(g, disk, map[], map[0 := RootBytes(g, disk)])
    ensures Means(map[0 := RootBytes(g, disk)], map[0 := [s]], map[])
  {
    FreshVolume(disk, g);
    hide GoodGeo, FatOf, Mirrored, DirOk, Visible, RootBytes;
  }

  method Format(disk0: Disk, partLba: nat, oem: Bytes, tag: Bytes, volumeId: nat)
    returns (ok: bool, disk: Disk, ghost g: Geo, ghost s: Slot)
    requires |disk0| < 0x1_0000_0000 && partLba < 0x1_0000_0000 && volumeId < 0x1_0000_0000 && NulFree(tag)
    ensures ok <==> Formattable(|disk0|)
    ensures !ok ==> disk == disk0
    ensures ok ==> OnDisk(disk, g) && Laid(g) && BootOf(disk[0], g) && SameOutside(disk0, disk, 0, g.firstData)
    ensures ok ==> forall c :: 2 <= c <= g.maxCluster ==> FatOf(disk, g)[c] == FAT_FREE
    ensures ok ==> StoreOk(g, disk, map[], map[0 := RootBytes(g, disk)])
    ensures ok ==> Means(map[0 := RootBytes(g, disk)], map[0 := [s]], map[])
  {
    hide Formattable, GoodGeo, Clusters, FatOf, StoreOk, Means, BootOf, DirOk, SlotOk, RowsOf, Visible, RootBytes,
         Overwrite, Zeros, FatHead;
    disk := disk0;
    var geo;
    ok, geo := Geometry(|disk0|);
    g, s := geo, Dead([]);
    if !ok {
      return;
    }
    LaidFields(g);
    var boot := BootSector(geo, partLba, oem, tag, volumeId);
    var e;
    e, s := LabelRow(tag);
    disk := Regions(disk0, geo, boot, e);
    FreshVolume(disk, g);
    RootDir(g, disk, e, s);
    EmptyVolume(g, disk, s);
  }

  // The writes of format, region by region.
  method Regions(disk0: Disk, g: Geo, boot: Sector, e: Row) returns (disk: Disk)
    requires OnDisk(disk0, g) && Laid(g)
    ensures FreshTables(disk, g) && disk[0] == boot && SameOutside(disk0, disk, 0, g.firstData)
    ensures g.firstRoot < |disk| && disk[g.firstRoot] == Overwrite(Zeros(512), 0, e)
  {
    LaidFields(g);
    hide GoodGeo, Clusters, Zeros, Wr16, FatHead, Overwrite;
    disk := disk0[0 := boot];
    disk := ZeroSectors(disk, g.firstFat, g.fatsz);
    disk := ZeroSectors(disk, g.firstFat + g.fatsz, g.fatsz);
    for copy := 0 to 2
      invariant |disk| == |disk0| && disk[0] == boot && SameOutside(disk0, disk, 0, g.firstRoot)
      invariant forall k :: 1 <= k < 1 + 2 * g.fatsz ==>
        disk[k] == if (k == 1 && copy > 0) || (k == 1 + g.fatsz && copy > 1) then FatHead() else Zeros(512)
    {
      var k := if copy == 0 then 1 else 1 + g.fatsz;
      HeadIs();
      disk := disk[k := Wr16(Wr16(disk[k], 0, 0xFFF8), 2, 0xFFFF)];
    }
    disk := ZeroSectors(disk, g.firstRoot, g.rootSectors);
    var s := Patch(disk[g.firstRoot], 0, e);
    disk := disk[g.firstRoot := s];
  }

  lemma HeadIs()
    ensures FatHead() == Wr16(Wr16(Zeros(512), 0, 0xFFF8), 2, 0xFFFF)
  {}
}
