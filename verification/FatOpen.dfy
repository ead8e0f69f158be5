// A volume that was formatted and mounted (vnu/kernel/fs/fat16.cpp).
module FatOpen {
  import opened FatDisk
  import opened FatChain
  import opened FatStore
  import opened FatSlots
  import opened FatNames
  import opened FatModel
  import opened FatVolume
  import opened FatFormat

  ghost function From2(n: nat): (s: set<nat>)
    ensures forall c: nat :: c in s <==> 2 <= c <= n
  {
    if n < 2 then {} else From2(n - 1) + {n}
  }

  lemma {:induction false} From2Size(n: nat)
    requires n >= 1
    ensures |From2(n)| == n - 1
  {
    if n >= 2 { From2Size(n - 1); }
  }

  // On a new volume every cluster is free.
  lemma AllSpare(g: Geo, fat: Fat)
    requires 2 <= g.maxCluster && |fat| == g.maxCluster + 1 && forall c :: 2 <= c <= g.maxCluster ==> fat[c] == FAT_FREE
    ensures FreeCount(g, fat) == g.maxCluster - 1
  {
    From2Size(g.maxCluster);
    assert FreeSet(g, fat) == From2(g.maxCluster);
  }

  lemma SomeClusters(g: Geo)
    requires GoodGeo(g)
    ensures 2 <= g.maxCluster
  {}

  // format, then mount: mount accepts, finds the geometry format chose, and
  // the volume is in order and means the empty map.
  method FormatThenMount(disk0: Disk, partLba: nat, oem: Bytes, tag: Bytes, volumeId: nat)
    returns (ok: bool, v: Volume?)
    requires 0 < |disk0| < 0x1_0000_0000 && partLba < 0x1_0000_0000 && volumeId < 0x1_0000_0000 && NulFree(tag)
    ensures ok <==> Formattable(|disk0|)
    ensures ok ==> v != null && fresh(v) && fresh(v.st) && fresh(v.st.fs)
    ensures ok ==> v.Valid() && v.files == map[] && v.dirs.Keys == {0} && v.st.data.Keys == {0} && Laid(v.st.fs.g)
    ensures ok ==> v.st.Spare() == v.st.fs.g.maxCluster - 1
  {
    hide StoreOk, Means, BootOf, Laid, FatOf, RootBytes, OnDisk, Formattable, FreeCount, GoodGeo;
    var disk;
    ghost var g, s;
    ok, disk, g, s := Format(disk0, partLba, oem, tag, volumeId);
    v := null;
    if !ok {
      return;
    }
    var good, geo := Mount(disk);
    StoreDisk(geo, disk, map[], map[0 := RootBytes(g, disk)]);
    SomeClusters(geo);
    AllSpare(geo, FatOf(disk, geo));
    var fs := new Fs(geo, disk);
    ghost var data: Data := map[0 := RootBytes(g, disk)];
    ghost var dirs: Dirs := map[0 := [s]];
    var st := new Store(fs, map[], data);
    v := new Volume(st, dirs, map[]);
  }
}
