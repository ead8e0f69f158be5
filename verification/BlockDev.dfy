// Byte I/O over partitions (vnu/kernel/fs/blockdev.cpp), on drives that do not
// fail.
module BlockDev {
  import opened FatDisk
  import opened FatExtent

  const MAX_DEVICES: nat := 12

  datatype Device = Device(whole: bool, drive: nat, lba: nat, sectors: nat)

  // --- a drive as bytes ---

  ghost function Flat(d: Disk): (b: Bytes)
    ensures |b| == 512 * |d|
  {
    if d == [] then [] else Flat(d[..|d| - 1]) + d[|d| - 1]
  }

  lemma FlatSnoc(d: Disk, s: Sector)
    ensures Flat(d + [s]) == Flat(d) + s
  {
    assert (d + [s])[..|d|] == d;
  }

  lemma {:induction false} FlatAt(d: Disk, k: nat)
    requires k < |d|
    ensures Flat(d)[512 * k..512 * k + 512] == d[k]
  {
    var n := |d| - 1;
    if k < n {
      FlatAt(d[..n], k);
      Front(Flat(d[..n]), d[n], 512 * k, 512 * k + 512);
    }
  }

  lemma Front(a: Bytes, z: Bytes, i: nat, j: nat)
    requires i <= j <= |a|
    ensures (a + z)[i..j] == a[i..j]
  {}

  lemma {:induction false} FlatPut(d: Disk, k: nat, s: Sector)
    requires k < |d|
    ensures Flat(d[k := s]) == Overwrite(Flat(d), 512 * k, s)
  {
    var n := |d| - 1;
    if k == n {
      assert d[k := s][..n] == d[..n];
      PutLast(Flat(d[..n]), d[n], s);
    } else {
      hide Overwrite;
      FlatPut(d[..n], k, s);
      assert d[k := s][..n] == d[..n][k := s];
      OverwriteFront(Flat(d[..n]), d[n], 512 * k, s);
    }
  }

  lemma PutLast(a: Bytes, old': Sector, s: Sector)
    ensures Overwrite(a + old', |a|, s) == a + s
  {}

  lemma Joined(b: Bytes, p: nat, m: nat, q: nat)
    requires p <= m <= q <= |b|
    ensures b[p..m] + b[m..q] == b[p..q]
  {}

  // --- the drives ---

  // The bytes of a device on its drive.
  ghost function Window(drives: seq<Disk>, d: Device): Bytes
    requires DeviceOk(drives, d)
  {
    Flat(drives[d.drive])[512 * d.lba..512 * (d.lba + d.sectors)]
  }

  ghost predicate DeviceOk(drives: seq<Disk>, d: Device) {
    d.drive < |drives| && d.lba + d.sectors <= |drives[d.drive]|
  }

  ghost function Clipped(total: nat, off: nat, len: nat): nat {
    if off >= total then 0 else if len > total - off then total - off else len
  }

  // ata::read_sectors
  method ReadSectors(disk: Disk, lba: nat, count: nat) returns (out: Bytes)
    requires lba + count <= |disk|
    ensures out == Flat(disk)[512 * lba..512 * (lba + count)]
  {
    hide Flat;
    out := [];
    for i := 0 to count
      invariant out == Flat(disk)[512 * lba..512 * (lba + i)]
    {
      FlatAt(disk, lba + i);
      Joined(Flat(disk), 512 * lba, 512 * (lba + i), 512 * (lba + i) + 512);
      out := out + disk[lba + i];
    }
  }

  // ata::write_sectors
  method WriteSectors(disk: Disk, lba: nat, count: nat, bytes: Bytes) returns (r: Disk)
    requires lba + count <= |disk| && |bytes| == 512 * count
    ensures |r| == |disk| && Flat(r) == Overwrite(Flat(disk), 512 * lba, bytes)
  {
    hide Flat, Overwrite;
    r := disk;
    NothingPut(Flat(disk), 512 * lba);
    assert bytes[..0] == [];
    for i := 0 to count
      invariant |r| == |disk| && Flat(r) == Overwrite(Flat(disk), 512 * lba, bytes[..512 * i])
    {
      var s: Sector := bytes[512 * i..512 * i + 512];
      FlatPut(r, lba + i, s);
      OverwriteTwice(Flat(disk), 512 * lba, bytes[..512 * i], s);
      assert bytes[..512 * i] + s == bytes[..512 * (i + 1)];
      r := r[lba + i := s];
    }
    assert bytes[..512 * count] == bytes;
  }

  lemma NothingPut(b: Bytes, p: nat)
    requires p <= |b|
    ensures Overwrite(b, p, []) == b
  {}

  // The bytes bo .. bo + n of one sector.
  method ReadPart(disk: Disk, lba: nat, bo: nat, n: nat) returns (out: Bytes)
    requires lba < |disk| && bo + n <= 512
    ensures out == Flat(disk)[512 * lba + bo..512 * lba + bo + n]
  {
    hide Flat;
    var s := disk[lba];
    out := [];
    for i := 0 to n
      invariant out == s[bo..bo + i]
    {
      out := out + [s[bo + i]];
    }
    FlatAt(disk, lba);
    Inner(Flat(disk), 512 * lba, bo, n);
  }

  lemma Inner(b: Bytes, p: nat, so: nat, n: nat)
    requires p + 512 <= |b| && so + n <= 512
    ensures b[p..p + 512][so..so + n] == b[p + so..p + so + n]
  {
    var x, y := b[p..p + 512][so..so + n], b[p + so..p + so + n];
    assert forall i :: 0 <= i < n ==> x[i] == b[p..p + 512][so + i] == b[p + (so + i)] == y[i];
  }

  method Patch(old': Sector, bo: nat, bytes: Bytes) returns (s: Sector)
    requires bo + |bytes| <= 512
    ensures s == Overwrite(old', bo, bytes)
  {
    s := old';
    for i := 0 to |bytes|
      invariant forall k :: 0 <= k < 512 ==> s[k] == if bo <= k < bo + i then bytes[k - bo] else old'[k]
    {
      s := s[bo + i := bytes[i]];
    }
    assert s == Overwrite(old', bo, bytes);
  }

  // A sector read, patched from bo on and written back.
  method WritePart(disk: Disk, lba: nat, bo: nat, bytes: Bytes) returns (r: Disk)
    requires lba < |disk| && bo + |bytes| <= 512
    ensures |r| == |disk| && Flat(r) == Overwrite(Flat(disk), 512 * lba + bo, bytes)
  {
    hide Flat, Overwrite;
    var s := Patch(disk[lba], bo, bytes);
    FlatAt(disk, lba);
    FlatPut(disk, lba, s);
    PatchInner(Flat(disk), 512 * lba, bo, bytes);
    r := disk[lba := s];
  }

  lemma PatchInner(b: Bytes, p: nat, so: nat, x: Bytes)
    requires p + 512 <= |b| && so + |x| <= 512
    ensures Overwrite(b, p, Overwrite(b[p..p + 512], so, x)) == Overwrite(b, p + so, x)
  {
    var s := b[p..p + 512];
    assert b == b[..p] + s + b[p + 512..];
  }

  // --- init ---

  // The device of one slot of the partition table, clipped to the drive.
  function SlotDevice(dr: nat, total: nat, mbr: Sector, slot: nat): (d: seq<Device>)
    requires slot < 4
    ensures forall k :: 0 <= k < |d| ==> d[k].drive == dr && 0 < d[k].sectors && d[k].lba + d[k].sectors <= total
  {
    var o := 0x1BE + 16 * slot;
    var lba, sectors := Rd32(mbr, o + 8), Rd32(mbr, o + 12);
    if mbr[o + 4] == 0 || sectors == 0 || lba >= total then []
    else [Device(false, dr, lba, if lba + sectors > total then total - lba else sectors)]
  }

  function SlotDevices(dr: nat, total: nat, mbr: Sector, n: nat): (d: seq<Device>)
    requires n <= 4
    ensures forall k :: 0 <= k < |d| ==> d[k].drive == dr && 0 < d[k].sectors && d[k].lba + d[k].sectors <= total
  {
    if n == 0 then [] else SlotDevices(dr, total, mbr, n - 1) + SlotDevice(dr, total, mbr, n - 1)
  }

  // What a drive contributes: itself, and its partitions when it has a table.
  function DriveDevices(dr: nat, disk: Disk): (d: seq<Device>)
    ensures forall k :: 0 <= k < |d| ==> d[k].drive == dr && 0 < d[k].sectors && d[k].lba + d[k].sectors <= |disk|
  {
    if disk == [] then []
    else
      [Device(true, dr, 0, |disk|)] +
      (if disk[0][510] == 0x55 && disk[0][511] == 0xAA then SlotDevices(dr, |disk|, disk[0], 4) else [])
  }

  function TableOf(drives: seq<Disk>, n: nat): seq<Device>
    requires n <= |drives|
  {
    if n == 0 then [] else TableOf(drives, n - 1) + DriveDevices(n - 1, drives[n - 1])
  }

  // The table has room for so many.
  function Cap(d: seq<Device>): (c: seq<Device>)
    ensures |c| <= MAX_DEVICES && c <= d
  {
    if |d| <= MAX_DEVICES then d else d[..MAX_DEVICES]
  }

  lemma CapSnoc(a: seq<Device>, x: Device)
    ensures Cap(a + [x]) == if |Cap(a)| >= MAX_DEVICES then Cap(a) else Cap(a) + [x]
  {}

  lemma {:induction false} TableInside(drives: seq<Disk>, n: nat, k: nat)
    requires n <= |drives| && k < |TableOf(drives, n)|
    ensures DeviceOk(drives, TableOf(drives, n)[k]) && 0 < TableOf(drives, n)[k].sectors
  {
    hide DriveDevices;
    var front := TableOf(drives, n - 1);
    if k < |front| {
      TableInside(drives, n - 1, k);
    } else {
      assert TableOf(drives, n)[k] == DriveDevices(n - 1, drives[n - 1])[k - |front|];
    }
  }

  lemma NoDevices(drives: seq<Disk>)
    ensures Cap(TableOf(drives, 0)) == []
  {}

  lemma TableStep(drives: seq<Disk>, n: nat)
    requires n < |drives|
    ensures TableOf(drives, n + 1) == TableOf(drives, n) + DriveDevices(n, drives[n])
  {}

  lemma CapAt(d: seq<Device>, i: nat)
    requires i < |Cap(d)|
    ensures i < |d| && Cap(d)[i] == d[i]
  {}

  // --- read and write ---

  class Devices {
    var drives: seq<Disk>
    var devs: seq<Device>

    ghost predicate Valid()
      reads this
    {
      |devs| <= MAX_DEVICES && forall i :: 0 <= i < |devs| ==> DeviceOk(drives, devs[i])
    }

    // init: every drive and partition in order, as many as fit, each inside its drive.
    constructor (drives: seq<Disk>)
      ensures this.drives == drives && devs == Cap(TableOf(drives, |drives|)) && Valid()
      ensures forall i :: 0 <= i < |devs| ==> 0 < devs[i].sectors
    {
      this.drives := drives;
      devs := [];
      new;
      hide TableOf, DriveDevices, Cap;
      NoDevices(drives);
      for dr := 0 to |drives|
        invariant this.drives == drives && devs == Cap(TableOf(drives, dr))
      {
        TableStep(drives, dr);
        AddDrive(dr, drives[dr], TableOf(drives, dr));
      }
      forall i | 0 <= i < |devs|
        ensures DeviceOk(drives, devs[i]) && 0 < devs[i].sectors
      {
        CapAt(TableOf(drives, |drives|), i);
        TableInside(drives, |drives|, i);
      }
    }

    // One drive and its partitions.
    method AddDrive(dr: nat, disk: Disk, ghost all: seq<Device>)
      requires devs == Cap(all)
      modifies this`devs
      ensures devs == Cap(all + DriveDevices(dr, disk))
    {
      hide Cap, SlotDevice;
      if |disk| == 0 {
        assert all + DriveDevices(dr, disk) == all;
        return;
      }
      ghost var whole := Device(true, dr, 0, |disk|);
      CapSnoc(all, whole);
      Add(Device(true, dr, 0, |disk|));
      var mbr := disk[0];
      if mbr[510] != 0x55 || mbr[511] != 0xAA {
        assert all + DriveDevices(dr, disk) == all + [whole];
        return;
      }
      ghost var start := all + [whole];
      assert start + SlotDevices(dr, |disk|, mbr, 0) == start;
      for slot := 0 to 4
        invariant devs == Cap(start + SlotDevices(dr, |disk|, mbr, slot))
      {
        ghost var sofar := SlotDevices(dr, |disk|, mbr, slot);
        assert start + (sofar + SlotDevice(dr, |disk|, mbr, slot)) == start + sofar + SlotDevice(dr, |disk|, mbr, slot);
        AddSlot(dr, |disk|, mbr, slot, start + sofar);
      }
      assert all + DriveDevices(dr, disk) == start + SlotDevices(dr, |disk|, mbr, 4);
    }

    method Add(d: Device)
      modifies this`devs
      ensures devs == if |old(devs)| >= MAX_DEVICES then old(devs) else old(devs) + [d]
    {
      if |devs| >= MAX_DEVICES {
        return;
      }
      devs := devs + [d];
    }

    // One slot of the partition table.
    method AddSlot(dr: nat, total: nat, mbr: Sector, slot: nat, ghost all: seq<Device>)
      requires slot < 4 && devs == Cap(all)
      modifies this`devs
      ensures devs == Cap(all + SlotDevice(dr, total, mbr, slot))
    {
      var o := 0x1BE + 16 * slot;
      if mbr[o + 4] == 0 {
        assert all + SlotDevice(dr, total, mbr, slot) == all;
        return;
      }
      var lba, sectors := Rd32(mbr, o + 8), Rd32(mbr, o + 12);
      if sectors == 0 || lba >= total {
        assert all + SlotDevice(dr, total, mbr, slot) == all;
        return;
      }
      if lba + sectors > total {
        sectors := total - lba;
      }
      CapSnoc(all, Device(false, dr, lba, sectors));
      Add(Device(false, dr, lba, sectors));
    }

    // read: the clipped slice of the window, over a head, whole sectors and a tail.
    method Read(idx: int, off: nat, len: nat) returns (ret: int, out: Bytes)
      requires Valid() && len < 0x8000_0000
      ensures !(0 <= idx < |devs|) ==> ret == -1 && out == []
      ensures 0 <= idx < |devs| ==>
        var w := Window(drives, devs[idx]);
        var n := Clipped(|w|, off, len);
        ret == n && |out| == n && (n > 0 ==> out == w[off..off + n])
    {
      hide Flat;
      if idx < 0 || idx >= |devs| {
        return -1, [];
      }
      var d := devs[idx];
      var total := d.sectors * 512;
      if off >= total {
        return 0, [];
      }
      var n := if len > total - off then total - off else len;
      out := ReadSpan(drives[d.drive], d.lba + off / 512, off % 512, n);
      InWindow(drives, d, off, n);
      ret := n;
    }

    // write: that slice becomes the data, nothing else changes on any drive.
    method Write(idx: int, off: nat, data: Bytes) returns (ret: int)
      requires Valid() && |data| < 0x8000_0000
      modifies this`drives
      ensures Valid()
      ensures !(0 <= idx < |devs|) ==> ret == -1 && drives == old(drives)
      ensures 0 <= idx < |devs| ==>
        var d := devs[idx];
        var n := Clipped(|old(Window(drives, d))|, off, |data|);
        && ret == n && OnlyDrive(old(drives), drives, d.drive)
        && (n == 0 ==> drives == old(drives))
        && (n > 0 ==> Flat(drives[d.drive]) == Overwrite(Flat(old(drives)[d.drive]), 512 * d.lba + off, data[..n]))
        && (n > 0 ==> Window(drives, d) == Overwrite(old(Window(drives, d)), off, data[..n]))
    {
      hide Flat, Overwrite;
      if idx < 0 || idx >= |devs| {
        return -1;
      }
      var d := devs[idx];
      var total := d.sectors * 512;
      if off >= total {
        return 0;
      }
      var n := if |data| > total - off then total - off else |data|;
      var r := WriteSpan(drives[d.drive], d.lba + off / 512, off % 512, data[..n]);
      WindowPut(Flat(drives[d.drive]), 512 * d.lba, 512 * (d.lba + d.sectors), off, data[..n]);
      if n == 0 {
        NothingPut(Flat(drives[d.drive]), 512 * d.lba + off);
        SameFlat(drives[d.drive], r);
      }
      drives := drives[d.drive := r];
      ret := n;
    }
  }

  ghost predicate OnlyDrive(a: seq<Disk>, b: seq<Disk>, k: nat) {
    |a| == |b| && k < |a| && b == a[k := b[k]] && |b[k]| == |a[k]|
  }

  lemma InWindow(drives: seq<Disk>, d: Device, off: nat, n: nat)
    requires DeviceOk(drives, d) && off + n <= 512 * d.sectors
    ensures Window(drives, d)[off..off + n] == Flat(drives[d.drive])[512 * d.lba + off..512 * d.lba + off + n]
  {
    hide Flat;
    SubSlice(Flat(drives[d.drive]), 512 * d.lba, 512 * (d.lba + d.sectors), off, n);
  }

  lemma SubSlice(b: Bytes, lo: nat, hi: nat, off: nat, n: nat)
    requires lo <= hi <= |b| && lo + off + n <= hi
    ensures b[lo..hi][off..off + n] == b[lo + off..lo + off + n]
  {
    var x, y := b[lo..hi][off..off + n], b[lo + off..lo + off + n];
    assert forall i :: 0 <= i < n ==> x[i] == b[lo..hi][off + i] == b[lo + (off + i)] == y[i];
  }

  lemma WindowPut(b: Bytes, lo: nat, hi: nat, off: nat, x: Bytes)
    requires lo <= hi <= |b| && lo + off + |x| <= hi
    ensures Overwrite(b, lo + off, x)[lo..hi] == Overwrite(b[lo..hi], off, x)
  {
    var u, v := Overwrite(b, lo + off, x)[lo..hi], Overwrite(b[lo..hi], off, x);
    assert forall k :: 0 <= k < hi - lo ==> u[k] == v[k];
  }

  lemma {:induction false} SameFlat(a: Disk, b: Disk)
    requires |a| == |b| && Flat(a) == Flat(b)
    ensures a == b
  {
    forall k | 0 <= k < |a|
      ensures a[k] == b[k]
    {
      FlatAt(a, k);
      FlatAt(b, k);
    }
  }

  // The three parts of read: a head, then from a sector boundary on.
  method ReadSpan(disk: Disk, lba: nat, bo: nat, n: nat) returns (out: Bytes)
    requires bo < 512 && 512 * lba + bo + n <= 512 * |disk|
    ensures out == Flat(disk)[512 * lba + bo..512 * lba + bo + n]
  {
    hide Flat;
    if bo == 0 {
      out := ReadAligned(disk, lba, n);
      return;
    }
    var m := if 512 - bo > n then n else 512 - bo;
    out := ReadPart(disk, lba, bo, m);
    if m < n {
      var rest := ReadAligned(disk, lba + 1, n - m);
      Joined(Flat(disk), 512 * lba + bo, 512 * (lba + 1), 512 * lba + bo + n);
      out := out + rest;
    }
  }

  // Whole sectors and a tail.
  method ReadAligned(disk: Disk, lba: nat, n: nat) returns (out: Bytes)
    requires 512 * lba + n <= 512 * |disk|
    ensures out == Flat(disk)[512 * lba..512 * lba + n]
  {
    hide Flat;
    var ns, t := n / 512, n % 512;
    ghost var b, p, q := Flat(disk), 512 * lba, 512 * (lba + n / 512);
    assert p + n == q + t && t < 512;
    out := [];
    if n >= 512 {
      out := ReadSectors(disk, lba, ns);
    }
    assert out == b[p..q];
    if t != 0 {
      var tail := ReadPart(disk, lba + ns, 0, t);
      Joined(b, p, q, q + t);
      out := out + tail;
    }
  }

  // The three parts of write.
  method WriteSpan(disk: Disk, lba0: nat, bo: nat, data: Bytes) returns (r: Disk)
    requires bo < 512 && 512 * lba0 + bo + |data| <= 512 * |disk|
    ensures |r| == |disk| && Flat(r) == Overwrite(Flat(disk), 512 * lba0 + bo, data)
  {
    hide Flat, Overwrite;
    ghost var p, b := 512 * lba0 + bo, Flat(disk);
    var lba, done := lba0, 0;
    r := disk;
    NothingPut(b, p);
    assert data[..0] == [];
    if bo != 0 {
      var m := if 512 - bo > |data| then |data| else 512 - bo;
      r := WritePart(r, lba, bo, data[..m]);
      done := m;
      lba := lba + 1;
    }
    if |data| - done >= 512 {
      var ns := (|data| - done) / 512;
      r := WriteSectors(r, lba, ns, data[done..done + 512 * ns]);
      OverwriteTwice(b, p, data[..done], data[done..done + 512 * ns]);
      assert data[..done] + data[done..done + 512 * ns] == data[..done + 512 * ns];
      done := done + 512 * ns;
      lba := lba + ns;
    }
    if done < |data| {
      r := WritePart(r, lba, 0, data[done..]);
      OverwriteTwice(b, p, data[..done], data[done..]);
      assert data[..done] + data[done..] == data;
    } else {
      assert data[..done] == data;
    }
  }
}
