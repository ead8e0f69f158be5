// The file operations of vnu/kernel/fs/fat16.cpp on a mounted volume, against
// a map from (directory, name) to bytes.
module FatVolume {
  import opened Wrappers
  import opened FatDisk
  import opened FatExtent
  import opened FatChain
  import opened FatData
  import opened FatStore
  import opened FatNames
  import opened FatSlots
  import opened FatDir
  import opened FatEntry
  import opened FatRows
  import opened FatModel
  import opened FatSteps

  const LIMIT: nat := 0x1_0000_0000

  // --- bytes of a file ---

  // x written at off; a gap in front of it reads as zeros.
  function Splice(b: Bytes, off: nat, x: Bytes): Bytes {
    if x == [] then b
    else Overwrite(b + Zeros(if off + |x| > |b| then off + |x| - |b| else 0), off, x)
  }

  function Resize(b: Bytes, n: nat): Bytes {
    if n <= |b| then b[..n] else b + Zeros(n - |b|)
  }

  function Max(a: nat, b: nat): nat { if a > b then a else b }

  // Filling the gap with zeros changes nothing: it is zero already.
  lemma FillGap(p: Bytes, size: nat, off: nat)
    requires ZeroSlack(p, size) && size <= off <= |p|
    ensures Overwrite(p, size, Zeros(off - size)) == p
  {
    var q := Overwrite(p, size, Zeros(off - size));
    forall k | 0 <= k < |p|
      ensures q[k] == p[k]
    {
      if size <= k { assert p[k] == p[size..][k - size]; }
    }
  }

  lemma WrittenBytes(p: Bytes, size: nat, off: nat, x: Bytes)
    requires ZeroSlack(p, size) && off + |x| <= |p| && x != []
    ensures var b, n := Overwrite(p, off, x), Max(size, off + |x|);
            ZeroSlack(b, n) && b[..n] == Splice(p[..size], off, x)
  {
    var b, n := Overwrite(p, off, x), Max(size, off + |x|);
    var c := p[..size] + Zeros(n - size);
    assert Splice(p[..size], off, x) == Overwrite(c, off, x);
    hide Overwrite, Splice;
    forall k | 0 <= k < |p|
      ensures size <= k ==> p[k] == 0
      ensures n <= k ==> b[k] == 0
      ensures k < n ==> b[k] == Overwrite(c, off, x)[k]
    {
      if size <= k { assert p[k] == p[size..][k - size]; }
      OverwriteAt(p, off, x, k);
      if k < n { OverwriteAt(c, off, x, k); }
    }
    assert b[n..] == Zeros(|b| - n);
    assert b[..n] == Overwrite(c, off, x);
  }

  // A chain cut to m bytes with zeros from n on.
  lemma CutFile(b: Bytes, m: nat, n: nat)
    requires n <= m <= |b|
    ensures var c := Overwrite(b[..m], n, Zeros(m - n)); ZeroSlack(c, n) && c[..n] == b[..n]
  {}

  // --- cluster counts, in 32 bits ---

  function Need(size: nat, cb: nat): nat {
    if cb == 0 then 0 else (size + cb - 1) % LIMIT / cb
  }

  // The clusters asked for hold the file, unless the sum wraps: one cluster
  // below 2^32 is the limit.
  lemma NeedEnough(size: nat, cb: nat)
    requires 0 < size < LIMIT && 0 < cb < LIMIT
    ensures Need(size, cb) * cb >= size <==> size + cb - 1 < LIMIT
    ensures size + cb - 1 < LIMIT ==> Need(size, cb) > 0 && (Need(size, cb) - 1) * cb < size
  {
    var t := size + cb - 1;
    if t < LIMIT {
      var q := t / cb;
      QuotientBounds(t, cb);
      assert t == cb * q + t % cb;
      assert q > 0;
      assert (q - 1) * cb == q * cb - cb;
    } else {
      var u := t % LIMIT;
      assert u == t - LIMIT && u < cb;
      DivUnique(u, cb, 0, u);
    }
  }

  // Past the limit the count is 0: no cluster at all is asked for.
  lemma NeedNothing(size: nat, cb: nat)
    requires 0 < cb < LIMIT && size < LIMIT <= size + cb - 1
    ensures Need(size, cb) == 0
  {
    var u := (size + cb - 1) % LIMIT;
    assert u == size + cb - 1 - LIMIT;
    DivUnique(u, cb, 0, u);
  }

  lemma NeedSpan(g: Geo, size: nat)
    requires GoodGeo(g) && 0 < size && size + 512 * g.spc - 1 < LIMIT
    ensures Need(size, 512 * g.spc) > 0 && Span(g, Need(size, 512 * g.spc)) >= size
    ensures Span(g, Need(size, 512 * g.spc)) < size + 512 * g.spc
  {
    var cb := 512 * g.spc;
    hide GoodGeo, Need;
    assert cb > 0 by { SpcPos(g); }
    NeedEnough(size, cb);
    var q := Need(size, cb);
    SpanIs(g, q);
    assert g.spc * 512 * q == q * cb;
    assert (q - 1) * cb == q * cb - cb;
  }

  lemma SpcPos(g: Geo)
    requires GoodGeo(g)
    ensures 1 <= g.spc <= 128
  {}

  // --- entries ---

  lemma NewSlot(d: nat, g: Slot, name: Bytes, attr: Byte, cluster: nat, size: nat)
    requires g.Group? && NewRow(g.short, attr, cluster, size) && NameOf(g) == name && GoodName(name)
    requires attr in {ATTR_ARCH, ATTR_DIR}
    ensures Visible(g) && KeyOf(d, g) == (d, Fold(name)) && First(g) == cluster && SizeOf(g.short) == size
    ensures IsDir(g.short) == (attr == ATTR_DIR)
  {
    hide NameOf, Fold;
  }

  lemma GoodReads(name: Bytes)
    requires GoodName(name)
    ensures ReadsBack(name) && Chunks(|name|) <= MAX_LFN
  {
    hide Fits83;
  }

  lemma DirAt(data: Data, dirs: Dirs, files: Files, d: nat)
    requires Means(data, dirs, files) && d in dirs
    ensures d in data && DirOk(data[d], dirs[d])
  {}

  // --- room ---

  // Clusters a directory needs for the rows of one more name.
  ghost function AddCost(g: Geo, data: Data, dirs: Dirs, d: nat, name: Bytes): nat {
    if d in data && d in dirs then Growth(g, |data[d]|, 32 * (|Flat(dirs[d])| + RowCount(name))) else 0
  }

  // There is room for the name; the root directory cannot grow.
  ghost predicate CanAdd(g: Geo, data: Data, dirs: Dirs, spare: nat, d: nat, name: Bytes) {
    AddCost(g, data, dirs, d, name) <= if d == 0 then 0 else spare
  }

  lemma CanAddIs(g: Geo, data: Data, dirs: Dirs, spare: nat, d: nat, name: Bytes)
    requires d in data && d in dirs
    ensures CanAdd(g, data, dirs, spare, d, name) <==>
              Fits(g, |data[d]|, spare, d, 32 * (|Flat(dirs[d])| + RowCount(name)))
  {
    hide Growth, Flat, RowCount;
  }

  // The bytes of the chain behind a name.
  ghost function FileRoom(data: Data, dirs: Dirs, key: Key): nat {
    if exists i :: Holding(dirs, key, i) then
      var i :| Holding(dirs, key, i);
      Held(data, First(dirs[key.0][i]))
    else 0
  }

  lemma RoomIs(data: Data, dirs: Dirs, files: Files, key: Key, j: nat)
    requires Means(data, dirs, files) && Holding(dirs, key, j)
    ensures FileRoom(data, dirs, key) == Held(data, First(dirs[key.0][j]))
  {
    hide DirsOk, EntriesOk, Owned, Listed, Backed, KeyOf, First, Held;
    assert forall i :: Holding(dirs, key, i) ==> i == j;
  }

  // When a write finds room: for the name if it is new, and for the bytes.
  ghost predicate CanWrite(g: Geo, data: Data, dirs: Dirs, files: Files, spare: nat, d: nat, name: Bytes,
                           off: nat, n: nat) {
    var key := (d, Fold(name));
    var cost := if key in files then 0 else AddCost(g, data, dirs, d, name);
    && (if key in files then files[key].File? else CanAdd(g, data, dirs, spare, d, name))
    && (n > 0 ==> off + n < LIMIT)
    && (n > 0 ==> cost + Growth(g, if key in files then FileRoom(data, dirs, key) else 0, off + n) <= spare)
  }

  // Whole clusters: bytes fit exactly when the clusters they need do.
  lemma ClustersMeet(g: Geo, disk: Disk, ext: Exts, data: Data, first: nat, need: nat, end: nat, spare: nat)
    requires StoreOk(g, disk, ext, data) && first in data && end <= Span(g, need) < end + 512 * g.spc
    ensures Span(g, need) <= Held(data, first) + Span(g, spare) <==> Growth(g, Held(data, first), end) <= spare
  {
    hide *;
    StoreDisk(g, disk, ext, data);
    DataRegion(g);
    GrowthIs(g, Held(data, first), end, spare);
    var n := HeldClusters(g, disk, ext, data, first);
    SpanMono(g, n, n + spare);
    SpansMeet(g, need, end, n + spare);
  }

  lemma HeldClusters(g: Geo, disk: Disk, ext: Exts, data: Data, first: nat) returns (n: nat)
    requires StoreOk(g, disk, ext, data) && first in data
    ensures Held(data, first) == Span(g, n)
  {
    hide StoreOk, Span;
    SpanStep(g, 0);
    n := 0;
    if first != 0 {
      KeyRange(g, disk, ext, data, first);
      n := |ext[first]|;
    }
  }

  lemma SpansMeet(g: Geo, need: nat, end: nat, x: nat)
    requires end <= Span(g, need) < end + 512 * g.spc
    ensures Span(g, need) <= Span(g, x) <==> end <= Span(g, x)
  {
    hide Span;
    if x < need {
      SpanMono(g, x + 1, need);
      SpanStep(g, x);
    } else {
      SpanMono(g, need, x);
    }
  }

  class Volume {
    const st: Store
    ghost var dirs: Dirs
    ghost var files: Files

    ghost predicate Valid()
      reads this, st, st.fs
    {
      st.Ok() && Means(st.data, dirs, files)
    }

    constructor (st: Store, ghost dirs: Dirs, ghost files: Files)
      requires st.Ok() && Means(st.data, dirs, files)
      ensures this.st == st && this.dirs == dirs && this.files == files && Valid()
    {
      this.st, this.dirs, this.files := st, dirs, files;
    }

    // find_entry and what it means.
    method Find(d: nat, name: Bytes) returns (found: bool, ev: Entry, ghost j: nat)
      requires Valid() && d in dirs && GoodName(name)
      modifies st.fs`sec
      ensures Valid() && found == ((d, Fold(name)) in files)
      ensures found ==> Holding(dirs, (d, Fold(name)), j) && j < |dirs[d]| && dirs[d][j].Group?
      ensures found ==> ev == EntryOf(dirs[d], j)
      ensures found ==> (files[(d, Fold(name))].Folder? <==> ev.attr / 16 % 2 == 1)
    {
      hide Means, StoreOk, DirOk, EntryOf, Fold, NamedAt, Holding, GoodName, NodeOf;
      DirAt(st.data, dirs, files, d);
      found, ev, j := FindEntry(st, d, name, dirs[d]);
      if found {
        NamedIs(st.data, dirs, files, d, name, j);
        NamedGroup(dirs[d], j, name);
        EntryFields(dirs[d], j);
        FolderIs(st.data, dirs[d][j]);
      } else {
        NotNamed(st.data, dirs, files, d, name);
      }
    }

    method Create(d: nat, name: Bytes) returns (ok: bool)
      requires Valid() && d in dirs && GoodName(name)
      modifies this`dirs, this`files, st`ext, st`data, st.fs`disk, st.fs`sec
      ensures Valid() && dirs.Keys == old(dirs.Keys)
      ensures ok ==> (d, Fold(name)) !in old(files) && files == old(files)[(d, Fold(name)) := File([])]
      ensures !ok ==> files == old(files)
      ensures ok <==>
        ((d, Fold(name)) !in old(files) && CanAdd(st.fs.g, old(st.data), old(dirs), old(st.Spare()), d, name))
      ensures ok ==> st.Spare() == old(st.Spare()) - AddCost(st.fs.g, old(st.data), old(dirs), d, name)
      ensures ok ==> FileRoom(st.data, dirs, (d, Fold(name))) == 0
    {
      hide FileRoom, Growth, OnDisk, Flat, Fits83, RowCount, Means, StoreOk, DirOk, EntryOf, Fold, Holding, GoodName,
           NewRow, Visible, KeyOf, SlotOk, RowsOf, NameOf, First, IsDir, OnlyDir, Chunks, ReadsBack, IsVolume;
      var found, ev, i := Find(d, name);
      if found {
        return false;
      }
      DirAt(st.data, dirs, files, d);
      GoodReads(name);
      GoodNul(name);
      var rows;
      ghost var g;
      ok, rows, g := BuildEntries(st, d, name, ATTR_ARCH, 0, 0, dirs[d]);
      if !ok {
        return;
      }
      NewSlot(d, g, name, ATTR_ARCH, 0, 0);
      ok := DirAppend(st, d, rows, dirs[d], g);
      OnlyDirHas(old(st.data), st.data, d);
      if ok {
        AddFile(old(st.data), dirs, files, st.data, d, g);
        ghost var j := |dirs[d]|;
        dirs, files := dirs[d := dirs[d] + [g]], files[(d, Fold(name)) := File([])];
        SlotHolds(dirs, (d, Fold(name)), j);
        RoomIs(st.data, dirs, files, (d, Fold(name)), j);
      } else {
        PadDir(old(st.data), dirs, files, st.data, d);
      }
    }

    // Storage for `end` bytes of a file: its chain grown, or one of its own.
    method GrowFor(d: nat, ev: Entry, end: nat, ghost j: nat, ghost key: Key) returns (ok: bool, nf: nat)
      requires Valid() && FileEntry(st.data, dirs, files, d, j, key, ev) && 0 < end
      requires end + 512 * st.fs.g.spc - 1 < LIMIT
      modifies st`ext, st`data, st.fs`disk, st.fs`sec
      ensures st.Ok()
      ensures !ok ==> Valid()
      ensures ok ==> OwnStorage(old(st.data), st.data, dirs, ev.cluster, nf) && end <= |st.data[nf]|
      ensures ok ==> ZeroSlack(st.data[nf], ev.size) && st.data[nf][..ev.size] == files[key].bytes
      ensures ok <==> Growth(st.fs.g, FileRoom(old(st.data), dirs, key), end) <= old(st.Spare())
    {
      hide Means, StoreOk, DirOk, EntryOf, ZeroSlack, NodeOf, Span, Need, Padded, Vis, OwnStorage, GoodGeo, FileEntry,
           FileRoom, Growth,
           Held, OnDisk;
      GeoGood(st);
      FileStore(st.data, dirs, files, d, j, key, ev);
      EntryRoom(st.data, dirs, files, d, j, key, ev);
      var need := Need(end, 512 * st.fs.g.spc);
      NeedSpan(st.fs.g, end);
      ClustersMeet(st.fs.g, st.fs.disk, st.ext, st.data, ev.cluster, need, end, st.Spare());
      ok, nf := st.Grow(ev.cluster, need);
      if ev.cluster != 0 {
        FilePadded(old(st.data), dirs, files, st.data, d, j, key, ev);
      } else if ok {
        FileNew(old(st.data), dirs, files, st.data, d, j, key, ev, nf, Span(st.fs.g, need));
      }
    }

    // update_entry behind new storage: the map has the new bytes.
    method FinishFile(d: nat, ev: Entry, nf: nat, size: nat, ghost x0: Data, ghost j: nat, ghost key: Key)
      requires st.Ok() && Means(x0, dirs, files) && FileEntry(x0, dirs, files, d, j, key, ev) && size < LIMIT
      requires OwnStorage(x0, st.data, dirs, ev.cluster, nf) && ZeroSlack(st.data[nf], size)
      modifies this`dirs, this`files, st`data, st.fs`disk, st.fs`sec
      ensures Valid() && dirs.Keys == old(dirs.Keys)
      ensures files == old(files)[key := File(old(st.data)[nf][..size])]
    {
      hide Means, StoreOk, DirOk, EntryOf, ZeroSlack, NodeOf, EntryOk, Visible, KeyOf, First, IsDir, OnlyDir,
           FileEntry, Vis, Changed, SlotOk;
      FileSlot(x0, dirs, files, d, j, key, ev);
      DirAt(x0, dirs, files, d);
      NoDir(x0, st.data, dirs, ev.cluster, nf, d);
      ghost var x1 := st.data;
      KeySmall(st, nf);
      ChangeSlot(st, d, ev.pos, nf, size, dirs[d], j);
      FileDone(x0, x1, st.data, dirs, files, d, j, key, ev, nf, size);
      dirs := dirs[d := dirs[d][j := Changed(dirs[d][j], nf, size)]];
      files := files[key := File(x1[nf][..size])];
    }

    // The data part of write, for a file that is there.
    method WriteFile(d: nat, ev: Entry, off: nat, bytes: Bytes, ghost j: nat, ghost key: Key) returns (ok: bool)
      requires Valid() && FileEntry(st.data, dirs, files, d, j, key, ev)
      requires bytes != [] && off + |bytes| + 512 * st.fs.g.spc - 1 < LIMIT
      modifies this`dirs, this`files, st`ext, st`data, st.fs`disk, st.fs`sec
      ensures Valid() && dirs.Keys == old(dirs.Keys)
      ensures files == if ok then old(files)[key := File(Splice(old(files)[key].bytes, off, bytes))] else old(files)
      ensures ok <==> Growth(st.fs.g, FileRoom(old(st.data), old(dirs), key), off + |bytes|) <= old(st.Spare())
    {
      hide Means, StoreOk, FileEntry, ZeroSlack, Overwrite, Splice, FileRoom, Growth, OnDisk;
      SpcPos2(st);
      var end := off + |bytes|;
      var nf;
      ok, nf := GrowFor(d, ev, end, j, key);
      if !ok {
        return;
      }
      ghost var x0 := old(st.data);
      ghost var p := st.data[nf];
      SlackFits(p, ev.size);
      if off > ev.size {
        FillGap(p, ev.size, off);
        st.WriteAt(nf, ev.size, Zeros(off - ev.size));
      }
      st.WriteAt(nf, off, bytes);
      WrittenBytes(p, ev.size, off, bytes);
      var nsize := if end > ev.size then end else ev.size;
      SizeSmall(dirs, files, x0, d, j, key, ev);
      FinishFile(d, ev, nf, nsize, x0, j, key);
    }

    method Write(d: nat, name: Bytes, off: nat, bytes: Bytes) returns (ok: bool, out: nat)
      requires Valid() && d in dirs && GoodName(name) && off < LIMIT && |bytes| < LIMIT
      requires off + |bytes| + 512 * st.fs.g.spc - 1 < LIMIT || off + |bytes| >= LIMIT
      modifies this`dirs, this`files, st`ext, st`data, st.fs`disk, st.fs`sec
      ensures Valid() && dirs.Keys == old(dirs.Keys)
      ensures ok ==> out == |bytes| && (bytes != [] ==> off + |bytes| < LIMIT)
      ensures var key, was := (d, Fold(name)), old(files);
              if ok then
                && (key in was ==> was[key].File?)
                && files == was[key := File(Splice(if key in was then was[key].bytes else [], off, bytes))]
              else files == was || (key !in was && files == was[key := File([])])
      ensures ok <==> CanWrite(st.fs.g, old(st.data), old(dirs), old(files), old(st.Spare()), d, name, off, |bytes|)
    {
      hide Means, StoreOk, Fold, GoodName, Splice, FileEntry, EntryOf, Holding, FileRoom, Growth, AddCost, OnDisk;
      ghost var key := (d, Fold(name));
      var found, ev, j := Find(d, name);
      out := 0;
      if !found {
        ok := Create(d, name);
        if !ok {
          return;
        }
        found, ev, j := Find(d, name);
      }
      if ev.attr / 16 % 2 == 1 {
        return false, 0;
      }
      SpliceNothing(files[key].bytes, off);
      if |bytes| == 0 {
        assert files == files[key := files[key]];
        return true, 0;
      }
      if off > 0xFFFF_FFFF - |bytes| {
        return false, 0;
      }
      EntryIs(st.data, dirs, files, d, j, key, ev);
      ok := WriteFile(d, ev, off, bytes, j, key);
      if ok {
        out := |bytes|;
      }
    }

    // The growing half of truncate: no data is written.
    method GrowFile(d: nat, ev: Entry, size: nat, ghost j: nat, ghost key: Key) returns (ok: bool)
      requires Valid() && FileEntry(st.data, dirs, files, d, j, key, ev)
      requires ev.size < size && size + 512 * st.fs.g.spc - 1 < LIMIT
      modifies this`dirs, this`files, st`ext, st`data, st.fs`disk, st.fs`sec
      ensures Valid() && dirs.Keys == old(dirs.Keys)
      ensures files == if ok then old(files)[key := File(Resize(old(files)[key].bytes, size))] else old(files)
      ensures ok <==> Growth(st.fs.g, FileRoom(old(st.data), old(dirs), key), size) <= old(st.Spare())
    {
      hide Means, StoreOk, FileEntry, ZeroSlack, Resize, FileRoom, Growth, OnDisk;
      SpcPos2(st);
      var nf;
      ok, nf := GrowFor(d, ev, size, j, key);
      if !ok {
        return;
      }
      Exposed(st.data[nf], ev.size, size);
      FinishFile(d, ev, nf, size, old(st.data), j, key);
    }

    // The growing half within a cluster of 2^32: the count wraps to 0, no cluster
    // is taken, and the entry claims bytes its chain does not have.
    method GrowWraps(d: nat, ev: Entry, size: nat, ghost j: nat, ghost key: Key) returns (ok: bool)
      requires Valid() && FileEntry(st.data, dirs, files, d, j, key, ev)
      requires ev.size < size < LIMIT <= size + 512 * st.fs.g.spc - 1
      modifies st`ext, st`data, st.fs`disk, st.fs`sec
      ensures ok && st.Ok() && OnlyDir(old(st.data), st.data, d)
      ensures var s := Changed(dirs[d][j], ev.cluster, size);
              DirOk(st.data[d], dirs[d][j := s]) && SizeOf(s.short) == size && !EntryOk(st.data, dirs, s)
      ensures Held(st.data, ev.cluster) < size
    {
      hide Means, StoreOk, DirOk, EntryOf, ZeroSlack, NodeOf, EntryOk, Span, Need, Padded, Vis, GoodGeo, FileEntry,
           Changed, KeyOf, First,
           IsDir, SlotOk, OnlyDir, Held;
      GeoGood(st);
      FileSlot(st.data, dirs, files, d, j, key, ev);
      SlotAt(st.data, dirs, files, d, j);
      FileStore(st.data, dirs, files, d, j, key, ev);
      DirAt(st.data, dirs, files, d);
      KeySmall(st, ev.cluster);
      SpcPos(st.fs.g);
      NeedNothing(size, 512 * st.fs.g.spc);
      var nf;
      ok, nf := st.Grow(ev.cluster, Need(size, 512 * st.fs.g.spc));
      ChainBelow(st.fs.g, st.fs.disk, st.ext, st.data, ev.cluster, size);
      ghost var x := st.data;
      ChangeSlot(st, d, ev.pos, nf, size, dirs[d], j);
      WrappedEntry(x, st.data, dirs, d, dirs[d][j], ev.cluster, size);
    }

    // The shrinking half, down to at least one byte.
    method ShrinkFile(d: nat, ev: Entry, size: nat, ghost j: nat, ghost key: Key)
      requires Valid() && FileEntry(st.data, dirs, files, d, j, key, ev)
      requires 0 < size < ev.size && size + 512 * st.fs.g.spc - 1 < LIMIT
      modifies this`dirs, this`files, st`ext, st`data, st.fs`disk, st.fs`sec
      ensures Valid() && dirs.Keys == old(dirs.Keys)
      ensures files == old(files)[key := File(Resize(old(files)[key].bytes, size))]
    {
      hide Means, StoreOk, FileEntry, ZeroSlack, Resize, Need, Span, Overwrite, GoodGeo;
      ghost var x0 := st.data;
      var first := ev.cluster;
      FileStore(x0, dirs, files, d, j, key, ev);
      GeoGood(st);
      NeedSpan(st.fs.g, size);
      var keep := Need(size, 512 * st.fs.g.spc);
      KeepFits(st.fs.g, st.fs.disk, st.ext, x0, first, keep, size, ev.size);
      st.Cut(first, keep);
      ghost var m := Span(st.fs.g, keep);
      CutFile(x0[first], m, size);
      var tail := ClusterEnd(keep, st.fs.g) - size;
      if tail > 0 {
        st.WriteAt(first, size, Zeros(tail));
      } else {
        OverwriteNothing(x0[first][..m], size);
        NoZeros();
      }
      Shortened(x0[first], ev.size, size);
      FinishFile(d, ev, first, size, x0, j, key);
    }

    // Down to nothing: the chain goes.
    method EmptyFile(d: nat, ev: Entry, ghost j: nat, ghost key: Key)
      requires Valid() && FileEntry(st.data, dirs, files, d, j, key, ev) && 0 < ev.size
      modifies this`dirs, this`files, st`ext, st`data, st.fs`disk, st.fs`sec
      ensures Valid() && dirs.Keys == old(dirs.Keys)
      ensures files == old(files)[key := File([])]
    {
      hide Means, StoreOk, FileEntry, ZeroSlack, DirOk, OnlyDir, Changed, EntryOf, Holding, KeyOf, Vis, EntryOk,
           NodeOf, First, IsDir;
      ghost var x0 := st.data;
      FileStore(x0, dirs, files, d, j, key, ev);
      FileSlot(x0, dirs, files, d, j, key, ev);
      DirAt(x0, dirs, files, d);
      st.Free(ev.cluster);
      ghost var x1 := st.data;
      ChangeSlot(st, d, ev.pos, 0, 0, dirs[d], j);
      FileEmptied(x0, x1, st.data, dirs, files, d, j, key, ev);
      dirs := dirs[d := dirs[d][j := Changed(dirs[d][j], 0, 0)]];
      files := files[key := File([])];
    }

    method Truncate(d: nat, name: Bytes, size: nat) returns (ok: bool)
      requires Valid() && d in dirs && GoodName(name) && size + 512 * st.fs.g.spc - 1 < LIMIT
      modifies this`dirs, this`files, st`ext, st`data, st.fs`disk, st.fs`sec
      ensures Valid() && dirs.Keys == old(dirs.Keys)
      ensures var key, was := (d, Fold(name)), old(files);
              if ok then key in was && was[key].File? && files == was[key := File(Resize(was[key].bytes, size))]
              else files == was
      ensures var key, was := (d, Fold(name)), old(files);
              ok <==> (key in was && was[key].File? && (size <= |was[key].bytes| ||
                       Growth(st.fs.g, FileRoom(old(st.data), old(dirs), key), size) <= old(st.Spare())))
    {
      hide Means, StoreOk, Fold, GoodName, FileEntry, EntryOf, Holding, FileRoom, Growth, OnDisk;
      ghost var key := (d, Fold(name));
      var found, ev, j := Find(d, name);
      if !found || ev.attr / 16 % 2 == 1 {
        return false;
      }
      EntryIs(st.data, dirs, files, d, j, key, ev);
      FileLength(st.data, dirs, files, d, j, key, ev);
      if size == ev.size {
        ResizeSame(files[key].bytes);
        assert files == files[key := files[key]];
        return true;
      }
      if size > ev.size {
        ok := GrowFile(d, ev, size, j, key);
      } else if size == 0 {
        EmptyFile(d, ev, j, key);
        ok := true;
      } else {
        ShrinkFile(d, ev, size, j, key);
        ok := true;
      }
    }

    method Read(d: nat, name: Bytes, off: nat, len: nat) returns (ok: bool, out: Bytes)
      requires Valid() && d in dirs && GoodName(name)
      modifies st.fs`sec
      ensures Valid()
      ensures ok <==> (d, Fold(name)) in files && files[(d, Fold(name))].File?
      ensures out == if ok then Slice(files[(d, Fold(name))].bytes, off, len) else []
    {
      hide Means, StoreOk, Fold, GoodName, FileEntry, EntryOf, Holding, ZeroSlack;
      ghost var key := (d, Fold(name));
      var found, ev, j := Find(d, name);
      if !found || ev.attr / 16 % 2 == 1 {
        return false, [];
      }
      EntryIs(st.data, dirs, files, d, j, key, ev);
      FileStore(st.data, dirs, files, d, j, key, ev);
      FileLength(st.data, dirs, files, d, j, key, ev);
      if off >= ev.size {
        return true, [];
      }
      var avail := ev.size - off;
      var n := if len > avail then avail else len;
      out := st.ReadAt(ev.cluster, off, n);
      InPrefix(st.data[ev.cluster], ev.size, off, n);
      ok := true;
    }

    method Unlink(d: nat, name: Bytes) returns (ok: bool)
      requires Valid() && d in dirs && GoodName(name)
      modifies this`dirs, this`files, st`ext, st`data, st.fs`disk, st.fs`sec
      ensures Valid() && dirs.Keys == old(dirs.Keys)
      ensures ok <==> (d, Fold(name)) in old(files) && old(files)[(d, Fold(name))].File?
      ensures files == if ok then old(files) - {(d, Fold(name))} else old(files)
    {
      hide Means, StoreOk, Fold, GoodName, FileEntry, EntryOf, Holding, ZeroSlack, DirOk, OnlyDir, Vis, KeyOf,
           EntryOk, NodeOf, First, IsDir, Gone;
      ghost var key := (d, Fold(name));
      var found, ev, j := Find(d, name);
      if !found || ev.attr / 16 % 2 == 1 {
        return false;
      }
      ghost var x0 := st.data;
      EntryIs(x0, dirs, files, d, j, key, ev);
      FileSlot(x0, dirs, files, d, j, key, ev);
      FileStore(x0, dirs, files, d, j, key, ev);
      DirAt(x0, dirs, files, d);
      if ev.cluster != 0 {
        st.Free(ev.cluster);
      }
      ghost var slots := dirs[d];
      DeleteSlot(st, d, ev, slots, j);
      OnlyDirHas(if ev.cluster != 0 then x0 - {ev.cluster} else x0, st.data, d);
      GoneDead(slots[j]);
      RemoveFile(x0, dirs, files, st.data, d, j, Gone(slots[j]));
      dirs := dirs[d := slots[j := Gone(slots[j])]];
      files := files - {key};
      ok := true;
    }

    // init_subdir: "." and ".." in a zeroed cluster.
    method InitSubdir(clu: nat, parent: nat) returns (ghost dots: seq<Slot>)
      requires st.Ok() && clu in st.data && clu != 0 && clu < 0x1_0000 && parent < 0x1_0000
      requires st.data[clu] == Zeros(512 * st.fs.g.spc) && st.fs.g.spc >= 1
      modifies st`data, st.fs`disk, st.fs`sec
      ensures st.Ok() && OnlyDir(old(st.data), st.data, clu) && DirOk(st.data[clu], dots) && OnlyDots(dots)
      ensures st.Spare() == old(st.Spare())
    {
      hide StoreOk, Overwrite, DirOk, OnlyDots, Zeros, OnDisk;
      var s := st.DirSector(clu, 0);
      ZeroSector(512 * st.fs.g.spc);
      var dot := DotRow(1, clu);
      var dotdot := DotRow(2, parent);
      st.fs.sec := Patch(s, 0, dot);
      st.fs.sec := Patch(st.fs.sec, 32, dotdot);
      st.PutDirSector(clu, 0, st.fs.sec);
      dots := [Group([], dot), Group([], dotdot)];
      Subdir(512 * st.fs.g.spc, st.fs.g.spc, dot, dotdot);
    }

    // A cluster of its own, with its dots.
    method MakeDir(parent: nat) returns (ok: bool, clu: nat, ghost dots: seq<Slot>)
      requires st.Ok() && parent in st.data && parent < 0x1_0000
      modifies st`ext, st`data, st.fs`disk, st.fs`sec
      ensures st.Ok() && (ok <==> old(st.Spare()) > 0) && st.Spare() == old(st.Spare()) - (if ok then 1 else 0)
      ensures !ok ==> st.data == old(st.data)
      ensures ok ==> 0 < clu < 0x1_0000 && clu !in old(st.data) && clu in st.data
      ensures ok ==> st.data == old(st.data)[clu := st.data[clu]]
      ensures ok ==> parent in st.data && st.data[parent] == old(st.data)[parent]
      ensures ok ==> DirOk(st.data[clu], dots) && OnlyDots(dots)
    {
      hide StoreOk, DirOk, OnlyDir, OnlyDots, Zeros, OnDisk;
      SpcPos2(st);
      dots := [];
      ghost var x0 := st.data;
      ok, clu := st.NewCluster();
      if !ok {
        return;
      }
      ghost var xa := st.data;
      KeySmall(st, clu);
      dots := InitSubdir(clu, parent);
      Beside(x0, xa, st.data, clu, parent);
    }

    method Mkdir(d: nat, name: Bytes) returns (ok: bool, ghost id: nat)
      requires Valid() && d in dirs && GoodName(name)
      modifies this`dirs, this`files, st`ext, st`data, st.fs`disk, st.fs`sec
      ensures Valid()
      ensures ok ==> (d, Fold(name)) !in old(files) && files == old(files)[(d, Fold(name)) := Folder(id)]
      ensures ok ==> id !in old(dirs) && dirs.Keys == old(dirs.Keys) + {id}
      ensures !ok ==> files == old(files) && dirs.Keys == old(dirs.Keys)
      ensures ok <==> ((d, Fold(name)) !in old(files) && old(st.Spare()) > 0 &&
                       CanAdd(st.fs.g, old(st.data), old(dirs), old(st.Spare()) - 1, d, name))
    {
      hide Growth, Fits, CanAdd, AddCost, OnDisk, Flat, Fits83, RowCount, Means, StoreOk, DirOk, EntryOf, Fold,
           Holding, GoodName, NewRow, Visible, KeyOf, SlotOk, RowsOf, NameOf, First, IsDir, OnlyDir,
           Chunks, ReadsBack, IsVolume, OnlyDots, NewFolder, WithFolder, Zeros;
      var found, ev, i := Find(d, name);
      if found {
        return false, 0;
      }
      ghost var x0 := st.data;
      DirAt(x0, dirs, files, d);
      KeySmall(st, d);
      var clu;
      ghost var dots;
      ok, clu, dots := MakeDir(d);
      if !ok {
        return false, 0;
      }
      id := clu;
      ghost var x1 := st.data;
      GoodReads(name);
      GoodNul(name);
      var rows;
      ghost var g;
      // 255 bytes never take more than 20 rows, so building cannot fail here.
      ok, rows, g := BuildEntries(st, d, name, ATTR_DIR, clu, 0, dirs[d]);
      NewSlot(d, g, name, ATTR_DIR, clu, 0);
      CanAddIs(st.fs.g, x0, dirs, st.Spare(), d, name);
      ok := DirAppend(st, d, rows, dirs[d], g);
      ghost var x2 := st.data;
      AroundDir(x0, x1, x2, clu, d);
      if !ok {
        st.Free(clu);
        PadDir(x0, dirs, files, st.data, d);
        return;
      }
      FolderMade(x0, x2, dirs, d, g, clu, dots);
      AddFolder(x0, dirs, files, x2, d, g, clu, dots);
      WithKeys(dirs, d, g, clu, dots);
      FreshDir(x0, dirs, files, clu);
      dirs, files := WithFolder(dirs, d, g, clu, dots), files[(d, Fold(name)) := Folder(clu)];
    }

    // The scan of rmdir: nothing but dots.
    method IsEmpty(c: nat) returns (empty: bool)
      requires Valid() && c in dirs && c != 0
      modifies st.fs`sec
      ensures Valid() && empty == NoneVisible(dirs, c)
    {
      hide Means, StoreOk, DirOk, EntryOf, NameOf, IsVolume, PosAt, Vis;
      DirAt(st.data, dirs, files, c);
      ghost var slots := dirs[c];
      var total := st.DirTotal(c);
      NoSlots(slots);
      var pos := 0;
      ghost var i := 0;
      while true
        invariant Valid() && i <= |slots| && pos == PosAt(slots, i, 0)
        invariant forall k :: 0 <= k < i ==> !Vis(dirs, c, k)
        decreases |slots| - i
      {
        var more, child, next;
        ghost var j;
        more, child, next, j := ScanNext(st, c, pos, total, slots, i);
        DeadUnseen(dirs, c, i, j);
        if !more {
          UnseenOutside(dirs, c);
          return true;
        }
        pos, i := next, j + 1;
        EntryFields(slots, j);
        SeenIs(st.data, dirs, files, c, j);
        if IsDots(child.name) {
          continue;
        }
        return false;
      }
    }

    method Rmdir(d: nat, name: Bytes) returns (ok: bool)
      requires Valid() && d in dirs && GoodName(name)
      modifies this`dirs, this`files, st`ext, st`data, st.fs`disk, st.fs`sec
      ensures Valid()
      ensures ok <==> (d, Fold(name)) in old(files) && old(files)[(d, Fold(name))].Folder?
                      && forall k :: k in old(files) ==> k.0 != old(files)[(d, Fold(name))].id
      ensures ok ==> files == old(files) - {(d, Fold(name))}
      ensures ok ==> dirs.Keys == old(dirs.Keys) - {old(files)[(d, Fold(name))].id}
      ensures !ok ==> files == old(files) && dirs == old(dirs)
    {
      hide Means, StoreOk, Fold, GoodName, EntryOf, Holding, DirOk, OnlyDir, Vis, KeyOf, EntryOk, NodeOf, First,
           IsDir, Gone, NoneVisible;
      ghost var key := (d, Fold(name));
      var found, ev, j := Find(d, name);
      if !found || ev.attr / 16 % 2 == 0 {
        return false;
      }
      ghost var x0 := st.data;
      FolderSlot(x0, dirs, files, d, j, key, ev);
      var empty := IsEmpty(ev.cluster);
      EmptyMeans(x0, dirs, files, ev.cluster);
      if !empty {
        return false;
      }
      SelfSeen(dirs, d, j, ev.cluster);
      DirAt(x0, dirs, files, d);
      DirAt(x0, dirs, files, ev.cluster);
      st.Free(ev.cluster);
      ghost var slots := dirs[d];
      DeleteSlot(st, d, ev, slots, j);
      GoneDead(slots[j]);
      OnlyDirHas(x0 - {ev.cluster}, st.data, d);
      RemoveFolder(x0, dirs, files, st.data, d, j, Gone(slots[j]), ev.cluster);
      dirs := (dirs - {ev.cluster})[d := slots[j := Gone(slots[j])]];
      files := files - {key};
      ok := true;
    }
  }

  lemma SlotHolds(dirs: Dirs, key: Key, j: nat)
    requires key.0 in dirs && j < |dirs[key.0]| && Visible(dirs[key.0][j]) && KeyOf(key.0, dirs[key.0][j]) == key
    ensures Holding(dirs, key, j)
  {}

  lemma NamedGroup(slots: seq<Slot>, j: nat, name: Bytes)
    requires NamedAt(slots, j, name)
    ensures j < |slots| && slots[j].Group?
  {}

  lemma FolderIs(data: Data, s: Slot)
    requires s.Group?
    ensures NodeOf(data, s).Folder? <==> AttrOf(s.short) / 16 % 2 == 1
  {}

  lemma GoodNul(name: Bytes)
    requires GoodName(name)
    ensures NulFree(name)
  {}

  lemma OnlyDirHas(x0: Data, x1: Data, d: nat)
    requires OnlyDir(x0, x1, d)
    ensures d in x1
  {}

  // --- a file entry and its storage ---

  // Entry ev is what find_entry gave for the file under this key.
  ghost predicate FileEntry(data: Data, dirs: Dirs, files: Files, d: nat, j: nat, key: Key, ev: Entry) {
    && d in dirs && Holding(dirs, key, j) && key.0 == d && j < |dirs[d]| && dirs[d][j].Group?
    && ev == EntryOf(dirs[d], j)
    && key in files && files[key].File?
  }

  lemma FileSlot(data: Data, dirs: Dirs, files: Files, d: nat, j: nat, key: Key, ev: Entry)
    requires Means(data, dirs, files) && FileEntry(data, dirs, files, d, j, key, ev)
    ensures d in dirs && j < |dirs[d]| && dirs[d][j].Group? && Vis(dirs, d, j)
    ensures ev.cluster == First(dirs[d][j]) && ev.size == SizeOf(dirs[d][j].short) && !IsDir(dirs[d][j].short)
    ensures ev.pos == PosAt(dirs[d], j, |dirs[d][j].lfn|) && KeyOf(d, dirs[d][j]) == key
    ensures EntryOk(data, dirs, dirs[d][j]) && files[key] == NodeOf(data, dirs[d][j])
  {
    hide NameOf, DirOk, Owned, Unique, Backed;
    EntryFields(dirs[d], j);
  }

  lemma FileStore(data: Data, dirs: Dirs, files: Files, d: nat, j: nat, key: Key, ev: Entry)
    requires Means(data, dirs, files) && FileEntry(data, dirs, files, d, j, key, ev)
    ensures key in files && files[key].File? && ev.cluster in data
    ensures ev.cluster == 0 ==> ev.size == 0 && files[key] == File([])
    ensures ev.cluster != 0 ==> ev.cluster !in dirs && ZeroSlack(data[ev.cluster], ev.size)
    ensures ev.cluster != 0 ==> ev.size <= |data[ev.cluster]|
    ensures ev.cluster != 0 ==> files[key] == File(data[ev.cluster][..ev.size])
  {
    FileSlot(data, dirs, files, d, j, key, ev);
    ZeroIn(data, dirs, files);
    hide NameOf, DirOk, Means, FileEntry, Vis, KeyOf;
  }

  lemma ZeroIn(data: Data, dirs: Dirs, files: Files)
    requires Means(data, dirs, files)
    ensures 0 in data && 0 in dirs
  {
    hide DirOk, EntriesOk, Owned, Unique, Listed, Backed;
  }

  lemma EntryRoom(data: Data, dirs: Dirs, files: Files, d: nat, j: nat, key: Key, ev: Entry)
    requires Means(data, dirs, files) && FileEntry(data, dirs, files, d, j, key, ev)
    ensures FileRoom(data, dirs, key) == Held(data, ev.cluster)
  {
    FileSlot(data, dirs, files, d, j, key, ev);
    hide Means, FileRoom, Held, EntryOk, NodeOf, Vis, KeyOf, First;
    RoomIs(data, dirs, files, key, j);
  }

  // The new storage is the old chain or one nobody had; nothing else changed.
  ghost predicate OwnStorage(x0: Data, x1: Data, dirs: Dirs, c0: nat, c: nat) {
    && c != 0 && c in x1 && c !in dirs && (if c0 == 0 then c !in x0 else c == c0)
    && x1 == x0[c := x1[c]]
  }

  lemma GeoGood(st: Store)
    requires st.Ok()
    ensures GoodGeo(st.fs.g)
  {}

  lemma KeySmall(st: Store, k: nat)
    requires st.Ok() && k in st.data
    ensures k < 0x1_0000
  {
    if k != 0 {
      KeyRange(st.fs.g, st.fs.disk, st.ext, st.data, k);
    }
  }

  lemma FilePadded(x0: Data, dirs: Dirs, files: Files, x1: Data, d: nat, j: nat, key: Key, ev: Entry)
    requires Means(x0, dirs, files) && FileEntry(x0, dirs, files, d, j, key, ev) && ev.cluster != 0
    requires Padded(x0, x1, ev.cluster)
    ensures Means(x1, dirs, files) && OwnStorage(x0, x1, dirs, ev.cluster, ev.cluster)
    ensures key in files && files[key].File?
    ensures ZeroSlack(x1[ev.cluster], ev.size) && x1[ev.cluster][..ev.size] == files[key].bytes
  {
    hide Means, NodeOf, EntryOk, Vis, KeyOf, First, FileEntry, ZeroSlack;
    FileSlot(x0, dirs, files, d, j, key, ev);
    FileStore(x0, dirs, files, d, j, key, ev);
    PadFile(x0, dirs, files, x1, d, j);
    SlackGrows(x0[ev.cluster], |x1[ev.cluster]| - |x0[ev.cluster]|, ev.size);
    SlackFits(x1[ev.cluster], ev.size);
  }

  lemma FileNew(x0: Data, dirs: Dirs, files: Files, x1: Data, d: nat, j: nat, key: Key, ev: Entry, nf: nat, n: nat)
    requires Means(x0, dirs, files) && FileEntry(x0, dirs, files, d, j, key, ev) && ev.cluster == 0
    requires nf != 0 && nf !in x0 && x1 == x0[nf := Zeros(n)]
    ensures OwnStorage(x0, x1, dirs, 0, nf) && key in files && files[key].File?
    ensures ZeroSlack(x1[nf], ev.size) && x1[nf][..ev.size] == files[key].bytes
  {
    FileStore(x0, dirs, files, d, j, key, ev);
    if nf in dirs { DirAt(x0, dirs, files, nf); }
    hide Means, FileEntry;
  }

  lemma NoDir(x0: Data, x1: Data, dirs: Dirs, c0: nat, c: nat, d: nat)
    requires OwnStorage(x0, x1, dirs, c0, c) && d in dirs && d in x0
    ensures d in x1 && x1[d] == x0[d]
  {}

  lemma FileDone(x0: Data, x1: Data, x2: Data, dirs: Dirs, files: Files, d: nat, j: nat, key: Key, ev: Entry,
                 c: nat, size: nat)
    requires Means(x0, dirs, files) && FileEntry(x0, dirs, files, d, j, key, ev) && size < 0x1_0000_0000 && c < 0x1_0000
    requires OwnStorage(x0, x1, dirs, ev.cluster, c) && ZeroSlack(x1[c], size) && OnlyDir(x1, x2, d)
    requires DirOk(x2[d], dirs[d][j := Changed(dirs[d][j], c, size)])
    ensures size <= |x1[c]|
    ensures Means(x2, dirs[d := dirs[d][j := Changed(dirs[d][j], c, size)]], files[key := File(x1[c][..size])])
  {
    hide *;
    FileSlot(x0, dirs, files, d, j, key, ev);
    SlotAt(x0, dirs, files, d, j);
    OwnKept(x0, x1, x2, dirs, d, ev.cluster, c);
    SlackFits(x1[c], size);
    var s := Changed(dirs[d][j], c, size);
    ChangedOk(dirs[d][j], c, size);
    ChangedEntry(dirs, dirs[d][j], s, d, c, size);
    DoneEntry(x1, x2, dirs, s, d, c, size);
    VisIs(dirs, d, j);
    ChangeFile(x0, dirs, files, x2, d, j, s, ev.cluster, c);
  }

  lemma OwnKept(x0: Data, x1: Data, x2: Data, dirs: Dirs, d: nat, c0: nat, c: nat)
    requires OwnStorage(x0, x1, dirs, c0, c) && OnlyDir(x1, x2, d)
    ensures c != 0 && c in x1 && c !in dirs && d in x2 && (c == c0 || (c0 == 0 && c !in x0))
    ensures DataKept(x0, x2, d, if c0 == 0 then c else c0)
  {}

  lemma SlotAt(data: Data, dirs: Dirs, files: Files, d: nat, j: nat)
    requires Means(data, dirs, files) && d in dirs && j < |dirs[d]|
    ensures SlotOk(dirs[d][j])
  {
    DirAt(data, dirs, files, d);
    hide Means;
  }

  lemma ChangedEntry(dirs: Dirs, s0: Slot, s: Slot, d: nat, c: nat, size: nat)
    requires s0.Group? && s.Group? && NameOf(s) == NameOf(s0) && AttrOf(s.short) == AttrOf(s0.short)
    requires ClusterOfRow(s.short) == c
    ensures Visible(s) == Visible(s0) && IsDir(s.short) == IsDir(s0.short) && KeyOf(d, s) == KeyOf(d, s0)
    ensures First(s) == c
  {}

  lemma DoneEntry(x1: Data, x2: Data, dirs: Dirs, s: Slot, d: nat, c: nat, size: nat)
    requires s.Group? && !IsDir(s.short) && First(s) == c && SizeOf(s.short) == size && c != 0 && c !in dirs
    requires d in dirs
    requires c in x1 && ZeroSlack(x1[c], size) && size <= |x1[c]| && OnlyDir(x1, x2, d)
    ensures EntryOk(x2, dirs, s) && NodeOf(x2, s) == File(x1[c][..size])
  {}

  lemma SpcPos2(st: Store)
    requires st.Ok()
    ensures 1 <= st.fs.g.spc
  {}

  lemma SpliceNothing(b: Bytes, off: nat)
    ensures Splice(b, off, []) == b
  {}

  lemma SizeSmall(dirs: Dirs, files: Files, x0: Data, d: nat, j: nat, key: Key, ev: Entry)
    requires Means(x0, dirs, files) && FileEntry(x0, dirs, files, d, j, key, ev)
    ensures ev.size < LIMIT
  {
    FileSlot(x0, dirs, files, d, j, key, ev);
    hide Means, FileEntry;
    Rd32Small(dirs[d][j].short);
  }

  lemma Rd32Small(e: Row)
    ensures SizeOf(e) < LIMIT
  {}

  lemma EntryIs(data: Data, dirs: Dirs, files: Files, d: nat, j: nat, key: Key, ev: Entry)
    requires key.0 == d && Holding(dirs, key, j) && d in dirs && j < |dirs[d]| && dirs[d][j].Group?
    requires ev == EntryOf(dirs[d], j)
    requires key in files && files[key].File?
    ensures FileEntry(data, dirs, files, d, j, key, ev)
  {}

  // Zero slack is what a growing truncate shows.
  lemma Exposed(p: Bytes, size: nat, n: nat)
    requires ZeroSlack(p, size) && size <= n <= |p|
    ensures ZeroSlack(p, n) && p[..n] == Resize(p[..size], n)
  {
    forall k | size <= k < |p|
      ensures p[k] == 0
    {
      assert p[k] == p[size..][k - size];
    }
    assert p[n..] == Zeros(|p| - n);
  }

  lemma Shortened(b: Bytes, size: nat, n: nat)
    requires n <= size <= |b|
    ensures b[..n] == Resize(b[..size], n)
  {}

  // The bytes of `keep` clusters.
  function ClusterEnd(keep: nat, g: Geo): (n: nat)
    ensures n == Span(g, keep)
  {
    SpanIs(g, keep);
    keep * (512 * g.spc)
  }

  lemma KeepFits(g: Geo, disk: Disk, ext: Exts, data: Data, first: nat, keep: nat, size: nat, len: nat)
    requires StoreOk(g, disk, ext, data) && first in data && first != 0 && len <= |data[first]| && size < len
    requires size <= Span(g, keep) < size + 512 * g.spc && keep > 0
    ensures Span(g, keep) <= |data[first]|
  {
    hide *;
    KeyRange(g, disk, ext, data, first);
    SpansFit(g, |ext[first]|, keep, size, len);
  }

  lemma SpansFit(g: Geo, n: nat, keep: nat, size: nat, len: nat)
    requires len <= Span(g, n) && size < len && size <= Span(g, keep) < size + 512 * g.spc && keep > 0
    ensures Span(g, keep) <= Span(g, n)
  {
    hide Span;
    if n < keep {
      SpanMono(g, n, keep - 1);
      SpanStep(g, keep - 1);
    } else {
      SpanMono(g, keep, n);
    }
  }

  lemma ResizeSame(b: Bytes)
    ensures Resize(b, |b|) == b
  {}

  lemma NoZeros()
    ensures Zeros(0) == []
  {}

  lemma FileEmptied(x0: Data, x1: Data, x2: Data, dirs: Dirs, files: Files, d: nat, j: nat, key: Key, ev: Entry)
    requires Means(x0, dirs, files) && FileEntry(x0, dirs, files, d, j, key, ev) && ev.cluster != 0
    requires x1 == x0 - {ev.cluster} && OnlyDir(x1, x2, d)
    requires DirOk(x2[d], dirs[d][j := Changed(dirs[d][j], 0, 0)])
    ensures Means(x2, dirs[d := dirs[d][j := Changed(dirs[d][j], 0, 0)]], files[key := File([])])
  {
    hide *;
    FileSlot(x0, dirs, files, d, j, key, ev);
    SlotAt(x0, dirs, files, d, j);
    FreedKept(x0, x1, x2, d, ev.cluster);
    var s := Changed(dirs[d][j], 0, 0);
    ChangedOk(dirs[d][j], 0, 0);
    ChangedEntry(dirs, dirs[d][j], s, d, 0, 0);
    EmptyEntry(x2, dirs, s);
    VisIs(dirs, d, j);
    ChangeFile(x0, dirs, files, x2, d, j, s, ev.cluster, 0);
  }

  lemma FreedKept(x0: Data, x1: Data, x2: Data, d: nat, c: nat)
    requires x1 == x0 - {c} && OnlyDir(x1, x2, d)
    ensures d in x2 && DataKept(x0, x2, d, c)
  {}

  lemma FileLength(data: Data, dirs: Dirs, files: Files, d: nat, j: nat, key: Key, ev: Entry)
    requires Means(data, dirs, files) && FileEntry(data, dirs, files, d, j, key, ev)
    ensures key in files && files[key].File? && |files[key].bytes| == ev.size
  {
    hide Means, FileEntry;
    FileStore(data, dirs, files, d, j, key, ev);
  }

  // --- read ---

  function Slice(b: Bytes, off: nat, len: nat): Bytes {
    if off >= |b| then [] else b[off..if off + len > |b| then |b| else off + len]
  }

  lemma InPrefix(b: Bytes, size: nat, off: nat, n: nat)
    requires size <= |b| && off + n <= size
    ensures b[..size][off..off + n] == b[off..off + n]
  {}

  lemma GoneDead(s: Slot)
    ensures Gone(s).Dead?
  {}

  // --- subdirectories ---

  // A dot entry: n dots, spaces, the directory attribute and a cluster.
  method DotRow(n: nat, cluster: nat) returns (e: Row)
    requires 1 <= n <= 2 && cluster < 0x1_0000
    ensures IsDotRow(e, n) && ClusterOfRow(e) == cluster
  {
    var b: Bytes := Zeros(32);
    for i := 0 to 11
      invariant |b| == 32 && forall k :: 0 <= k < 32 ==> b[k] == if k < i then (if k < n then DOT else SPACE) else 0
    {
      b := b[i := if i < n then DOT else SPACE];
    }
    e := b[11 := ATTR_DIR][26 := cluster % 256][27 := cluster / 256];
  }

  ghost predicate IsDotRow(e: Row, n: nat) {
    && (forall k :: 0 <= k < 11 ==> e[k] == if k < n then DOT else SPACE)
    && e[11] == ATTR_DIR && e[12] == 0
  }

  lemma DotName(e: Row, n: nat)
    requires IsDotRow(e, n) && 1 <= n <= 2
    ensures SlotOk(Group([], e)) && IsDots(NameOf(Group([], e))) && !IsVolume(e)
  {
    FirstSpaceIs(e[..8], n);
    FirstSpaceIs(e[8..11], 0);
    var x := Unpart(e[8..11], LowExt(e));
    assert x == [];
    var b := Unpart(Unescape(e[..8]), LowBase(e));
    assert b == if n == 1 then [DOT] else [DOT, DOT];
  }

  lemma ZeroSector(n: nat)
    requires n >= 512
    ensures Zeros(n)[0..512] == Zeros(512)
  {}

  // The bytes of a new subdirectory.
  lemma Subdir(n: nat, spc: nat, dot: Row, dotdot: Row)
    requires IsDotRow(dot, 1) && IsDotRow(dotdot, 2) && spc >= 1 && n == 512 * spc
    ensures var s := Overwrite(Overwrite(Zeros(n)[0..512], 0, dot), 32, dotdot);
            DirOk(Overwrite(Zeros(n), 0, s), [Group([], dot), Group([], dotdot)])
    ensures OnlyDots([Group([], dot), Group([], dotdot)])
  {
    var z := Zeros(n);
    var dots := [Group([], dot), Group([], dotdot)];
    DotName(dot, 1);
    DotName(dotdot, 2);
    Mult(n, 512, spc);
    var s := Overwrite(Overwrite(z[0..512], 0, dot), 32, dotdot);
    var b := Overwrite(z, 0, s);
    assert z[512 * 0..512 * 0 + 512] == z[0..512];
    TwoRows(z, dot, dotdot);
    FlatTwo(dots[0], dots[1]);
    TwoSlots(b, dot, dotdot);
  }

  lemma TwoSlots(b: Bytes, dot: Row, dotdot: Row)
    requires |b| % 512 == 0 && |b| > 0 && |Rows(b)| >= 3 && Rows(b)[0] == dot && Rows(b)[1] == dotdot
    requires Rows(b)[2][0] == 0
    requires SlotOk(Group([], dot)) && SlotOk(Group([], dotdot))
    ensures DirOk(b, [Group([], dot), Group([], dotdot)])
  {
    hide SlotOk, Rows, Flat;
    FlatTwo(Group([], dot), Group([], dotdot));
    PrefixIs(Flat([Group([], dot), Group([], dotdot)]), Rows(b));
  }

  lemma FlatTwo(a: Slot, b: Slot)
    ensures Flat([a, b]) == RowsOf(a) + RowsOf(b)
  {
    assert [a, b] == [] + [a] + [b];
    FlatSnoc([] + [a], b);
    FlatSnoc([], a);
  }

  lemma TwoRows(z: Bytes, dot: Row, dotdot: Row)
    requires |z| >= 512 && |z| % 512 == 0 && z == Zeros(|z|)
    ensures var s := Overwrite(Overwrite(z[0..512], 0, dot), 32, dotdot); var b := Overwrite(z, 0, s);
            |b| == |z| && |Rows(b)| >= 3 && Rows(b)[0] == dot && Rows(b)[1] == dotdot && Rows(b)[2][0] == 0
  {
    var s := Overwrite(Overwrite(z[0..512], 0, dot), 32, dotdot);
    var b := Overwrite(z, 0, s);
    assert Rows(b)[0] == RowAt(b, 0) && Rows(b)[1] == RowAt(b, 1) && Rows(b)[2] == RowAt(b, 2);
    assert b[0..32] == dot;
    assert b[32..64] == dotdot;
    OverwriteAt(z, 0, s, 64);
    OverwriteAt(Overwrite(z[0..512], 0, dot), 32, dotdot, 64);
    OverwriteAt(z[0..512], 0, dot, 64);
  }

  // Storage beside directory d.
  lemma Beside(x0: Data, xa: Data, x1: Data, c: nat, d: nat)
    requires c !in x0 && c in xa && xa == x0[c := xa[c]] && OnlyDir(xa, x1, c) && d in x0
    ensures c in x1 && d in x1 && x1[d] == x0[d] && x1 == x0[c := x1[c]]
  {}

  lemma AroundDir(x0: Data, x1: Data, x2: Data, c: nat, d: nat)
    requires c !in x0 && c in x1 && x1 == x0[c := x1[c]] && d in x0 && OnlyDir(x1, x2, d)
    ensures c in x2 && x2[c] == x1[c] && d in x2 && DataKept(x0, x2, d, c) && OnlyDir(x0, x2 - {c}, d)
    ensures (x2 - {c})[d] == x2[d]
  {}

  lemma FolderMade(x0: Data, x2: Data, dirs: Dirs, d: nat, g: Slot, c: nat, dots: seq<Slot>)
    requires d in dirs && Visible(g) && g.Group? && IsDir(g.short) && First(g) == c && c != 0 && c !in x0 && c in x2
    requires DataKept(x0, x2, d, c) && d in x2 && DirOk(x2[d], dirs[d] + [g]) && DirOk(x2[c], dots) && OnlyDots(dots)
    ensures NewFolder(x0, dirs, x2, d, g, c, dots)
  {}

  lemma WithKeys(dirs: Dirs, d: nat, g: Slot, c: nat, dots: seq<Slot>)
    requires d in dirs
    ensures WithFolder(dirs, d, g, c, dots).Keys == dirs.Keys + {c}
  {}

  lemma FreshDir(x0: Data, dirs: Dirs, files: Files, c: nat)
    requires Means(x0, dirs, files) && c !in x0
    ensures c !in dirs
  {
    if c in dirs { DirAt(x0, dirs, files, c); }
  }

  lemma DeadUnseen(dirs: Dirs, c: nat, i: nat, j: nat)
    requires c in dirs && i <= j <= |dirs[c]| && forall k :: i <= k < j ==> dirs[c][k].Dead?
    ensures forall k :: i <= k < j ==> !Vis(dirs, c, k)
  {}

  lemma UnseenOutside(dirs: Dirs, c: nat)
    requires c in dirs && forall k :: 0 <= k < |dirs[c]| ==> !Vis(dirs, c, k)
    ensures NoneVisible(dirs, c)
  {}

  lemma SeenIs(data: Data, dirs: Dirs, files: Files, c: nat, j: nat)
    requires Means(data, dirs, files) && c in dirs && c != 0 && j < |dirs[c]| && dirs[c][j].Group?
    ensures Vis(dirs, c, j) <==> !IsDots(NameOf(dirs[c][j]))
  {
    hide NameOf, DirOk, EntriesOk, Owned, Unique, Listed, Backed;
  }

  lemma FolderSlot(data: Data, dirs: Dirs, files: Files, d: nat, j: nat, key: Key, ev: Entry)
    requires Means(data, dirs, files) && d in dirs && key.0 == d && Holding(dirs, key, j) && j < |dirs[d]|
    requires dirs[d][j].Group?
    requires ev == EntryOf(dirs[d], j) && ev.attr / 16 % 2 == 1
    ensures Vis(dirs, d, j) && IsDir(dirs[d][j].short) && First(dirs[d][j]) == ev.cluster && KeyOf(d, dirs[d][j]) == key
    ensures ev.cluster in dirs && ev.cluster != 0 && key in files && files[key] == Folder(ev.cluster)
  {
    hide NameOf, DirOk, Owned, Unique, Backed;
    EntryFields(dirs[d], j);
    assert EntryOk(data, dirs, dirs[d][j]);
  }

  // A directory shows nothing exactly when the map has nothing in it.
  lemma EmptyMeans(data: Data, dirs: Dirs, files: Files, c: nat)
    requires Means(data, dirs, files)
    ensures NoneVisible(dirs, c) <==> forall k :: k in files ==> k.0 != c
  {
    hide DirsOk, EntriesOk, Owned, Unique, NodeOf;
    if !NoneVisible(dirs, c) {
      var j :| Vis(dirs, c, j);
      KeyDir(c, dirs[c][j]);
      assert KeyOf(c, dirs[c][j]) in files;
    } else {
      forall k | k in files
        ensures k.0 != c
      {
        var i :| Holding(dirs, k, i);
      }
    }
  }

  lemma SelfSeen(dirs: Dirs, d: nat, j: nat, c: nat)
    requires Vis(dirs, d, j) && NoneVisible(dirs, c)
    ensures c != d
  {}

  // --- the wrap ---

  // No chain is within a cluster of 2^32 bytes long.
  lemma ChainBelow(g: Geo, disk: Disk, ext: Exts, data: Data, k: nat, size: nat)
    requires StoreOk(g, disk, ext, data) && k in data && 0 < size && LIMIT <= size + 512 * g.spc - 1
    ensures Held(data, k) < size
  {
    hide StoreOk, Span;
    if k != 0 {
      KeyRange(g, disk, ext, data, k);
      StoreDisk(g, disk, ext, data);
      ShortChain(g, FatOf(disk, g), ext[k]);
      LongestSpan(g, |ext[k]|);
    }
  }

  lemma ShortChain(g: Geo, fat: Fat, ch: Chain)
    requires GoodGeo(g) && IsChain(g, fat, ch)
    ensures |ch| < 0xFFF4
  {
    ChainFits(g, ch);
  }

  lemma LongestSpan(g: Geo, n: nat)
    requires GoodGeo(g) && n < 0xFFF4
    ensures Span(g, n) + 512 * g.spc <= 0xFFF4 * 0x1_0000 < LIMIT
  {
    hide Span;
    SpcPos(g);
    hide GoodGeo;
    SpanStep(g, n);
    SpanMono(g, n + 1, 0xFFF4);
    SpanIs(g, 0xFFF4);
    MulLe(g.spc, 128, 512 * 0xFFF4);
    assert g.spc * 512 * 0xFFF4 == g.spc * (512 * 0xFFF4);
  }

  lemma WrappedEntry(x: Data, x1: Data, dirs: Dirs, d: nat, s: Slot, c: nat, size: nat)
    requires s.Group? && SlotOk(s) && !IsDir(s.short) && c < 0x1_0000 && 0 < size < 0x1_0000_0000
    requires d in dirs && (c == 0 || c !in dirs) && OnlyDir(x, x1, d) && Held(x, c) < size
    ensures var r := Changed(s, c, size); r.Group? && SizeOf(r.short) == size && !EntryOk(x1, dirs, r)
    ensures Held(x1, c) < size
  {
    ChangedOk(s, c, size);
    hide SlotOk, Changed;
  }
}
