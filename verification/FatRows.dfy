// Changing directories: writing, updating, deleting and appending rows
// (vnu/kernel/fs/fat16.cpp).
module FatRows {
  import opened Wrappers
  import opened FatDisk
  import opened FatExtent
  import opened FatChain
  import opened FatData
  import opened FatStore
  import opened FatNames
  import opened FatSlots
  import opened FatDir

  // Directory d is rewritten, everything else is as before.
  ghost predicate OnlyDir(x0: Data, x1: Data, d: nat) {
    d in x0 && d in x1 && x1 == x0[d := x1[d]]
  }

  // Row r replaced.
  ghost predicate RowSet(b0: Bytes, b1: Bytes, r: nat, e: Row) {
    |b1| == |b0| && r < |Rows(b0)| && Rows(b1) == Rows(b0)[r := e]
  }

  // The bytes [off, off + |x|) of the sector that holds pos are rewritten.
  lemma SectorPatch(b: Bytes, pos: nat, e: Row)
    requires |b| % 512 == 0 && pos % 32 == 0 && pos + 32 <= |b|
    ensures 512 * (pos / 512) + 512 <= |b| && pos % 512 + 32 <= 512
    ensures var t := pos / 512;
            RowSet(b, Overwrite(b, 512 * t, Overwrite(b[512 * t..512 * t + 512], pos % 512, e)), pos / 32, e)
  {
    hide Rows, Overwrite;
    InSector(|b|, pos);
    PatchSector(b, pos / 512, pos % 512, e);
    RowsPut(b, pos / 32, e);
  }

  // write_entry_at
  method WriteEntryAt(st: Store, d: nat, pos: nat, e: Row)
    requires st.Ok() && d in st.data && |st.data[d]| % 512 == 0 && pos % 32 == 0 && pos + 32 <= |st.data[d]|
    modifies st`data, st.fs`disk, st.fs`sec
    ensures st.Ok() && OnlyDir(old(st.data), st.data, d) && RowSet(old(st.data)[d], st.data[d], pos / 32, e)
    ensures st.Spare() == old(st.Spare())
  {
    hide StoreOk, Rows, Overwrite, OnDisk;
    InSector(|st.data[d]|, pos);
    SectorPatch(st.data[d], pos, e);
    var t, off := pos / 512, pos % 512;
    var s := st.DirSector(d, t);
    st.fs.sec := Patch(s, off, e);
    st.PutDirSector(d, t, st.fs.sec);
  }

  method Patch(s: Sector, off: nat, e: Row) returns (r: Sector)
    requires off + 32 <= 512
    ensures r == Overwrite(s, off, e)
  {
    r := s;
    for i := 0 to 32
      invariant forall k :: 0 <= k < 512 ==> r[k] == if off <= k < off + i then e[k - off] else s[k]
    {
      r := r[off + i := e[i]];
    }
    assert r == Overwrite(s, off, e);
  }

  // mark_deleted
  method MarkDeleted(st: Store, d: nat, pos: nat)
    requires st.Ok() && d in st.data && |st.data[d]| % 512 == 0 && pos % 32 == 0 && pos + 32 <= |st.data[d]|
    modifies st`data, st.fs`disk, st.fs`sec
    ensures st.Ok() && OnlyDir(old(st.data), st.data, d)
    ensures RowSet(old(st.data)[d], st.data[d], pos / 32, RowAt(old(st.data)[d], pos / 32)[0 := 0xE5])
  {
    SetFirst(st, d, pos, 0xE5);
  }

  // The first byte of a row, through its sector.
  method SetFirst(st: Store, d: nat, pos: nat, v: Byte)
    requires st.Ok() && d in st.data && |st.data[d]| % 512 == 0 && pos % 32 == 0 && pos + 32 <= |st.data[d]|
    modifies st`data, st.fs`disk, st.fs`sec
    ensures st.Ok() && OnlyDir(old(st.data), st.data, d)
    ensures RowSet(old(st.data)[d], st.data[d], pos / 32, RowAt(old(st.data)[d], pos / 32)[0 := v])
    ensures st.Spare() == old(st.Spare())
  {
    hide StoreOk, Rows, Overwrite, RowSet, RowAt, OnDisk;
    ghost var b := st.data[d];
    RowOfSector(b, pos);
    ghost var e := RowAt(b, pos / 32);
    SectorPatch(b, pos, e[0 := v]);
    var t, off := pos / 512, pos % 512;
    var s := st.DirSector(d, t);
    st.fs.sec := s;
    FirstPatch(s, off, e, v);
    st.fs.sec := st.fs.sec[off := v];
    st.PutDirSector(d, t, st.fs.sec);
  }

  lemma FirstPatch(s: Sector, off: nat, e: Row, v: Byte)
    requires off + 32 <= 512 && s[off..off + 32] == e
    ensures s[off := v] == Overwrite(s, off, e[0 := v])
  {
    assert forall k :: 0 <= k < 32 ==> s[off + k] == s[off..off + 32][k] == e[k];
  }

  // update_entry
  method UpdateEntry(st: Store, d: nat, pos: nat, cluster: nat, size: nat)
    requires st.Ok() && d in st.data && |st.data[d]| % 512 == 0 && pos % 32 == 0 && pos + 32 <= |st.data[d]|
    requires cluster < 0x1_0000 && size < 0x1_0000_0000
    modifies st`data, st.fs`disk, st.fs`sec
    ensures st.Ok() && OnlyDir(old(st.data), st.data, d)
    ensures RowSet(old(st.data)[d], st.data[d], pos / 32, Updated(RowAt(old(st.data)[d], pos / 32), cluster, size))
  {
    hide StoreOk, Rows, Overwrite, RowSet, RowAt, Updated;
    ghost var b := st.data[d];
    RowOfSector(b, pos);
    ghost var e := RowAt(b, pos / 32);
    SectorPatch(b, pos, Updated(e, cluster, size));
    var t, off := pos / 512, pos % 512;
    var s := st.DirSector(d, t);
    st.fs.sec := PatchFields(s, off, cluster, size, e);
    st.PutDirSector(d, t, st.fs.sec);
  }

  method PatchFields(s: Sector, off: nat, cluster: nat, size: nat, ghost e: Row) returns (r: Sector)
    requires off + 32 <= 512 && cluster < 0x1_0000 && size < 0x1_0000_0000 && s[off..off + 32] == e
    ensures r == Overwrite(s, off, Updated(e, cluster, size))
  {
    hide Le32;
    var v := Le32(size);
    r := s[off + 20 := 0][off + 21 := 0][off + 26 := cluster % 256][off + 27 := cluster / 256];
    r := r[off + 28 := v[0]][off + 29 := v[1]][off + 30 := v[2]][off + 31 := v[3]];
    ghost var u := Updated(e, cluster, size);
    assert forall k :: 0 <= k < 32 ==> s[off + k] == s[off..off + 32][k] == e[k];
    assert forall k :: 0 <= k < 32 ==> r[off + k] == u[k];
    assert r == Overwrite(s, off, u);
  }

  // --- slots after a change ---

  // A slot replaced by one with as many rows.
  lemma DirUpdate(b0: Bytes, b1: Bytes, slots: seq<Slot>, j: nat, s: Slot)
    requires DirOk(b0, slots) && |b1| == |b0| && j < |slots| && SlotOk(s) && |RowsOf(s)| == |RowsOf(slots[j])|
    requires forall r :: 0 <= r < |Rows(b0)| ==>
      Rows(b1)[r] == (
        if Start(slots, j) <= r < Start(slots, j) + |RowsOf(s)|
          then RowsOf(s)[r - Start(slots, j)]
          else Rows(b0)[r])
    ensures DirOk(b1, slots[j := s])
  {
    hide Flat, Rows, SlotOk, RowsOf;
    FlatUpdate(slots, j, s);
    var f0, f1 := Flat(slots), Flat(slots[j := s]);
    forall r | 0 <= r < |f1|
      ensures Rows(b1)[r] == f1[r]
    {
      assert Rows(b0)[r] == f0[r];
    }
    PrefixIs(f1, Rows(b1));
  }

  lemma PrefixIs(f: seq<Row>, g: seq<Row>)
    requires |f| <= |g| && forall r :: 0 <= r < |f| ==> g[r] == f[r]
    ensures f <= g
  {}

  // The slot that update_entry leaves.
  function Changed(s: Slot, cluster: nat, size: nat): (r: Slot)
    requires s.Group? && cluster < 0x1_0000 && size < 0x1_0000_0000
  {
    Group(s.lfn, Updated(s.short, cluster, size))
  }

  lemma ChangedOk(s: Slot, cluster: nat, size: nat)
    requires s.Group? && SlotOk(s) && cluster < 0x1_0000 && size < 0x1_0000_0000
    ensures var r := Changed(s, cluster, size);
            && r.Group? && SlotOk(r) && NameOf(r) == NameOf(s) && |RowsOf(r)| == |RowsOf(s)|
            && AttrOf(r.short) == AttrOf(s.short)
            && ClusterOfRow(r.short) == cluster && SizeOf(r.short) == size
  {
    hide Runs, DecodeName, Updated;
    UpdatedFields(s.short, cluster, size);
  }

  method ChangeSlot(st: Store, d: nat, pos: nat, cluster: nat, size: nat, ghost slots: seq<Slot>, ghost j: nat)
    requires st.Ok() && d in st.data && DirOk(st.data[d], slots) && j < |slots| && slots[j].Group?
    requires pos == PosAt(slots, j, |slots[j].lfn|) && cluster < 0x1_0000 && size < 0x1_0000_0000
    modifies st`data, st.fs`disk, st.fs`sec
    ensures st.Ok() && OnlyDir(old(st.data), st.data, d)
    ensures DirOk(st.data[d], slots[j := Changed(slots[j], cluster, size)])
  {
    hide StoreOk, Flat, Rows, Updated, SlotOk, AttrOf, ClusterOfRow, SizeOf;
    ghost var b, s := st.data[d], slots[j];
    var c := |s.lfn|;
    RowHere(b, slots, j, |s.lfn|);
    UpdateEntry(st, d, pos, cluster, size);
    ChangedOk(s, cluster, size);
    OneRow(b, st.data[d], slots, j, |s.lfn|, Updated(s.short, cluster, size), Changed(s, cluster, size));
  }

  // One row of a slot rewritten.
  lemma OneRow(b0: Bytes, b1: Bytes, slots: seq<Slot>, j: nat, c: nat, e: Row, s: Slot)
    requires DirOk(b0, slots) && j < |slots| && c < |RowsOf(slots[j])| && SlotOk(s)
    requires RowsOf(s) == RowsOf(slots[j])[c := e]
    requires RowSet(b0, b1, PosAt(slots, j, c) / 32, e)
    ensures DirOk(b1, slots[j := s])
  {
    hide Flat, Rows, RowsOf, SlotOk;
    var r0 := Start(slots, j) + c;
    assert PosAt(slots, j, c) / 32 == r0;
    forall r | 0 <= r < |Rows(b0)|
      ensures Rows(b1)[r]
              == (if Start(slots, j) <= r < Start(slots, j) + |RowsOf(s)|
                  then RowsOf(s)[r - Start(slots, j)]
                  else Rows(b0)[r])
    {
      if Start(slots, j) <= r < Start(slots, j) + |RowsOf(s)| && r != r0 {
        SlotRow(slots, j, r - Start(slots, j));
      }
    }
    DirUpdate(b0, b1, slots, j, s);
  }

  // --- deleting ---

  function Killed(rows: seq<Row>): (r: seq<Row>)
    ensures |r| == |rows|
  {
    seq(|rows|, i requires 0 <= i < |rows| => rows[i][0 := 0xE5])
  }

  function Gone(s: Slot): Slot { Dead(Killed(RowsOf(s))) }

  lemma GoneOk(s: Slot)
    requires s.Group?
    ensures SlotOk(Gone(s)) && |RowsOf(Gone(s))| == |RowsOf(s)|
  {}

  // The marks of unlink and rmdir: the long-name rows, then the short one.
  method DeleteSlot(st: Store, d: nat, ev: Entry, ghost slots: seq<Slot>, ghost j: nat)
    requires st.Ok() && d in st.data && DirOk(st.data[d], slots) && j < |slots| && slots[j].Group?
    requires ev == EntryOf(slots, j)
    modifies st`data, st.fs`disk, st.fs`sec
    ensures st.Ok() && OnlyDir(old(st.data), st.data, d) && DirOk(st.data[d], slots[j := Gone(slots[j])])
  {
    hide StoreOk, Flat, Rows, SlotOk, Start, NameOf, RowSet, DirOk;
    ghost var b, s := st.data[d], slots[j];
    RowsFit(b, slots, j);
    MarkedNone(b, slots, j);
    for i := 0 to |ev.lfnPos|
      invariant st.Ok() && OnlyDir(old(st.data), st.data, d) && Marked(b, st.data[d], slots, j, i)
    {
      MarkRow(st, d, ev.lfnPos[i], slots, j, i, b);
    }
    MarkRow(st, d, ev.pos, slots, j, |s.lfn|, b);
    AllMarked(b, st.data[d], slots, j);
  }

  // The first n rows of slot j are marked, nothing else changed.
  ghost predicate Marked(b0: Bytes, b1: Bytes, slots: seq<Slot>, j: nat, n: nat)
    requires j < |slots|
  {
    && |b1| == |b0|
    && forall r :: 0 <= r < |Rows(b0)| ==>
         Rows(b1)[r] == if Start(slots, j) <= r < Start(slots, j) + n then Rows(b0)[r][0 := 0xE5] else Rows(b0)[r]
  }

  lemma MarkedNone(b: Bytes, slots: seq<Slot>, j: nat)
    requires j < |slots|
    ensures Marked(b, b, slots, j, 0)
  {}

  lemma RowsFit(b: Bytes, slots: seq<Slot>, j: nat)
    requires DirOk(b, slots) && j < |slots| && slots[j].Group?
    ensures |b| % 512 == 0 && forall c :: 0 <= c <= |slots[j].lfn| ==> PosAt(slots, j, c) + 32 <= |b|
  {
    hide Flat, Rows, SlotOk, Start;
    forall c | 0 <= c <= |slots[j].lfn|
      ensures PosAt(slots, j, c) + 32 <= |b|
    {
      RowHere(b, slots, j, c);
    }
  }

  method MarkRow(st: Store, d: nat, pos: nat, ghost slots: seq<Slot>, ghost j: nat, ghost i: nat, ghost b: Bytes)
    requires st.Ok() && d in st.data && j < |slots| && pos == PosAt(slots, j, i) && |b| % 512 == 0 && pos + 32 <= |b|
    requires Marked(b, st.data[d], slots, j, i)
    modifies st`data, st.fs`disk, st.fs`sec
    ensures st.Ok() && OnlyDir(old(st.data), st.data, d) && Marked(b, st.data[d], slots, j, i + 1)
  {
    hide StoreOk, Flat, Start, Rows;
    ghost var now := st.data[d];
    MarkDeleted(st, d, pos);
    MarkedOne(b, now, st.data[d], slots, j, i);
  }

  lemma MarkedOne(b0: Bytes, b1: Bytes, b2: Bytes, slots: seq<Slot>, j: nat, i: nat)
    requires j < |slots| && Marked(b0, b1, slots, j, i) && PosAt(slots, j, i) + 32 <= |b0|
    requires RowSet(b1, b2, PosAt(slots, j, i) / 32, RowAt(b1, PosAt(slots, j, i) / 32)[0 := 0xE5])
    ensures Marked(b0, b2, slots, j, i + 1)
  {
    hide Flat, Start;
    var r := Start(slots, j) + i;
    assert PosAt(slots, j, i) / 32 == r;
    assert Rows(b1)[r] == RowAt(b1, r);
  }

  lemma AllMarked(b0: Bytes, b1: Bytes, slots: seq<Slot>, j: nat)
    requires DirOk(b0, slots) && j < |slots| && slots[j].Group? && Marked(b0, b1, slots, j, |slots[j].lfn| + 1)
    ensures DirOk(b1, slots[j := Gone(slots[j])])
  {
    var s := slots[j];
    GoneOk(s);
    hide Flat, Rows, SlotOk, Start;
    forall r | 0 <= r < |Rows(b0)|
      ensures Rows(b1)[r]
              == (if Start(slots, j) <= r < Start(slots, j) + |RowsOf(Gone(s))|
                  then RowsOf(Gone(s))[r - Start(slots, j)]
                  else Rows(b0)[r])
    {
      if Start(slots, j) <= r < Start(slots, j) + |RowsOf(s)| {
        InSlot(b0, slots, j, r - Start(slots, j));
      }
    }
    DirUpdate(b0, b1, slots, j, Gone(s));
  }

  lemma InSlot(b: Bytes, slots: seq<Slot>, j: nat, c: nat)
    requires DirOk(b, slots) && j < |slots| && c < |RowsOf(slots[j])|
    ensures Start(slots, j) + c < |Rows(b)| && Rows(b)[Start(slots, j) + c] == RowsOf(slots[j])[c]
  {
    hide Flat, Rows, RowsOf, SlotOk;
    SlotRow(slots, j, c);
  }

  // --- appending ---

  // The first loop of dir_append: the end of the rows.
  method FindEnd(st: Store, d: nat, total: nat, ghost slots: seq<Slot>) returns (pos: nat)
    requires st.Ok() && d in st.data && DirOk(st.data[d], slots) && total == |st.data[d]|
    modifies st.fs`sec
    ensures st.Ok() && pos == 32 * |Flat(slots)| && pos <= total
  {
    hide StoreOk, Flat, Rows, SlotOk, Start;
    ghost var b := st.data[d];
    pos := 0;
    ghost var j: nat, c: nat := 0, 0;
    AtStart(slots);
    while pos + 32 <= total
      invariant st.Ok() && j <= |slots| && OnRow(slots, j, c) && pos == PosAt(slots, j, c)
      decreases total - pos
    {
      var e := ReadRow(st, d, pos);
      RowHere(b, slots, j, c);
      if e[0] == 0 {
        RowNotZero(slots, j, c);
        break;
      }
      StepCursor(slots, j, c);
      j, c := NextSlot(slots, j, c), NextRow(slots, j, c);
      pos := pos + 32;
    }
    if pos + 32 > total { EndOfRows(b, slots, j, c); }
    EndPos(b, slots);
  }

  lemma AtStart(slots: seq<Slot>)
    requires forall k :: 0 <= k < |slots| ==> SlotOk(slots[k])
    ensures PosAt(slots, 0, 0) == 0 && OnRow(slots, 0, 0)
  {
    assert slots[..0] == [];
    FirstRow(slots, 0);
  }

  lemma EndPos(b: Bytes, slots: seq<Slot>)
    requires DirOk(b, slots)
    ensures PosAt(slots, |slots|, 0) == 32 * |Flat(slots)| <= |b|
  {
    hide Flat, SlotOk;
    assert slots[..|slots|] == slots;
  }

  // Rows n .. n + k hold the first k of the new rows.
  ghost predicate Written(b0: Bytes, b1: Bytes, n: nat, rows: seq<Row>, k: nat) {
    && |b1| == |b0| && k <= |rows|
    && forall r :: 0 <= r < |Rows(b0)| ==> Rows(b1)[r] == if n <= r < n + k then rows[r - n] else Rows(b0)[r]
  }

  lemma WrittenNone(b: Bytes, n: nat, rows: seq<Row>)
    ensures Written(b, b, n, rows, 0)
  {}

  lemma WrittenOne(b0: Bytes, b1: Bytes, b2: Bytes, n: nat, rows: seq<Row>, k: nat)
    requires Written(b0, b1, n, rows, k) && k < |rows| && RowSet(b1, b2, n + k, rows[k])
    ensures Written(b0, b2, n, rows, k + 1)
  {
    hide Rows;
  }

  // The new slot is in place, and the row behind it, if any, ends the directory.
  lemma Appended(b0: Bytes, b1: Bytes, slots: seq<Slot>, g: Slot)
    requires DirOk(b0, slots) && SlotOk(g) && |Flat(slots)| + |RowsOf(g)| <= |Rows(b0)| && |b1| == |b0|
    requires forall r :: 0 <= r < |Flat(slots)| ==> Rows(b1)[r] == Rows(b0)[r]
    requires forall r :: 0 <= r < |RowsOf(g)| ==> Rows(b1)[|Flat(slots)| + r] == RowsOf(g)[r]
    requires |Flat(slots)| + |RowsOf(g)| < |Rows(b1)| ==> Rows(b1)[|Flat(slots)| + |RowsOf(g)|][0] == 0
    ensures DirOk(b1, slots + [g])
  {
    hide Flat, Rows, SlotOk, RowsOf;
    FlatSnoc(slots, g);
    var f := Flat(slots + [g]);
    forall r | 0 <= r < |f|
      ensures Rows(b1)[r] == f[r]
    {
      if r < |Flat(slots)| {
        assert Flat(slots)[r] == Rows(b0)[r];
      } else {
        assert Rows(b1)[|Flat(slots)| + (r - |Flat(slots)|)] == RowsOf(g)[r - |Flat(slots)|];
      }
    }
    PrefixIs(f, Rows(b1));
  }

  // Room for more rows: what the directory has, and for a subdirectory the free
  // clusters.
  ghost predicate Fits(g: Geo, have: nat, spare: nat, d: nat, want: nat) {
    Growth(g, have, want) <= if d == 0 then 0 else spare
  }

  // The growth loop: room for the rows, or a failure that leaves the slots as
  // they were.
  method MakeRoom(st: Store, d: nat, pos: nat, count: nat, before: nat, ghost slots: seq<Slot>)
    returns (ok: bool, total: nat)
    requires st.Ok() && d in st.data && DirOk(st.data[d], slots) && before == |st.data[d]|
    modifies st`ext, st`data, st.fs`disk, st.fs`sec
    ensures st.Ok() && OnlyDir(old(st.data), st.data, d) && DirOk(st.data[d], slots)
    ensures ok ==> total == |st.data[d]| && pos + count * 32 <= total
    ensures ok <==> Fits(st.fs.g, before, old(st.Spare()), d, pos + count * 32)
    ensures ok ==> st.Spare() == old(st.Spare()) - Growth(st.fs.g, before, pos + count * 32)
  {
    hide StoreOk, DirOk, OnDisk;
    total := before;
    GeoOf(st);
    ghost var k := 0;
    while pos + count * 32 > total
      invariant st.Ok() && OnlyDir(old(st.data), st.data, d) && DirOk(st.data[d], slots) && total == |st.data[d]|
      invariant (d == 0 ==> k == 0) && st.Spare() + k == old(st.Spare())
      invariant Growth(st.fs.g, before, pos + count * 32) == k + Growth(st.fs.g, total, pos + count * 32)
      decreases pos + count * 32 - total
    {
      if d == 0 {
        return false, total;
      }
      ghost var b := st.data[d];
      var grown := st.ExtendDir(d);
      if !grown {
        return false, total;
      }
      Mult(512 * st.fs.g.spc, 512, st.fs.g.spc);
      DirPadded(b, slots, 512 * st.fs.g.spc);
      total := total + st.fs.g.spc * 512;
      k := k + 1;
    }
    ok := true;
  }

  lemma GeoOf(st: Store)
    requires st.Ok()
    ensures 1 <= st.fs.g.spc
  {}

  // dir_append: the whole name or nothing of it.
  method DirAppend(st: Store, d: nat, rows: seq<Row>, ghost slots: seq<Slot>, ghost g: Slot) returns (ok: bool)
    requires st.Ok() && d in st.data && DirOk(st.data[d], slots) && SlotOk(g) && rows == RowsOf(g)
    modifies st`ext, st`data, st.fs`disk, st.fs`sec
    ensures st.Ok() && OnlyDir(old(st.data), st.data, d)
    ensures DirOk(st.data[d], if ok then slots + [g] else slots)
    ensures ok <==> Fits(st.fs.g, |old(st.data)[d]|, old(st.Spare()), d, 32 * (|Flat(slots)| + |rows|))
    ensures ok ==> st.Spare() == old(st.Spare()) - Growth(st.fs.g, |old(st.data)[d]|, 32 * (|Flat(slots)| + |rows|))
  {
    hide StoreOk, DirOk, Flat, RowsOf, Fits, Growth, OnDisk;
    var total := st.DirTotal(d);
    var pos := FindEnd(st, d, total, slots);
    ok, total := MakeRoom(st, d, pos, |rows|, total, slots);
    if !ok {
      return;
    }
    WriteRows(st, d, pos, total, rows, slots, g);
  }

  // The writing part of dir_append, and the terminator behind it.
  method WriteRows(st: Store, d: nat, start: nat, total: nat, rows: seq<Row>, ghost slots: seq<Slot>, ghost g: Slot)
    requires st.Ok() && d in st.data && DirOk(st.data[d], slots) && SlotOk(g) && rows == RowsOf(g)
    requires total == |st.data[d]| && start == 32 * |Flat(slots)| && start + |rows| * 32 <= total
    modifies st`data, st.fs`disk, st.fs`sec
    ensures st.Ok() && OnlyDir(old(st.data), st.data, d) && DirOk(st.data[d], slots + [g])
    ensures st.Spare() == old(st.Spare())
  {
    hide StoreOk, Flat, RowsOf, SlotOk, Rows, RowSet, Written, OnDisk;
    ghost var b := st.data[d];
    ghost var n := |Flat(slots)|;
    var pos := start;
    WrittenNone(b, n, rows);
    for i := 0 to |rows|
      invariant st.Ok() && OnlyDir(old(st.data), st.data, d) && pos == 32 * (n + i)
      invariant Written(b, st.data[d], n, rows, i)
      invariant st.Spare() == old(st.Spare())
    {
      ghost var now := st.data[d];
      SameSize(b, now, n, rows, i);
      At32(n + i);
      WriteEntryAt(st, d, pos, rows[i]);
      WrittenOne(b, now, st.data[d], n, rows, i);
      pos := pos + 32;
    }
    ghost var now := st.data[d];
    SameSize(b, now, n, rows, |rows|);
    At32(n + |rows|);
    if pos + 32 <= total {
      SetFirst(st, d, pos, 0);
      Terminated(b, now, st.data[d], slots, g);
    } else {
      Unterminated(b, now, slots, g);
    }
  }

  lemma SameSize(b0: Bytes, b1: Bytes, n: nat, rows: seq<Row>, k: nat)
    requires Written(b0, b1, n, rows, k)
    ensures |b1| == |b0|
  {}

  lemma At32(r: nat)
    ensures 32 * r % 32 == 0 && 32 * r / 32 == r
  {}

  lemma Terminated(b0: Bytes, b1: Bytes, b2: Bytes, slots: seq<Slot>, g: Slot)
    requires DirOk(b0, slots) && SlotOk(g) && Written(b0, b1, |Flat(slots)|, RowsOf(g), |RowsOf(g)|)
    requires var r := |Flat(slots)| + |RowsOf(g)|; 32 * r + 32 <= |b1| && RowSet(b1, b2, r, RowAt(b1, r)[0 := 0])
    ensures DirOk(b2, slots + [g])
  {
    hide Flat, RowsOf, SlotOk, RowAt, Rows;
    Appended(b0, b2, slots, g);
  }

  lemma Unterminated(b0: Bytes, b1: Bytes, slots: seq<Slot>, g: Slot)
    requires DirOk(b0, slots) && SlotOk(g) && Written(b0, b1, |Flat(slots)|, RowsOf(g), |RowsOf(g)|)
    requires var r := |Flat(slots)| + |RowsOf(g)|; 32 * r <= |b1| < 32 * r + 32
    ensures DirOk(b1, slots + [g])
  {
    hide Flat, RowsOf, SlotOk, RowAt, Rows;
    assert |Rows(b1)| == |Flat(slots)| + |RowsOf(g)|;
    Appended(b0, b1, slots, g);
  }
}
