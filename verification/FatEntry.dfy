// Finding names and building their rows (vnu/kernel/fs/fat16.cpp).
module FatEntry {
  import opened Wrappers
  import opened FatDisk
  import opened FatExtent
  import opened FatStore
  import opened FatNames
  import opened FatSlots
  import opened FatDir

  // A slot that find_entry takes for this name.
  ghost predicate Named(s: Slot, name: Bytes) {
    s.Group? && !IsVolume(s.short) && Fold(NameOf(s)) == Fold(name)
  }

  ghost predicate NamedAt(slots: seq<Slot>, k: int, name: Bytes) {
    0 <= k < |slots| && Named(slots[k], name)
  }

  // find_entry: the first slot with the name, or none.
  method FindEntry(st: Store, d: nat, name: Bytes, ghost slots: seq<Slot>)
    returns (found: bool, ev: Entry, ghost j: nat)
    requires st.Ok() && d in st.data && DirOk(st.data[d], slots)
    modifies st.fs`sec
    ensures st.Ok()
    ensures found ==> NamedAt(slots, j, name) && ev == EntryOf(slots, j)
    ensures found ==> forall k :: 0 <= k < j ==> !NamedAt(slots, k, name)
    ensures !found ==> forall k :: !NamedAt(slots, k, name)
  {
    hide StoreOk, DirOk, Start, Flat, EntryOf, Fold, NameOf;
    var total := st.DirTotal(d);
    NoSlots(slots);
    var pos := 0;
    ghost var i := 0;
    while true
      invariant st.Ok() && i <= |slots| && pos == PosAt(slots, i, 0)
      invariant forall k :: 0 <= k < i ==> !NamedAt(slots, k, name)
      decreases |slots| - i
    {
      var more;
      more, ev, pos, j := ScanNext(st, d, pos, total, slots, i);
      if !more {
        return false, ev, j;
      }
      i := j + 1;
      EntryFields(slots, j);
      if ev.attr / 8 % 2 == 1 {
        continue;
      }
      var same := CiEqual(ev.name, name);
      if same {
        return true, ev, j;
      }
    }
  }

  lemma NoSlots(slots: seq<Slot>)
    ensures PosAt(slots, 0, 0) == 0
  {
    assert slots[..0] == [];
  }

  lemma EntryFields(slots: seq<Slot>, j: nat)
    requires j < |slots| && slots[j].Group?
    ensures EntryOf(slots, j).name == NameOf(slots[j]) && EntryOf(slots, j).attr == AttrOf(slots[j].short)
    ensures EntryOf(slots, j).sfn == slots[j].short[..11]
    ensures EntryOf(slots, j).cluster == ClusterOfRow(slots[j].short)
    ensures EntryOf(slots, j).size == SizeOf(slots[j].short)
    ensures EntryOf(slots, j).pos == PosAt(slots, j, |slots[j].lfn|)
    ensures EntryOf(slots, j).lfnPos == LfnPos(slots, j, |slots[j].lfn|)
  {}

  ghost predicate SfnAt(slots: seq<Slot>, k: int, sfn: Bytes) {
    0 <= k < |slots| && slots[k].Group? && !IsVolume(slots[k].short) && Fold(slots[k].short[..11]) == Fold(sfn)
  }

  ghost predicate HasSfn(slots: seq<Slot>, sfn: Bytes) {
    exists k :: SfnAt(slots, k, sfn)
  }

  method DirHasSfn(st: Store, d: nat, sfn: Bytes, ghost slots: seq<Slot>) returns (has: bool)
    requires st.Ok() && d in st.data && DirOk(st.data[d], slots)
    modifies st.fs`sec
    ensures st.Ok() && has == HasSfn(slots, sfn)
  {
    hide StoreOk, DirOk, Start, Flat, EntryOf, Fold, NameOf;
    var total := st.DirTotal(d);
    NoSlots(slots);
    var pos := 0;
    ghost var i := 0;
    while true
      invariant st.Ok() && i <= |slots| && pos == PosAt(slots, i, 0)
      invariant forall k :: 0 <= k < i ==> !SfnAt(slots, k, sfn)
      decreases |slots| - i
    {
      var more, ev, next;
      ghost var j;
      more, ev, next, j := ScanNext(st, d, pos, total, slots, i);
      if !more {
        return false;
      }
      pos, i := next, j + 1;
      EntryFields(slots, j);
      if ev.attr / 8 % 2 == 1 {
        continue;
      }
      var same := CiEqual(ev.sfn, sfn);
      if same {
        assert SfnAt(slots, j, sfn);
        return true;
      }
    }
  }

  // --- short names for long ones ---

  ghost predicate Printable(b: Bytes) {
    forall i :: 0 <= i < |b| ==> 0x20 <= b[i] < 0x80
  }

  lemma ShortPrintable(name: Bytes)
    ensures Printable(ShortOf(name).base) && Printable(ShortOf(name).ext)
  {
    hide DotOf, AllOk, HasLower, HasUpper;
  }

  // "~N" behind as much of the base as fits.
  method Candidate(s: Short, n: nat) returns (cand: Bytes)
    requires |s.base| == 8 && |s.ext| == 3 && Printable(s.base)
    ensures |cand| == 11 && Printable(cand[..8]) && cand[8..11] == s.ext
  {
    var digits: Bytes := [];
    var m := n;
    while true
      invariant Printable(digits) && m >= 0
      decreases m
    {
      digits := [48 + m % 10] + digits;
      m := m / 10;
      if m == 0 {
        break;
      }
    }
    var tail: Bytes := [126] + digits;
    var keep := 8 - |tail|;
    if keep < 1 {
      keep := 1;
    }
    var base: Bytes := [];
    var i := 0;
    while i < 8 && |base| < keep && s.base[i] != SPACE
      invariant i <= 8 && |base| == i <= keep && Printable(base)
    {
      base := base + [s.base[i]];
      i := i + 1;
    }
    if base == [] {
      base := [70];
    }
    i := 0;
    while i < |tail| && |base| < 8
      invariant i <= |tail| && |base| <= 8 && Printable(base)
    {
      base := base + [tail[i]];
      i := i + 1;
    }
    while |base| < 8
      invariant |base| <= 8 && Printable(base)
    {
      base := base + [SPACE];
    }
    cand := base + s.ext;
    assert cand[..8] == base;
  }

  // make_unique_sfn: a short name no entry has, unless every number is taken.
  method MakeUniqueSfn(st: Store, d: nat, s: Short, ghost slots: seq<Slot>) returns (out: Bytes)
    requires st.Ok() && d in st.data && DirOk(st.data[d], slots)
    requires |s.base| == 8 && |s.ext| == 3 && Printable(s.base)
    modifies st.fs`sec
    ensures st.Ok() && |out| == 11 && 0x20 <= out[0] < 0x80
    ensures HasSfn(slots, out) ==> out == s.base + s.ext
  {
    hide StoreOk, DirOk, HasSfn;
    for n := 1 to 1000000
      invariant st.Ok()
    {
      var cand := Candidate(s, n);
      var has := DirHasSfn(st, d, cand, slots);
      if !has {
        assert cand[..8][0] == cand[0];
        return cand;
      }
    }
    out := s.base + s.ext;
  }

  // --- build_entries ---

  predicate Fits83(name: Bytes) {
    ShortOf(name).fits && ShortOf(name).uniform
  }

  // Exactly the names that read back as themselves.
  ghost predicate ReadsBack(name: Bytes) {
    |name| <= 255 && !(Fits83(name) && name[|name| - 1..] == [DOT])
  }

  method LfnRow(name: Bytes, chk: Byte, q: nat, last: bool) returns (e: Row)
    requires 1 <= q <= MAX_LFN
    ensures IsRowOf(e, name, chk, q, last)
  {
    var b: Bytes := Zeros(32);
    b := b[0 := q + (if last then 0x40 else 0)][11 := 0x0F][13 := chk];
    for k := 0 to 13
      invariant |b| == 32 && b[0] == q + (if last then 0x40 else 0) && b[11] == 0x0F && b[12] == 0 && b[13] == chk
      invariant b[26] == 0 && b[27] == 0
      invariant forall j :: 0 <= j < k ==>
        b[CharOff(j)] == UnitLow(name, 13 * (q - 1) + j) && b[CharOff(j) + 1] == UnitHigh(name, 13 * (q - 1) + j)
    {
      var g := 13 * (q - 1) + k;
      OffsetsApart(k);
      b := b[CharOff(k) := UnitLow(name, g)][CharOff(k) + 1 := UnitHigh(name, g)];
    }
    e := b;
  }

  lemma OffsetsApart(k: nat)
    requires k < 13
    ensures forall j :: 0 <= j < k ==> CharOff(j) + 1 < CharOff(k)
    ensures CharOff(k) !in {0, 11, 12, 13, 26, 27} && CharOff(k) + 1 !in {0, 11, 12, 13, 26, 27}
  {}

  method LfnRows(name: Bytes, chk: Byte, chunks: nat) returns (rows: seq<Row>)
    requires chunks <= MAX_LFN
    ensures |rows| == chunks && IsLfnOf(rows, name, chk)
  {
    hide IsRowOf;
    rows := [];
    for c := 0 to chunks
      invariant |rows| == c && forall i :: 0 <= i < c ==> IsRowOf(rows[i], name, chk, chunks - i, i == 0)
    {
      var e := LfnRow(name, chk, chunks - c, c == 0);
      rows := rows + [e];
    }
  }

  method ShortRow(sfn: Bytes, attr: Byte, nt: Byte, cluster: nat, size: nat) returns (e: Row)
    requires |sfn| == 11 && cluster < 0x1_0000 && size < 0x1_0000_0000
    ensures e[..11] == sfn && e[11] == attr && e[12] == nt && ClusterOfRow(e) == cluster && SizeOf(e) == size
  {
    var b: Bytes := Zeros(32);
    for i := 0 to 11
      invariant |b| == 32 && b[..i] == sfn[..i]
    {
      b := b[i := sfn[i]];
    }
    b := b[11 := attr][12 := nt];
    e := b;
    UpdatedFields(e, cluster, size);
    e := Updated(b, cluster, size);
    assert e[..11] == e[..20][..11];
  }

  // How many rows a name takes.
  function RowCount(name: Bytes): (n: nat)
    ensures n >= 1
  {
    if Fits83(name) then 1 else Chunks(|name|) + 1
  }

  // The rows of a new name.
  method BuildEntries(st: Store, d: nat, name: Bytes, attr: Byte, cluster: nat, size: nat, ghost slots: seq<Slot>)
    returns (ok: bool, rows: seq<Row>, ghost g: Slot)
    requires st.Ok() && d in st.data && DirOk(st.data[d], slots) && NulFree(name)
    requires attr in {ATTR_ARCH, ATTR_DIR} && cluster < 0x1_0000 && size < 0x1_0000_0000
    modifies st.fs`sec
    ensures st.Ok() && ok == (Fits83(name) || Chunks(|name|) <= MAX_LFN)
    ensures ok ==> g.Group? && SlotOk(g) && rows == RowsOf(g) && NewRow(g.short, attr, cluster, size)
    ensures ok ==> (NameOf(g) == name <==> ReadsBack(name)) && |rows| == RowCount(name)
  {
    hide StoreOk, DirOk, ShortOf, HasSfn, Fold, DecodeName, Chk, IsRowOf, Runs, Chunks, Fits83;
    ShortPrintable(name);
    FitsIs(name);
    var s := BuildShort(name);
    var sfn;
    rows := [];
    if !s.fits || !s.uniform {
      sfn := MakeUniqueSfn(st, d, s, slots);
      var chunks := Chunks(|name|);
      if chunks > MAX_LFN {
        return false, [], Dead([]);
      }
      var chk := SfnChecksum(sfn);
      rows := LfnRows(name, chk, chunks);
      var e := ShortRow(sfn, attr, 0, cluster, size);
      g := Group(rows, e);
      LongSlot(rows, name, e);
      rows := rows + [e];
    } else {
      sfn := s.base + s.ext;
      var e := ShortRow(sfn, attr, s.nt, cluster, size);
      g := Group([], e);
      ShortSlot(name, e);
      rows := [e];
    }
    ok := true;
  }

  lemma FitsIs(name: Bytes)
    ensures Fits83(name) == (ShortOf(name).fits && ShortOf(name).uniform)
    ensures |ShortOf(name).base| == 8 && |ShortOf(name).ext| == 3
  {}

  ghost predicate NewRow(e: Row, attr: Byte, cluster: nat, size: nat) {
    e[11] == attr && ClusterOfRow(e) == cluster && SizeOf(e) == size
  }

  lemma LongSlot(rows: seq<Row>, name: Bytes, e: Row)
    requires NulFree(name) && |rows| == Chunks(|name|) <= MAX_LFN && IsLfnOf(rows, name, Chk(e[..11])) && !Fits83(name)
    requires 0x20 <= e[0] < 0x80 && e[11] in {ATTR_ARCH, ATTR_DIR}
    ensures Runs(rows, e) && (DecodeName(rows, e) == name <==> ReadsBack(name))
  {
    hide DecodeName, Chk, Fits83, IsRowOf, LfnOk, Chunks;
    LongRoundTrip(rows, name, Chk(e[..11]), e);
    forall i | 0 <= i < |rows|
      ensures LfnOk(rows[i], e)
    {
      LfnRowOk(rows[i], name, |rows| - i, i == 0, e);
    }
    if |name| > 255 { assert |name[..255]| != |name|; }
  }

  lemma LfnRowOk(r: Row, name: Bytes, q: nat, last: bool, e: Row)
    requires IsRowOf(r, name, Chk(e[..11]), q, last) && 1 <= q <= MAX_LFN
    ensures LfnOk(r, e)
  {
    hide Chk;
  }

  lemma ShortSlot(name: Bytes, e: Row)
    requires Fits83(name) && e[..11] == ShortOf(name).base + ShortOf(name).ext && e[12] == ShortOf(name).nt
    requires e[11] in {ATTR_ARCH, ATTR_DIR}
    ensures Runs([], e) && (DecodeName([], e) == name <==> ReadsBack(name))
  {
    var s := ShortOf(name);
    ShortPrintable(name);
    hide ShortOf, SfnName;
    assert e[..8] == e[..11][..8] == s.base && e[8..11] == e[..11][8..] == s.ext;
    assert e[0] == s.base[0];
    ShortRoundTrip(name, e);
    ShortLen(name);
  }

  lemma ShortLen(name: Bytes)
    requires Fits83(name)
    ensures 0 < |name| <= 12
  {
    hide HasLower, HasUpper, AllOk, Stored, DotOf;
    NameParts(name);
  }
}
