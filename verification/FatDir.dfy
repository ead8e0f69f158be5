// Scanning and changing directories (vnu/kernel/fs/fat16.cpp).
module FatDir {
  import opened Wrappers
  import opened FatDisk
  import opened FatExtent
  import opened FatChain
  import opened FatData
  import opened FatStore
  import opened FatNames
  import opened FatSlots

  datatype Entry = Entry(pos: nat, cluster: nat, size: nat, attr: nat, sfn: Bytes, name: Bytes, lfnPos: seq<nat>)

  function PosAt(slots: seq<Slot>, i: nat, c: nat): nat
    requires i <= |slots|
  {
    32 * (Start(slots, i) + c)
  }

  function LfnPos(slots: seq<Slot>, i: nat, n: nat): (p: seq<nat>)
    requires i <= |slots|
    ensures |p| == n
  {
    seq(n, c requires 0 <= c < n => PosAt(slots, i, c))
  }

  // What scan_next reports for slot i.
  ghost function EntryOf(slots: seq<Slot>, i: nat): Entry
    requires i < |slots| && slots[i].Group?
  {
    var s := slots[i];
    Entry(PosAt(slots, i, |s.lfn|), ClusterOfRow(s.short), SizeOf(s.short), AttrOf(s.short),
          s.short[..11], NameOf(s), LfnPos(slots, i, |s.lfn|))
  }

  method ReadRow(st: Store, d: nat, pos: nat) returns (e: Row)
    requires st.Ok() && d in st.data && |st.data[d]| % 512 == 0 && pos % 32 == 0 && pos + 32 <= |st.data[d]|
    modifies st.fs`sec
    ensures st.Ok() && e == RowAt(st.data[d], pos / 32)
  {
    hide StoreOk;
    InSector(|st.data[d]|, pos);
    var sec, off := pos / 512, pos % 512;
    var s := st.DirSector(d, sec);
    st.fs.sec := s;
    e := s[off..off + 32];
    RowOfSector(st.data[d], pos);
  }

  // A row lies inside one sector.
  lemma InSector(n: nat, pos: nat)
    requires n % 512 == 0 && pos % 32 == 0 && pos + 32 <= n
    ensures 512 * (pos / 512) + 512 <= n && pos % 512 + 32 <= 512 && pos == 512 * (pos / 512) + pos % 512
    ensures pos == 32 * (pos / 32)
  {
    var q, r := pos / 512, pos % 512;
    assert r % 32 == 0 by {
      assert pos == 32 * (pos / 32);
      assert r == 32 * (pos / 32 - 16 * q);
      Mult(r, 32, pos / 32 - 16 * q);
    }
  }

  lemma RowOfSector(b: Bytes, pos: nat)
    requires |b| % 512 == 0 && pos % 32 == 0 && pos + 32 <= |b|
    ensures 512 * (pos / 512) + 512 <= |b| && pos % 512 + 32 <= 512
    ensures b[512 * (pos / 512)..512 * (pos / 512) + 512][pos % 512..pos % 512 + 32] == RowAt(b, pos / 32)
  {
    InSector(|b|, pos);
    SliceOfSlice(b, 512 * (pos / 512), pos % 512, 32);
  }

  // --- scan_next ---

  // The long name being collected.
  datatype Acc = Acc(buf: Bytes, pos: seq<nat>, maxSeq: nat, chk: Byte)

  // What the rows taken so far amount to.
  ghost predicate AccIs(a: Acc, slots: seq<Slot>, i: nat, c: nat)
    requires i <= |slots|
  {
    if i == |slots| || slots[i].Dead? || c == 0 || c > |slots[i].lfn| then a.pos == []
    else
      var s := slots[i];
      && a.pos == LfnPos(slots, i, c) && a.buf == Collected(s.lfn[..c]) && a.maxSeq == MaxSeq(s.lfn[..c])
      && a.chk == Chk(s.short[..11])
  }

  // One long-name row.
  method TakeLfn(a: Acc, e: Row, here: nat) returns (r: Acc)
    requires a.pos != [] ==> |a.buf| == 256
    ensures 1 <= SeqOf(e) <= MAX_LFN && |a.pos| < MAX_LFN && (a.pos != [] ==> e[13] == a.chk) ==>
      var m := if a.pos == [] then 0 else a.maxSeq;
      r == Acc(Put(if a.pos == [] then Zeros(256) else a.buf, e), a.pos + [here],
               if SeqOf(e) > m then SeqOf(e) else m, e[13])
    ensures !(1 <= SeqOf(e) <= MAX_LFN && |a.pos| < MAX_LFN && (a.pos != [] ==> e[13] == a.chk)) ==> r.pos == []
  {
    var q := SeqOf(e);
    r := a;
    if r.pos == [] {
      r := Acc(Zeros(256), [], 0, e[13]);
    }
    if e[13] != r.chk || q == 0 || q > MAX_LFN || |r.pos| >= MAX_LFN {
      return r.(pos := [], maxSeq := 0);
    }
    var at := (q - 1) * 13;
    var buf := r.buf;
    for k := 0 to 13
      invariant |buf| == 256
      invariant forall j :: 0 <= j < 256 ==> buf[j] == if at <= j < at + k then e[CharOff(j - at)] else r.buf[j]
    {
      if at + k < NAME_MAX {
        buf := buf[at + k := e[CharOff(k)]];
      }
    }
    assert buf == Put(r.buf, e);
    r := Acc(buf, r.pos + [here], if q > r.maxSeq then q else r.maxSeq, e[13]);
  }

  // The name of a short row.
  method NameRow(a: Acc, e: Row, ghost lfn: seq<Row>) returns (name: Bytes, lfnPos: seq<nat>)
    requires |a.pos| == |lfn|
    requires (lfn != [] ==> a.buf == Collected(lfn) && a.maxSeq == MaxSeq(lfn) && a.chk == Chk(e[..11]))
    ensures name == DecodeName(lfn, e) && lfnPos == a.pos
  {
    hide Collected, MaxSeq, Chk, BeforeNul, SfnName;
    var chk := SfnChecksum(e[..11]);
    if a.pos != [] && a.chk == chk {
      var len := a.maxSeq * 13;
      if len > NAME_MAX - 1 {
        len := NAME_MAX - 1;
      }
      var n := 0;
      while n < len && a.buf[n] != 0
        invariant n <= len && forall i :: 0 <= i < n ==> a.buf[i] != 0
      {
        n := n + 1;
      }
      name := a.buf[..n];
      BeforeNulIs(a.buf[..len], n);
      assert a.buf[..len][..n] == a.buf[..n];
      lfnPos := a.pos;
    } else {
      name := BuildSfnName(e);
      lfnPos := [];
    }
  }

  // The cursor of a scan: row c of slot i, or the end.
  ghost predicate OnRow(slots: seq<Slot>, i: nat, c: nat) {
    i <= |slots| && if i == |slots| then c == 0 else c < |RowsOf(slots[i])|
  }

  // Past row c of slot i.
  ghost function NextSlot(slots: seq<Slot>, i: nat, c: nat): nat
    requires i < |slots|
  {
    if c + 1 < |RowsOf(slots[i])| then i else i + 1
  }

  ghost function NextRow(slots: seq<Slot>, i: nat, c: nat): nat
    requires i < |slots|
  {
    if c + 1 < |RowsOf(slots[i])| then c + 1 else 0
  }

  lemma StepCursor(slots: seq<Slot>, i: nat, c: nat)
    requires i < |slots| && c < |RowsOf(slots[i])| && forall k :: 0 <= k < |slots| ==> SlotOk(slots[k])
    ensures OnRow(slots, NextSlot(slots, i, c), NextRow(slots, i, c))
    ensures PosAt(slots, NextSlot(slots, i, c), NextRow(slots, i, c)) == PosAt(slots, i, c) + 32
  {
    hide Flat, Runs;
    SlotRow(slots, i, c);
  }

  // The row under the cursor.
  lemma RowHere(b: Bytes, slots: seq<Slot>, i: nat, c: nat)
    requires DirOk(b, slots) && OnRow(slots, i, c)
    ensures i < |slots| ==> PosAt(slots, i, c) + 32 <= |b| && RowAt(b, PosAt(slots, i, c) / 32) == RowsOf(slots[i])[c]
    ensures i == |slots| && PosAt(slots, i, c) + 32 <= |b| ==> RowAt(b, PosAt(slots, i, c) / 32)[0] == 0
  {
    hide Flat, SlotOk, RowsOf;
    var r := Start(slots, i) + c;
    assert 32 * r / 32 == r;
    if i < |slots| {
      SlotRow(slots, i, c);
      assert Rows(b)[r] == RowAt(b, r);
    } else {
      assert slots[..i] == slots;
      if 32 * r + 32 <= |b| {
        assert Rows(b)[r] == RowAt(b, r);
      }
    }
  }

  lemma LfnPosSnoc(slots: seq<Slot>, i: nat, c: nat)
    requires i <= |slots|
    ensures LfnPos(slots, i, c + 1) == LfnPos(slots, i, c) + [PosAt(slots, i, c)] && LfnPos(slots, i, 0) == []
  {}

  lemma CollectSnoc(lfn: seq<Row>, c: nat)
    requires c < |lfn|
    ensures Collected(lfn[..c + 1]) == Put(Collected(lfn[..c]), lfn[c])
    ensures MaxSeq(lfn[..c + 1]) == (if SeqOf(lfn[c]) > MaxSeq(lfn[..c]) then SeqOf(lfn[c]) else MaxSeq(lfn[..c]))
    ensures Collected(lfn[..0]) == Zeros(256) && MaxSeq(lfn[..0]) == 0
  {
    assert lfn[..c + 1][..c] == lfn[..c];
  }

  // A long-name row of a group joins what was collected.
  method StepLfn(a: Acc, e: Row, here: nat, ghost slots: seq<Slot>, ghost i: nat, ghost c: nat) returns (r: Acc)
    requires i < |slots| && slots[i].Group? && SlotOk(slots[i]) && c < |slots[i].lfn| && e == slots[i].lfn[c]
    requires AccIs(a, slots, i, c) && here == PosAt(slots, i, c)
    ensures AccIs(r, slots, i, c + 1)
  {
    hide Collected, MaxSeq, Chk, Put, Start, SeqOf;
    ghost var lfn := slots[i].lfn;
    CollectSnoc(lfn, c);
    LfnPosSnoc(slots, i, c);
    assert LfnOk(lfn[c], slots[i].short);
    r := TakeLfn(a, e, here);
  }

  method ScanNext(st: Store, d: nat, start: nat, total: nat, ghost slots: seq<Slot>, ghost i0: nat)
    returns (found: bool, ev: Entry, pos: nat, ghost j: nat)
    requires st.Ok() && d in st.data && DirOk(st.data[d], slots) && total == |st.data[d]|
    requires i0 <= |slots| && start == PosAt(slots, i0, 0)
    modifies st.fs`sec
    ensures st.Ok()
    ensures i0 <= j <= |slots| && forall k :: i0 <= k < j ==> slots[k].Dead?
    ensures found ==> j < |slots| && slots[j].Group? && ev == EntryOf(slots, j) && pos == PosAt(slots, j + 1, 0)
    ensures !found ==> j == |slots|
  {
    hide StoreOk, Collected, MaxSeq, Chk, Put, Start, SeqOf, Flat, Runs, DecodeName, Rows;
    ghost var b := st.data[d];
    pos := start;
    j := i0;
    ghost var c := 0;
    ev := Entry(0, 0, 0, 0, [], [], []);
    var acc := Acc(Zeros(256), [], 0, 0);
    FirstRow(slots, i0);
    while pos + 32 <= total
      invariant st.Ok() && i0 <= j <= |slots| && OnRow(slots, j, c) && pos == PosAt(slots, j, c)
      invariant forall k :: i0 <= k < j ==> slots[k].Dead?
      invariant AccIs(acc, slots, j, c)
      decreases total - pos
    {
      var here := pos;
      var e := ReadRow(st, d, here);
      RowHere(b, slots, j, c);
      pos := pos + 32;
      if e[0] == 0 {
        RowNotZero(slots, j, c);
        return false, ev, pos, j;
      }
      StepCursor(slots, j, c);
      if e[0] == 0xE5 {
        DeadRow(slots, j, c);
        acc := acc.(pos := [], maxSeq := 0);
        j, c := NextSlot(slots, j, c), NextRow(slots, j, c);
        continue;
      }
      LiveRow(slots, j, c);
      if IsLfnRow(e) {
        acc := StepLfn(acc, e, here, slots, j, c);
        j, c := NextSlot(slots, j, c), NextRow(slots, j, c);
        continue;
      }
      var name, lfnPos := NameAt(acc, e, slots, j, c);
      ev := Entry(here, Rd16(e, 26), Rd32(e, 28), e[11] % 64, e[..11], name, lfnPos);
      return true, ev, pos, j;
    }
    EndOfRows(b, slots, j, c);
    found := false;
  }

  lemma FirstRow(slots: seq<Slot>, i: nat)
    requires i <= |slots| && forall k :: 0 <= k < |slots| ==> SlotOk(slots[k])
    ensures OnRow(slots, i, 0)
  {}

  method NameAt(acc: Acc, e: Row, ghost slots: seq<Slot>, ghost i: nat, ghost c: nat)
    returns (name: Bytes, lfnPos: seq<nat>)
    requires i < |slots| && slots[i].Group? && c == |slots[i].lfn| && e == slots[i].short && AccIs(acc, slots, i, c)
    ensures name == NameOf(slots[i]) && lfnPos == LfnPos(slots, i, c)
  {
    hide Collected, MaxSeq, Chk, Start, DecodeName;
    ghost var lfn := slots[i].lfn;
    assert lfn[..|lfn|] == lfn;
    LfnPosSnoc(slots, i, 0);
    name, lfnPos := NameRow(acc, e, lfn);
  }

  lemma RowNotZero(slots: seq<Slot>, i: nat, c: nat)
    requires OnRow(slots, i, c) && forall k :: 0 <= k < |slots| ==> SlotOk(slots[k])
    ensures i < |slots| ==> RowsOf(slots[i])[c][0] != 0
  {
    hide Chk, SeqOf;
    if i < |slots| { assert SlotOk(slots[i]); }
  }

  lemma DeadRow(slots: seq<Slot>, i: nat, c: nat)
    requires OnRow(slots, i, c) && i < |slots| && RowsOf(slots[i])[c][0] == 0xE5 && SlotOk(slots[i])
    ensures slots[i].Dead?
  {
    hide Chk, SeqOf;
  }

  lemma LiveRow(slots: seq<Slot>, i: nat, c: nat)
    requires OnRow(slots, i, c) && i < |slots| && RowsOf(slots[i])[c][0] != 0xE5 && SlotOk(slots[i])
    ensures slots[i].Group? && c <= |slots[i].lfn| && (IsLfnRow(RowsOf(slots[i])[c]) <==> c < |slots[i].lfn|)
    ensures RowsOf(slots[i])[c] == if c < |slots[i].lfn| then slots[i].lfn[c] else slots[i].short
  {
    hide Chk, SeqOf;
  }

  lemma EndOfRows(b: Bytes, slots: seq<Slot>, i: nat, c: nat)
    requires DirOk(b, slots) && OnRow(slots, i, c) && PosAt(slots, i, c) + 32 > |b|
    ensures i == |slots|
  {
    hide Flat, Rows, SlotOk, RowsOf, Start;
    if i < |slots| {
      RowHere(b, slots, i, c);
    }
  }
}
