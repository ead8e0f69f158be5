// A directory as a sequence of 32-byte rows, grouped into names and deleted
// rows (vnu/kernel/fs/fat16.cpp).
module FatSlots {
  import opened Wrappers
  import opened FatDisk
  import opened FatExtent
  import opened FatNames

  const ATTR_VOLUME: Byte := 0x08
  const ATTR_DIR: Byte := 0x10
  const ATTR_ARCH: Byte := 0x20

  // --- fields of a short row ---

  function Le32(v: nat): (b: Bytes)
    requires v < 0x1_0000_0000
    ensures |b| == 4
  {
    [v % 256, v / 256 % 256, v / 0x1_0000 % 256, v / 0x100_0000]
  }

  lemma Le32RoundTrip(v: nat)
    requires v < 0x1_0000_0000
    ensures Rd32(Le32(v), 0) == v
  {
    assert v == v % 256 + 256 * (v / 256);
    assert v / 256 == v / 256 % 256 + 256 * (v / 0x1_0000);
    assert v / 0x1_0000 == v / 0x1_0000 % 256 + 256 * (v / 0x100_0000);
  }

  function AttrOf(e: Row): nat { e[11] % 64 }

  predicate IsVolume(e: Row) { AttrOf(e) / 8 % 2 == 1 }

  predicate IsDir(e: Row) { AttrOf(e) / 16 % 2 == 1 }

  function ClusterOfRow(e: Row): nat { Rd16(e, 26) }

  function SizeOf(e: Row): nat { Rd32(e, 28) }

  // update_entry on a row.
  function Updated(e: Row, cluster: nat, size: nat): (r: Row)
    requires cluster < 0x1_0000 && size < 0x1_0000_0000
  {
    var s := Le32(size);
    e[20 := 0][21 := 0][26 := cluster % 256][27 := cluster / 256][28 := s[0]][29 := s[1]][30 := s[2]][31 := s[3]]
  }

  lemma UpdatedFields(e: Row, cluster: nat, size: nat)
    requires cluster < 0x1_0000 && size < 0x1_0000_0000
    ensures var r := Updated(e, cluster, size);
            && ClusterOfRow(r) == cluster && SizeOf(r) == size && r[..20] == e[..20]
            && AttrOf(r) == AttrOf(e)
            && forall lfn :: (Runs(lfn, e) ==> Runs(lfn, r)) && DecodeName(lfn, r) == DecodeName(lfn, e)
  {
    var r := Updated(e, cluster, size);
    Le32RoundTrip(size);
    assert r[..20] == e[..20];
    assert r[..11] == r[..20][..11] == e[..11];
    assert r[..8] == r[..20][..8] == e[..8];
    assert r[8..11] == r[..20][8..11] == e[8..11];
    assert SfnName(r) == SfnName(e) by { hide Unpart, Unescape; }
    forall lfn | true
      ensures (Runs(lfn, e) ==> Runs(lfn, r)) && DecodeName(lfn, r) == DecodeName(lfn, e)
    {
      hide Chk, Collected, MaxSeq, BeforeNul, SfnName;
    }
  }

  // --- rows ---

  function RowAt(b: Bytes, i: nat): Row
    requires 32 * i + 32 <= |b|
  {
    b[32 * i..32 * i + 32]
  }

  function Rows(b: Bytes): (r: seq<Row>)
    ensures |r| == |b| / 32
  {
    seq(|b| / 32, i requires 0 <= i < |b| / 32 => RowAt(b, i))
  }

  lemma RowsPut(b: Bytes, i: nat, e: Row)
    requires 32 * i + 32 <= |b|
    ensures Rows(Overwrite(b, 32 * i, e)) == Rows(b)[i := e]
  {
    var c := Overwrite(b, 32 * i, e);
    forall j | 0 <= j < |b| / 32
      ensures RowAt(c, j) == if j == i then e else RowAt(b, j)
    {
      forall k | 0 <= k < 32
        ensures RowAt(c, j)[k] == if j == i then e[k] else RowAt(b, j)[k]
      {
        OverwriteAt(b, 32 * i, e, 32 * j + k);
      }
    }
  }

  lemma OverwriteAt(b: Bytes, off: nat, e: Bytes, k: nat)
    requires off + |e| <= |b| && k < |b|
    ensures Overwrite(b, off, e)[k] == if off <= k < off + |e| then e[k - off] else b[k]
  {}

  lemma RowsPad(b: Bytes, n: nat)
    requires |b| % 32 == 0 && n % 32 == 0
    ensures Rows(b) <= Rows(b + Zeros(n)) && |Rows(b + Zeros(n))| == |Rows(b)| + n / 32
    ensures forall i :: |Rows(b)| <= i < |Rows(b + Zeros(n))| ==> Rows(b + Zeros(n))[i] == Zeros(32)
  {
    var c := b + Zeros(n);
    forall j | 0 <= j < |c| / 32
      ensures RowAt(c, j) == if j < |b| / 32 then RowAt(b, j) else Zeros(32)
    {
    }
  }

  // --- slots ---

  datatype Slot = Dead(rows: seq<Row>) | Group(lfn: seq<Row>, short: Row)

  ghost predicate SlotOk(s: Slot) {
    match s
    case Dead(rows) => rows != [] && forall i :: 0 <= i < |rows| ==> rows[i][0] == 0xE5
    case Group(lfn, e) => Runs(lfn, e)
  }

  function RowsOf(s: Slot): (r: seq<Row>) {
    match s
    case Dead(rows) => rows
    case Group(lfn, e) => lfn + [e]
  }

  function NameOf(s: Slot): Bytes
    requires s.Group?
  {
    DecodeName(s.lfn, s.short)
  }

  function Flat(slots: seq<Slot>): seq<Row> {
    if slots == [] then [] else Flat(slots[..|slots| - 1]) + RowsOf(slots[|slots| - 1])
  }

  // The row at which slot i starts.
  function Start(slots: seq<Slot>, i: nat): nat
    requires i <= |slots|
  {
    |Flat(slots[..i])|
  }

  lemma Assoc(x: seq<Row>, y: seq<Row>, z: seq<Row>)
    ensures x + (y + z) == x + y + z
  {}

  lemma Parts(slots: seq<Slot>, i: nat)
    requires i < |slots|
    ensures slots[..i + 1] == slots[..i] + [slots[i]] && slots == slots[..i + 1] + slots[i + 1..]
    ensures i + 1 == |slots| ==> slots == slots[..i] + [slots[i]]
  {}

  lemma FlatSnoc(a: seq<Slot>, s: Slot)
    ensures Flat(a + [s]) == Flat(a) + RowsOf(s)
  {
    hide RowsOf;
    assert (a + [s])[..|a|] == a;
  }

  lemma {:induction false} FlatConcat(a: seq<Slot>, b: seq<Slot>)
    ensures Flat(a + b) == Flat(a) + Flat(b)
    decreases |b|
  {
    if b == [] {
      assert a + b == a;
    } else {
      hide Flat, RowsOf;
      var n := |b| - 1;
      FlatConcat(a, b[..n]);
      Parts(b, n);
      Parts(a + b, |a| + n);
      assert (a + b)[..|a| + n] == a + b[..n];
      FlatSnoc(a + b[..n], b[n]);
      FlatSnoc(b[..n], b[n]);
      Assoc(Flat(a), Flat(b[..n]), RowsOf(b[n]));
    }
  }

  lemma FlatSplit(slots: seq<Slot>, i: nat)
    requires i < |slots|
    ensures Flat(slots) == Flat(slots[..i]) + RowsOf(slots[i]) + Flat(slots[i + 1..])
    ensures Flat(slots[..i + 1]) == Flat(slots[..i]) + RowsOf(slots[i])
  {
    hide Flat, RowsOf;
    Parts(slots, i);
    FlatSnoc(slots[..i], slots[i]);
    FlatConcat(slots[..i + 1], slots[i + 1..]);
  }

  lemma SlotRow(slots: seq<Slot>, i: nat, c: nat)
    requires i < |slots| && c < |RowsOf(slots[i])|
    ensures Start(slots, i + 1) == Start(slots, i) + |RowsOf(slots[i])|
    ensures Start(slots, i) + c < |Flat(slots)| && Flat(slots)[Start(slots, i) + c] == RowsOf(slots[i])[c]
  {
    hide Flat, RowsOf;
    FlatSplit(slots, i);
  }

  // Replacing a slot by one with as many rows.
  lemma FlatUpdate(slots: seq<Slot>, i: nat, s: Slot)
    requires i < |slots| && |RowsOf(s)| == |RowsOf(slots[i])|
    ensures |Flat(slots[i := s])| == |Flat(slots)| && Start(slots, i) + |RowsOf(s)| <= |Flat(slots)|
    ensures forall r :: 0 <= r < |Flat(slots)| ==>
      Flat(slots[i := s])[r] == (
        if Start(slots, i) <= r < Start(slots, i) + |RowsOf(s)|
          then RowsOf(s)[r - Start(slots, i)]
          else Flat(slots)[r])
  {
    hide Flat, RowsOf;
    FlatSplit(slots, i);
    var t := slots[i := s];
    FlatSplit(t, i);
    assert t[..i] == slots[..i] && t[i + 1..] == slots[i + 1..];
  }

  // A directory holds these slots, and after them nothing.
  ghost predicate DirOk(b: Bytes, slots: seq<Slot>) {
    && |b| % 512 == 0 && |b| > 0
    && (forall i :: 0 <= i < |slots| ==> SlotOk(slots[i]))
    && Flat(slots) <= Rows(b)
    && (|Flat(slots)| < |Rows(b)| ==> Rows(b)[|Flat(slots)|][0] == 0)
  }

  lemma Mod512(a: nat, n: nat)
    requires a % 512 == 0 && n % 512 == 0
    ensures (a + n) % 512 == 0 && a % 32 == 0 && n % 32 == 0
  {
    var p, q := a / 512, n / 512;
    assert a == 512 * p && n == 512 * q;
    Mult(a, 32, 16 * p);
    Mult(n, 32, 16 * q);
    Mult(a + n, 512, p + q);
  }

  lemma Mult(a: nat, m: nat, k: nat)
    requires m > 0 && a == k * m
    ensures a % m == 0
  {
    DivUnique(a, m, k, 0);
  }

  lemma PadKeeps(f: seq<Row>, a: seq<Row>, b: seq<Row>)
    requires f <= a && a <= b && (|f| < |a| ==> a[|f|][0] == 0)
    requires forall i :: |a| <= i < |b| ==> b[i] == Zeros(32)
    ensures f <= b && (|f| < |b| ==> b[|f|][0] == 0)
  {}

  // Zeros at the end change nothing.
  lemma DirPadded(b: Bytes, slots: seq<Slot>, n: nat)
    requires DirOk(b, slots) && n % 512 == 0
    ensures DirOk(b + Zeros(n), slots)
  {
    hide Flat, SlotOk, Rows, Zeros;
    Mod512(|b|, n);
    RowsPad(b, n);
    PadKeeps(Flat(slots), Rows(b), Rows(b + Zeros(n)));
  }
}
