// 8.3 and long names of directory entries (vnu/kernel/fs/fat16.cpp). Names
// are C strings of signed char: bytes without a zero.
module FatNames {
  import opened Wrappers
  import opened FatDisk

  type Row = s: Bytes | |s| == 32 witness seq(32, _ => 0)
  const MAX_LFN: nat := 20
  const NAME_MAX: nat := 256
  const DOT: Byte := 46
  const SPACE: Byte := 32

  ghost predicate NulFree(b: Bytes) {
    forall i :: 0 <= i < |b| ==> b[i] != 0
  }

  predicate IsLower(c: Byte) { 97 <= c <= 122 }

  predicate IsUpper(c: Byte) { 65 <= c <= 90 }

  function Upper(c: Byte): Byte {
    if IsLower(c) then c - 32 else c
  }

  function Lower(c: Byte): Byte {
    if IsUpper(c) then c + 32 else c
  }

  // sfn_char_ok; a byte of 0x80 or more is a negative char.
  predicate CharOk(c: Byte) {
    && 0x20 <= c < 0x80
    && c !in {32, 34, 42, 43, 44, 47, 58, 59, 60, 61, 62, 63, 91, 92, 93, 124}
  }

  // What ci_equal compares.
  function Fold(b: Bytes): (f: Bytes)
    ensures |f| == |b|
  {
    seq(|b|, i requires 0 <= i < |b| => Upper(b[i]))
  }

  method CiEqual(a: Bytes, b: Bytes) returns (eq: bool)
    ensures eq == (Fold(a) == Fold(b))
  {
    var i := 0;
    while i < |a| && i < |b|
      invariant i <= |a| && i <= |b|
      invariant forall k :: 0 <= k < i ==> Upper(a[k]) == Upper(b[k])
    {
      if Upper(a[i]) != Upper(b[i]) {
        assert Fold(a)[i] != Fold(b)[i];
        return false;
      }
      i := i + 1;
    }
    eq := i == |a| && i == |b|;
    if !eq { assert |Fold(a)| != |Fold(b)|; }
  }

  // --- build_short ---

  // The last dot, or -1.
  function DotOf(name: Bytes): (d: int)
    ensures -1 <= d < |name|
    ensures d >= 0 ==> name[d] == DOT
    ensures forall i :: d < i < |name| ==> name[i] != DOT
  {
    if name == [] then -1
    else if name[|name| - 1] == DOT then |name| - 1
    else DotOf(name[..|name| - 1])
  }

  function BaseOf(name: Bytes): Bytes {
    if DotOf(name) < 0 then name else name[..DotOf(name)]
  }

  function ExtOf(name: Bytes): Bytes {
    if DotOf(name) < 0 then [] else name[DotOf(name) + 1..]
  }

  predicate AllOk(p: Bytes) {
    forall i :: 0 <= i < |p| ==> CharOk(p[i])
  }

  predicate HasLower(p: Bytes) {
    exists i :: 0 <= i < |p| && IsLower(p[i])
  }

  predicate HasUpper(p: Bytes) {
    exists i :: 0 <= i < |p| && IsUpper(p[i])
  }

  function StoredAt(p: Bytes, i: nat): Byte {
    if i < |p| then Upper(if CharOk(p[i]) then p[i] else 95) else SPACE
  }

  // A name part as it is stored in a field of cap bytes.
  function Stored(p: Bytes, cap: nat): (s: Bytes)
    ensures |s| == cap
  {
    seq(cap, i requires 0 <= i < cap => StoredAt(p, i))
  }

  datatype Short = Short(base: Bytes, ext: Bytes, nt: Byte, fits: bool, uniform: bool)

  function ShortOf(name: Bytes): (s: Short)
    ensures |s.base| == 8 && |s.ext| == 3
  {
    var b, x := BaseOf(name), ExtOf(name);
    Short(Stored(b, 8), Stored(x, 3), NtOf(b, 8) + NtOf(x, 16),
          b != [] && |b| <= 8 && AllOk(b) && |x| <= 3 && AllOk(x),
          !(HasLower(b) && HasUpper(b)) && !(HasLower(x) && HasUpper(x)))
  }

  function NtOf(p: Bytes, bit: Byte): (n: Byte)
    ensures n == 0 || n == bit
  {
    if HasLower(p) && !HasUpper(p) then bit else 0
  }

  // One part of the name: cap columns, folded, with what was seen on the way.
  method BuildPart(p: Bytes, cap: nat) returns (stored: Bytes, fits: bool, lower: bool, upper: bool)
    ensures stored == Stored(p, cap) && fits == (|p| <= cap && AllOk(p))
    ensures lower == HasLower(p) && upper == HasUpper(p)
  {
    stored := seq(cap, _ => SPACE);
    fits, lower, upper := true, false, false;
    var o := 0;
    for i := 0 to |p|
      invariant |stored| == cap && o == (if i < cap then i else cap)
      invariant forall k :: 0 <= k < cap ==> stored[k] == if k < i then StoredAt(p, k) else SPACE
      invariant fits == (i <= cap && forall k :: 0 <= k < i ==> CharOk(p[k]))
      invariant lower == exists k :: 0 <= k < i && IsLower(p[k])
      invariant upper == exists k :: 0 <= k < i && IsUpper(p[k])
    {
      var c := p[i];
      if IsLower(c) {
        lower := true;
      } else if IsUpper(c) {
        upper := true;
      }
      if !CharOk(c) {
        fits := false;
        c := 95;
      }
      if o < cap {
        stored := stored[o := Upper(c)];
        o := o + 1;
      } else {
        fits := false;
      }
    }
  }

  method BuildShort(name: Bytes) returns (s: Short)
    ensures s == ShortOf(name)
  {
    hide HasLower, HasUpper, AllOk, Stored;
    var dot := -1;
    for i := 0 to |name|
      invariant dot == DotOf(name[..i])
    {
      assert name[..i + 1][..i] == name[..i];
      if name[i] == DOT {
        dot := i;
      }
    }
    assert name[..|name|] == name;
    var base := if dot < 0 then name else name[..dot];
    var ext := if dot < 0 then [] else name[dot + 1..];
    var b, bFits, bLow, bUp := BuildPart(base, 8);
    var x, xFits, xLow, xUp := BuildPart(ext, 3);
    var nt: Byte := 0;
    if bLow && !bUp {
      nt := nt + 8;
    }
    if xLow && !xUp {
      nt := nt + 16;
    }
    s := Short(b, x, nt, base != [] && bFits && xFits, !(bLow && bUp) && !(xLow && xUp));
  }

  // --- build_sfn_name ---

  function FirstSpace(f: Bytes): (n: nat)
    ensures n <= |f| && (n < |f| ==> f[n] == SPACE)
    ensures forall i :: 0 <= i < n ==> f[i] != SPACE
  {
    if f == [] || f[0] == SPACE then 0 else 1 + FirstSpace(f[1..])
  }

  function Unpart(f: Bytes, low: bool): (p: Bytes)
    ensures |p| == FirstSpace(f)
  {
    seq(FirstSpace(f), i requires 0 <= i < FirstSpace(f) => if low then Lower(f[i]) else f[i])
  }

  function Unescape(f: Bytes): (u: Bytes)
    requires |f| > 0
  {
    if f[0] == 0x05 then f[0 := 0xE5] else f
  }

  predicate LowBase(e: Row) { e[12] / 8 % 2 == 1 }

  predicate LowExt(e: Row) { e[12] / 16 % 2 == 1 }

  function SfnName(e: Row): Bytes {
    var b, x := Unpart(Unescape(e[..8]), LowBase(e)), Unpart(e[8..11], LowExt(e));
    if x == [] then b else b + [DOT] + x
  }

  method ReadPart(f: Bytes, low: bool, escaped: bool) returns (p: Bytes)
    requires |f| > 0
    ensures p == Unpart(if escaped then Unescape(f) else f, low)
  {
    ghost var u := if escaped then Unescape(f) else f;
    p := [];
    var i := 0;
    while i < |f|
      invariant i <= |f| && |p| == i
      invariant forall k :: 0 <= k < i ==> u[k] != SPACE && p[k] == if low then Lower(u[k]) else u[k]
    {
      var c := f[i];
      if c == SPACE {
        break;
      }
      if escaped && i == 0 && c == 0x05 {
        c := 0xE5;
      }
      if low {
        c := Lower(c);
      }
      p := p + [c];
      i := i + 1;
    }
    FirstSpaceIs(u, i);
  }

  method BuildSfnName(e: Row) returns (out: Bytes)
    ensures out == SfnName(e)
  {
    var base := ReadPart(e[..8], LowBase(e), true);
    var ext := ReadPart(e[8..11], LowExt(e), false);
    out := base;
    if ext != [] {
      out := out + [DOT] + ext;
    }
  }

  lemma FirstSpaceIs(f: Bytes, n: nat)
    requires n <= |f| && (n < |f| ==> f[n] == SPACE) && forall i :: 0 <= i < n ==> f[i] != SPACE
    ensures FirstSpace(f) == n
  {}

  // A stored part reads back.
  lemma PartRoundTrip(p: Bytes, cap: nat, low: bool)
    requires |p| <= cap && AllOk(p) && !(HasLower(p) && HasUpper(p)) && low == (HasLower(p) && !HasUpper(p))
    ensures Unpart(Stored(p, cap), low) == p
    ensures p != [] ==> Unescape(Stored(p, cap)) == Stored(p, cap)
  {
    var s := Stored(p, cap);
    assert forall i :: 0 <= i < |p| ==> s[i] == Upper(p[i]) && s[i] != SPACE;
    FirstSpaceIs(s, |p|);
    forall i | 0 <= i < |p|
      ensures Unpart(s, low)[i] == p[i]
    {
      if low { assert !IsUpper(p[i]); } else { assert !IsLower(p[i]); }
    }
  }

  lemma NtBits(b: Bytes, x: Bytes, e: Row)
    requires e[12] == NtOf(b, 8) + NtOf(x, 16)
    ensures LowBase(e) == (HasLower(b) && !HasUpper(b)) && LowExt(e) == (HasLower(x) && !HasUpper(x))
  {}

  lemma NameParts(name: Bytes)
    ensures name == if DotOf(name) < 0 then BaseOf(name) else BaseOf(name) + [DOT] + ExtOf(name)
    ensures DotOf(name) < 0 ==> ExtOf(name) == [] && (name != [] ==> name[|name| - 1] != DOT)
    ensures ExtOf(name) == [] && DotOf(name) >= 0 ==>
              (DotOf(name) == |name| - 1 && name[|name| - 1] == DOT && BaseOf(name) == name[..|name| - 1])
    ensures ExtOf(name) != [] ==> name[|name| - 1] != DOT
  {
    hide DotOf;
    var d := DotOf(name);
    if d >= 0 { SplitAt(name, d); }
  }

  lemma SplitAt(s: Bytes, d: nat)
    requires d < |s|
    ensures s == s[..d] + [s[d]] + s[d + 1..]
  {}

  // A name that fits 8.3 reads back up to a final dot.
  lemma ShortRoundTrip(name: Bytes, e: Row)
    requires ShortOf(name).fits && ShortOf(name).uniform
    requires e[..8] == ShortOf(name).base && e[8..11] == ShortOf(name).ext && e[12] == ShortOf(name).nt
    ensures name != [] && SfnName(e) == if name[|name| - 1] == DOT then name[..|name| - 1] else name
  {
    hide HasLower, HasUpper, AllOk, Stored, Unpart, Unescape, DotOf, NtOf, LowBase, LowExt, BaseOf, ExtOf;
    var b, x := BaseOf(name), ExtOf(name);
    NtBits(b, x, e);
    PartRoundTrip(b, 8, LowBase(e));
    PartRoundTrip(x, 3, LowExt(e));
    NameParts(name);
  }

  // --- long-name rows ---

  // sfn_checksum
  function Chk(s: Bytes): (c: Byte) {
    if s == [] then 0 else ChkStep(Chk(s[..|s| - 1]), s[|s| - 1])
  }

  function ChkStep(sum: Byte, b: Byte): Byte {
    (sum % 2 * 128 + sum / 2 + b) % 256
  }

  method SfnChecksum(s: Bytes) returns (sum: Byte)
    ensures sum == Chk(s)
  {
    sum := 0;
    for i := 0 to |s|
      invariant sum == Chk(s[..i])
    {
      assert s[..i + 1][..i] == s[..i];
      sum := ChkStep(sum, s[i]);
    }
    assert s[..|s|] == s;
  }

  // Where character k of a row is.
  function CharOff(k: nat): (o: nat)
    requires k < 13
    ensures 1 <= o <= 30 && o != 11 && o != 12 && o != 13 && o + 1 != 11 && o + 1 != 13 && o + 1 < 32
  {
    if k < 5 then 1 + 2 * k else if k < 11 then 4 + 2 * k else 6 + 2 * k
  }

  predicate IsLfnRow(e: Row) {
    e[11] % 64 == 0x0F
  }

  function SeqOf(e: Row): nat {
    e[0] % 32
  }

  // The low byte of unit i of the stored name.
  function UnitLow(name: Bytes, i: nat): Byte {
    if i < |name| then name[i] else if i == |name| then 0 else 0xFF
  }

  function UnitHigh(name: Bytes, i: nat): Byte {
    if i <= |name| then 0 else 0xFF
  }

  // Row number q of the long name, the last one marked.
  ghost predicate IsRowOf(e: Row, name: Bytes, chk: Byte, q: nat, last: bool) {
    && e[0] == q + (if last then 0x40 else 0) && e[11] == 0x0F && e[12] == 0 && e[13] == chk && e[26] == 0 && e[27] == 0
    && forall k :: 0 <= k < 13 && 1 <= q ==>
         e[CharOff(k)] == UnitLow(name, 13 * (q - 1) + k) && e[CharOff(k) + 1] == UnitHigh(name, 13 * (q - 1) + k)
  }

  // The buffer of scan_next after the rows of a long name.
  function Collected(rows: seq<Row>): (buf: Bytes)
    ensures |buf| == 256
  {
    if rows == [] then Zeros(256) else Put(Collected(rows[..|rows| - 1]), rows[|rows| - 1])
  }

  function Put(buf: Bytes, e: Row): (b: Bytes)
    requires |buf| == 256
    ensures |b| == 256
  {
    seq(256, j requires 0 <= j < 256 => PutAt(buf, e, j))
  }

  function PutAt(buf: Bytes, e: Row, j: nat): Byte
    requires |buf| == 256 && j < 256
  {
    if 13 * (SeqOf(e) as int - 1) <= j < 13 * SeqOf(e) then e[CharOff(j - 13 * (SeqOf(e) - 1))] else buf[j]
  }

  function MaxSeq(rows: seq<Row>): nat {
    if rows == [] then 0
    else
      var m := MaxSeq(rows[..|rows| - 1]);
      if SeqOf(rows[|rows| - 1]) > m then SeqOf(rows[|rows| - 1]) else m
  }

  function BeforeNul(b: Bytes): (p: Bytes)
    ensures |p| <= |b| && p == b[..|p|] && (|p| < |b| ==> b[|p|] == 0)
    ensures forall i :: 0 <= i < |p| ==> p[i] != 0
  {
    if b == [] || b[0] == 0 then [] else [b[0]] + BeforeNul(b[1..])
  }

  function NameLimit(m: nat): nat {
    if 13 * m > NAME_MAX - 1 then NAME_MAX - 1 else 13 * m
  }

  // The name scan_next gives a short row that follows these long-name rows.
  function DecodeName(lfn: seq<Row>, e: Row): Bytes {
    if lfn == [] then SfnName(e) else BeforeNul(Collected(lfn)[..NameLimit(MaxSeq(lfn))])
  }

  // Long-name rows that scan_next takes together with the short row e.
  ghost predicate Runs(lfn: seq<Row>, e: Row) {
    && e[0] != 0 && e[0] != 0xE5 && !IsLfnRow(e) && |lfn| <= MAX_LFN
    && forall i :: 0 <= i < |lfn| ==> LfnOk(lfn[i], e)
  }

  ghost predicate LfnOk(r: Row, e: Row) {
    r[0] != 0 && r[0] != 0xE5 && IsLfnRow(r) && r[13] == Chk(e[..11]) && 1 <= SeqOf(r) <= MAX_LFN
  }

  // The rows of a long name, highest number first.
  ghost predicate IsLfnOf(rows: seq<Row>, name: Bytes, chk: Byte) {
    forall c :: 0 <= c < |rows| ==> IsRowOf(rows[c], name, chk, |rows| - c, c == 0)
  }

  lemma {:induction false} CollectedName(rows: seq<Row>, name: Bytes, chk: Byte, c: nat)
    requires IsLfnOf(rows, name, chk) && c <= |rows| <= MAX_LFN
    ensures forall j :: 13 * (|rows| - c) <= j < 13 * |rows| && j < 256 ==> Collected(rows[..c])[j] == UnitLow(name, j)
    ensures MaxSeq(rows[..c]) == if c == 0 then 0 else |rows|
  {
    if c > 0 {
      CollectedName(rows, name, chk, c - 1);
      var e, q := rows[c - 1], |rows| - c + 1;
      assert rows[..c][..c - 1] == rows[..c - 1] && rows[..c][c - 1] == e;
      PutRow(Collected(rows[..c - 1]), e, name, chk, q, c - 1 == 0);
      hide Put, IsRowOf, UnitLow, SeqOf;
    }
  }

  lemma PutRow(buf: Bytes, e: Row, name: Bytes, chk: Byte, q: nat, last: bool)
    requires |buf| == 256 && IsRowOf(e, name, chk, q, last) && 1 <= q <= MAX_LFN
    ensures SeqOf(e) == q
    ensures forall j :: 0 <= j < 256 ==>
              Put(buf, e)[j] == if 13 * (q - 1) <= j < 13 * q then UnitLow(name, j) else buf[j]
  {
    assert SeqOf(e) == q;
    forall j | 13 * (q - 1) <= j < 13 * q && j < 256
      ensures PutAt(buf, e, j) == UnitLow(name, j)
    {
      var k := j - 13 * (q - 1);
      assert e[CharOff(k)] == UnitLow(name, 13 * (q - 1) + k);
    }
  }

  lemma BeforeNulIs(b: Bytes, n: nat)
    requires n <= |b| && (n < |b| ==> b[n] == 0) && forall i :: 0 <= i < n ==> b[i] != 0
    ensures BeforeNul(b) == b[..n]
  {
    var p := BeforeNul(b);
    assert |p| >= n;
    assert n < |b| ==> p == b[..|p|] && |p| <= n;
  }

  function Chunks(n: nat): (m: nat)
    ensures m >= 1 && n <= 13 * m
  {
    if (n + 12) / 13 == 0 then 1 else (n + 12) / 13
  }

  // A long name reads back, cut at 255 bytes.
  lemma LongRoundTrip(rows: seq<Row>, name: Bytes, chk: Byte, e: Row)
    requires NulFree(name) && |rows| == Chunks(|name|) <= MAX_LFN && IsLfnOf(rows, name, chk)
    ensures DecodeName(rows, e) == if |name| <= 255 then name else name[..255]
  {
    var m := |rows|;
    CollectedName(rows, name, chk, m);
    assert rows[..m] == rows;
    var b := Collected(rows)[..NameLimit(m)];
    assert forall j :: 0 <= j < |b| ==> b[j] == UnitLow(name, j);
    var n := if |name| <= 255 then |name| else 255;
    assert n <= |b|;
    BeforeNulIs(b, n);
    assert b[..n] == name[..n];
    assert |name| <= 255 ==> name[..n] == name;
  }
}
