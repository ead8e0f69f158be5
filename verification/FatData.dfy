// Bytes of a chain: range_write and the copy loop of read
// (vnu/kernel/fs/fat16.cpp).
module FatData {
  import opened FatDisk
  import opened FatExtent
  import opened FatChain

  // The bytes of n clusters.
  ghost function Span(g: Geo, n: int): nat {
    if n < 0 then 0 else 512 * (n * g.spc)
  }

  lemma SpanStep(g: Geo, n: nat)
    ensures Span(g, n + 1) == Span(g, n) + 512 * g.spc && Span(g, 0) == 0
  {
    assert (n + 1) * g.spc == n * g.spc + g.spc;
  }

  lemma SpanMono(g: Geo, a: nat, b: nat)
    requires a <= b
    ensures Span(g, a) <= Span(g, b) && Span(g, b) == Span(g, a) + Span(g, b - a)
  {
    MulLe(a, b, g.spc);
    assert b * g.spc == a * g.spc + (b - a) * g.spc;
  }

  ghost function Room(g: Geo, ch: Chain): nat {
    Span(g, |ch|)
  }

  // The extent of a chain lies inside the disk, without repetition.
  lemma ExtentOk(g: Geo, disk: Disk, ch: Chain)
    requires OnDisk(disk, g) && InRange(g, ch)
    ensures Within(Secs(g, ch), disk) && |Secs(g, ch)| == |ch| * g.spc
    ensures NoDup(ch) ==> NoDup(Secs(g, ch))
    ensures forall k :: k in Secs(g, ch) ==> g.firstData <= k < |disk|
  {
    hide GoodGeo, Secs;
    SecsLen(g, ch);
    if NoDup(ch) { SecsNoDup(g, ch); }
    var secs := Secs(g, ch);
    forall k | k in secs
      ensures g.firstData <= k < |disk|
    {
      SecsInside(g, ch, k);
    }
    assert forall t :: 0 <= t < |secs| ==> secs[t] in secs;
  }

  // The bytes of a chain.
  ghost function ChainBytes(g: Geo, disk: Disk, ch: Chain): (b: Bytes) {
    if OnDisk(disk, g) && InRange(g, ch) then ExtentOk(g, disk, ch); Content(disk, Secs(g, ch)) else []
  }

  lemma BytesLen(g: Geo, disk: Disk, ch: Chain)
    requires OnDisk(disk, g) && InRange(g, ch)
    ensures |ChainBytes(g, disk, ch)| == Room(g, ch)
  {
    ExtentOk(g, disk, ch);
  }

  // --- growth and bytes ---

  lemma {:induction false} ZeroContent(disk: Disk, secs: Extent)
    requires Within(secs, disk) && forall t :: 0 <= t < |secs| ==> disk[secs[t]] == Zeros(512)
    ensures Content(disk, secs) == Zeros(512 * |secs|)
  {
    if secs != [] { ZeroContent(disk, secs[..|secs| - 1]); }
  }

  // A grown chain holds what it held, then zeros.
  lemma {:induction false} ZeroTail(g: Geo, disk: Disk, ch: Chain, n: nat)
    requires OnDisk(disk, g) && InRange(g, ch) && n <= |ch| && ZeroedAll(g, disk, ch[n..])
    ensures ChainBytes(g, disk, ch) == ChainBytes(g, disk, ch[..n]) + Zeros(Span(g, |ch| - n))
    decreases |ch|
  {
    hide Content, Secs, ClusterSector, Span;
    if n == |ch| {
      SpanStep(g, 0);
      assert ch[..n] == ch;
    } else {
      var m := |ch| - 1;
      var front, c := ch[..m], ch[m];
      assert ch[n..][m - n] == c;
      assert front[n..] == ch[n..][..m - n] && front[..n] == ch[..n];
      ZeroTail(g, disk, front, n);
      assert ch == front + [c];
      BytesSnoc(g, disk, front, c);
      ZeroCluster(g, disk, c);
      ZerosAdd(Span(g, m - n), 512 * g.spc);
      SpanStep(g, m - n);
      assert m - n + 1 == |ch| - n;
    }
  }

  lemma ZerosAdd(a: nat, b: nat)
    ensures Zeros(a) + Zeros(b) == Zeros(a + b)
  {}

  lemma BytesSnoc(g: Geo, disk: Disk, ch: Chain, c: nat)
    requires OnDisk(disk, g) && InRange(g, ch) && 2 <= c <= g.maxCluster
    ensures InRange(g, ch + [c])
    ensures Within(ClusterSecs(g, c), disk)
    ensures ChainBytes(g, disk, ch + [c]) == ChainBytes(g, disk, ch) + Content(disk, ClusterSecs(g, c))
  {
    hide Content, Secs, ClusterSector;
    ExtentOk(g, disk, ch);
    ExtentOk(g, disk, ch + [c]);
    SecsSnoc(g, ch, c);
    ClusterWithin(g, disk, c);
    ContentAppend(disk, Secs(g, ch), ClusterSecs(g, c));
  }

  lemma ClusterWithin(g: Geo, disk: Disk, c: nat)
    requires OnDisk(disk, g) && 2 <= c <= g.maxCluster
    ensures Within(ClusterSecs(g, c), disk)
  {
    ClusterInside(g, c);
  }

  lemma ZeroCluster(g: Geo, disk: Disk, c: nat)
    requires OnDisk(disk, g) && 2 <= c <= g.maxCluster && Zeroed(g, disk, c)
    ensures Within(ClusterSecs(g, c), disk) && Content(disk, ClusterSecs(g, c)) == Zeros(512 * g.spc)
  {
    hide GoodGeo;
    ClusterWithin(g, disk, c);
    ZeroContent(disk, ClusterSecs(g, c));
  }

  // Bytes of a chain whose clusters were not taken.
  lemma KeptBytes(g: Geo, d0: Disk, d1: Disk, taken: Chain, ch: Chain)
    requires OnDisk(d0, g) && OnDisk(d1, g) && InRange(g, ch) && Kept(g, d0, d1, taken)
    requires forall c :: c in ch ==> c !in taken
    ensures ChainBytes(g, d1, ch) == ChainBytes(g, d0, ch)
  {
    hide Content, ClusterOf, GoodGeo;
    ExtentOk(g, d0, ch);
    var secs := Secs(g, ch);
    DataRegion(g);
    forall t | 0 <= t < |secs|
      ensures d1[secs[t]] == d0[secs[t]]
    {
      SecsInside(g, ch, secs[t]);
    }
    ContentSame(d0, d1, secs);
  }

  lemma GrewBytes(g: Geo, d0: Disk, d1: Disk, a: Chain, b: Chain)
    requires Grew(g, d0, d1, a, b)
    ensures InRange(g, a) && ChainBytes(g, d1, b) == ChainBytes(g, d0, a) + Zeros(Span(g, |b| - |a|))
  {
    hide Content, Secs, FatOf, Mirrored, IsChain, GoodGeo, ChainBytes, Zeroed;
    assert b[..|a|] == a;
    ZeroTail(g, d1, b, |a|);
    forall c | c in a
      ensures c !in b[|a|..]
    {
      var i :| 0 <= i < |a| && a[i] == c;
      assert b[i] == c;
    }
    KeptBytes(g, d0, d1, b[|a|..], a);
  }

  // --- range_write ---

  // Patching bytes inside the sector they fall in.
  lemma PatchSector(b: Bytes, t: nat, so: nat, x: Bytes)
    requires 512 * t + 512 <= |b| && so + |x| <= 512
    ensures Overwrite(b, 512 * t, Overwrite(b[512 * t..512 * t + 512], so, x)) == Overwrite(b, 512 * t + so, x)
  {
    var s := b[512 * t..512 * t + 512];
    assert b == b[..512 * t] + s + b[512 * t + 512..];
  }

  // Where byte q * cb + within of a chain is.
  lemma Locate(g: Geo, ch: Chain, q: nat, within: nat)
    requires InRange(g, ch) && q < |ch| && within < 512 * g.spc
    ensures var t := q * g.spc + within / 512;
            && t < |ch| * g.spc && |Secs(g, ch)| == |ch| * g.spc
            && Secs(g, ch)[t] == ClusterSector(g, ch[q]) + within / 512
    ensures Span(g, q) + within == 512 * (q * g.spc + within / 512) + within % 512
  {
    hide Secs, ClusterSector;
    SecsAt(g, ch, q, within / 512);
  }

  // Writing inside the data region leaves the tables alone.
  lemma DataWrite(g: Geo, disk: Disk, k: nat, s: Sector)
    requires OnDisk(disk, g) && Mirrored(disk, g) && g.firstData <= k < |disk|
    ensures OnDisk(disk[k := s], g) && Mirrored(disk[k := s], g) && FatOf(disk[k := s], g) == FatOf(disk, g)
  {
    DataRegion(g);
    TableUntouched(disk, disk[k := s], g);
  }

  // The new sector: a whole one as it is, a part laid into what is there.
  method PatchedSector(fs: Fs, abs: nat, so: nat, x: Bytes) returns (s: Sector)
    requires abs < |fs.disk| && 0 < |x| && so + |x| <= 512
    modifies fs`sec
    ensures s == Overwrite(fs.disk[abs], so, x)
  {
    if so == 0 && |x| == 512 {
      s := x;
    } else {
      fs.sec := fs.disk[abs];
      for i := 0 to |x|
        invariant forall k :: 0 <= k < 512 && !(so <= k < so + i) ==> fs.sec[k] == fs.disk[abs][k]
        invariant forall k :: 0 <= k < i ==> fs.sec[so + k] == x[k]
      {
        fs.sec := fs.sec[so + i := x[i]];
      }
      s := fs.sec;
      assert s == Overwrite(fs.disk[abs], so, x);
    }
  }

  // One turn of the loop: chunk bytes into the sector under the cursor.
  method WriteChunk(fs: Fs, clu: nat, within: nat, x: Bytes, ghost ch: Chain, ghost q: nat)
    requires fs.Ok() && IsChain(fs.g, fs.Table(), ch) && q < |ch| && clu == ch[q]
    requires within < 512 * fs.g.spc && 0 < |x| && within % 512 + |x| <= 512
    modifies fs`disk, fs`sec
    ensures fs.Ok() && fs.Table() == old(fs.Table())
    ensures ChainBytes(fs.g, fs.disk, ch) == Overwrite(old(ChainBytes(fs.g, fs.disk, ch)), Span(fs.g, q) + within, x)
    ensures |fs.disk| == |old(fs.disk)|
    ensures forall k :: 0 <= k < |fs.disk| && k !in Secs(fs.g, ch) ==> fs.disk[k] == old(fs.disk[k])
  {
    hide Content, Secs, FatOf, Mirrored, GoodGeo, ClusterSector, Overwrite, Room;
    var g := fs.g;
    ghost var t := q * g.spc + within / 512;
    Locate(g, ch, q, within);
    ExtentOk(g, fs.disk, ch);
    var abs := ClusterSector(g, clu) + within / 512;
    var so := within % 512;
    ghost var secs, bytes := Secs(g, ch), ChainBytes(g, fs.disk, ch);
    assert abs == secs[t] && abs in secs;
    ContentSector(fs.disk, secs, t);
    var s := PatchedSector(fs, abs, so, x);
    PatchSector(bytes, t, so, x);
    ContentUpdate(fs.disk, secs, t, s);
    DataWrite(g, fs.disk, abs, s);
    fs.disk := fs.disk[abs := s];
  }

  // The cursor (clu, within) stands at byte pos; inside its cluster if there
  // is more to do.
  ghost predicate At(g: Geo, ch: Chain, q: nat, clu: nat, within: nat, pos: nat, more: bool) {
    && q < |ch| && clu == ch[q]
    && Span(g, q) + within == pos && within <= 512 * g.spc && (more ==> within < 512 * g.spc)
  }

  lemma ChainInRange(g: Geo, fat: Fat, ch: Chain)
    requires IsChain(g, fat, ch)
    ensures InRange(g, ch)
  {}

  // The cursor at byte off.
  method StartCursor(fs: Fs, first: nat, off: nat, ghost ch: Chain) returns (clu: nat, within: nat, ghost q: nat)
    requires fs.Ok() && IsChain(fs.g, fs.Table(), ch) && ch[0] == first && off < Room(fs.g, ch)
    ensures At(fs.g, ch, q, clu, within, off, true)
  {
    Position(fs.g, ch, off);
    ChainShape(fs.g, fs.Table(), ch);
    hide FatOf, Mirrored, IsChain, GoodGeo, Span;
    var cb := fs.g.spc * 512;
    q := off / cb;
    var good, start := fs.ChainAt(first, off / cb, ch);
    clu, within := start, off % cb;
  }

  // Past a chunk, and into the next cluster when this one is used up.
  method MoveCursor(fs: Fs, clu: nat, within: nat, chunk: nat, more: bool, ghost ch: Chain, ghost q: nat,
                    ghost pos: nat)
    returns (clu': nat, within': nat, ghost q': nat)
    requires fs.Ok() && IsChain(fs.g, fs.Table(), ch) && chunk <= pos && within % 512 + chunk <= 512
    requires At(fs.g, ch, q, clu, within, pos - chunk, true) && pos <= Room(fs.g, ch) && (more ==> pos < Room(fs.g, ch))
    ensures At(fs.g, ch, q', clu', within', pos, more)
  {
    var cb := fs.g.spc * 512;
    hide FatOf, Mirrored, GoodGeo, Span;
    ChunkEnds(within, chunk, fs.g.spc);
    clu', within', q' := clu, within + chunk, q;
    if within' >= cb && more {
      within' := within' - cb;
      NextCluster(fs.g, fs.Table(), ch, q, pos);
      var nx := fs.FatNext(clu);
      clu' := nx;
      q' := q + 1;
    }
  }

  // range_write of data that fits the chain.
  method RangeWrite(fs: Fs, first: nat, off: nat, data: Bytes, ghost ch: Chain) returns (ok: bool)
    requires fs.Ok() && IsChain(fs.g, fs.Table(), ch) && ch[0] == first
    requires off < Room(fs.g, ch) && off + |data| <= Room(fs.g, ch)
    modifies fs`disk, fs`sec
    ensures ok && fs.Ok() && fs.Table() == old(fs.Table())
    ensures ChainBytes(fs.g, fs.disk, ch) == Overwrite(old(ChainBytes(fs.g, fs.disk, ch)), off, data)
    ensures |fs.disk| == |old(fs.disk)|
    ensures forall k :: 0 <= k < |fs.disk| && k !in Secs(fs.g, ch) ==> fs.disk[k] == old(fs.disk[k])
  {
    hide Content, Secs, FatOf, Mirrored, IsChain, InRange, ChainBytes, GoodGeo, Span, Overwrite;
    var g := fs.g;
    ChainInRange(g, fs.Table(), ch);
    BytesLen(g, fs.disk, ch);
    ghost var bytes, secs := ChainBytes(g, fs.disk, ch), Secs(g, ch);
    var clu, within, q := StartCursor(fs, first, off, ch);
    var done := 0;
    OverwriteNothing(bytes, off);
    while done < |data|
      invariant done <= |data| && At(g, ch, q, clu, within, off + done, done < |data|)
      invariant fs.Ok() && fs.Table() == old(fs.Table())
      invariant ChainBytes(g, fs.disk, ch) == Overwrite(bytes, off, data[..done])
      invariant |fs.disk| == |old(fs.disk)|
      invariant forall k :: 0 <= k < |fs.disk| && k !in secs ==> fs.disk[k] == old(fs.disk[k])
    {
      var so := within % 512;
      var chunk := 512 - so;
      if chunk > |data| - done {
        chunk := |data| - done;
      }
      WriteChunk(fs, clu, within, data[done..done + chunk], ch, q);
      OverwriteTwice(bytes, off, data[..done], data[done..done + chunk]);
      assert data[..done] + data[done..done + chunk] == data[..done + chunk];
      done := done + chunk;
      clu, within, q := MoveCursor(fs, clu, within, chunk, done < |data|, ch, q, off + done);
    }
    assert data[..done] == data;
    ok := true;
  }

  lemma OverwriteNothing(b: Bytes, off: nat)
    requires off <= |b|
    ensures Overwrite(b, off, []) == b
  {}

  // A chunk never runs past the end of its cluster.
  lemma ChunkEnds(within: nat, chunk: nat, spc: nat)
    requires within < spc * 512 && within % 512 + chunk <= 512
    ensures within + chunk <= spc * 512
  {}

  lemma Position(g: Geo, ch: Chain, off: nat)
    requires GoodGeo(g) && off < Room(g, ch)
    ensures var cb := g.spc * 512;
            cb > 0 && off / cb < |ch| && off % cb < cb && Span(g, off / cb) + off % cb == off
  {
    hide Span;
    var cb := g.spc * 512;
    var q, r := off / cb, off % cb;
    QuotientBounds(off, cb);
    SpanIs(g, q);
    if q >= |ch| { SpanMono(g, |ch|, q); }
  }

  lemma QuotientBounds(a: nat, m: nat)
    requires m > 0
    ensures a == m * (a / m) + a % m && a / m >= 0 && 0 <= a % m < m
  {}

  lemma SpanIs(g: Geo, q: nat)
    ensures Span(g, q) == g.spc * 512 * q
  {}

  // The cursor at the end of a cluster with more to come: there is a next one.
  lemma NextCluster(g: Geo, fat: Fat, ch: Chain, q: nat, pos: nat)
    requires GoodGeo(g) && IsChain(g, fat, ch) && q < |ch|
    requires pos < Room(g, ch) && pos == Span(g, q) + 512 * g.spc
    ensures q + 1 < |ch| && NextOf(fat[ch[q]]) == ch[q + 1]
    ensures Span(g, q + 1) == pos
  {
    SpanStep(g, q);
    ChainNext(g, fat, ch, q);
  }

  // The copy loop of read: bytes off .. off + len of the chain.
  method RangeRead(fs: Fs, first: nat, off: nat, len: nat, ghost ch: Chain) returns (out: Bytes)
    requires fs.Ok() && IsChain(fs.g, fs.Table(), ch) && ch[0] == first
    requires off < Room(fs.g, ch) && off + len <= Room(fs.g, ch)
    modifies fs`sec
    ensures off + len <= |ChainBytes(fs.g, fs.disk, ch)| && out == ChainBytes(fs.g, fs.disk, ch)[off..off + len]
  {
    hide Content, Secs, FatOf, Mirrored, IsChain, InRange, ChainBytes, GoodGeo, Span;
    var g := fs.g;
    ChainInRange(g, fs.Table(), ch);
    BytesLen(g, fs.disk, ch);
    ghost var bytes := ChainBytes(g, fs.disk, ch);
    var clu, within, q := StartCursor(fs, first, off, ch);
    out := [];
    while |out| < len
      invariant |out| <= len && At(g, ch, q, clu, within, off + |out|, |out| < len)
      invariant fs.Ok() && fs.Table() == old(fs.Table())
      invariant out == bytes[off..off + |out|]
    {
      var so := within % 512;
      var chunk := 512 - so;
      if chunk > len - |out| {
        chunk := len - |out|;
      }
      var x := ReadChunk(fs, clu, within, chunk, ch, q);
      ghost var pos := off + |out|;
      assert bytes[off..pos] + bytes[pos..pos + chunk] == bytes[off..pos + chunk];
      out := out + x;
      clu, within, q := MoveCursor(fs, clu, within, chunk, |out| < len, ch, q, off + |out|);
    }
  }

  method ReadChunk(fs: Fs, clu: nat, within: nat, chunk: nat, ghost ch: Chain, ghost q: nat) returns (x: Bytes)
    requires fs.Ok() && IsChain(fs.g, fs.Table(), ch) && q < |ch| && clu == ch[q]
    requires within < 512 * fs.g.spc && within % 512 + chunk <= 512
    modifies fs`sec
    ensures var pos := Span(fs.g, q) + within;
            pos + chunk <= |ChainBytes(fs.g, fs.disk, ch)| && x == ChainBytes(fs.g, fs.disk, ch)[pos..pos + chunk]
  {
    hide Content, Secs, FatOf, Mirrored, GoodGeo, ClusterSector, Span;
    var g := fs.g;
    ghost var t := q * g.spc + within / 512;
    Locate(g, ch, q, within);
    ExtentOk(g, fs.disk, ch);
    var abs := ClusterSector(g, clu) + within / 512;
    var so := within % 512;
    ghost var secs, bytes := Secs(g, ch), ChainBytes(g, fs.disk, ch);
    assert abs == secs[t] && abs in secs;
    ContentSector(fs.disk, secs, t);
    fs.sec := fs.disk[abs];
    x := fs.sec[so..so + chunk];
    SliceOfSlice(bytes, 512 * t, so, chunk);
  }

  lemma SliceOfSlice(b: Bytes, p: nat, so: nat, n: nat)
    requires p + 512 <= |b| && so + n <= 512
    ensures b[p..p + 512][so..so + n] == b[p + so..p + so + n]
  {
    var x, y := b[p..p + 512][so..so + n], b[p + so..p + so + n];
    assert forall i :: 0 <= i < n ==> x[i] == b[p..p + 512][so + i] == b[p + (so + i)] == y[i];
  }

  // The clusters to add to `have` bytes until there are `want`.
  ghost function Growth(g: Geo, have: nat, want: nat): nat
    decreases if want <= have then 0 else want - have
  {
    if want <= have || g.spc == 0 then 0 else 1 + Growth(g, have + 512 * g.spc, want)
  }

  lemma {:induction false} GrowthIs(g: Geo, have: nat, want: nat, f: nat)
    requires g.spc > 0
    ensures Growth(g, have, want) <= f <==> want <= have + Span(g, f)
    decreases f
  {
    hide Span;
    SpanStep(g, 0);
    if f > 0 && want > have {
      GrowthIs(g, have + 512 * g.spc, want, f - 1);
      SpanStep(g, f - 1);
    }
  }
}
