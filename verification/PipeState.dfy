// Pipes and descriptor tables of vnu/kernel/fs/pipe.cpp, and the counting of
// descriptors behind their reference counts.
module PipeState {
  import opened Wrappers

  const MAX_PIPES: nat := 8
  const MAX_FD: nat := 64
  const MAX_TABLES: nat := 16
  const BUF: nat := 256

  datatype Pipe = Pipe(used: bool, data: seq<Byte>, r: nat, w: nat, len: nat, readers: int, writers: int)
  datatype Fd = Fd(used: bool, isPipe: bool, pipe: nat, writeEnd: bool)
  datatype Table = Table(used: bool, pid: nat, e: seq<Fd>)

  const NO_FD: Fd := Fd(false, false, 0, false)

  function NoFds(): (e: seq<Fd>)
    ensures |e| == MAX_FD && forall i :: 0 <= i < MAX_FD ==> e[i] == NO_FD
  {
    seq(MAX_FD, _ => NO_FD)
  }

  function NoPipe(): Pipe {
    Pipe(false, seq(BUF, _ => 0), 0, 0, 0, 0, 0)
  }

  // --- counting ---

  ghost predicate Holds(f: Fd, id: nat, wend: bool) {
    f.used && f.pipe == id && f.writeEnd == wend
  }

  ghost function One(f: Fd, id: nat, wend: bool): nat {
    if Holds(f, id, wend) then 1 else 0
  }

  ghost function CountIn(e: seq<Fd>, id: nat, wend: bool): nat {
    if e == [] then 0 else CountIn(e[..|e| - 1], id, wend) + One(e[|e| - 1], id, wend)
  }

  // The descriptors of one kind on one pipe, across all tables.
  ghost function Count(ts: seq<Table>, id: nat, wend: bool): nat {
    if ts == [] then 0 else Count(ts[..|ts| - 1], id, wend) + CountIn(ts[|ts| - 1].e, id, wend)
  }

  lemma {:induction false} CountInSet(e: seq<Fd>, i: nat, f: Fd, id: nat, wend: bool)
    requires i < |e|
    ensures CountIn(e[i := f], id, wend) + One(e[i], id, wend) == CountIn(e, id, wend) + One(f, id, wend)
    decreases |e|
  {
    var n := |e| - 1;
    if i == n {
      assert e[i := f][..n] == e[..n];
    } else {
      CountInSet(e[..n], i, f, id, wend);
      assert e[i := f][..n] == e[..n][i := f];
    }
  }

  lemma {:induction false} CountSet(ts: seq<Table>, t: nat, new': Table, id: nat, wend: bool)
    requires t < |ts|
    ensures Count(ts[t := new'], id, wend) + CountIn(ts[t].e, id, wend)
            == Count(ts, id, wend) + CountIn(new'.e, id, wend)
    decreases |ts|
  {
    var n := |ts| - 1;
    if t == n {
      assert ts[t := new'][..n] == ts[..n];
    } else {
      CountSet(ts[..n], t, new', id, wend);
      assert ts[t := new'][..n] == ts[..n][t := new'];
    }
  }

  lemma {:induction false} CountNone(e: seq<Fd>, id: nat, wend: bool)
    requires forall i :: 0 <= i < |e| ==> !e[i].used
    ensures CountIn(e, id, wend) == 0
  {
    if e != [] { CountNone(e[..|e| - 1], id, wend); }
  }

  lemma {:induction false} CountAllNone(ts: seq<Table>, id: nat, wend: bool)
    requires forall t, i :: 0 <= t < |ts| && 0 <= i < |ts[t].e| ==> !ts[t].e[i].used
    ensures Count(ts, id, wend) == 0
  {
    if ts != [] {
      CountAllNone(ts[..|ts| - 1], id, wend);
      CountNone(ts[|ts| - 1].e, id, wend);
    }
  }

  // A held descriptor is counted.
  lemma CountHeld(ts: seq<Table>, t: nat, i: nat, id: nat, wend: bool)
    requires t < |ts| && i < |ts[t].e| && Holds(ts[t].e[i], id, wend)
    ensures Count(ts, id, wend) >= 1
  {
    var f := NO_FD;
    CountInSet(ts[t].e, i, f, id, wend);
    CountSet(ts, t, ts[t].(e := ts[t].e[i := f]), id, wend);
  }

  // --- well-formed tables ---

  ghost predicate TablesOk(ts: seq<Table>) {
    && |ts| == MAX_TABLES
    && (forall t :: 0 <= t < |ts| ==> TableOk(ts[t]))
    && (forall t, u :: 0 <= t < u < |ts| && ts[t].used && ts[u].used ==> ts[t].pid != ts[u].pid)
  }

  ghost predicate TableOk(t: Table) {
    |t.e| == MAX_FD && forall i :: 0 <= i < MAX_FD ==> FdOk(t.e[i]) && (t.e[i].used ==> t.used)
  }

  ghost predicate FdOk(f: Fd) {
    f.used ==> f.isPipe && f.pipe < MAX_PIPES
  }

  // --- well-formed pipes ---

  // A position in the ring.
  ghost function Wrap(i: nat): (j: nat)
    ensures j < BUF && (i < BUF ==> j == i) && (BUF <= i < 2 * BUF ==> j == i - BUF)
  {
    i % BUF
  }

  ghost predicate RingOk(p: Pipe) {
    |p.data| == BUF && p.r < BUF && p.w < BUF && p.len <= BUF && p.w == Wrap(p.r + p.len)
  }

  // The bytes in the ring, oldest first.
  ghost function Buffered(p: Pipe): (b: seq<Byte>)
    requires RingOk(p)
    ensures |b| == p.len
  {
    seq(p.len, k requires 0 <= k < p.len => p.data[Wrap(p.r + k)])
  }

  // The reference counts of pipe id.
  ghost predicate CountedAt(ps: seq<Pipe>, ts: seq<Table>, id: nat)
    requires id < |ps|
  {
    && ps[id].readers == Count(ts, id, false) && ps[id].writers == Count(ts, id, true)
    && (ps[id].used <==> ps[id].readers + ps[id].writers > 0)
  }

  ghost predicate Counted(ps: seq<Pipe>, ts: seq<Table>) {
    |ps| == MAX_PIPES && forall id :: 0 <= id < |ps| ==> CountedAt(ps, ts, id)
  }

  // --- one descriptor more or less ---

  function Dropped(p: Pipe, wend: bool): Pipe {
    var q := if wend then p.(writers := p.writers - 1) else p.(readers := p.readers - 1);
    if q.readers <= 0 && q.writers <= 0 then q.(used := false) else q
  }

  function Added(p: Pipe, wend: bool): Pipe {
    if wend then p.(writers := p.writers + 1) else p.(readers := p.readers + 1)
  }

  function SetFd(ts: seq<Table>, t: nat, i: nat, f: Fd): (r: seq<Table>)
    requires t < |ts| && i < |ts[t].e|
    ensures |r| == |ts|
  {
    ts[t := ts[t].(e := ts[t].e[i := f])]
  }

  lemma SetFdCount(ts: seq<Table>, t: nat, i: nat, f: Fd, id: nat, wend: bool)
    requires t < |ts| && i < |ts[t].e|
    ensures Count(SetFd(ts, t, i, f), id, wend) + One(ts[t].e[i], id, wend) == Count(ts, id, wend) + One(f, id, wend)
  {
    CountInSet(ts[t].e, i, f, id, wend);
    CountSet(ts, t, ts[t].(e := ts[t].e[i := f]), id, wend);
  }

  lemma SetFdOk(ts: seq<Table>, t: nat, i: nat, f: Fd)
    requires TablesOk(ts) && t < |ts| && i < MAX_FD && FdOk(f) && (f.used ==> ts[t].used)
    ensures TablesOk(SetFd(ts, t, i, f))
  {
    var r := SetFd(ts, t, i, f);
    assert forall u :: 0 <= u < |r| ==> r[u].used == ts[u].used && r[u].pid == ts[u].pid;
  }

  // Closing a held descriptor.
  lemma DropOk(ps: seq<Pipe>, ts: seq<Table>, t: nat, i: nat)
    requires Counted(ps, ts) && TablesOk(ts) && t < |ts| && i < MAX_FD && ts[t].e[i].used
    ensures var f := ts[t].e[i];
            && TablesOk(SetFd(ts, t, i, NO_FD))
            && Counted(ps[f.pipe := Dropped(ps[f.pipe], f.writeEnd)], SetFd(ts, t, i, NO_FD))
  {
    var f := ts[t].e[i];
    SetFdOk(ts, t, i, NO_FD);
    var ps', ts' := ps[f.pipe := Dropped(ps[f.pipe], f.writeEnd)], SetFd(ts, t, i, NO_FD);
    forall id | 0 <= id < |ps'|
      ensures CountedAt(ps', ts', id)
    {
      SetFdCount(ts, t, i, NO_FD, id, false);
      SetFdCount(ts, t, i, NO_FD, id, true);
      assert CountedAt(ps, ts, id);
    }
  }

  // A new descriptor on a pipe that is in use.
  lemma AddOk(ps: seq<Pipe>, ts: seq<Table>, t: nat, i: nat, f: Fd)
    requires Counted(ps, ts) && TablesOk(ts) && t < |ts| && i < MAX_FD && !ts[t].e[i].used && ts[t].used
    requires f.used && FdOk(f) && ps[f.pipe].used
    ensures TablesOk(SetFd(ts, t, i, f)) && Counted(ps[f.pipe := Added(ps[f.pipe], f.writeEnd)], SetFd(ts, t, i, f))
  {
    SetFdOk(ts, t, i, f);
    var ps', ts' := ps[f.pipe := Added(ps[f.pipe], f.writeEnd)], SetFd(ts, t, i, f);
    forall id | 0 <= id < |ps'|
      ensures CountedAt(ps', ts', id)
    {
      SetFdCount(ts, t, i, f, id, false);
      SetFdCount(ts, t, i, f, id, true);
      assert CountedAt(ps, ts, id);
    }
  }

  // Both ends of a new pipe.
  lemma CreateOk(ps: seq<Pipe>, ts: seq<Table>, t: nat, i: nat, j: nat, id: nat, p: Pipe)
    requires Counted(ps, ts) && TablesOk(ts) && t < |ts| && i < MAX_FD && j < MAX_FD && i != j && ts[t].used
    requires !ts[t].e[i].used && !ts[t].e[j].used && id < MAX_PIPES && !ps[id].used
    requires p.used && p.readers == 1 && p.writers == 1
    ensures var ts' := SetFd(SetFd(ts, t, i, Fd(true, true, id, false)), t, j, Fd(true, true, id, true));
            TablesOk(ts') && Counted(ps[id := p], ts')
  {
    var f, g := Fd(true, true, id, false), Fd(true, true, id, true);
    var t1 := SetFd(ts, t, i, f);
    SetFdOk(ts, t, i, f);
    SetFdOk(t1, t, j, g);
    var ps', ts' := ps[id := p], SetFd(t1, t, j, g);
    forall k | 0 <= k < |ps'|
      ensures CountedAt(ps', ts', k)
    {
      SetFdCount(ts, t, i, f, k, false);
      SetFdCount(ts, t, i, f, k, true);
      SetFdCount(t1, t, j, g, k, false);
      SetFdCount(t1, t, j, g, k, true);
      assert CountedAt(ps, ts, k);
    }
  }

  // A held descriptor stands on a pipe in use.
  lemma HeldUsed(ps: seq<Pipe>, ts: seq<Table>, t: nat, i: nat)
    requires Counted(ps, ts) && TablesOk(ts) && t < |ts| && i < MAX_FD && ts[t].e[i].used
    ensures ts[t].e[i].pipe < |ps| && ps[ts[t].e[i].pipe].used && ts[t].used
    ensures if ts[t].e[i].writeEnd then ps[ts[t].e[i].pipe].writers > 0 else ps[ts[t].e[i].pipe].readers > 0
  {
    var f := ts[t].e[i];
    assert TableOk(ts[t]) && FdOk(f);
    CountHeld(ts, t, i, f.pipe, f.writeEnd);
    assert CountedAt(ps, ts, f.pipe);
  }
}
