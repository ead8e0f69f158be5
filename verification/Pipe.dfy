// The calls of vnu/kernel/fs/pipe.cpp, by any process.
module Pipe {
  import opened Wrappers
  import opened PipeState

  const ENOSPC: int := 28
  const EBADF: int := 9
  const EAGAIN: int := 11
  const EPIPE: int := 32

  // The table of a process, or -1.
  ghost function IndexOf(ts: seq<Table>, pid: nat): (t: int)
    ensures -1 <= t < |ts|
    ensures t >= 0 ==> ts[t].used && ts[t].pid == pid
    ensures t < 0 ==> forall k :: 0 <= k < |ts| ==> !(ts[k].used && ts[k].pid == pid)
  {
    if ts == [] then -1
    else if ts[|ts| - 1].used && ts[|ts| - 1].pid == pid then |ts| - 1
    else IndexOf(ts[..|ts| - 1], pid)
  }

  // The descriptors of a process.
  ghost function View(ts: seq<Table>, pid: nat): seq<Fd> {
    if IndexOf(ts, pid) < 0 then NoFds() else ts[IndexOf(ts, pid)].e
  }

  // table_for can serve this process.
  ghost predicate HasRoom(ts: seq<Table>, pid: nat) {
    IndexOf(ts, pid) >= 0 || exists k :: 0 <= k < |ts| && !ts[k].used
  }

  lemma IndexIs(ts: seq<Table>, pid: nat, t: nat)
    requires TablesOk(ts) && t < |ts| && ts[t].used && ts[t].pid == pid
    ensures IndexOf(ts, pid) == t
  {
    var k := IndexOf(ts, pid);
    assert k == t;
  }

  // Table t rewritten for its process: the others see no difference.
  lemma ViewSet(ts: seq<Table>, ts': seq<Table>, t: nat, pid: nat)
    requires TablesOk(ts) && TablesOk(ts') && t < |ts| && ts'[t].used && ts'[t].pid == pid && ts' == ts[t := ts'[t]]
    requires !ts[t].used || ts[t].pid == pid
    ensures View(ts', pid) == ts'[t].e && forall q :: q != pid ==> View(ts', q) == View(ts, q)
  {
    IndexIs(ts', pid, t);
    forall q | q != pid
      ensures View(ts', q) == View(ts, q)
    {
      var k := IndexOf(ts, q);
      if k >= 0 {
        IndexIs(ts', q, k);
      } else {
        assert forall m :: 0 <= m < |ts'| ==> !(ts'[m].used && ts'[m].pid == q);
      }
    }
  }

  // --- the ring ---

  function Next(i: nat): (j: nat)
    requires i < BUF
    ensures j == if i + 1 < BUF then i + 1 else 0
  {
    (i + 1) % BUF
  }

  // A byte out.
  lemma Popped(p: Pipe)
    requires RingOk(p) && p.len > 0
    ensures var q := p.(r := Next(p.r), len := p.len - 1);
            RingOk(q) && Buffered(p) == [p.data[p.r]] + Buffered(q)
  {
    var q := p.(r := Next(p.r), len := p.len - 1);
    forall k | 0 <= k < q.len
      ensures Buffered(q)[k] == Buffered(p)[k + 1]
    {
      assert Wrap(q.r + k) == Wrap(p.r + (k + 1));
    }
    assert Wrap(p.r + 0) == p.r;
  }

  // A byte in.
  lemma Pushed(p: Pipe, b: Byte)
    requires RingOk(p) && p.len < BUF
    ensures var q := p.(data := p.data[p.w := b], w := Next(p.w), len := p.len + 1);
            RingOk(q) && Buffered(q) == Buffered(p) + [b]
  {
    var q := p.(data := p.data[p.w := b], w := Next(p.w), len := p.len + 1);
    forall k | 0 <= k < p.len
      ensures Buffered(q)[k] == Buffered(p)[k]
    {
      assert Wrap(p.r + k) != p.w;
    }
  }

  class Pipes {
    var pipes: seq<Pipe>
    var tables: seq<Table>
    // What was ever written into and read out of each pipe since create.
    ghost var written: seq<seq<Byte>>
    ghost var taken: seq<seq<Byte>>

    ghost predicate Valid()
      reads this
    {
      && TablesOk(tables) && Counted(pipes, tables)
      && |written| == MAX_PIPES && |taken| == MAX_PIPES
      && forall id :: 0 <= id < MAX_PIPES ==> RingOk(pipes[id]) && written[id] == taken[id] + Buffered(pipes[id])
    }

    // init
    constructor ()
      ensures Valid() && forall pid :: View(tables, pid) == NoFds()
    {
      pipes := seq(MAX_PIPES, _ => NoPipe());
      tables := seq(MAX_TABLES, _ => Table(false, 0, NoFds()));
      written := seq(MAX_PIPES, _ => []);
      taken := seq(MAX_PIPES, _ => []);
      new;
      forall id | 0 <= id < MAX_PIPES
        ensures CountedAt(pipes, tables, id)
      {
        CountAllNone(tables, id, false);
        CountAllNone(tables, id, true);
      }
    }

    method Find(pid: nat) returns (t: int)
      requires Valid()
      ensures t == IndexOf(tables, pid)
    {
      for i := 0 to MAX_TABLES
        invariant forall k :: 0 <= k < i ==> !(tables[k].used && tables[k].pid == pid)
      {
        if tables[i].used && tables[i].pid == pid {
          IndexIs(tables, pid, i);
          return i;
        }
      }
      return -1;
    }

    // table_for: found or made.
    method TableFor(pid: nat) returns (t: int)
      requires Valid()
      modifies this`tables
      ensures Valid() && (t < 0 ==> tables == old(tables)) && forall q :: View(tables, q) == old(View(tables, q))
      ensures t >= 0 ==> t == IndexOf(tables, pid)
      ensures t >= 0 <==> old(HasRoom(tables, pid))
      ensures forall k :: 0 <= k < MAX_TABLES && old(tables)[k].used ==> tables[k] == old(tables)[k]
    {
      t := Find(pid);
      if t >= 0 {
        return;
      }
      for i := 0 to MAX_TABLES
        invariant forall k :: 0 <= k < i ==> tables[k].used
      {
        if !tables[i].used {
          ghost var ts := tables;
          NewTable(pipes, ts, i, pid);
          tables := tables[i := Table(true, pid, NoFds())];
          IndexIs(tables, pid, i);
          return i;
        }
      }
      return -1;
    }

    // alloc_in: the lowest free number past stdio.
    method AllocIn(t: nat) returns (fd: int)
      requires Valid() && t < MAX_TABLES
      ensures fd >= 0 ==> 3 <= fd < MAX_FD && !tables[t].e[fd].used && forall k :: 3 <= k < fd ==> tables[t].e[k].used
      ensures fd < 0 ==> forall k :: 3 <= k < MAX_FD ==> tables[t].e[k].used
    {
      for i := 3 to MAX_FD
        invariant forall k :: 3 <= k < i ==> tables[t].e[k].used
      {
        if !tables[t].e[i].used {
          return i;
        }
      }
      return -1;
    }

    method Create(pid: nat) returns (ret: int, rfd: int, wfd: int)
      requires Valid()
      modifies this
      ensures Valid() && (ret == 0 || ret == -ENOSPC)
      ensures ret == 0 <==> old(AnyFree(pipes) && HasRoom(tables, pid) && TwoFree(View(tables, pid)))
      ensures ret != 0 ==> pipes == old(pipes) && (forall q :: View(tables, q) == old(View(tables, q)))
      ensures ret == 0 ==> 3 <= rfd < MAX_FD && 3 <= wfd < MAX_FD && rfd != wfd
      ensures ret == 0 ==> forall q :: q != pid ==> View(tables, q) == old(View(tables, q))
      ensures ret == 0 ==>
        exists id :: Opened(old(pipes), pipes, old(View(tables, pid)), View(tables, pid), rfd, wfd, id)
    {
      rfd, wfd := -1, -1;
      var pi := FreePipe();
      if pi < 0 {
        return -ENOSPC, -1, -1;
      }
      var t := TableFor(pid);
      if t < 0 {
        return -ENOSPC, -1, -1;
      }
      rfd := AllocIn(t);
      if rfd < 0 {
        return -ENOSPC, -1, -1;
      }
      wfd := AllocSecond(t, rfd);
      if wfd < 0 {
        return -ENOSPC, -1, -1;
      }
      ghost var e := View(tables, pid);
      MakePipe(pid, t, rfd, wfd, pi);
      assert Opened(old(pipes), pipes, e, View(tables, pid), rfd, wfd, pi);
      return 0, rfd, wfd;
    }

    method FreePipe() returns (pi: int)
      requires Valid()
      ensures pi < 0 ==> forall id :: 0 <= id < MAX_PIPES ==> pipes[id].used
      ensures pi >= 0 ==> pi < MAX_PIPES && !pipes[pi].used
    {
      for i := 0 to MAX_PIPES
        invariant forall k :: 0 <= k < i ==> pipes[k].used
      {
        if !pipes[i].used {
          return i;
        }
      }
      return -1;
    }

    // The number for the write end, with the read end already marked.
    method AllocSecond(t: nat, rfd: nat) returns (wfd: int)
      requires Valid() && t < MAX_TABLES && 3 <= rfd < MAX_FD && !tables[t].e[rfd].used
      ensures wfd >= 0 ==> 3 <= wfd < MAX_FD && wfd != rfd && !tables[t].e[wfd].used
      ensures wfd < 0 ==> forall k :: 3 <= k < MAX_FD && k != rfd ==> tables[t].e[k].used
    {
      for i := 3 to MAX_FD
        invariant forall k :: 3 <= k < i && k != rfd ==> tables[t].e[k].used
      {
        if !tables[t].e[i].used && i != rfd {
          return i;
        }
      }
      return -1;
    }

    method MakePipe(pid: nat, t: nat, rfd: nat, wfd: nat, pi: nat)
      requires Valid() && t < MAX_TABLES && t == IndexOf(tables, pid) && pi < MAX_PIPES && !pipes[pi].used
      requires rfd < MAX_FD && wfd < MAX_FD && rfd != wfd && !tables[t].e[rfd].used && !tables[t].e[wfd].used
      modifies this
      ensures Valid() && IsNew(pipes[pi]) && pipes == old(pipes)[pi := pipes[pi]]
      ensures View(tables, pid)
              == old(View(tables, pid))[rfd := Fd(true, true, pi, false)][wfd := Fd(true, true, pi, true)]
      ensures forall q :: q != pid ==> View(tables, q) == old(View(tables, q))
    {
      hide Count, Buffered, TablesOk, Counted, IndexOf, RingOk;
      var p := NoPipe().(used := true, readers := 1, writers := 1);
      TableSizes(pipes, tables);
      CreateOk(pipes, tables, t, rfd, wfd, pi, p);
      ghost var ts := tables;
      tables := SetFd(tables, t, rfd, Fd(true, true, pi, false));
      tables := SetFd(tables, t, wfd, Fd(true, true, pi, true));
      pipes := pipes[pi := p];
      written, taken := written[pi := []], taken[pi := []];
      EmptyRing(p);
      ViewSet(ts, tables, t, pid);
    }

    // is_pipe_fd of the calling process: the table, or -1.
    method MyPipe(pid: nat, fd: int) returns (t: int)
      requires Valid()
      ensures t >= 0 <==> HasFd(tables, pid, fd)
      ensures t >= 0 ==> t == IndexOf(tables, pid)
    {
      t := Find(pid);
      if t < 0 || fd < 0 || fd >= MAX_FD {
        return -1;
      }
      assert TableOk(tables[t]) && FdOk(tables[t].e[fd]);
      if !tables[t].e[fd].used || !tables[t].e[fd].isPipe {
        return -1;
      }
    }

    // read_fd: the oldest bytes, in order; 0 only at the end of the stream.
    method ReadFd(pid: nat, fd: int, n: nat) returns (ret: int, out: seq<Byte>)
      requires Valid()
      modifies this`pipes, this`taken
      ensures Valid()
      ensures !HasFd(tables, pid, fd) || View(tables, pid)[fd].writeEnd ==>
                (ret == -EBADF && out == [] && pipes == old(pipes))
      ensures HasFd(tables, pid, fd) && !View(tables, pid)[fd].writeEnd ==>
        var id := View(tables, pid)[fd].pipe;
        var b := old(Buffered(pipes[id]));
        && |out| == (if n < |b| then n else |b|) && out == b[..|out|] && Buffered(pipes[id]) == b[|out|..]
        && taken == old(taken)[id := old(taken)[id] + out] && OnlyRing(old(pipes), pipes, id)
        && ret == (if |out| > 0 then |out| else if Count(tables, id, true) == 0 then 0 else -EAGAIN)
    {
      out := [];
      var t := MyPipe(pid, fd);
      if t < 0 || tables[t].e[fd].writeEnd {
        return -EBADF, [];
      }
      HeldUsed(pipes, tables, t, fd);
      var id := tables[t].e[fd].pipe;
      out := Drain(id, n);
      assert CountedAt(pipes, tables, id);
      if |out| == 0 && pipes[id].writers == 0 {
        return 0, out;
      }
      if |out| == 0 {
        return -EAGAIN, out;
      }
      ret := |out|;
    }

    // The copy loop of read_fd.
    method Drain(id: nat, n: nat) returns (out: seq<Byte>)
      requires Valid() && id < MAX_PIPES
      modifies this`pipes, this`taken
      ensures Valid() && OnlyRing(old(pipes), pipes, id) && taken == old(taken)[id := old(taken)[id] + out]
      ensures var b := old(Buffered(pipes[id]));
              |out| == (if n < |b| then n else |b|) && out == b[..|out|] && Buffered(pipes[id]) == b[|out|..]
    {
      hide Count, Buffered, TablesOk;
      ghost var b, ps, tk := Buffered(pipes[id]), pipes, taken;
      out := [];
      assert tk[id] + [] == tk[id] && tk == tk[id := tk[id]];
      while |out| < n && pipes[id].len > 0
        invariant Valid() && OnlyRing(ps, pipes, id) && |out| <= n && |out| <= |b|
        invariant out == b[..|out|] && Buffered(pipes[id]) == b[|out|..] && taken == tk[id := tk[id] + out]
        decreases pipes[id].len
      {
        var p := pipes[id];
        Popped(p);
        ghost var rest := Buffered(p);
        out := out + [p.data[p.r]];
        p := p.(r := Next(p.r), len := p.len - 1);
        SameCounts(pipes, tables, id, p);
        ghost var more := taken[id] + [rest[0]];
        assert taken[id] + rest == more + rest[1..];
        assert tk[id] + out == more;
        pipes := pipes[id := p];
        taken := taken[id := more];
      }
    }

    // write_fd: as many bytes as fit, behind the others; nobody to read is an error.
    method WriteFd(pid: nat, fd: int, data: seq<Byte>) returns (ret: int)
      requires Valid()
      modifies this`pipes, this`written
      ensures Valid()
      ensures !HasFd(tables, pid, fd) || !View(tables, pid)[fd].writeEnd ==> ret == -EBADF && pipes == old(pipes)
      ensures HasFd(tables, pid, fd) && View(tables, pid)[fd].writeEnd ==>
        var id := View(tables, pid)[fd].pipe;
        var b := old(Buffered(pipes[id]));
        if Count(tables, id, false) == 0 then ret == -EPIPE && pipes == old(pipes)
        else
          && ret == (if |data| < BUF - |b| then |data| else BUF - |b|) && 0 <= ret <= |data|
          && Buffered(pipes[id]) == b + data[..ret] && written == old(written)[id := old(written)[id] + data[..ret]]
          && OnlyRing(old(pipes), pipes, id)
    {
      var t := MyPipe(pid, fd);
      if t < 0 || !tables[t].e[fd].writeEnd {
        return -EBADF;
      }
      HeldUsed(pipes, tables, t, fd);
      var id := tables[t].e[fd].pipe;
      assert CountedAt(pipes, tables, id);
      if pipes[id].readers == 0 {
        return -EPIPE;
      }
      ret := Fill(id, data);
    }

    // The copy loop of write_fd.
    method Fill(id: nat, data: seq<Byte>) returns (put: nat)
      requires Valid() && id < MAX_PIPES
      modifies this`pipes, this`written
      ensures Valid() && OnlyRing(old(pipes), pipes, id)
      ensures var b := old(Buffered(pipes[id]));
              && put == (if |data| < BUF - |b| then |data| else BUF - |b|) && put <= |data|
              && Buffered(pipes[id]) == b + data[..put] && written == old(written)[id := old(written)[id] + data[..put]]
    {
      hide Count, Buffered, TablesOk;
      ghost var b, ps, wr := Buffered(pipes[id]), pipes, written;
      put := 0;
      assert data[..0] == [] && b + [] == b && wr[id] + [] == wr[id] && wr == wr[id := wr[id]];
      while put < |data| && pipes[id].len < BUF
        invariant Valid() && OnlyRing(ps, pipes, id) && put <= |data| && pipes[id].len == |b| + put <= BUF
        invariant Buffered(pipes[id]) == b + data[..put] && written == wr[id := wr[id] + data[..put]]
      {
        var p := pipes[id];
        Pushed(p, data[put]);
        ghost var old' := Buffered(p);
        assert data[..put + 1] == data[..put] + [data[put]];
        ghost var more := written[id] + [data[put]];
        assert taken[id] + (old' + [data[put]]) == (taken[id] + old') + [data[put]];
        assert wr[id] + data[..put + 1] == more;
        assert b + data[..put + 1] == old' + [data[put]];
        p := p.(data := p.data[p.w := data[put]], w := Next(p.w), len := p.len + 1);
        SameCounts(pipes, tables, id, p);
        pipes := pipes[id := p];
        written := written[id := more];
        put := put + 1;
      }
    }

    // Table t gives up the descriptor at fd.
    method DropAt(t: nat, fd: nat)
      requires Valid() && t < MAX_TABLES && fd < MAX_FD && tables[t].e[fd].used
      modifies this`pipes, this`tables
      ensures Valid() && SameRings(old(pipes), pipes)
      ensures tables == SetFd(old(tables), t, fd, NO_FD)
    {
      hide Count, Buffered, RingOk, TablesOk, Counted;
      TableSizes(pipes, tables);
      FdSmall(tables, t, fd);
      DropOk(pipes, tables, t, fd);
      var f := tables[t].e[fd];
      ghost var ps := pipes;
      pipes := pipes[f.pipe := Dropped(pipes[f.pipe], f.writeEnd)];
      tables := SetFd(tables, t, fd, NO_FD);
      RingsSame(ps, pipes, written, taken);
    }

    // Table t gets a descriptor on a pipe in use.
    method AddAt(t: nat, fd: nat, f: Fd)
      requires Valid() && t < MAX_TABLES && fd < MAX_FD && !tables[t].e[fd].used && tables[t].used
      requires f.used && FdOk(f) && pipes[f.pipe].used
      modifies this`pipes, this`tables
      ensures Valid() && SameRings(old(pipes), pipes)
      ensures tables == SetFd(old(tables), t, fd, f)
    {
      hide Count, Buffered, RingOk, TablesOk, Counted;
      TableSizes(pipes, tables);
      AddOk(pipes, tables, t, fd, f);
      ghost var ps := pipes;
      pipes := pipes[f.pipe := Added(pipes[f.pipe], f.writeEnd)];
      tables := SetFd(tables, t, fd, f);
      RingsSame(ps, pipes, written, taken);
    }

    method CloseFd(pid: nat, fd: int) returns (ret: int)
      requires Valid()
      modifies this`pipes, this`tables
      ensures Valid() && SameRings(old(pipes), pipes)
      ensures !old(HasFd(tables, pid, fd)) ==> ret == -EBADF && tables == old(tables)
      ensures old(HasFd(tables, pid, fd)) ==> ret == 0 && View(tables, pid) == old(View(tables, pid))[fd := NO_FD]
      ensures forall q :: q != pid ==> View(tables, q) == old(View(tables, q))
    {
      hide Count, Buffered, RingOk;
      var t := MyPipe(pid, fd);
      NoRingChange(pipes);
      if t < 0 {
        return -EBADF;
      }
      ghost var ts := tables;
      DropAt(t, fd);
      ViewSet(ts, tables, t, pid);
      return 0;
    }

    method DupFd(pid: nat, oldfd: int) returns (ret: int)
      requires Valid()
      modifies this`pipes, this`tables
      ensures Valid() && SameRings(old(pipes), pipes)
      ensures ret == -EBADF <==> !old(HasFd(tables, pid, oldfd))
      ensures ret == -ENOSPC <==> old(HasFd(tables, pid, oldfd) && NoFree(View(tables, pid)))
      ensures ret < 0 ==> tables == old(tables) && (ret == -EBADF || ret == -ENOSPC)
      ensures ret >= 0 ==> old(HasFd(tables, pid, oldfd)) && 3 <= ret < MAX_FD && !old(View(tables, pid))[ret].used
      ensures ret >= 0 ==> View(tables, pid) == old(View(tables, pid))[ret := old(View(tables, pid))[oldfd]]
      ensures forall q :: q != pid ==> View(tables, q) == old(View(tables, q))
    {
      hide Count, Buffered, RingOk;
      var t := MyPipe(pid, oldfd);
      NoRingChange(pipes);
      if t < 0 {
        return -EBADF;
      }
      var n := AllocIn(t);
      if n < 0 {
        return -ENOSPC;
      }
      HeldUsed(pipes, tables, t, oldfd);
      ghost var ts := tables;
      AddAt(t, n, tables[t].e[oldfd]);
      ViewSet(ts, tables, t, pid);
      return n;
    }

    // dup2_fd: the target is closed first.
    method Dup2Fd(pid: nat, oldfd: int, newfd: int) returns (ret: int)
      requires Valid()
      modifies this`pipes, this`tables
      ensures Valid() && SameRings(old(pipes), pipes)
      ensures ret == (if old(HasFd(tables, pid, oldfd)) && 0 <= newfd < MAX_FD then newfd else -EBADF)
      ensures ret < 0 ==> tables == old(tables)
      ensures ret >= 0 ==> View(tables, pid) == old(View(tables, pid))[newfd := old(View(tables, pid))[oldfd]]
      ensures forall q :: q != pid ==> View(tables, q) == old(View(tables, q))
    {
      hide Count, Buffered, RingOk;
      var t := MyPipe(pid, oldfd);
      NoRingChange(pipes);
      if t < 0 {
        return -EBADF;
      }
      if newfd < 0 || newfd >= MAX_FD {
        return -EBADF;
      }
      if oldfd == newfd {
        return newfd;
      }
      ghost var ts := tables;
      assert TableOk(tables[t]) && FdOk(tables[t].e[newfd]);
      if tables[t].e[newfd].used && tables[t].e[newfd].isPipe {
        DropAt(t, newfd);
      }
      HeldUsed(pipes, tables, t, oldfd);
      AddAt(t, newfd, tables[t].e[oldfd]);
      assert tables[t].e == ts[t].e[newfd := ts[t].e[oldfd]];
      assert tables == ts[t := tables[t]];
      ViewSet(ts, tables, t, pid);
      return newfd;
    }

    // release: every reference of a table given back.
    method Release(t: nat)
      requires Valid() && t < MAX_TABLES
      modifies this`pipes, this`tables
      ensures Valid() && SameRings(old(pipes), pipes)
      ensures tables == old(tables)[t := old(tables)[t].(e := tables[t].e)]
      ensures forall i :: 0 <= i < MAX_FD ==> !tables[t].e[i].used
    {
      hide Count, Buffered, RingOk, TablesOk, Counted, SetFd;
      TableSizes(pipes, tables);
      ghost var ts := tables;
      NoRingChange(pipes);
      for i := 0 to MAX_FD
        invariant Valid() && SameRings(old(pipes), pipes) && |tables| == MAX_TABLES && |tables[t].e| == MAX_FD
        invariant tables == ts[t := ts[t].(e := tables[t].e)] && forall k :: 0 <= k < i ==> !tables[t].e[k].used
      {
        if !tables[t].e[i].used {
          continue;
        }
        SetFdIs(tables, t, i, NO_FD);
        DropAt(t, i);
      }
    }

    method CloseAllOf(pid: nat)
      requires Valid()
      modifies this`pipes, this`tables
      ensures Valid() && SameRings(old(pipes), pipes)
      ensures View(tables, pid) == NoFds() && forall q :: q != pid ==> View(tables, q) == old(View(tables, q))
    {
      hide Count, Buffered, RingOk;
      var t := Find(pid);
      NoRingChange(pipes);
      if t < 0 {
        return;
      }
      ghost var ts := tables;
      Release(t);
      ClearTable(pipes, ts, tables, t, pid);
      tables := tables[t := Table(false, 0, NoFds())];
    }

    // fork_copy: the child's own references to what the parent holds.
    method ForkCopy(pid: nat, child: nat)
      requires Valid() && child != pid
      modifies this`pipes, this`tables
      ensures Valid() && SameRings(old(pipes), pipes)
      ensures forall q :: q != child ==> View(tables, q) == old(View(tables, q))
      ensures View(tables, child) == old(View(tables, pid)) || View(tables, child) == old(View(tables, child))
      ensures old(IndexOf(tables, pid) >= 0 && HasRoom(tables, child)) ==> View(tables, child) == old(View(tables, pid))
    {
      hide Count, Buffered, RingOk;
      NoRingChange(pipes);
      var src := Find(pid);
      if src < 0 {
        return;
      }
      ghost var e := View(tables, pid);
      var dst := TableFor(child);
      if dst < 0 {
        return;
      }
      ghost var ts := tables;
      IndexIs(ts, pid, src);
      Release(dst);
      CopyFds(src, dst);
      ViewSet(ts, tables, dst, child);
    }

    // The two loops of fork_copy: copy the numbers, then raise the counts.
    method CopyFds(src: nat, dst: nat)
      requires Valid() && src < MAX_TABLES && dst < MAX_TABLES && src != dst && tables[dst].used
      requires forall i :: 0 <= i < MAX_FD ==> !tables[dst].e[i].used
      modifies this`pipes, this`tables
      ensures Valid() && SameRings(old(pipes), pipes)
      ensures tables == old(tables)[dst := old(tables)[dst].(e := old(tables)[src].e)]
    {
      hide Count, Buffered, RingOk, TablesOk, Counted, SetFd;
      TableSizes(pipes, tables);
      NoRingChange(pipes);
      ghost var ts, ps := tables, pipes;
      tables := tables[dst := tables[dst].(e := tables[src].e)];
      ghost var now := ts;
      ghost var e := ts[src].e;
      for i := 0 to MAX_FD
        invariant tables == ts[dst := ts[dst].(e := e)] && SameRings(ps, pipes)
        invariant TablesOk(now) && Counted(pipes, now) && |now| == MAX_TABLES && |now[dst].e| == MAX_FD
        invariant now == ts[dst := ts[dst].(e := now[dst].e)]
        invariant forall k :: 0 <= k < i ==> now[dst].e[k] == e[k] || (!now[dst].e[k].used && !e[k].used)
        invariant forall k :: i <= k < MAX_FD ==> !now[dst].e[k].used
      {
        if !tables[dst].e[i].used {
          continue;
        }
        var f := tables[dst].e[i];
        TableSizes(pipes, now);
        SetFdIs(now, dst, i, f);
        HeldUsed(pipes, now, src, i);
        FdSmall(now, src, i);
        AddOk(pipes, now, dst, i, f);
        AddedRing(ps, pipes, f.pipe, f.writeEnd);
        pipes := pipes[f.pipe := Added(pipes[f.pipe], f.writeEnd)];
        now := SetFd(now, dst, i, f);
      }
      CopyDone(pipes, now, tables, ts, dst, src);
      RingsSame(ps, pipes, written, taken);
    }
  }

  // An empty table for a process that had none.
  lemma NewTable(ps: seq<Pipe>, ts: seq<Table>, i: nat, pid: nat)
    requires Counted(ps, ts) && TablesOk(ts) && i < |ts| && !ts[i].used && IndexOf(ts, pid) < 0
    ensures var ts' := ts[i := Table(true, pid, NoFds())];
            TablesOk(ts') && Counted(ps, ts') && forall q :: View(ts', q) == View(ts, q)
  {
    var ts' := ts[i := Table(true, pid, NoFds())];
    assert TableOk(ts[i]);
    forall id | 0 <= id < |ps|
      ensures CountedAt(ps, ts', id)
    {
      assert CountedAt(ps, ts, id);
      CountSet(ts, i, ts'[i], id, false);
      CountSet(ts, i, ts'[i], id, true);
      CountNone(ts[i].e, id, false);
      CountNone(ts[i].e, id, true);
      CountNone(NoFds(), id, false);
      CountNone(NoFds(), id, true);
    }
    assert TablesOk(ts');
    ViewSet(ts, ts', i, pid);
  }

  // A pipe nobody used has its two ends at rfd and wfd, which were free.
  ghost predicate Opened(ps: seq<Pipe>, ps': seq<Pipe>, e: seq<Fd>, e': seq<Fd>, rfd: int, wfd: int, id: int) {
    && 0 <= id < |ps| == |ps'| && !ps[id].used && IsNew(ps'[id]) && ps' == ps[id := ps'[id]]
    && |e| == MAX_FD && 0 <= rfd < MAX_FD && 0 <= wfd < MAX_FD && !e[rfd].used && !e[wfd].used
    && e' == e[rfd := Fd(true, true, id, false)][wfd := Fd(true, true, id, true)]
  }

  ghost predicate AnyFree(ps: seq<Pipe>) {
    exists id :: 0 <= id < |ps| && !ps[id].used
  }

  // Two numbers past stdio for the two ends.
  ghost predicate TwoFree(e: seq<Fd>) {
    exists i, j :: 3 <= i < j < |e| && !e[i].used && !e[j].used
  }

  ghost predicate NoFree(e: seq<Fd>) {
    forall i :: 3 <= i < |e| ==> e[i].used
  }

  ghost predicate IsNew(p: Pipe) {
    p.used && p.len == 0 && p.readers == 1 && p.writers == 1
  }

  lemma TableSizes(ps: seq<Pipe>, ts: seq<Table>)
    requires TablesOk(ts) && Counted(ps, ts)
    ensures |ps| == MAX_PIPES && |ts| == MAX_TABLES && forall t :: 0 <= t < |ts| ==> |ts[t].e| == MAX_FD
  {
    hide Count;
    assert forall t :: 0 <= t < |ts| ==> TableOk(ts[t]);
  }

  lemma EmptyRing(p: Pipe)
    requires |p.data| == BUF && p.r == 0 && p.w == 0 && p.len == 0
    ensures RingOk(p) && Buffered(p) == []
  {}

  // Process pid has an open pipe end at fd.
  ghost predicate HasFd(ts: seq<Table>, pid: nat, fd: int) {
    0 <= fd < MAX_FD && |View(ts, pid)| == MAX_FD && View(ts, pid)[fd].used && View(ts, pid)[fd].pipe < MAX_PIPES
  }

  // Only the ring of pipe id changed.
  ghost predicate OnlyRing(ps: seq<Pipe>, ps': seq<Pipe>, id: nat) {
    && |ps| == |ps'| && id < |ps|
    && ps'[id].used == ps[id].used && ps'[id].readers == ps[id].readers && ps'[id].writers == ps[id].writers
    && forall k :: 0 <= k < |ps| && k != id ==> ps'[k] == ps[k]
  }

  lemma SameCounts(ps: seq<Pipe>, ts: seq<Table>, id: nat, p: Pipe)
    requires Counted(ps, ts) && id < |ps| && p.used == ps[id].used && p.readers == ps[id].readers
    requires p.writers == ps[id].writers
    ensures Counted(ps[id := p], ts)
  {
    var ps' := ps[id := p];
    forall k | 0 <= k < |ps'|
      ensures CountedAt(ps', ts, k)
    {
      assert CountedAt(ps, ts, k);
    }
  }

  // Every ring holds what it held.
  ghost predicate SameRings(ps: seq<Pipe>, ps': seq<Pipe>) {
    |ps| == |ps'| && forall k :: 0 <= k < |ps| ==>
      ps'[k].data == ps[k].data && ps'[k].r == ps[k].r && ps'[k].w == ps[k].w && ps'[k].len == ps[k].len
  }

  lemma NoRingChange(ps: seq<Pipe>)
    ensures SameRings(ps, ps)
  {}

  lemma RingsSame(ps: seq<Pipe>, ps': seq<Pipe>, written: seq<seq<Byte>>, taken: seq<seq<Byte>>)
    requires SameRings(ps, ps') && |ps| == MAX_PIPES && |written| == MAX_PIPES && |taken| == MAX_PIPES
    requires forall id :: 0 <= id < MAX_PIPES ==> RingOk(ps[id]) && written[id] == taken[id] + Buffered(ps[id])
    ensures forall id :: 0 <= id < MAX_PIPES ==> RingOk(ps'[id]) && written[id] == taken[id] + Buffered(ps'[id])
  {
    forall id | 0 <= id < MAX_PIPES
      ensures RingOk(ps'[id]) && Buffered(ps'[id]) == Buffered(ps[id])
    {
    }
  }

  lemma AddedRing(ps: seq<Pipe>, ps': seq<Pipe>, id: nat, wend: bool)
    requires SameRings(ps, ps') && id < |ps'|
    ensures SameRings(ps, ps'[id := Added(ps'[id], wend)])
  {}

  lemma FdSmall(ts: seq<Table>, t: nat, i: nat)
    requires TablesOk(ts) && t < |ts| && i < MAX_FD
    ensures |ts[t].e| == MAX_FD && FdOk(ts[t].e[i])
  {
    assert TableOk(ts[t]);
  }

  lemma SetFdIs(ts: seq<Table>, t: nat, i: nat, f: Fd)
    requires t < |ts| && i < |ts[t].e|
    ensures SetFd(ts, t, i, f) == ts[t := ts[t].(e := ts[t].e[i := f])]
  {}

  // A table without descriptors is dropped.
  lemma ClearTable(ps: seq<Pipe>, ts0: seq<Table>, ts: seq<Table>, t: nat, pid: nat)
    requires TablesOk(ts0) && Counted(ps, ts) && TablesOk(ts) && t < |ts| && IndexOf(ts0, pid) == t
    requires ts == ts0[t := ts0[t].(e := ts[t].e)] && forall i :: 0 <= i < MAX_FD ==> !ts[t].e[i].used
    ensures var ts' := ts[t := Table(false, 0, NoFds())];
            && TablesOk(ts') && Counted(ps, ts') && View(ts', pid) == NoFds()
            && forall q :: q != pid ==> View(ts', q) == View(ts0, q)
  {
    var ts' := ts[t := Table(false, 0, NoFds())];
    assert TableOk(ts[t]);
    forall id | 0 <= id < |ps|
      ensures CountedAt(ps, ts', id)
    {
      assert CountedAt(ps, ts, id);
      CountSet(ts, t, ts'[t], id, false);
      CountSet(ts, t, ts'[t], id, true);
      CountNone(ts[t].e, id, false);
      CountNone(ts[t].e, id, true);
      CountNone(NoFds(), id, false);
      CountNone(NoFds(), id, true);
    }
    assert TablesOk(ts');
    assert forall m :: 0 <= m < |ts'| && m != t && ts'[m].used ==> ts'[m].pid != pid;
    forall q | q != pid
      ensures View(ts', q) == View(ts0, q)
    {
      var k := IndexOf(ts0, q);
      if k >= 0 {
        IndexIs(ts', q, k);
      } else {
        assert forall m :: 0 <= m < |ts'| ==> !(ts'[m].used && ts'[m].pid == q);
      }
    }
  }

  // Same descriptors, so the same counts.
  lemma CopyDone(ps: seq<Pipe>, now: seq<Table>, ts': seq<Table>, ts: seq<Table>, dst: nat, src: nat)
    requires TablesOk(now) && Counted(ps, now) && TablesOk(ts) && dst < |ts| && src < |ts| && ts[dst].used && dst != src
    requires ts' == ts[dst := ts[dst].(e := ts[src].e)] && now == ts[dst := ts[dst].(e := now[dst].e)]
    requires |now[dst].e| == MAX_FD
    requires forall k :: 0 <= k < MAX_FD ==>
               (now[dst].e[k] == ts[src].e[k] || (!now[dst].e[k].used && !ts[src].e[k].used))
    ensures TablesOk(ts') && Counted(ps, ts')
  {
    assert TableOk(ts[src]) && TableOk(ts[dst]);
    assert TableOk(ts'[dst]);
    assert forall u :: 0 <= u < |ts'| ==> TableOk(ts[u]);
    forall id | 0 <= id < |ps|
      ensures CountedAt(ps, ts', id)
    {
      assert CountedAt(ps, now, id);
      forall wend: bool
        ensures Count(ts', id, wend) == Count(now, id, wend)
      {
        CountSet(now, dst, ts'[dst], id, wend);
        assert now[dst := ts'[dst]] == ts';
        SameIn(now[dst].e, ts'[dst].e, id, wend);
      }
    }
  }

  lemma {:induction false} SameIn(a: seq<Fd>, b: seq<Fd>, id: nat, wend: bool)
    requires |a| == |b| && forall k :: 0 <= k < |a| ==> a[k] == b[k] || (!a[k].used && !b[k].used)
    ensures CountIn(a, id, wend) == CountIn(b, id, wend)
  {
    if a != [] { SameIn(a[..|a| - 1], b[..|b| - 1], id, wend); }
  }
}
