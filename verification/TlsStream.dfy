// Two established connections over whole runs in which either side calls
// tls_write, tls_read and tls_close in any order (vlibc/src/tls/tls.c).
module TlsStream {
  import opened Gf128
  import opened Gcm
  import opened Wrappers
  import opened TlsRecord
  import opened TlsConn

  // A record in flight, by its plaintext.
  datatype Item = Item(ty: bv8, pt: Bytes)

  function Next(seqNo: nat): nat { (seqNo + 1) % SEQ_MOD }

  function Advance(seqNo: nat, k: nat): nat
    decreases k
  {
    if k == 0 then seqNo else Advance(Next(seqNo), k - 1)
  }

  // Records sealed under consecutive sequence numbers.
  function Encode(E: Block -> Block, iv: Iv, seqNo: nat, flight: seq<Item>): Bytes
    decreases |flight|
  {
    if flight == [] then []
    else
      Record(flight[0].ty, Protect(E, iv, seqNo, flight[0].ty, flight[0].pt)) +
      Encode(E, iv, Next(seqNo), flight[1..])
  }

  lemma {:induction false} EncodeSnoc(E: Block -> Block, iv: Iv, seqNo: nat, flight: seq<Item>, it: Item)
    ensures Encode(E, iv, seqNo, flight + [it])
         == Encode(E, iv, seqNo, flight) + Record(it.ty, Protect(E, iv, Advance(seqNo, |flight|), it.ty, it.pt))
    ensures Advance(seqNo, |flight| + 1) == Next(Advance(seqNo, |flight|))
    decreases |flight|
  {
    hide Record, Protect;
    if flight == [] {
      assert flight + [it] == [it] && [it][1..] == [];
    } else {
      EncodeSnoc(E, iv, Next(seqNo), flight[1..], it);
      assert (flight + [it])[1..] == flight[1..] + [it];
    }
  }

  // The application bytes of the records in flight.
  function Plain(flight: seq<Item>): Bytes {
    if flight == [] then [] else (if flight[0].ty == CT_APP then flight[0].pt else []) + Plain(flight[1..])
  }

  lemma {:induction false} PlainSnoc(flight: seq<Item>, it: Item)
    ensures Plain(flight + [it]) == Plain(flight) + (if it.ty == CT_APP then it.pt else [])
  {
    if flight == [] {
      assert flight + [it] == [it] && [it][1..] == [];
    } else {
      PlainSnoc(flight[1..], it);
      assert (flight + [it])[1..] == flight[1..] + [it];
    }
  }

  // One direction: the writer, the reader and the bytes between them.
  datatype Stream = Stream(a: Tls, b: Tls, data: Bytes)

  // What that direction carries: the records in flight, whether the writer
  // has sent close_notify, and whether the reader has read it.
  datatype Flow = Flow(flight: seq<Item>, done: bool, eof: bool)

  const CLOSE_NOTIFY: Item := Item(CT_ALERT, [1, 0])

  ghost predicate GoodItem(it: Item) {
    it == CLOSE_NOTIFY || (it.ty == CT_APP && |it.pt| <= MAX_PLAIN)
  }

  // Application records, and behind them at most one close_notify, which is
  // there or already read exactly when the writer has sent it.
  ghost predicate GoodFlow(f: Flow) {
    && (f.eof ==> f.done && f.flight == [])
    && (forall i :: 0 <= i < |f.flight| ==> GoodItem(f.flight[i]))
    && (forall i :: 0 <= i < |f.flight| ==> (f.flight[i] == CLOSE_NOTIFY <==> f.done && i == |f.flight| - 1))
    && (f.done && !f.eof ==> f.flight != [])
  }

  ghost predicate Linked(cipher: Cipher, s: Stream, f: Flow) {
    && s.a.stage == Established && s.a.writeEnc && s.b.stage == Established
    && s.a.WriteKey() == s.b.ReadKey() && s.a.WriteIv() == s.b.ReadIv()
    && s.data == Encode(cipher(s.b.ReadKey()), s.b.ReadIv(), s.b.seqR, f.flight)
    && s.a.seqW == Advance(s.b.seqR, |f.flight|)
    && s.b.inOff <= |s.b.inbuf| && (s.b.inOff == |s.b.inbuf| ==> s.b.inbuf == [])
    && GoodFlow(f)
  }

  function Pending(b: Tls): Bytes {
    if b.inOff <= |b.inbuf| then b.inbuf[b.inOff..] else []
  }

  // Written and not yet read.
  function Owed(b: Tls, f: Flow): Bytes {
    Pending(b) + Plain(f.flight)
  }

  // --- one send ---

  function Extended(f: Flow, it: Item): Flow {
    f.(flight := f.flight + [it], done := it == CLOSE_NOTIFY)
  }

  lemma SendKeeps(cipher: Cipher, s: Stream, f: Flow, it: Item)
    requires Linked(cipher, s, f) && !f.done && GoodItem(it)
    ensures var r := SendSpec(cipher, s.a, it.ty, it.pt);
            Linked(cipher, Stream(r.0, s.b, s.data + r.1), Extended(f, it))
    ensures Owed(s.b, Extended(f, it)) == Owed(s.b, f) + (if it.ty == CT_APP then it.pt else [])
  {
    hide Record, Protect, Plain;
    EncodeSnoc(cipher(s.b.ReadKey()), s.b.ReadIv(), s.b.seqR, f.flight, it);
    PlainSnoc(f.flight, it);
  }

  lemma {:induction false} WriteKeeps(cipher: Cipher, s: Stream, f: Flow, buf: Bytes) returns (f': Flow)
    requires Linked(cipher, s, f) && !f.done
    ensures var r := WriteSpec(cipher, s.a, buf);
            Linked(cipher, Stream(r.0, s.b, s.data + r.1), f')
    ensures f'.done == f.done && f'.eof == f.eof
    ensures Owed(s.b, f') == Owed(s.b, f) + buf
    decreases |buf|
  {
    hide SendSpec, Linked, Owed;
    if buf == [] {
      assert s.data + [] == s.data;
      f' := f;
    } else {
      var chunk := if |buf| > MAX_PLAIN then MAX_PLAIN else |buf|;
      var it := Item(CT_APP, buf[..chunk]);
      var first := SendSpec(cipher, s.a, CT_APP, buf[..chunk]);
      SendKeeps(cipher, s, f, it);
      f' := WriteKeeps(cipher, Stream(first.0, s.b, s.data + first.1), Extended(f, it), buf[chunk..]);
      assert buf == buf[..chunk] + buf[chunk..];
      WriteStep(cipher, s.a, s.data, buf);
    }
  }

  // A write moves only the write counter.
  lemma {:induction false} WriteFrame(cipher: Cipher, v: Tls, buf: Bytes)
    ensures WriteSpec(cipher, v, buf).0 == v.(seqW := WriteSpec(cipher, v, buf).0.seqW)
    decreases |buf|
  {
    if buf != [] {
      var chunk := if |buf| > MAX_PLAIN then MAX_PLAIN else |buf|;
      WriteFrame(cipher, v.Sent(), buf[chunk..]);
    }
  }

  // --- one read ---

  // The next record opens under the counter it was sealed under.
  lemma NextRecord(cipher: Cipher, s: Stream, f: Flow)
    requires Linked(cipher, s, f) && f.flight != [] && s.b.inbuf == []
    ensures var it := f.flight[0];
            var rest := Encode(cipher(s.b.ReadKey()), s.b.ReadIv(), Next(s.b.seqR), f.flight[1..]);
            var r := ReadRecordSpec(s.data, MAX_RECORD_RX + 8);
            && r.ok && r.ty == it.ty && r.rest == rest
            && DecryptSpec(cipher, s.b, it.ty, r.payload) == Some(s.b.(inbuf := it.pt).Received())
  {
    hide Record, Protect, Unprotect, ReadRecordSpec;
    var it, E, iv := f.flight[0], cipher(s.b.ReadKey()), s.b.ReadIv();
    var rest := Encode(E, iv, Next(s.b.seqR), f.flight[1..]);
    var p := Protect(E, iv, s.b.seqR, it.ty, it.pt);
    ReadBack(it.ty, p, rest, MAX_RECORD_RX + 8);
    UnprotectProtect(E, iv, s.b.seqR, it.ty, it.pt);
    assert s.b.inbuf + it.pt == it.pt;
  }

  // The reader's state after one record: its bytes buffered, or closed.
  function TakenIn(b: Tls, it: Item): Tls {
    if it.ty == CT_APP then b.(inbuf := it.pt).Received() else b.(closed := true).Received()
  }

  lemma ReadNext(cipher: Cipher, s: Stream, f: Flow, len: nat)
    requires Linked(cipher, s, f) && f.flight != [] && s.b.inbuf == [] && !s.b.closed
    ensures var b' := TakenIn(s.b, f.flight[0]);
            var rest := Encode(cipher(b'.ReadKey()), b'.ReadIv(), b'.seqR, f.flight[1..]);
            ReadSpec(cipher, s.b, s.data, len) == ReadSpec(cipher, b', rest, len)
  {
    hide Encode, ReadRecordSpec, DecryptSpec, Advance, ReadSpec;
    NextRecord(cipher, s, f);
    if f.flight[0].ty == CT_APP {
      ReadApp(cipher, s.b, s.data, len);
    } else {
      assert f.flight[0] == CLOSE_NOTIFY;
      ReadClose(cipher, s.b, s.data, len);
    }
  }

  ghost predicate Waiting(v: Tls) {
    v.stage == Established && v.inbuf == [] && v.inOff == 0 && !v.closed
  }

  lemma ReadApp(cipher: Cipher, v: Tls, data: Bytes, len: nat)
    requires Waiting(v)
    requires var r := ReadRecordSpec(data, MAX_RECORD_RX + 8);
             r.ok && r.ty == CT_APP && DecryptSpec(cipher, v, r.ty, r.payload).Some?
    ensures var r := ReadRecordSpec(data, MAX_RECORD_RX + 8);
            var d := DecryptSpec(cipher, v, r.ty, r.payload);
            ReadSpec(cipher, v, data, len) == ReadSpec(cipher, d.value, r.rest, len)
  {
    hide ReadRecordSpec, DecryptSpec;
  }

  lemma ReadClose(cipher: Cipher, v: Tls, data: Bytes, len: nat)
    requires Waiting(v)
    requires var r := ReadRecordSpec(data, MAX_RECORD_RX + 8);
             && r.ok && r.ty == CT_ALERT
             && DecryptSpec(cipher, v, r.ty, r.payload) == Some(v.(inbuf := CLOSE_NOTIFY.pt).Received())
    ensures var r := ReadRecordSpec(data, MAX_RECORD_RX + 8);
            ReadSpec(cipher, v, data, len) == ReadSpec(cipher, v.(closed := true).Received(), r.rest, len)
  {
    hide ReadRecordSpec, DecryptSpec;
    var d := v.(inbuf := CLOSE_NOTIFY.pt).Received();
    assert AlertSpec(d) == Continue(v.(closed := true).Received());
  }

  function Taken(f: Flow): Flow
    requires f.flight != []
  {
    f.(flight := f.flight[1..], eof := f.flight[0] == CLOSE_NOTIFY)
  }

  lemma AfterRecord(cipher: Cipher, s: Stream, f: Flow, b': Tls)
    requires Linked(cipher, s, f) && f.flight != [] && s.b.inbuf == []
    requires b' == TakenIn(s.b, f.flight[0])
    ensures var rest := Encode(cipher(b'.ReadKey()), b'.ReadIv(), b'.seqR, f.flight[1..]);
            Linked(cipher, Stream(s.a, b', rest), Taken(f))
    ensures Owed(b', Taken(f)) == Owed(s.b, f)
    ensures !s.b.closed ==> b'.closed == Taken(f).eof
  {
    hide Encode;
    assert |f.flight[1..]| == |f.flight| - 1;
  }

  // The result of a read, given what was owed before it.
  ghost predicate GoodRead(r: ReadResult, len: nat, owed: Bytes, done: bool) {
    && |r.out| <= len
    && (len > 0 && owed != [] ==> r.out != [] && r.rc == |r.out|)
    && (len > 0 && owed == [] ==> r.rc == if done then 0 else -1)
  }

  // A read delivers the oldest undelivered bytes and keeps the link. Given
  // room it comes back empty-handed only when nothing is owed, and then says
  // end of stream exactly when the writer has closed.
  lemma {:induction false} ReadKeeps(cipher: Cipher, s: Stream, f: Flow, len: nat) returns (f': Flow)
    requires Linked(cipher, s, f) && s.b.closed == f.eof
    ensures var r := ReadSpec(cipher, s.b, s.data, len);
            && Linked(cipher, Stream(s.a, r.v, r.data), f') && r.v.closed == f'.eof
            && Owed(s.b, f) == r.out + Owed(r.v, f')
            && GoodRead(r, len, Owed(s.b, f), f.done)
    ensures f'.done == f.done
    decreases |f.flight|
  {
    hide ReadSpec, Linked, Plain, TakenIn, Owed, GoodRead;
    if s.b.inbuf != [] {
      f' := f;
      TakeKeeps(cipher, s, f, len);
    } else if f.flight == [] {
      f' := f;
      NothingToRead(cipher, s, f, len);
    } else {
      LinkedFlow(cipher, s, f);
      var b' := TakenIn(s.b, f.flight[0]);
      var rest := Encode(cipher(b'.ReadKey()), b'.ReadIv(), b'.seqR, f.flight[1..]);
      ReadNext(cipher, s, f, len);
      AfterRecord(cipher, s, f, b');
      f' := ReadKeeps(cipher, Stream(s.a, b', rest), Taken(f), len);
    }
  }

  lemma LinkedFlow(cipher: Cipher, s: Stream, f: Flow)
    requires Linked(cipher, s, f) && f.flight != []
    ensures !f.eof
  {}

  lemma TakeKeeps(cipher: Cipher, s: Stream, f: Flow, len: nat)
    requires Linked(cipher, s, f) && s.b.inbuf != []
    ensures var r := ReadSpec(cipher, s.b, s.data, len);
            && Linked(cipher, Stream(s.a, r.v, r.data), f) && r.v.closed == s.b.closed
            && Owed(s.b, f) == r.out + Owed(r.v, f)
            && GoodRead(r, len, Owed(s.b, f), f.done)
  {
    hide Encode, Plain, Advance, GoodFlow, TakeBuffered;
    TakeFacts(s.b, len, s.data);
    var r := ReadSpec(cipher, s.b, s.data, len);
    assert (r.out + Pending(r.v)) + Plain(f.flight) == r.out + (Pending(r.v) + Plain(f.flight));
  }

  lemma TakeFacts(b: Tls, len: nat, data: Bytes)
    requires b.inOff < |b.inbuf|
    ensures var r := TakeBuffered(b, len, data);
            && r.v == b.(inbuf := r.v.inbuf, inOff := r.v.inOff) && r.data == data
            && r.v.inOff <= |r.v.inbuf| && (r.v.inOff == |r.v.inbuf| ==> r.v.inbuf == [])
            && Pending(b) == r.out + Pending(r.v) && Pending(b) != []
            && r.rc == |r.out| <= len && (len > 0 ==> r.out != [])
  {
    var n := if |b.inbuf| - b.inOff > len then len else |b.inbuf| - b.inOff;
    assert b.inbuf[b.inOff..] == b.inbuf[b.inOff..b.inOff + n] + b.inbuf[b.inOff + n..];
  }

  lemma NothingToRead(cipher: Cipher, s: Stream, f: Flow, len: nat)
    requires Linked(cipher, s, f) && f.flight == [] && s.b.inbuf == [] && s.b.closed == f.eof
    ensures var r := ReadSpec(cipher, s.b, s.data, len);
            && Linked(cipher, Stream(s.a, r.v, r.data), f) && r.out == [] && r.v == s.b
            && GoodRead(r, len, [], f.done)
    ensures Owed(s.b, f) == []
  {}

  // Only the reader's side of the connection differs.
  ghost predicate ReadSide(v: Tls, v': Tls) {
    v' == v.(seqR := v'.seqR, inbuf := v'.inbuf, inOff := v'.inOff, closed := v'.closed)
  }

  // A read moves only the reader's side.
  lemma {:induction false} ReadFrame(cipher: Cipher, v: Tls, data: Bytes, len: nat)
    ensures ReadSide(v, ReadSpec(cipher, v, data, len).v)
    decreases |data|
  {
    hide ReadRecordSpec, DecryptSpec, AlertSpec, TakeBuffered, ReadSide;
    var r := ReadRecordSpec(data, MAX_RECORD_RX + 8);
    var d := DecryptSpec(cipher, v, r.ty, r.payload);
    SideOf(v, v, v);
    RecordShorter(data);
    if v.inOff < |v.inbuf| {
      TakeSide(v, len, data);
    } else if v.stage == Established && !v.closed && r.ok && d.Some? {
      DecryptSide(cipher, v, r.ty, r.payload);
      AlertSide(d.value);
      if r.ty == CT_APP {
        ReadFrame(cipher, d.value, r.rest, len);
        SideOf(v, d.value, ReadSpec(cipher, v, data, len).v);
      } else if r.ty == CT_ALERT {
        var w := AlertSpec(d.value).v;
        SideOf(v, d.value, w);
        if AlertSpec(d.value).Continue? {
          ReadFrame(cipher, w, r.rest, len);
          SideOf(v, w, ReadSpec(cipher, v, data, len).v);
        }
      }
    }
  }

  lemma SideOf(u: Tls, v: Tls, w: Tls)
    ensures ReadSide(u, u)
    ensures ReadSide(u, v) && ReadSide(v, w) ==> ReadSide(u, w)
  {}

  lemma TakeSide(v: Tls, len: nat, data: Bytes)
    requires v.inOff < |v.inbuf|
    ensures ReadSide(v, TakeBuffered(v, len, data).v)
  {}

  lemma DecryptSide(cipher: Cipher, v: Tls, ty: bv8, rec: Bytes)
    requires DecryptSpec(cipher, v, ty, rec).Some?
    ensures ReadSide(v, DecryptSpec(cipher, v, ty, rec).value)
  {
    hide Unprotect;
  }

  lemma AlertSide(v: Tls)
    ensures ReadSide(v, AlertSpec(v).v)
  {}

  lemma RecordShorter(data: Bytes)
    ensures var r := ReadRecordSpec(data, MAX_RECORD_RX + 8); r.ok ==> |r.rest| < |data|
  {}

  // --- two ends ---

  // tls_close frees the connection: an end that is not live makes no calls.
  datatype End = End(v: Tls, live: bool)

  datatype Pair = Pair(a: End, b: End, ab: Bytes, ba: Bytes) {
    function Flip(): Pair { Pair(b, a, ba, ab) }
    function Up(): Stream { Stream(a.v, b.v, ab) }
    function Down(): Stream { Stream(b.v, a.v, ba) }
  }

  datatype Call = Write(buf: Bytes) | Close | Read(len: nat)

  datatype Op = Op(byA: bool, call: Call)

  // A call by end a. A received close_notify and the own close share one
  // flag: tls_write ignores it, tls_close sends nothing when it is set.
  function Act(cipher: Cipher, d: Pair, call: Call): Pair {
    if !d.a.live then d
    else
      match call
      case Write(buf) =>
        var r := WriteSpec(cipher, d.a.v, buf); d.(a := End(r.0, true), ab := d.ab + r.1)
      case Close =>
        var r := CloseSpec(cipher, d.a.v); d.(a := End(r.0, false), ab := d.ab + r.1)
      case Read(len) =>
        var r := ReadSpec(cipher, d.a.v, d.ba, len); d.(a := End(r.v, true), ba := r.data)
  }

  function Apply(cipher: Cipher, d: Pair, op: Op): Pair {
    if op.byA then Act(cipher, d, op.call) else Act(cipher, d.Flip(), op.call).Flip()
  }

  // What a call by end a writes, and what it reads.
  function Puts(d: Pair, call: Call): Bytes {
    if d.a.live && call.Write? then call.buf else []
  }

  function Gets(cipher: Cipher, d: Pair, call: Call): Bytes {
    if d.a.live && call.Read? then ReadSpec(cipher, d.a.v, d.ba, call.len).out else []
  }

  // up carries a's bytes to b, down b's to a.
  ghost predicate Joined(cipher: Cipher, d: Pair, up: Flow, down: Flow) {
    && Linked(cipher, d.Up(), up) && Linked(cipher, d.Down(), down)
    && (d.a.live ==> d.a.v.closed == down.eof && !up.done)
    && (d.b.live ==> d.b.v.closed == up.eof && !down.done)
    && (!d.a.live && d.b.live ==> up.done)
    && (!d.b.live && d.a.live ==> down.done)
  }

  // The other direction does not see a change of the fields it does not use.
  lemma UnseenByReader(cipher: Cipher, s: Stream, f: Flow, b': Tls)
    requires Linked(cipher, s, f) && b' == s.b.(seqW := b'.seqW, closed := b'.closed)
    ensures Linked(cipher, s.(b := b'), f) && Owed(b', f) == Owed(s.b, f)
  {
    hide Encode, Advance, Plain, GoodFlow;
  }

  lemma UnseenByWriter(cipher: Cipher, s: Stream, f: Flow, a': Tls)
    requires Linked(cipher, s, f)
    requires a' == s.a.(seqR := a'.seqR, inbuf := a'.inbuf, inOff := a'.inOff, closed := a'.closed)
    ensures Linked(cipher, s.(a := a'), f)
  {
    hide Encode, Advance, Plain, GoodFlow;
  }

  lemma ActWrites(cipher: Cipher, d: Pair, up: Flow, down: Flow, buf: Bytes) returns (up': Flow)
    requires Joined(cipher, d, up, down) && d.a.live
    ensures var d' := Act(cipher, d, Write(buf));
            Joined(cipher, d', up', down) && Owed(d'.b.v, up') == Owed(d.b.v, up) + buf
            && Owed(d'.a.v, down) == Owed(d.a.v, down)
  {
    hide Linked, WriteSpec, Owed;
    WriteFrame(cipher, d.a.v, buf);
    var a' := WriteSpec(cipher, d.a.v, buf).0;
    up' := WriteKeeps(cipher, d.Up(), up, buf);
    UnseenByReader(cipher, d.Down(), down, a');
  }

  lemma ActCloses(cipher: Cipher, d: Pair, up: Flow, down: Flow) returns (up': Flow)
    requires Joined(cipher, d, up, down) && d.a.live
    ensures var d' := Act(cipher, d, Close);
            Joined(cipher, d', up', down) && Owed(d'.b.v, up') == Owed(d.b.v, up)
            && Owed(d'.a.v, down) == Owed(d.a.v, down)
  {
    hide Linked, Owed, Record, Protect;
    EstablishedEnds(cipher, d.Up(), up);
    var r := CloseSpec(cipher, d.a.v);
    var sent := SendSpec(cipher, d.a.v, CLOSE_NOTIFY.ty, CLOSE_NOTIFY.pt);
    UnseenByReader(cipher, d.Down(), down, r.0);
    if d.a.v.closed {
      // The peer's close_notify was read, so the peer is gone.
      up' := up;
      EofMeansDone(cipher, d.Down(), down);
      assert d.ab + [] == d.ab;
    } else {
      SendKeeps(cipher, d.Up(), up, CLOSE_NOTIFY);
      up' := Extended(up, CLOSE_NOTIFY);
      UnseenByWriter(cipher, Stream(sent.0, d.b.v, d.ab + sent.1), up', r.0);
    }
  }

  lemma EstablishedEnds(cipher: Cipher, s: Stream, f: Flow)
    requires Linked(cipher, s, f)
    ensures s.a.stage == Established && s.b.stage == Established
  {}

  lemma EofMeansDone(cipher: Cipher, s: Stream, f: Flow)
    requires Linked(cipher, s, f) && f.eof
    ensures f.done
  {}

  lemma ActReads(cipher: Cipher, d: Pair, up: Flow, down: Flow, len: nat) returns (down': Flow)
    requires Joined(cipher, d, up, down) && d.a.live
    ensures var d' := Act(cipher, d, Read(len));
            Joined(cipher, d', up, down')
            && Owed(d.a.v, down) == Gets(cipher, d, Read(len)) + Owed(d'.a.v, down')
            && Owed(d'.b.v, up) == Owed(d.b.v, up)
  {
    hide Linked, ReadSpec, Owed, GoodRead;
    var r := ReadSpec(cipher, d.a.v, d.ba, len);
    ReadFrame(cipher, d.a.v, d.ba, len);
    down' := ReadKeeps(cipher, d.Down(), down, len);
    UnseenByWriter(cipher, d.Up(), up, r.v);
  }

  lemma ActKeeps(cipher: Cipher, d: Pair, up: Flow, down: Flow, call: Call) returns (up': Flow, down': Flow)
    requires Joined(cipher, d, up, down)
    ensures var d' := Act(cipher, d, call);
            && Joined(cipher, d', up', down')
            && Owed(d.b.v, up) + Puts(d, call) == Owed(d'.b.v, up')
            && Owed(d.a.v, down) == Gets(cipher, d, call) + Owed(d'.a.v, down')
  {
    hide Joined, Owed, WriteSpec, ReadSpec, CloseSpec;
    up', down' := up, down;
    if d.a.live {
      match call
      case Write(buf) => up' := ActWrites(cipher, d, up, down, buf);
      case Close => up' := ActCloses(cipher, d, up, down);
      case Read(len) => down' := ActReads(cipher, d, up, down, len);
    }
  }

  lemma FlipJoined(cipher: Cipher, d: Pair, up: Flow, down: Flow)
    requires Joined(cipher, d, up, down)
    ensures Joined(cipher, d.Flip(), down, up)
  {
    hide Linked;
  }

  // --- whole runs ---

  function Run(cipher: Cipher, d: Pair, ops: seq<Op>): Pair
    decreases |ops|
  {
    if ops == [] then d else Run(cipher, Apply(cipher, d, ops[0]), ops[1..])
  }

  // All that one end wrote in a run, and all that it read.
  function Written(cipher: Cipher, d: Pair, ops: seq<Op>, byA: bool): Bytes
    decreases |ops|
  {
    if ops == [] then []
    else
      (if ops[0].byA != byA then [] else Puts(if byA then d else d.Flip(), ops[0].call)) +
      Written(cipher, Apply(cipher, d, ops[0]), ops[1..], byA)
  }

  function Delivered(cipher: Cipher, d: Pair, ops: seq<Op>, toA: bool): Bytes
    decreases |ops|
  {
    if ops == [] then []
    else
      (if ops[0].byA != toA then [] else Gets(cipher, if toA then d else d.Flip(), ops[0].call)) +
      Delivered(cipher, Apply(cipher, d, ops[0]), ops[1..], toA)
  }

  // Over every run, both ways: what was read and what is still owed are
  // together what was owed before and what was written, in that order.
  lemma {:induction false} PairRun(cipher: Cipher, d: Pair, up: Flow, down: Flow, ops: seq<Op>)
    returns (up': Flow, down': Flow)
    requires Joined(cipher, d, up, down)
    ensures Joined(cipher, Run(cipher, d, ops), up', down')
    ensures Owed(d.b.v, up) + Written(cipher, d, ops, true)
            == Delivered(cipher, d, ops, false) + Owed(Run(cipher, d, ops).b.v, up')
    ensures Owed(d.a.v, down) + Written(cipher, d, ops, false)
            == Delivered(cipher, d, ops, true) + Owed(Run(cipher, d, ops).a.v, down')
    decreases |ops|
  {
    hide Joined, Owed, Act;
    if ops == [] {
      up', down' := up, down;
    } else {
      var op := ops[0];
      var d1 := Apply(cipher, d, op);
      var u1, n1;
      if op.byA {
        u1, n1 := ActKeeps(cipher, d, up, down, op.call);
      } else {
        FlipJoined(cipher, d, up, down);
        n1, u1 := ActKeeps(cipher, d.Flip(), down, up, op.call);
        FlipJoined(cipher, Act(cipher, d.Flip(), op.call), n1, u1);
      }
      up', down' := PairRun(cipher, d1, u1, n1, ops[1..]);
      var putA := if op.byA then Puts(d, op.call) else [];
      var getA := if op.byA then Gets(cipher, d, op.call) else [];
      var putB := if op.byA then [] else Puts(d.Flip(), op.call);
      var getB := if op.byA then [] else Gets(cipher, d.Flip(), op.call);
      Regroup(Owed(d.b.v, up), putA, Written(cipher, d1, ops[1..], true), getB, Owed(d1.b.v, u1),
              Delivered(cipher, d1, ops[1..], false), Owed(Run(cipher, d, ops).b.v, up'));
      Regroup(Owed(d.a.v, down), putB, Written(cipher, d1, ops[1..], false), getA, Owed(d1.a.v, n1),
              Delivered(cipher, d1, ops[1..], true), Owed(Run(cipher, d, ops).a.v, down'));
    }
  }

  lemma Regroup(x: Bytes, put: Bytes, w: Bytes, got: Bytes, y: Bytes, d: Bytes, z: Bytes)
    requires x + put == got + y && y + w == d + z
    ensures x + (put + w) == (got + d) + z
  {
    assert x + (put + w) == (x + put) + w;
    assert (got + y) + w == got + (y + w);
    assert got + (d + z) == (got + d) + z;
  }

  const IDLE: Flow := Flow([], false, false)

  // A read with room by a live end: 0 exactly when the peer has closed and
  // all it wrote has been read, -1 exactly when all of it has been read and
  // the peer is still there, and a count otherwise.
  ghost predicate TellsEnd(cipher: Cipher, me: End, data: Bytes, len: nat, all: bool, peerLive: bool) {
    me.live ==>
      var r := ReadSpec(cipher, me.v, data, len);
      && (r.rc == 0 <==> all && !peerLive) && (r.rc == -1 <==> all && peerLive)
      && (r.rc > 0 <==> !all) && (r.rc > 0 ==> r.rc == |r.out|)
  }

  // From two fresh ends: each side reads a prefix of what the other wrote,
  // and a later read tells the end of the stream.
  lemma PairStreams(cipher: Cipher, d: Pair, ops: seq<Op>, len: nat)
    requires Joined(cipher, d, IDLE, IDLE) && d.a.v.inbuf == [] && d.b.v.inbuf == [] && len > 0
    ensures Delivered(cipher, d, ops, false) <= Written(cipher, d, ops, true)
    ensures Delivered(cipher, d, ops, true) <= Written(cipher, d, ops, false)
    ensures var e := Run(cipher, d, ops);
            var allA := Delivered(cipher, d, ops, true) == Written(cipher, d, ops, false);
            var allB := Delivered(cipher, d, ops, false) == Written(cipher, d, ops, true);
            && TellsEnd(cipher, e.a, e.ba, len, allA, e.b.live)
            && TellsEnd(cipher, e.b, e.ab, len, allB, e.a.live)
  {
    hide Joined, ReadSpec, Owed, TellsEnd;
    var up, down := PairRun(cipher, d, IDLE, IDLE, ops);
    var e := Run(cipher, d, ops);
    NothingOwed(d.a.v);
    NothingOwed(d.b.v);
    Prefix(Written(cipher, d, ops, true), Delivered(cipher, d, ops, false), Owed(e.b.v, up));
    Prefix(Written(cipher, d, ops, false), Delivered(cipher, d, ops, true), Owed(e.a.v, down));
    EndTold(cipher, e, up, down, len);
    FlipJoined(cipher, e, up, down);
    EndTold(cipher, e.Flip(), down, up, len);
  }

  lemma EndTold(cipher: Cipher, e: Pair, up: Flow, down: Flow, len: nat)
    requires Joined(cipher, e, up, down) && len > 0
    ensures TellsEnd(cipher, e.a, e.ba, len, Owed(e.a.v, down) == [], e.b.live)
  {
    hide Joined, ReadSpec, Owed, GoodRead;
    if e.a.live {
      JoinedEnds(cipher, e, up, down);
      var f' := ReadKeeps(cipher, e.Down(), down, len);
      ReadMeans(ReadSpec(cipher, e.a.v, e.ba, len), len, Owed(e.a.v, down), down.done);
    }
  }

  lemma NothingOwed(b: Tls)
    requires b.inbuf == []
    ensures Owed(b, IDLE) == []
  {}

  lemma Prefix(w: Bytes, d: Bytes, owed: Bytes)
    requires [] + w == d + owed
    ensures d <= w && (d == w <==> owed == [])
  {
    assert [] + w == w;
    assert |w| == |d| + |owed|;
  }

  lemma JoinedEnds(cipher: Cipher, d: Pair, up: Flow, down: Flow)
    requires Joined(cipher, d, up, down) && d.a.live
    ensures Linked(cipher, d.Down(), down) && d.a.v.closed == down.eof && (down.done <==> !d.b.live)
  {
    hide Linked;
  }

  lemma ReadMeans(r: ReadResult, len: nat, owed: Bytes, done: bool)
    requires GoodRead(r, len, owed, done) && len > 0
    ensures r.rc == 0 <==> owed == [] && done
    ensures r.rc == -1 <==> owed == [] && !done
    ensures r.rc > 0 <==> owed != []
    ensures r.rc > 0 ==> r.rc == |r.out|
  {}
}
