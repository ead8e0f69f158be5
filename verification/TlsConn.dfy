// struct tls_conn and the calls that move application data
// (vlibc/src/tls/tls.c).
module TlsConn {
  import opened Gf128
  import opened Gcm
  import opened Wrappers
  import opened TlsRecord

  // One record sent: the bytes on the wire and the new state.
  function SendSpec(cipher: Cipher, v: Tls, ty: bv8, pt: Bytes): (Tls, Bytes) {
    (v.Sent(), Record(ty, Payload(cipher, v, ty, pt)))
  }

  // tls_write: records of at most MAX_PLAIN bytes.
  function WriteSpec(cipher: Cipher, v: Tls, buf: Bytes): (r: (Tls, Bytes))
    decreases |buf|
  {
    if buf == [] then (v, [])
    else
      var chunk := if |buf| > MAX_PLAIN then MAX_PLAIN else |buf|;
      var first := SendSpec(cipher, v, CT_APP, buf[..chunk]);
      var rest := WriteSpec(cipher, first.0, buf[chunk..]);
      (rest.0, first.1 + rest.1)
  }

  // decrypt_record: the plaintext joins inbuf and the read counter advances.
  function DecryptSpec(cipher: Cipher, v: Tls, ty: bv8, rec: Bytes): Option<Tls> {
    var p := Unprotect(cipher(v.ReadKey()), v.ReadIv(), v.seqR, ty, rec);
    if p.Some? && |p.value| <= MAX_PLAIN then Some(v.(inbuf := v.inbuf + p.value).Received()) else None
  }

  datatype ReadResult = ReadResult(rc: int, out: Bytes, v: Tls, data: Bytes)

  // Up to len buffered bytes; an emptied buffer starts over.
  function TakeBuffered(v: Tls, len: nat, data: Bytes): ReadResult
    requires v.inOff < |v.inbuf|
  {
    var n := if |v.inbuf| - v.inOff > len then len else |v.inbuf| - v.inOff;
    var v' := if v.inOff + n == |v.inbuf| then v.(inbuf := [], inOff := 0) else v.(inOff := v.inOff + n);
    ReadResult(n, v.inbuf[v.inOff..v.inOff + n], v', data)
  }

  datatype AlertStep = Continue(v: Tls) | Stop(v: Tls)

  // The alert is the first two unread plaintext bytes.
  function AlertSpec(v: Tls): AlertStep {
    if v.inOff + 2 <= |v.inbuf| then
      var v1 := v.(inOff := v.inOff + 2);
      if v.inbuf[v.inOff + 1] == 0 then
        var v2 := v1.(closed := true);
        Continue(if v2.inOff == |v2.inbuf| then v2.(inbuf := [], inOff := 0) else v2)
      else Stop(v1)
    else Continue(v)
  }

  // tls_read: buffered bytes first, then records until some arrive.
  function ReadSpec(cipher: Cipher, v: Tls, data: Bytes, len: nat): (r: ReadResult)
    decreases |data|
  {
    if v.stage != Established then ReadResult(-1, [], v, data)
    else if v.inOff < |v.inbuf| then TakeBuffered(v, len, data)
    else if v.closed then ReadResult(0, [], v, data)
    else
      var r := ReadRecordSpec(data, MAX_RECORD_RX + 8);
      if !r.ok then ReadResult(-1, [], v, r.rest)
      else if r.ty != CT_APP && r.ty != CT_ALERT then ReadResult(-1, [], v, r.rest)
      else
        var d := DecryptSpec(cipher, v, r.ty, r.payload);
        if d == None then ReadResult(-1, [], v, r.rest)
        else if r.ty == CT_APP then ReadSpec(cipher, d.value, r.rest, len)
        else
          match AlertSpec(d.value)
          case Continue(v') => ReadSpec(cipher, v', r.rest, len)
          case Stop(v') => ReadResult(0, [], v', r.rest)
  }

  // tls_close: close_notify as an encrypted alert, unless one was received.
  function CloseSpec(cipher: Cipher, v: Tls): (Tls, Bytes) {
    if v.stage == Established && !v.closed then
      var r := SendSpec(cipher, v, CT_ALERT, [1, 0]);
      (r.0.(closed := true), r.1)
    else (v, [])
  }

  method ProtectFragment(E: Block -> Block, iv: Iv, seqNo: nat, ty: bv8, pt: Bytes) returns (p: Bytes)
    ensures p == Protect(E, iv, seqNo, ty, pt)
  {
    hide Seal, BytesBE, Aad, WireNonce;
    var explicit := BytesBE(seqNo, 8);
    var ct := new bv8[|pt| + TAG](_ => 0);
    TlsGcmSeal(E, WireNonce(iv, explicit), Aad(seqNo, ty, |pt|), pt, ct);
    assert ct[..] == ct[..|pt| + TAG];
    p := explicit + ct[..];
  }

  method UnprotectFragment(E: Block -> Block, iv: Iv, seqNo: nat, ty: bv8, rec: Bytes) returns (p: Option<Bytes>)
    requires |rec| >= EXPLICIT + TAG
    ensures p == Unprotect(E, iv, seqNo, ty, rec)
  {
    hide Open, Aad, Tag, WireNonce;
    var ptlen := |rec| - EXPLICIT - TAG;
    var pt := new bv8[ptlen](_ => 0);
    var tag := new bv8[16](_ => 0);
    var rc := TlsGcmOpen(E, WireNonce(iv, rec[..8]), Aad(seqNo, ty, ptlen), rec[8..], pt, tag);
    if rc != 0 {
      return None;
    }
    assert pt[..] == pt[..ptlen];
    return Some(pt[..]);
  }

  // tls_write, one record further.
  lemma WriteStep(cipher: Cipher, v: Tls, sent: Bytes, buf: Bytes)
    requires buf != []
    ensures var chunk := if |buf| > MAX_PLAIN then MAX_PLAIN else |buf|;
            var first := SendSpec(cipher, v, CT_APP, buf[..chunk]);
            var rest := WriteSpec(cipher, first.0, buf[chunk..]);
            WriteSpec(cipher, v, buf).0 == rest.0 && sent + WriteSpec(cipher, v, buf).1 == (sent + first.1) + rest.1
  {}

  lemma WriteNothing(cipher: Cipher, v: Tls)
    ensures WriteSpec(cipher, v, []) == (v, [])
  {}

  lemma SendKeepsOpen(cipher: Cipher, v: Tls)
    ensures SendSpec(cipher, v, CT_ALERT, [1, 0]).0 == v.(seqW := SendSpec(cipher, v, CT_ALERT, [1, 0]).0.seqW)
  {}

  class Conn {
    const cipher: Cipher
    const isServer: bool
    var hs: Bytes
    var rx: Bytes
    var crandom: Bytes
    var srandom: Bytes
    var master: Bytes
    var ckey: Bytes
    var skey: Bytes
    var civ: Iv
    var siv: Iv
    var seqW: nat
    var seqR: nat
    var inbuf: Bytes
    var inOff: nat
    var peerMod: Bytes
    var stage: Stage
    var closed: bool
    var writeEnc: bool
    var readEnc: bool

    ghost function View(): Tls
      reads this
    {
      Tls(isServer, hs, rx, crandom, srandom, master, ckey, skey, civ, siv, seqW, seqR,
          inbuf, inOff, peerMod, stage, closed, writeEnc, readEnc)
    }

    // A zeroed connection, as xcalloc leaves it.
    constructor (cipher: Cipher, isServer: bool)
      ensures View() == Tls(isServer, [], [], [], [], [], [], [], [0, 0, 0, 0], [0, 0, 0, 0], 0, 0,
                            [], 0, [], Init, false, false, false)
      ensures this.cipher == cipher
    {
      this.cipher, this.isServer := cipher, isServer;
      hs, rx, crandom, srandom, master, ckey, skey := [], [], [], [], [], [], [];
      civ, siv, seqW, seqR, inbuf, inOff, peerMod := [0, 0, 0, 0], [0, 0, 0, 0], 0, 0, [], 0, [];
      stage, closed, writeEnc, readEnc := Init, false, false, false;
    }

    // tls_send_record
    method SendRecord(w: Wire, ty: bv8, pt: Bytes) returns (rc: int)
      modifies this`seqW, w
      ensures rc == if |pt| > MAX_PLAIN then -1 else 0
      ensures rc == 0 ==> View() == SendSpec(cipher, old(View()), ty, pt).0
      ensures rc == 0 ==> w.data == old(w.data) + SendSpec(cipher, old(View()), ty, pt).1
      ensures rc != 0 ==> View() == old(View()) && w.data == old(w.data)
    {
      hide Protect, Record;
      if |pt| > MAX_PLAIN {
        return -1;
      }
      if writeEnc {
        var wkey := if isServer then skey else ckey;
        var wiv := if isServer then siv else civ;
        var frag := ProtectFragment(cipher(wkey), wiv, seqW, ty, pt);
        SendAll(w, Record(ty, frag));
      } else {
        SendAll(w, Record(ty, pt));
      }
      seqW := (seqW + 1) % SEQ_MOD;
      return 0;
    }

    method WriteChunk(w: Wire, buf: Bytes, p: nat) returns (p': nat)
      requires p < |buf|
      modifies this`seqW, w
      ensures p < p' <= |buf|
      ensures WriteSpec(cipher, View(), buf[p'..]).0 == WriteSpec(cipher, old(View()), buf[p..]).0
      ensures w.data + WriteSpec(cipher, View(), buf[p'..]).1
              == old(w.data) + WriteSpec(cipher, old(View()), buf[p..]).1
    {
      hide SendSpec, WriteSpec;
      var len := |buf| - p;
      var chunk := if len > MAX_PLAIN then MAX_PLAIN else len;
      WriteStep(cipher, View(), w.data, buf[p..]);
      assert buf[p..][..chunk] == buf[p..p + chunk] && buf[p..][chunk..] == buf[p + chunk..];
      var rc := SendRecord(w, CT_APP, buf[p..p + chunk]);
      p' := p + chunk;
    }

    // tls_write: all of it, or nothing on a connection that is not up.
    method TlsWrite(w: Wire, buf: Bytes) returns (n: nat)
      modifies this`seqW, w
      ensures stage != Established ==> n == 0 && View() == old(View()) && w.data == old(w.data)
      ensures stage == Established ==> n == |buf| && View() == WriteSpec(cipher, old(View()), buf).0
      ensures stage == Established ==> w.data == old(w.data) + WriteSpec(cipher, old(View()), buf).1
    {
      if stage != Established {
        return 0;
      }
      hide SendSpec, WriteSpec;
      var p := 0;
      ghost var all := WriteSpec(cipher, View(), buf);
      assert buf[0..] == buf;
      while p < |buf|
        invariant p <= |buf| && stage == old(stage)
        invariant WriteSpec(cipher, View(), buf[p..]).0 == all.0
        invariant w.data + WriteSpec(cipher, View(), buf[p..]).1 == old(w.data) + all.1
      {
        p := WriteChunk(w, buf, p);
      }
      assert buf[p..] == [];
      WriteNothing(cipher, View());
      return p;
    }

    // decrypt_record
    method DecryptRecord(ty: bv8, rec: Bytes) returns (rc: int)
      modifies this`seqR, this`inbuf
      ensures rc == 0 || rc == -1
      ensures rc == 0 <==> DecryptSpec(cipher, old(View()), ty, rec).Some?
      ensures rc == 0 ==> View() == DecryptSpec(cipher, old(View()), ty, rec).value
      ensures rc != 0 ==> View() == old(View())
    {
      hide Unprotect;
      if |rec| < EXPLICIT + TAG {
        return -1;
      }
      var ptlen := |rec| - EXPLICIT - TAG;
      if ptlen > MAX_PLAIN {
        return -1;
      }
      var rkey := if isServer then ckey else skey;
      var riv := if isServer then civ else siv;
      var p := UnprotectFragment(cipher(rkey), riv, seqR, ty, rec);
      if p == None {
        return -1;
      }
      seqR := (seqR + 1) % SEQ_MOD;
      inbuf := inbuf + p.value;
      return 0;
    }

    // tls_read
    method TlsRead(w: Wire, len: nat) returns (rc: int, out: Bytes)
      requires inOff <= |inbuf|
      modifies this`seqR, this`inbuf, this`inOff, this`closed, w
      ensures ReadResult(rc, out, View(), w.data) == ReadSpec(cipher, old(View()), old(w.data), len)
    {
      out := [];
      if stage != Established {
        return -1, [];
      }
      hide ReadRecordSpec, DecryptSpec;
      ghost var all := ReadSpec(cipher, View(), w.data, len);
      while true
        invariant stage == Established
        invariant ReadSpec(cipher, View(), w.data, len) == all
        decreases |w.data|
      {
        if inOff < |inbuf| {
          rc, out := ReadBuffered(len, w.data);
          return;
        }
        if closed {
          return 0, [];
        }
        ghost var before := w.data;
        var r := ReadRecord(w, MAX_RECORD_RX + 8);
        if !r.ok {
          return -1, [];
        }
        if r.ty != CT_APP && r.ty != CT_ALERT {
          return -1, [];
        }
        var d := DecryptRecord(r.ty, r.payload);
        if d != 0 {
          return -1, [];
        }
        if r.ty == CT_ALERT {
          var go := HandleAlert();
          if !go {
            return 0, [];
          }
        }
      }
    }

    // tls_close, up to the release of the connection
    method TlsClose(w: Wire)
      modifies this`seqW, this`closed, w
      ensures View() == CloseSpec(cipher, old(View())).0
      ensures w.data == old(w.data) + CloseSpec(cipher, old(View())).1
    {
      hide SendSpec;
      SendKeepsOpen(cipher, View());
      if stage == Established && !closed {
        var rc := SendRecord(w, CT_ALERT, [1, 0]);
        closed := true;
      }
    }

    method ReadBuffered(len: nat, ghost data: Bytes) returns (rc: int, out: Bytes)
      requires inOff < |inbuf|
      modifies this`inbuf, this`inOff
      ensures ReadResult(rc, out, View(), data) == TakeBuffered(old(View()), len, data)
    {
      var avail := |inbuf| - inOff;
      var n := if avail > len then len else avail;
      out := inbuf[inOff..inOff + n];
      inOff := inOff + n;
      if inOff == |inbuf| {
        inbuf, inOff := [], 0;
      }
      rc := n;
    }

    method HandleAlert() returns (go: bool)
      modifies this`inbuf, this`inOff, this`closed
      ensures go == AlertSpec(old(View())).Continue? && View() == AlertSpec(old(View())).v
    {
      if inOff + 2 <= |inbuf| {
        var desc := inbuf[inOff + 1];
        inOff := inOff + 2;
        if desc == 0 {
          closed := true;
          if inOff == |inbuf| {
            inbuf, inOff := [], 0;
          }
        } else {
          return false;
        }
      }
      return true;
    }
  }
}
