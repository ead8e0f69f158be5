// The record layer of vlibc/src/tls/tls.c (section 6.2 of RFC 5246, section 3
// of RFC 5288) over a reliable FIFO byte stream.
module TlsRecord {
  import opened Gf128
  import opened Gcm
  import opened Wrappers

  const MAX_PLAIN: nat := 16384
  const EXPLICIT: nat := 8
  const MAX_RECORD_RX: nat := 16384 + 256 + 16
  const SEQ_MOD: nat := 0x1_0000_0000_0000_0000

  const CT_CCS: bv8 := 0x14
  const CT_ALERT: bv8 := 0x15
  const CT_HANDSHAKE: bv8 := 0x16
  const CT_APP: bv8 := 0x17

  // AES: a block permutation for every key.
  type Cipher = Bytes -> (Block -> Block)

  type Iv = s: Bytes | |s| == 4 witness [0, 0, 0, 0]

  datatype Stage = Init | AwaitShd | FlightDone | Established

  // struct tls_conn
  datatype Tls = Tls(
    isServer: bool,
    hs: Bytes, rx: Bytes,
    crandom: Bytes, srandom: Bytes, master: Bytes,
    ckey: Bytes, skey: Bytes, civ: Iv, siv: Iv,
    seqW: nat, seqR: nat,
    inbuf: Bytes, inOff: nat,
    peerMod: Bytes,
    stage: Stage, closed: bool, writeEnc: bool, readEnc: bool)
  {
    function WriteKey(): Bytes { if isServer then skey else ckey }
    function WriteIv(): Iv { if isServer then siv else civ }
    function ReadKey(): Bytes { if isServer then ckey else skey }
    function ReadIv(): Iv { if isServer then civ else siv }
    function Sent(): Tls { this.(seqW := (seqW + 1) % SEQ_MOD) }
    function Received(): Tls { this.(seqR := (seqR + 1) % SEQ_MOD) }
  }

  // --- the wire ---

  function Record(ty: bv8, payload: Bytes): (r: Bytes)
    ensures |r| == 5 + |payload|
  {
    [ty, 3, 3] + BytesBE(|payload|, 2) + payload
  }

  // AAD = seq || type || version || plaintext length
  function Aad(seqNo: nat, ty: bv8, ptlen: nat): Bytes {
    BytesBE(seqNo, 8) + [ty, 3, 3] + BytesBE(ptlen, 2)
  }

  function WireNonce(iv: Iv, explicit: Bytes): Nonce
    requires |explicit| == EXPLICIT
  {
    iv + explicit
  }

  // A protected fragment: the sequence number is the explicit nonce.
  function Protect(E: Block -> Block, iv: Iv, seqNo: nat, ty: bv8, pt: Bytes): (p: Bytes)
    ensures |p| == EXPLICIT + |pt| + TAG
  {
    BytesBE(seqNo, 8) + Seal(E, WireNonce(iv, BytesBE(seqNo, 8)), Aad(seqNo, ty, |pt|), pt)
  }

  // The nonce is taken from the wire, the sequence number from the counter.
  function Unprotect(E: Block -> Block, iv: Iv, seqNo: nat, ty: bv8, rec: Bytes): (p: Option<Bytes>)
    ensures p.Some? ==> |rec| == EXPLICIT + |p.value| + TAG
  {
    if |rec| < EXPLICIT + TAG then None
    else Open(E, WireNonce(iv, rec[..8]), Aad(seqNo, ty, |rec| - EXPLICIT - TAG), rec[8..])
  }

  lemma UnprotectProtect(E: Block -> Block, iv: Iv, seqNo: nat, ty: bv8, pt: Bytes)
    ensures Unprotect(E, iv, seqNo, ty, Protect(E, iv, seqNo, ty, pt)) == Some(pt)
  {
    hide Open, Seal, Aad, WireNonce, BytesBE;
    var explicit := BytesBE(seqNo, 8);
    var nonce, aad := WireNonce(iv, explicit), Aad(seqNo, ty, |pt|);
    var rec := Protect(E, iv, seqNo, ty, pt);
    assert rec[..8] == explicit && rec[8..] == Seal(E, nonce, aad, pt);
    OpenSeal(E, nonce, aad, pt);
  }

  // What tls_send_record puts behind the header.
  function Payload(cipher: Cipher, v: Tls, ty: bv8, pt: Bytes): Bytes {
    if v.writeEnc then Protect(cipher(v.WriteKey()), v.WriteIv(), v.seqW, ty, pt) else pt
  }

  datatype RecordIn = RecordIn(ok: bool, ty: bv8, payload: Bytes, rest: Bytes)

  // One record off the stream: a header, then as many bytes as it says. What
  // a failed read has already taken is gone.
  function ReadRecordSpec(data: Bytes, cap: nat): (r: RecordIn)
    ensures r.ok ==> |r.rest| + 5 + |r.payload| == |data|
  {
    if |data| < 5 then RecordIn(false, 0, [], [])
    else
      var n := ValBE(data[3..5]);
      if data[1] != 3 || data[2] > 3 || n > cap then RecordIn(false, 0, [], data[5..])
      else if |data| - 5 < n then RecordIn(false, 0, [], [])
      else RecordIn(true, data[0], data[5..5 + n], data[5 + n..])
  }

  lemma ValOfTwo(v: int)
    requires 0 <= v < 0x1_0000
    ensures ValBE(BytesBE(v, 2)) == v
  {
    ValOfBytes(v, 2);
    assert Pow256(2) == 256 * Pow256(1) && Pow256(1) == 256 * Pow256(0);
  }

  lemma ReadBack(ty: bv8, payload: Bytes, rest: Bytes, cap: nat)
    requires |payload| <= cap && |payload| < 0x1_0000
    ensures ReadRecordSpec(Record(ty, payload) + rest, cap) == RecordIn(true, ty, payload, rest)
  {
    hide BytesBE, ValBE;
    ValOfTwo(|payload|);
    var data := Record(ty, payload) + rest;
    assert data[3..5] == BytesBE(|payload|, 2);
    assert data[5..5 + |payload|] == payload && data[5 + |payload|..] == rest;
  }

  // --- transport ---

  class Wire {
    var data: Bytes

    constructor ()
      ensures data == []
    {
      data := [];
    }
  }

  // send_all: the transport takes any positive part at a time.
  method SendAll(w: Wire, p: Bytes)
    modifies w
    ensures w.data == old(w.data) + p
  {
    var off := 0;
    while off < |p|
      invariant off <= |p|
      invariant w.data == old(w.data) + p[..off]
    {
      var r :| 0 < r <= |p| - off;
      w.data := w.data + p[off..off + r];
      off := off + r;
    }
  }

  // recv_all: any positive part at a time, an error when the stream is dry.
  method RecvAll(w: Wire, n: nat) returns (ok: bool, p: Bytes)
    modifies w
    ensures ok <==> n <= |old(w.data)|
    ensures ok ==> p == old(w.data)[..n] && w.data == old(w.data)[n..]
    ensures !ok ==> w.data == []
  {
    p := [];
    while |p| < n
      invariant |p| <= n && |p| <= |old(w.data)|
      invariant p == old(w.data)[..|p|] && w.data == old(w.data)[|p|..]
    {
      if w.data == [] {
        return false, p;
      }
      var r :| 0 < r <= n - |p| && r <= |w.data|;
      p, w.data := p + w.data[..r], w.data[r..];
    }
    ok := true;
  }

  method ReadRecord(w: Wire, cap: nat) returns (r: RecordIn)
    modifies w
    ensures r == ReadRecordSpec(old(w.data), cap) && w.data == r.rest
  {
    hide ValBE;
    var ok, hdr := RecvAll(w, 5);
    if !ok {
      return RecordIn(false, 0, [], []);
    }
    var n := ValBE(hdr[3..5]);
    assert hdr[3..5] == old(w.data)[3..5];
    if hdr[1] != 3 || hdr[2] > 3 || n > cap {
      return RecordIn(false, 0, [], w.data);
    }
    var body;
    ok, body := RecvAll(w, n);
    if !ok {
      return RecordIn(false, 0, [], []);
    }
    return RecordIn(true, hdr[0], body, w.data);
  }
}
