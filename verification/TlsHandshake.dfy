// tls_connect and tls_accept (vlibc/src/tls/tls.c) as two step machines over
// a pair of FIFO byte streams. A step reads one whole record and runs to the
// next read.
module TlsHandshake {
  import opened Gf128
  import opened Gcm
  import opened Wrappers
  import opened TlsRecord
  import opened TlsConn
  import opened TlsStream
  import opened TlsMessages
  import TlsRsa

  // Primitives the handshake is parametric in, and what each side brings.
  datatype Setup = Setup(
    cipher: Cipher, sha: Bytes -> Bytes, prf: (Bytes, Bytes) -> Bytes, x509: Bytes -> Option<Bytes>,
    host: Bytes, crandom: Bytes, secret: Bytes,
    srandom: Bytes, cert: Bytes, modulus: Bytes, priv: Bytes)

  // --- key schedule ---

  function Fit(b: Bytes, n: nat): (r: Bytes)
    ensures |r| == n
  {
    if |b| >= n then b[..n] else b + Zeros(n - |b|)
  }

  const MASTER_SECRET: Bytes := [109, 97, 115, 116, 101, 114, 32, 115, 101, 99, 114, 101, 116]
  const KEY_EXPANSION: Bytes := [107, 101, 121, 32, 101, 120, 112, 97, 110, 115, 105, 111, 110]
  const CLIENT_FINISHED: Bytes := [99, 108, 105, 101, 110, 116, 32, 102, 105, 110, 105, 115, 104, 101, 100]
  const SERVER_FINISHED: Bytes := [115, 101, 114, 118, 101, 114, 32, 102, 105, 110, 105, 115, 104, 101, 100]

  function DeriveKeys(h: Setup, v: Tls, pms: Bytes): Tls {
    var master := Fit(h.prf(pms, MASTER_SECRET + v.crandom + v.srandom), 48);
    var kb := Fit(h.prf(master, KEY_EXPANSION + v.srandom + v.crandom), 40);
    v.(master := master, ckey := kb[..16], skey := kb[16..32], civ := kb[32..36], siv := kb[36..40])
  }

  function VerifyData(h: Setup, v: Tls, name: Bytes): (d: Bytes)
    ensures |d| == 12
  {
    Fit(h.prf(v.master, name + h.sha(v.hs)), 12)
  }

  // --- shared pieces ---

  // hs_send: the message joins the transcript and goes out as one record.
  function HsSend(h: Setup, v: Tls, msg: Bytes): Option<(Tls, Bytes)> {
    if |msg| > MAX_PLAIN then None
    else Some(SendSpec(h.cipher, v.(hs := v.hs + msg), CT_HANDSHAKE, msg))
  }

  // ChangeCipherSpec, then Finished as record 0 of the new write epoch.
  function SendFinished(h: Setup, v: Tls, name: Bytes): (Tls, Bytes) {
    var fin := HsMsg(HS_FINISHED, VerifyData(h, v, name));
    var r := SendSpec(h.cipher, v.(seqW := 0, writeEnc := true, hs := v.hs + fin), CT_HANDSHAKE, fin);
    (r.0, Record(CT_CCS, [1]) + r.1)
  }

  const FINISHED_MAX: nat := 32

  // The Finished record deciphered. Its plaintext goes to pt[32]: a longer
  // one is outside this model.
  function FinishedPlain(h: Setup, v: Tls, rec: Bytes): Option<Bytes> {
    if |rec| < EXPLICIT + TAG || |rec| > EXPLICIT + FINISHED_MAX + TAG then None
    else Some(Gctr(h.cipher(v.ReadKey()), Inc32(J0(WireNonce(v.ReadIv(), rec[..8]))), rec[8..|rec| - TAG]))
  }

  // The tag output of these two calls is the record's own tag field.
  method OpenFinished(h: Setup, v: Tls, rec: Bytes) returns (p: Option<Bytes>)
    requires |rec| <= EXPLICIT + FINISHED_MAX + TAG
    ensures p == FinishedPlain(h, v, rec)
  {
    hide Gctr, Tag, Inc32, Aad, WireNonce;
    if |rec| < EXPLICIT + TAG {
      return None;
    }
    var ptlen := |rec| - EXPLICIT - TAG;
    var pt := new bv8[FINISHED_MAX](_ => 0);
    var field := new bv8[ptlen + TAG](i requires 0 <= i < ptlen + TAG => rec[8 + i]);
    assert field[..ptlen] == rec[8..|rec| - TAG];
    var nonce := WireNonce(v.ReadIv(), rec[..8]);
    var rc := TlsGcmOpenOver(h.cipher(v.ReadKey()), nonce, Aad(v.seqR, CT_HANDSHAKE, ptlen), field, pt);
    if rc != 0 {
      return None;
    }
    return Some(pt[..ptlen]);
  }

  // The peer's Finished: 16 bytes, the right type, the expected verify data.
  function CheckFinished(h: Setup, v: Tls, name: Bytes, rec: Bytes): Option<Bytes> {
    match FinishedPlain(h, v, rec)
    case None => None
    case Some(pt) =>
      if |pt| != 16 || pt[0] != HS_FINISHED || pt[4..] != VerifyData(h, v, name) then None else Some(pt)
  }

  function IsAlert(r: RecordIn): bool {
    r.ty == CT_ALERT && |r.payload| == 2
  }

  // --- the client ---

  datatype Phase = AwaitHello | AwaitFlight | AwaitKey | AwaitFinished | Done

  datatype Party = Party(phase: Phase, v: Tls)

  // A step's outcome: the new state and what it sends, or an abort.
  datatype Outcome = Abort | Go(p: Party, sent: Bytes)

  function Fresh(isServer: bool): Tls {
    Tls(isServer, [], [], [], [], [], [], [], [0, 0, 0, 0], [0, 0, 0, 0], 0, 0, [], 0, [], Init, false, false, false)
  }

  function ClientStart(h: Setup): Outcome {
    match BuildClientHello(h.crandom, h.host, 256)
    case None => Abort
    case Some(body) =>
      match HsSend(h, Fresh(false).(crandom := h.crandom), HsMsg(HS_CLIENT_HELLO, body))
      case None => Abort
      case Some(r) => Go(Party(AwaitFlight, r.0.(stage := AwaitShd)), r.1)
  }

  // A record of the server's first flight.
  ghost function ClientFlight(h: Setup, v: Tls, r: RecordIn): Outcome {
    var v1 := v.Received();
    if IsAlert(r) || r.ty != CT_HANDSHAKE then Abort
    else
      match Drain(h.x509, v1.(hs := v1.hs + r.payload), v1.rx + r.payload)
      case None => Abort
      case Some(v2) => if v2.stage == FlightDone then ClientKeys(h, v2) else Go(Party(AwaitFlight, v2), [])
  }

  // ServerHelloDone seen: ClientKeyExchange, ChangeCipherSpec, Finished.
  ghost function ClientKeys(h: Setup, v: Tls): Outcome {
    if |v.peerMod| != 256 then Abort
    else
      var pms := [3, 3] + h.secret;
      match TlsRsa.RsaEncrypt(v.peerMod, pms)
      case None => Abort
      case Some(enc) =>
        match HsSend(h, v, HsMsg(HS_CLIENT_KEY_EXCHANGE, [1, 0] + enc))
        case None => Abort
        case Some(k) =>
          var f := SendFinished(h, DeriveKeys(h, k.0, pms), CLIENT_FINISHED);
          Go(Party(AwaitFinished, f.0), k.1 + f.1)
  }

  function ClientFinish(h: Setup, v: Tls, r: RecordIn): Outcome {
    if r.ty == CT_CCS then
      if r.payload == [1] then Go(Party(AwaitFinished, v.(seqR := 0, readEnc := true)), []) else Abort
    else if (IsAlert(r) && !v.readEnc) || r.ty != CT_HANDSHAKE then Abort
    else if !v.readEnc then Go(Party(AwaitFinished, v.(hs := v.hs + r.payload)), [])
    else
      match CheckFinished(h, v, SERVER_FINISHED, r.payload)
      case None => Abort
      case Some(_) => Go(Party(Done, v.Received().(stage := Established)), [])
  }

  ghost function ClientStep(h: Setup, p: Party, r: RecordIn): Outcome {
    match p.phase
    case AwaitFlight => ClientFlight(h, p.v, r)
    case AwaitFinished => ClientFinish(h, p.v, r)
    case _ => Abort
  }

  // --- the server ---

  // recv_hs_msg: records until exactly one message is buffered.
  datatype Collected = Bad | More(v: Tls) | Whole(v: Tls)

  function Collect(v: Tls, r: RecordIn): Collected {
    var v1 := v.Received();
    if IsAlert(r) || r.ty != CT_HANDSHAKE then Bad
    else
      var v2 := v1.(rx := v1.rx + r.payload);
      if |v2.rx| < 4 || Be24(v2.rx[1..]) + 4 > |v2.rx| then More(v2)
      else if Be24(v2.rx[1..]) + 4 == |v2.rx| then Whole(v2)
      else Bad
  }

  function ServerHello(h: Setup, v: Tls, r: RecordIn): Outcome {
    match Collect(v, r)
    case Bad => Abort
    case More(v1) => Go(Party(AwaitHello, v1), [])
    case Whole(v1) =>
      if v1.rx[0] != HS_CLIENT_HELLO then Abort
      else
        match ParseClientHello(v1.rx[4..])
        case None => Abort
        case Some(hello) => ServerFlight(h, v1.(crandom := hello.crandom, hs := v1.hs + v1.rx, rx := []), hello.reneg)
  }

  // ServerHello, Certificate, ServerHelloDone.
  function ServerFlight(h: Setup, v: Tls, reneg: bool): Outcome {
    match HsSend(h, v, HsMsg(HS_SERVER_HELLO, ServerHelloBody(h.srandom, reneg)))
    case None => Abort
    case Some(a) =>
      match HsSend(h, a.0, HsMsg(HS_CERTIFICATE, CertificateBody(h.cert)))
      case None => Abort
      case Some(b) =>
        match HsSend(h, b.0, HsMsg(HS_SERVER_HELLO_DONE, []))
        case None => Abort
        case Some(c) => Go(Party(AwaitKey, c.0), a.1 + (b.1 + c.1))
  }

  ghost function ServerKey(h: Setup, v: Tls, r: RecordIn): Outcome {
    match Collect(v, r)
    case Bad => Abort
    case More(v1) => Go(Party(AwaitKey, v1), [])
    case Whole(v1) =>
      if v1.rx[0] != HS_CLIENT_KEY_EXCHANGE || |v1.rx| != 6 + |h.modulus| then Abort
      else
        match TlsRsa.RsaDecrypt(h.modulus, h.priv, v1.rx[6..])
        case None => Abort
        case Some(pms) =>
          if |pms| != 48 || pms[0] != 3 || pms[1] != 3 then Abort
          else Go(Party(AwaitFinished, DeriveKeys(h, v1.(hs := v1.hs + v1.rx), pms).(rx := [])), [])
  }

  function ServerFinish(h: Setup, v: Tls, r: RecordIn): Outcome {
    if r.ty == CT_CCS then
      if r.payload == [1] then Go(Party(AwaitFinished, v.(seqR := 0, readEnc := true)), []) else Abort
    else if r.ty != CT_HANDSHAKE || !v.readEnc then Abort
    else
      match CheckFinished(h, v, CLIENT_FINISHED, r.payload)
      case None => Abort
      case Some(pt) =>
        var f := SendFinished(h, v.Received().(hs := v.hs + pt), SERVER_FINISHED);
        Go(Party(Done, f.0.(stage := Established)), f.1)
  }

  ghost function ServerStep(h: Setup, p: Party, r: RecordIn): Outcome {
    match p.phase
    case AwaitHello => ServerHello(h, p.v, r)
    case AwaitKey => ServerKey(h, p.v, r)
    case AwaitFinished => ServerFinish(h, p.v, r)
    case _ => Abort
  }

  // --- the pair ---

  datatype Sys = Sys(client: Party, server: Party, c2s: Bytes, s2c: Bytes)

  // The buffers records are read into.
  function Cap(p: Phase): nat {
    if p == AwaitFinished then MAX_RECORD_RX + 64 else MAX_RECORD_RX
  }

  // One side takes the next whole record; an abort is no step.
  ghost predicate ClientMoves(h: Setup, s: Sys, s': Sys) {
    var r := ReadRecordSpec(s.s2c, Cap(s.client.phase));
    r.ok && s.client.phase != Done &&
    match ClientStep(h, s.client, r)
    case Abort => false
    case Go(p, sent) => s' == Sys(p, s.server, s.c2s + sent, r.rest)
  }

  ghost predicate ServerMoves(h: Setup, s: Sys, s': Sys) {
    var r := ReadRecordSpec(s.c2s, Cap(s.server.phase));
    r.ok && s.server.phase != Done &&
    match ServerStep(h, s.server, r)
    case Abort => false
    case Go(p, sent) => s' == Sys(s.client, p, r.rest, s.s2c + sent)
  }

  ghost predicate Step(h: Setup, s: Sys, s': Sys) {
    ClientMoves(h, s, s') || ServerMoves(h, s, s')
  }

  // --- an honest pair ---

  ghost predicate Honest(h: Setup) {
    && |h.crandom| == 32 && |h.srandom| == 32 && |h.secret| == 46
    && |h.host| <= 190
    && 16 <= |h.cert| && |h.cert| + 10 <= MAX_PLAIN
    && |h.modulus| == 256 && h.x509(h.cert) == Some(h.modulus)
    && TlsRsa.GoodKey(h.modulus, h.priv)
  }

  function Pms(h: Setup): Bytes { [3, 3] + h.secret }
  function Ch(h: Setup): Bytes { HsMsg(HS_CLIENT_HELLO, ClientHelloBody(h.crandom, h.host)) }
  function Sh(h: Setup): Bytes { HsMsg(HS_SERVER_HELLO, ServerHelloBody(h.srandom, false)) }
  function Crt(h: Setup): Bytes { HsMsg(HS_CERTIFICATE, CertificateBody(h.cert)) }
  function Shd(): Bytes { HsMsg(HS_SERVER_HELLO_DONE, []) }

  ghost function EncryptedPms(h: Setup): Bytes {
    match TlsRsa.RsaEncrypt(h.modulus, Pms(h))
    case None => []
    case Some(c) => c
  }

  ghost function Cke(h: Setup): Bytes { HsMsg(HS_CLIENT_KEY_EXCHANGE, [1, 0] + EncryptedPms(h)) }

  lemma KeyExchange(h: Setup)
    requires Honest(h)
    ensures TlsRsa.RsaEncrypt(h.modulus, Pms(h)) == Some(EncryptedPms(h)) && |EncryptedPms(h)| == 256
    ensures TlsRsa.RsaDecrypt(h.modulus, h.priv, EncryptedPms(h)) == Some(Pms(h))
  {
    hide TlsRsa.GoodKey, TlsRsa.RsaEncrypt, TlsRsa.RsaDecrypt;
    TlsRsa.RsaRoundTrip(h.modulus, h.priv, Pms(h));
  }

  // A whole message in one plain record is collected at once.
  lemma CollectOne(v: Tls, r: RecordIn, ty: bv8, body: Bytes)
    requires r.ty == CT_HANDSHAKE && r.payload == HsMsg(ty, body) && v.rx == [] && |body| < 0x100_0000
    ensures Collect(v, r) == Whole(v.Received().(rx := HsMsg(ty, body)))
    ensures HsMsg(ty, body)[0] == ty && HsMsg(ty, body)[4..] == body
  {
    hide HsMsg, Be24;
    MsgLayout(ty, body);
    assert v.rx + HsMsg(ty, body) == HsMsg(ty, body);
  }

  lemma MsgLayout(ty: bv8, body: Bytes)
    requires |body| < 0x100_0000
    ensures var p := HsMsg(ty, body);
            p[0] == ty && p[4..] == body && Be24(p[1..]) == |body|
  {
    hide BytesBE, Be24;
    assert HsMsg(ty, body)[1..] == BytesBE(|body|, 3) + body;
    ThreeBytes(|body|, body);
  }

  // The peer's Finished, sealed by SendFinished, passes the check when the
  // transcripts and keys agree.
  lemma FinishedPasses(h: Setup, w: Tls, v: Tls, name: Bytes)
    requires w.WriteKey() == v.ReadKey() && w.WriteIv() == v.ReadIv()
    requires w.master == v.master && w.hs == v.hs
    ensures var fin := HsMsg(HS_FINISHED, VerifyData(h, w, name));
            var rec := Protect(h.cipher(w.WriteKey()), w.WriteIv(), 0, CT_HANDSHAKE, fin);
            CheckFinished(h, v, name, rec) == Some(fin)
  {
    hide BytesBE, Gctr, Tag, Inc32, VerifyData;
    var fin := HsMsg(HS_FINISHED, VerifyData(h, w, name));
    var E, iv := h.cipher(w.WriteKey()), w.WriteIv();
    var rec := Protect(E, iv, 0, CT_HANDSHAKE, fin);
    var icb := Inc32(J0(WireNonce(iv, BytesBE(0, 8))));
    var c := Gctr(E, icb, fin);
    assert rec[..8] == BytesBE(0, 8) && rec[8..|rec| - TAG] == c;
    GctrTwice(E, icb, fin);
    assert fin[4..] == VerifyData(h, w, name);
    SameVerifyData(h, w, v, name);
  }

  lemma SameVerifyData(h: Setup, w: Tls, v: Tls, name: Bytes)
    requires w.master == v.master && w.hs == v.hs
    ensures VerifyData(h, w, name) == VerifyData(h, v, name)
  {}

  // --- the states of an honest run ---

  function Plainly(msg: Bytes): Bytes { Record(CT_HANDSHAKE, msg) }

  // The server's first flight on the wire.
  function FirstFlight(h: Setup): Bytes { Plainly(Sh(h)) + (Plainly(Crt(h)) + Plainly(Shd())) }

  function Flight(h: Setup): Bytes { Ch(h) + Sh(h) + Crt(h) + Shd() }

  function Client0(h: Setup): Tls { Fresh(false).(crandom := h.crandom, hs := Ch(h), seqW := 1, stage := AwaitShd) }
  function Client1(h: Setup): Tls { Client0(h).(srandom := h.srandom, hs := Ch(h) + Sh(h), seqR := 1) }
  function Client2(h: Setup): Tls { Client1(h).(peerMod := h.modulus, hs := Ch(h) + Sh(h) + Crt(h), seqR := 2) }
  function Client3(h: Setup): Tls { Client2(h).(hs := Flight(h), seqR := 3, stage := FlightDone) }

  // Keys derived; this is where the client's Finished is computed.
  ghost function ClientKeyed(h: Setup): Tls {
    DeriveKeys(h, Client3(h).(hs := Flight(h) + Cke(h), seqW := 2), Pms(h))
  }

  ghost function ClientFin(h: Setup): Bytes {
    HsMsg(HS_FINISHED, VerifyData(h, ClientKeyed(h), CLIENT_FINISHED))
  }

  ghost function Client4(h: Setup): Tls {
    ClientKeyed(h).(seqW := 1, writeEnc := true, hs := ClientKeyed(h).hs + ClientFin(h))
  }

  ghost function Client5(h: Setup): Tls {
    Client4(h).(seqR := 0, readEnc := true)
  }

  ghost function Client6(h: Setup): Tls {
    Client5(h).(seqR := 1, stage := Established)
  }

  function Server0(h: Setup): Tls { Fresh(true).(srandom := h.srandom) }
  function Server1(h: Setup): Tls { Server0(h).(crandom := h.crandom, hs := Flight(h), seqW := 3, seqR := 1) }

  ghost function Server2(h: Setup): Tls {
    DeriveKeys(h, Server1(h).(hs := Flight(h) + Cke(h), seqR := 2), Pms(h))
  }

  ghost function Server3(h: Setup): Tls {
    Server2(h).(seqR := 0, readEnc := true)
  }

  // The client's Finished checked and recorded; the server's is computed here.
  ghost function ServerChecked(h: Setup): Tls {
    Server3(h).(seqR := 1, hs := Server3(h).hs + ClientFin(h))
  }

  ghost function ServerFin(h: Setup): Bytes {
    HsMsg(HS_FINISHED, VerifyData(h, ServerChecked(h), SERVER_FINISHED))
  }

  ghost function Server4(h: Setup): Tls {
    ServerChecked(h).(seqW := 1, writeEnc := true, hs := ServerChecked(h).hs + ServerFin(h), stage := Established)
  }

  // Finished as a protected record of sequence number 0.
  ghost function FinPayload(h: Setup, v: Tls, fin: Bytes): Bytes {
    Protect(h.cipher(v.WriteKey()), v.WriteIv(), 0, CT_HANDSHAKE, fin)
  }

  ghost function FinRecord(h: Setup, v: Tls, fin: Bytes): Bytes {
    Record(CT_HANDSHAKE, FinPayload(h, v, fin))
  }

  ghost function At(h: Setup, k: nat): Sys {
    var ccs := Record(CT_CCS, [1]);
    var cf, sf := FinRecord(h, ClientKeyed(h), ClientFin(h)), FinRecord(h, ServerChecked(h), ServerFin(h));
    match k
    case 0 => Sys(Party(AwaitFlight, Client0(h)), Party(AwaitHello, Server0(h)), Plainly(Ch(h)), [])
    case 1 => Sys(Party(AwaitFlight, Client0(h)), Party(AwaitKey, Server1(h)), [], FirstFlight(h))
    case 2 => Sys(Party(AwaitFlight, Client1(h)), Party(AwaitKey, Server1(h)), [], Plainly(Crt(h)) + Plainly(Shd()))
    case 3 => Sys(Party(AwaitFlight, Client2(h)), Party(AwaitKey, Server1(h)), [], Plainly(Shd()))
    case 4 => Sys(Party(AwaitFinished, Client4(h)), Party(AwaitKey, Server1(h)), Plainly(Cke(h)) + (ccs + cf), [])
    case 5 => Sys(Party(AwaitFinished, Client4(h)), Party(AwaitFinished, Server2(h)), ccs + cf, [])
    case 6 => Sys(Party(AwaitFinished, Client4(h)), Party(AwaitFinished, Server3(h)), cf, [])
    case 7 => Sys(Party(AwaitFinished, Client4(h)), Party(Done, Server4(h)), [], ccs + sf)
    case 8 => Sys(Party(AwaitFinished, Client5(h)), Party(Done, Server4(h)), [], sf)
    case _ => Sys(Party(Done, Client6(h)), Party(Done, Server4(h)), [], [])
  }

  // --- one step at a time ---

  lemma OnlyServer(h: Setup, s: Sys, r: RecordIn, p: Party, sent: Bytes, s1: Sys)
    requires s.s2c == [] || s.client.phase == Done
    requires ReadRecordSpec(s.c2s, Cap(s.server.phase)) == r && r.ok && s.server.phase != Done
    requires ServerStep(h, s.server, r) == Go(p, sent) && s1 == Sys(s.client, p, r.rest, s.s2c + sent)
    ensures forall s' :: Step(h, s, s') <==> s' == s1
  {
    hide ServerStep, ClientStep;
  }

  lemma OnlyClient(h: Setup, s: Sys, r: RecordIn, p: Party, sent: Bytes, s1: Sys)
    requires s.c2s == [] || s.server.phase == Done
    requires ReadRecordSpec(s.s2c, Cap(s.client.phase)) == r && r.ok && s.client.phase != Done
    requires ClientStep(h, s.client, r) == Go(p, sent) && s1 == Sys(p, s.server, s.c2s + sent, r.rest)
    ensures forall s' :: Step(h, s, s') <==> s' == s1
  {
    hide ServerStep, ClientStep;
  }

  // The first record of a stream, for messages of this size.
  lemma First(ty: bv8, payload: Bytes, rest: Bytes, p: Phase)
    requires |payload| <= MAX_RECORD_RX
    ensures ReadRecordSpec(Record(ty, payload) + rest, Cap(p)) == RecordIn(true, ty, payload, rest)
    ensures rest == [] ==> Record(ty, payload) + rest == Record(ty, payload)
  {
    hide Record, ReadRecordSpec;
    ReadBack(ty, payload, rest, Cap(p));
  }

  lemma Started(h: Setup)
    requires Honest(h)
    ensures ClientStart(h) == Go(Party(AwaitFlight, Client0(h)), Plainly(Ch(h)))
  {
    hide BytesBE, ClientHelloBody, ParseClientHello, TlsRsa.GoodKey;
    HelloRoundTrip(h.crandom, h.host, 256);
  }

  lemma PlainSend(h: Setup, v: Tls, msg: Bytes)
    requires !v.writeEnc && |msg| <= MAX_PLAIN
    ensures HsSend(h, v, msg) == Some((v.(hs := v.hs + msg, seqW := (v.seqW + 1) % SEQ_MOD), Plainly(msg)))
  {
    hide Record, Protect;
  }

  lemma FinishedSend(h: Setup, v: Tls, name: Bytes)
    ensures var fin := HsMsg(HS_FINISHED, VerifyData(h, v, name));
            SendFinished(h, v, name)
            == (v.(seqW := 1, writeEnc := true, hs := v.hs + fin), Record(CT_CCS, [1]) + FinRecord(h, v, fin))
  {
    hide Record, Protect, VerifyData, HsMsg;
  }

  lemma ServerAnswers(h: Setup, rest: Bytes)
    requires Honest(h)
    ensures ServerStep(h, Party(AwaitHello, Server0(h)), RecordIn(true, CT_HANDSHAKE, Ch(h), rest))
         == Go(Party(AwaitKey, Server1(h)), FirstFlight(h))
  {
    hide Record, BytesBE, ClientHelloBody, ParseClientHello, TlsRsa.GoodKey, Collect, HsSend;
    HelloRoundTrip(h.crandom, h.host, 256);
    var r := RecordIn(true, CT_HANDSHAKE, Ch(h), rest);
    CollectOne(Server0(h), r, HS_CLIENT_HELLO, ClientHelloBody(h.crandom, h.host));
    var v := Server0(h).(seqR := 1, crandom := h.crandom, hs := Ch(h));
    assert Server0(h).hs + Ch(h) == Ch(h);
    ServerFlightSent(h, v);
  }

  lemma ServerFlightSent(h: Setup, v: Tls)
    requires Honest(h) && !v.writeEnc && v.seqW == 0
    ensures ServerFlight(h, v, false)
         == Go(Party(AwaitKey, v.(hs := v.hs + Sh(h) + Crt(h) + Shd(), seqW := 3)), FirstFlight(h))
  {
    hide Record, BytesBE, TlsRsa.GoodKey, HsSend;
    var v1 := v.(hs := v.hs + Sh(h), seqW := 1);
    var v2 := v1.(hs := v1.hs + Crt(h), seqW := 2);
    PlainSend(h, v, Sh(h));
    PlainSend(h, v1, Crt(h));
    PlainSend(h, v2, Shd());
  }

  lemma ClientTakesHello(h: Setup, rest: Bytes)
    requires Honest(h)
    ensures ClientStep(h, Party(AwaitFlight, Client0(h)), RecordIn(true, CT_HANDSHAKE, Sh(h), rest))
         == Go(Party(AwaitFlight, Client1(h)), [])
  {
    hide BytesBE, ServerHelloBody, ParseServerHello, ClientHelloBody, ParseCertificate, Drain, TlsRsa.GoodKey,
         ClientKeys;
    var v := Client0(h).Received().(hs := Ch(h) + Sh(h));
    assert v.rx + Sh(h) == Sh(h);
    ServerHelloShort(h);
    DrainOne(h.x509, v, HS_SERVER_HELLO, ServerHelloBody(h.srandom, false));
    ServerHelloRoundTrip(h.srandom, false);
  }

  lemma ServerHelloShort(h: Setup)
    requires Honest(h)
    ensures |ServerHelloBody(h.srandom, false)| == 38
  {}

  lemma ClientTakesCertificate(h: Setup, rest: Bytes)
    requires Honest(h)
    ensures ClientStep(h, Party(AwaitFlight, Client1(h)), RecordIn(true, CT_HANDSHAKE, Crt(h), rest))
         == Go(Party(AwaitFlight, Client2(h)), [])
  {
    hide BytesBE, CertificateBody, ParseServerHello, ClientHelloBody, ServerHelloBody, ParseCertificate, Drain,
         TlsRsa.GoodKey, ClientKeys;
    var v := Client1(h).Received().(hs := Ch(h) + Sh(h) + Crt(h));
    assert v.rx + Crt(h) == Crt(h);
    CertificateLength(h);
    DrainOne(h.x509, v, HS_CERTIFICATE, CertificateBody(h.cert));
    CertificateRoundTrip(h.x509, h.cert);
  }

  lemma CertificateLength(h: Setup)
    ensures |CertificateBody(h.cert)| == 6 + |h.cert|
  {}

  lemma ClientFinishesFlight(h: Setup, rest: Bytes)
    requires Honest(h)
    ensures ClientStep(h, Party(AwaitFlight, Client2(h)), RecordIn(true, CT_HANDSHAKE, Shd(), rest))
         == ClientKeys(h, Client3(h))
  {
    hide BytesBE, CertificateBody, ParseServerHello, ClientHelloBody, ServerHelloBody, ParseCertificate, Drain,
         TlsRsa.GoodKey, ClientKeys;
    var v := Client2(h).Received().(hs := Flight(h));
    assert v.rx + Shd() == Shd();
    DrainOne(h.x509, v, HS_SERVER_HELLO_DONE, []);
  }

  lemma ClientSendsKeys(h: Setup)
    requires Honest(h)
    ensures ClientKeys(h, Client3(h))
         == Go(Party(AwaitFinished, Client4(h)),
               Plainly(Cke(h)) + (Record(CT_CCS, [1]) + FinRecord(h, ClientKeyed(h), ClientFin(h))))
  {
    hide Record, TlsRsa.GoodKey, TlsRsa.RsaEncrypt, HsSend, SendFinished, DeriveKeys, VerifyData, Flight,
         EncryptedPms, BytesBE;
    KeyExchange(h);
    PlainSend(h, Client3(h), Cke(h));
    FinishedSend(h, ClientKeyed(h), CLIENT_FINISHED);
  }

  lemma ServerTakesKey(h: Setup, rest: Bytes)
    requires Honest(h)
    ensures ServerStep(h, Party(AwaitKey, Server1(h)), RecordIn(true, CT_HANDSHAKE, Cke(h), rest))
         == Go(Party(AwaitFinished, Server2(h)), [])
  {
    hide BytesBE, TlsRsa.GoodKey, TlsRsa.RsaEncrypt, TlsRsa.RsaDecrypt, Collect, Flight, Fit, EncryptedPms;
    KeyExchange(h);
    var enc := EncryptedPms(h);
    var r := RecordIn(true, CT_HANDSHAKE, Cke(h), rest);
    CollectOne(Server1(h), r, HS_CLIENT_KEY_EXCHANGE, [1, 0] + enc);
    assert Cke(h)[6..] == enc;
  }

  // Both sides derive the same secrets.
  lemma KeysAgree(h: Setup)
    requires Honest(h)
    ensures var c, s := ClientKeyed(h), Server2(h);
            && c.master == s.master && c.hs == s.hs && !c.isServer && s.isServer
            && c.ckey == s.ckey && c.skey == s.skey && c.civ == s.civ && c.siv == s.siv
  {
    hide Fit, Flight;
  }

  lemma ServerTakesFinished(h: Setup, rest: Bytes)
    requires Honest(h)
    ensures ServerStep(h, Party(AwaitFinished, Server3(h)),
                       RecordIn(true, CT_HANDSHAKE, FinPayload(h, ClientKeyed(h), ClientFin(h)), rest))
         == Go(Party(Done, Server4(h)), Record(CT_CCS, [1]) + FinRecord(h, ServerChecked(h), ServerFin(h)))
  {
    hide Record, Protect, CheckFinished, VerifyData, HsMsg, FinRecord, Honest, ClientKeyed, Server2, ServerFinish;
    KeysAgree(h);
    FinishedPasses(h, ClientKeyed(h), Server3(h), CLIENT_FINISHED);
    var rec := FinPayload(h, ClientKeyed(h), ClientFin(h));
    ServerFinishes(h, Server3(h), rec, ClientFin(h), rest);
  }

  lemma ServerFinishes(h: Setup, v: Tls, rec: Bytes, fin: Bytes, rest: Bytes)
    requires v.readEnc && v.seqR == 0 && CheckFinished(h, v, CLIENT_FINISHED, rec) == Some(fin)
    ensures var c := v.(seqR := 1, hs := v.hs + fin);
            var own := HsMsg(HS_FINISHED, VerifyData(h, c, SERVER_FINISHED));
            ServerFinish(h, v, RecordIn(true, CT_HANDSHAKE, rec, rest)) ==
              Go(Party(Done, c.(seqW := 1, writeEnc := true, hs := c.hs + own, stage := Established)),
                 Record(CT_CCS, [1]) + FinRecord(h, c, own))
  {
    hide Record, Protect, CheckFinished, VerifyData, HsMsg, FinRecord, SendFinished;
    FinishedSend(h, v.(seqR := 1, hs := v.hs + fin), SERVER_FINISHED);
  }

  lemma ClientFinishes(h: Setup, v: Tls, rec: Bytes, fin: Bytes, rest: Bytes)
    requires v.readEnc && v.seqR == 0 && CheckFinished(h, v, SERVER_FINISHED, rec) == Some(fin)
    ensures ClientFinish(h, v, RecordIn(true, CT_HANDSHAKE, rec, rest))
            == Go(Party(Done, v.(seqR := 1, stage := Established)), [])
  {
    hide CheckFinished;
  }

  lemma ClientTakesFinished(h: Setup, rest: Bytes)
    requires Honest(h)
    ensures ClientStep(h, Party(AwaitFinished, Client5(h)),
                       RecordIn(true, CT_HANDSHAKE, FinPayload(h, ServerChecked(h), ServerFin(h)), rest))
         == Go(Party(Done, Client6(h)), [])
  {
    hide Record, Protect, CheckFinished, VerifyData, HsMsg, Honest, ClientKeyed, Server2, ClientFinish;
    KeysAgree(h);
    FinishedPasses(h, ServerChecked(h), Client5(h), SERVER_FINISHED);
    var rec := FinPayload(h, ServerChecked(h), ServerFin(h));
    ClientFinishes(h, Client5(h), rec, ServerFin(h), rest);
  }

  // Sizes: every record of the run fits the receive buffers.
  lemma RunSizes(h: Setup)
    requires Honest(h)
    ensures |Ch(h)| <= MAX_PLAIN && |Sh(h)| <= MAX_PLAIN && |Crt(h)| <= MAX_PLAIN && |Shd()| <= MAX_PLAIN
    ensures |Cke(h)| <= MAX_PLAIN
    ensures |ClientFin(h)| == 16 && |ServerFin(h)| == 16
  {
    hide BytesBE, ClientHelloBody, ServerHelloBody, CertificateBody, EncryptedPms, TlsRsa.GoodKey, ParseClientHello,
         VerifyData;
    HelloRoundTrip(h.crandom, h.host, 256);
    ServerHelloShort(h);
    CertificateLength(h);
    KeyExchange(h);
  }

  // In every state of an honest run exactly one step is possible, to the next.
  lemma NextState(h: Setup, k: nat)
    requires Honest(h) && k < 9
    ensures forall s' :: Step(h, At(h, k), s') <==> s' == At(h, k + 1)
  {
    hide Step, ClientStep, ServerStep, Record, Protect, ReadRecordSpec, Honest, Ch, Sh, Crt, Shd, Cke, ClientFin,
         ServerFin,
         Client0, Client1, Client2, Client4, Client5, Client6, Server0, Server1, Server2, Server3, Server4,
         ClientKeyed, ServerChecked;
    RunSizes(h);
    var ccs := Record(CT_CCS, [1]);
    if k == 0 {
      First(CT_HANDSHAKE, Ch(h), [], AwaitHello);
      ServerAnswers(h, []);
      OnlyServer(h, At(h, 0), RecordIn(true, CT_HANDSHAKE, Ch(h), []), At(h, 1).server, At(h, 1).s2c, At(h, 1));
    } else if k == 1 {
      First(CT_HANDSHAKE, Sh(h), At(h, 2).s2c, AwaitFlight);
      ClientTakesHello(h, At(h, 2).s2c);
      OnlyClient(h, At(h, 1), RecordIn(true, CT_HANDSHAKE, Sh(h), At(h, 2).s2c), At(h, 2).client, [], At(h, 2));
    } else if k == 2 {
      First(CT_HANDSHAKE, Crt(h), At(h, 3).s2c, AwaitFlight);
      ClientTakesCertificate(h, At(h, 3).s2c);
      OnlyClient(h, At(h, 2), RecordIn(true, CT_HANDSHAKE, Crt(h), At(h, 3).s2c), At(h, 3).client, [], At(h, 3));
    } else if k == 3 {
      First(CT_HANDSHAKE, Shd(), [], AwaitFlight);
      ClientFinishesFlight(h, []);
      ClientSendsKeys(h);
      OnlyClient(h, At(h, 3), RecordIn(true, CT_HANDSHAKE, Shd(), []), At(h, 4).client, At(h, 4).c2s, At(h, 4));
    } else if k == 4 {
      First(CT_HANDSHAKE, Cke(h), At(h, 5).c2s, AwaitKey);
      ServerTakesKey(h, At(h, 5).c2s);
      OnlyServer(h, At(h, 4), RecordIn(true, CT_HANDSHAKE, Cke(h), At(h, 5).c2s), At(h, 5).server, [], At(h, 5));
    } else {
      LaterState(h, k);
    }
  }

  lemma LaterState(h: Setup, k: nat)
    requires Honest(h) && 5 <= k < 9
    ensures forall s' :: Step(h, At(h, k), s') <==> s' == At(h, k + 1)
  {
    hide Step, ClientStep, ServerStep, Record, Protect, ReadRecordSpec, Honest, Ch, Sh, Crt, Shd, Cke, ClientFin,
         ServerFin,
         Client0, Client1, Client2, Client4, Client5, Client6, Server0, Server1, Server2, Server3, Server4,
         ClientKeyed, ServerChecked;
    RunSizes(h);
    if k == 5 {
      First(CT_CCS, [1], At(h, 6).c2s, AwaitFinished);
      ServerSwitches(h, At(h, 6).c2s);
      OnlyServer(h, At(h, 5), RecordIn(true, CT_CCS, [1], At(h, 6).c2s), At(h, 6).server, [], At(h, 6));
    } else if k == 6 {
      var p := FinPayload(h, ClientKeyed(h), ClientFin(h));
      First(CT_HANDSHAKE, p, [], AwaitFinished);
      ServerTakesFinished(h, []);
      OnlyServer(h, At(h, 6), RecordIn(true, CT_HANDSHAKE, p, []), At(h, 7).server, At(h, 7).s2c, At(h, 7));
    } else if k == 7 {
      First(CT_CCS, [1], At(h, 8).s2c, AwaitFinished);
      ClientSwitches(h, At(h, 8).s2c);
      OnlyClient(h, At(h, 7), RecordIn(true, CT_CCS, [1], At(h, 8).s2c), At(h, 8).client, [], At(h, 8));
    } else {
      var p := FinPayload(h, ServerChecked(h), ServerFin(h));
      First(CT_HANDSHAKE, p, [], AwaitFinished);
      ClientTakesFinished(h, []);
      OnlyClient(h, At(h, 8), RecordIn(true, CT_HANDSHAKE, p, []), At(h, 9).client, [], At(h, 9));
    }
  }

  lemma ServerSwitches(h: Setup, rest: Bytes)
    ensures ServerStep(h, Party(AwaitFinished, Server2(h)), RecordIn(true, CT_CCS, [1], rest))
            == Go(Party(AwaitFinished, Server3(h)), [])
  {
    hide Server2, CheckFinished, SendFinished, ServerHello, ServerKey;
  }

  lemma ClientSwitches(h: Setup, rest: Bytes)
    ensures ClientStep(h, Party(AwaitFinished, Client4(h)), RecordIn(true, CT_CCS, [1], rest))
            == Go(Party(AwaitFinished, Client5(h)), [])
  {
    hide Client4, CheckFinished, ClientFlight;
  }

  // --- the theorems ---

  // tls_accept's argument checks.
  predicate Acceptable(h: Setup) {
    16 <= |h.cert| && 128 <= |h.modulus| <= MAX_MODULUS
  }

  // Both calls made: the client's hello is on its way.
  ghost predicate Opened(h: Setup, s: Sys) {
    Acceptable(h) &&
    match ClientStart(h)
    case Abort => false
    case Go(p, sent) => s == Sys(p, Party(AwaitHello, Fresh(true).(srandom := h.srandom)), sent, [])
  }

  lemma OpenedIsFirst(h: Setup, s: Sys)
    requires Honest(h)
    ensures Opened(h, s) <==> s == At(h, 0)
  {
    hide ClientStart, Ch, Client0, Record;
    Started(h);
  }

  // A run: states linked by steps of either side, in any order they allow.
  ghost predicate IsRun(h: Setup, t: seq<Sys>) {
    && |t| > 0
    && Opened(h, t[0])
    && forall i {:trigger t[i]} :: 0 < i < |t| ==> Step(h, t[i - 1], t[i])
  }

  ghost predicate CanStep(h: Setup, s: Sys) {
    exists s' :: Step(h, s, s')
  }

  lemma NoStepAtEnd(h: Setup, s: Sys)
    requires s.client.phase == Done && s.server.phase == Done
    ensures forall s' :: !Step(h, s, s')
  {
    hide ClientStep, ServerStep, ReadRecordSpec;
  }

  // Every run passes through the same states: it never aborts, and where it
  // is not finished a step is possible.
  lemma {:induction false} RunStates(h: Setup, t: seq<Sys>)
    requires Honest(h) && IsRun(h, t)
    ensures |t| <= 10 && forall i :: 0 <= i < |t| ==> t[i] == At(h, i)
    ensures |t| < 10 ==> CanStep(h, t[|t| - 1])
    decreases |t|
  {
    hide Step, At, Honest, Opened;
    OpenedIsFirst(h, t[0]);
    if |t| > 1 {
      RunStates(h, t[..|t| - 1]);
      var k := |t| - 2;
      assert t[..|t| - 1][k] == t[k];
      assert Step(h, t[k], t[k + 1]);
      if k == 9 {
        EndState(h);
        NoStepAtEnd(h, At(h, 9));
      } else {
        NextState(h, k);
      }
    }
    if |t| < 10 {
      NextState(h, |t| - 1);
      assert Step(h, At(h, |t| - 1), At(h, |t|));
    }
  }

  lemma EndState(h: Setup)
    ensures At(h, 9) == Sys(Party(Done, Client6(h)), Party(Done, Server4(h)), [], [])
    ensures At(h, 6).server.v == Server3(h) && At(h, 8).client.v == Client5(h)
  {
    hide Client0, Client1, Client2, Client4, Client5, Client6, Server0, Server1, Server2, Server3, Server4,
         ClientKeyed, ServerChecked,
         Record, Protect, Ch, Sh, Crt, Shd, Cke, ClientFin, ServerFin, FinRecord, Plainly;
  }

  // A finished run: both sides established, with equal secrets, matching
  // counters, and each Finished checked over the transcript it was made from.
  lemma Agreement(h: Setup, t: seq<Sys>)
    requires Honest(h) && IsRun(h, t) && |t| == 10
    ensures var c, s := t[9].client.v, t[9].server.v;
            && c.stage == Established && s.stage == Established
            && c.master == s.master
            && c.ckey == s.ckey && c.skey == s.skey && c.civ == s.civ && c.siv == s.siv
            && c.seqW == s.seqR && c.seqR == s.seqW
            && t[9].c2s == [] && t[9].s2c == []
    ensures t[6].server.v.hs == ClientKeyed(h).hs && t[8].client.v.hs == ServerChecked(h).hs
    ensures Joined(h.cipher, Connected(t[9]), IDLE, IDLE)
  {
    hide Honest, ClientFin, ServerFin, ClientKeyed, Server2, Record, Protect, At, IsRun;
    RunStates(h, t);
    KeysAgree(h);
    KeyedFresh(h);
    EndState(h);
  }

  // The two connections the calls return.
  function Connected(s: Sys): Pair {
    Pair(End(s.client.v, true), End(s.server.v, true), s.c2s, s.s2c)
  }

  lemma KeyedFresh(h: Setup)
    ensures var c, s := ClientKeyed(h), Server2(h);
            !c.closed && !s.closed && c.inbuf == [] && s.inbuf == [] && c.inOff == 0 && s.inOff == 0
  {
    hide Fit, Flight, Cke;
  }

  // After any honest handshake and any calls by the two ends, each side has
  // read a prefix of what the other wrote, and a further read tells the end
  // of the stream exactly when the other has closed and all was read.
  lemma HandshakeThenStream(h: Setup, t: seq<Sys>, ops: seq<Op>, len: nat)
    requires Honest(h) && IsRun(h, t) && |t| == 10 && len > 0
    ensures var d := Connected(t[9]);
            && Delivered(h.cipher, d, ops, false) <= Written(h.cipher, d, ops, true)
            && Delivered(h.cipher, d, ops, true) <= Written(h.cipher, d, ops, false)
    ensures var d := Connected(t[9]);
            var e := Run(h.cipher, d, ops);
            var allA := Delivered(h.cipher, d, ops, true) == Written(h.cipher, d, ops, false);
            var allB := Delivered(h.cipher, d, ops, false) == Written(h.cipher, d, ops, true);
            && TellsEnd(h.cipher, e.a, e.ba, len, allA, e.b.live)
            && TellsEnd(h.cipher, e.b, e.ab, len, allB, e.a.live)
  {
    hide Joined, Delivered, Written, Run, TellsEnd, Honest, ClientFin, ServerFin, ClientKeyed, Server2, Record, Protect,
         At, IsRun;
    Agreement(h, t);
    RunStates(h, t);
    KeyedFresh(h);
    EndState(h);
    PairStreams(h.cipher, Connected(t[9]), ops, len);
  }
}
