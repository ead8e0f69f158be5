// Handshake messages of vlibc/src/tls/tls.c: what is built is what is parsed.
module TlsMessages {
  import opened Gf128
  import opened Gcm
  import opened Wrappers
  import opened TlsRecord
  import ModPow

  const HS_CLIENT_HELLO: bv8 := 1
  const HS_SERVER_HELLO: bv8 := 2
  const HS_CERTIFICATE: bv8 := 11
  const HS_CERT_REQUEST: bv8 := 13
  const HS_SERVER_HELLO_DONE: bv8 := 14
  const HS_CLIENT_KEY_EXCHANGE: bv8 := 16
  const HS_FINISHED: bv8 := 20

  const MAX_MODULUS: nat := ModPow.MAX_MODULUS

  function Be16(b: Bytes): (v: int)
    requires |b| >= 2
    ensures v >= 0
  {
    ValBE(b[..2])
  }

  function HsMsg(ty: bv8, body: Bytes): (m: Bytes)
    ensures |m| == 4 + |body|
  {
    [ty] + BytesBE(|body|, 3) + body
  }

  // --- ClientHello ---

  const SIG_ALGS: Bytes := [0, 13, 0, 10, 0, 8, 4, 1, 5, 1, 6, 1, 2, 1]

  function SniExtension(host: Bytes): Bytes {
    [0, 0] + (BytesBE(5 + |host|, 2) + (BytesBE(3 + |host|, 2) + ([0] + (BytesBE(|host|, 2) + host))))
  }

  function ClientHelloBody(crandom: Bytes, host: Bytes): Bytes {
    [3, 3] + (crandom + ([0] + ([0, 2] + ([0, 0x9c] + ([1, 0] +
      (BytesBE(23 + |host|, 2) + (SniExtension(host) + SIG_ALGS)))))))
  }

  // build_client_hello into a buffer of cap bytes
  function BuildClientHello(crandom: Bytes, host: Bytes, cap: nat): Option<Bytes> {
    if 66 + |host| > cap then None else Some(ClientHelloBody(crandom, host))
  }

  datatype SuiteScan = SuiteScan(have: bool, scsv: bool)

  // The offered suites, two bytes each; a trailing odd byte is not looked at.
  function ScanSuites(b: Bytes): SuiteScan {
    if |b| < 2 then SuiteScan(false, false)
    else
      var rest := ScanSuites(b[2..]);
      var cs := Be16(b);
      if cs == 0x00ff then rest.(scsv := true) else if cs == 0x009c then rest.(have := true) else rest
  }

  // Extensions up to the end of the message: renegotiation_info must be empty.
  function ScanExtensions(b: Bytes): Option<bool> {
    if |b| < 4 then Some(false)
    else
      var ty, vlen := Be16(b), Be16(b[2..]);
      if vlen > |b| - 4 then None
      else if ty == 0xff01 && (vlen != 1 || b[4] != 0) then None
      else
        match ScanExtensions(b[4 + vlen..])
        case None => None
        case Some(r) => Some(r || ty == 0xff01)
  }

  datatype Hello = Hello(crandom: Bytes, reneg: bool)

  // After the session id: suites, compression methods, extensions.
  function ParseOffer(b: Bytes): Option<bool> {
    if |b| < 5 then None
    else
      var slen := Be16(b);
      if slen < 2 || slen > |b| - 2 then None
      else
        var suites := ScanSuites(b[2..2 + slen]);
        if !suites.have then None
        else ParseCompression(b[2 + slen..], suites.scsv)
  }

  function ParseCompression(b: Bytes, scsv: bool): Option<bool> {
    if |b| < 1 then None
    else
      var clen := b[0] as int;
      if clen < 1 || clen > |b| - 1 || 0 !in b[1..1 + clen] then None
      else
        var e := b[1 + clen..];
        if |e| < 2 then Some(scsv)
        else if Be16(e) > |e| - 2 then None
        else
          match ScanExtensions(e[2..])
          case None => None
          case Some(r) => Some(r || scsv)
  }

  function ParseClientHello(b: Bytes): Option<Hello> {
    if |b| < 35 || Be16(b) != 0x303 then None
    else
      var sidlen := b[34] as int;
      if sidlen > |b| - 35 then None
      else
        match ParseOffer(b[35 + sidlen..])
        case None => None
        case Some(r) => Some(Hello(b[2..34], r))
  }

  lemma TwoBytes(v: int, rest: Bytes)
    requires 0 <= v < 0x1_0000
    ensures Be16(BytesBE(v, 2) + rest) == v && (BytesBE(v, 2) + rest)[2..] == rest
  {
    hide BytesBE, ValBE;
    ValOfTwo(v);
    assert (BytesBE(v, 2) + rest)[..2] == BytesBE(v, 2);
  }

  // Small two-byte constants.
  lemma Pair(x: bv8, y: bv8, rest: Bytes)
    ensures Be16([x, y] + rest) == 256 * x as int + y as int && ([x, y] + rest)[2..] == rest
  {
    var b := ([x, y] + rest)[..2];
    assert b == [x, y] && b[..1] == [x] && b[..1][..0] == [];
    assert ValBE([x]) == 256 * ValBE([]) + x as int;
  }

  // The two extensions a client sends are skipped.
  lemma ExtensionsSkipped(host: Bytes)
    requires |host| < 0xff00
    ensures ScanExtensions(SniExtension(host) + SIG_ALGS) == Some(false)
  {
    hide BytesBE, Be16;
    var value := BytesBE(3 + |host|, 2) + ([0] + (BytesBE(|host|, 2) + host));
    var tail := BytesBE(5 + |host|, 2) + (value + SIG_ALGS);
    var b := SniExtension(host) + SIG_ALGS;
    assert b == [0, 0] + tail;
    Pair(0, 0, tail);
    TwoBytes(5 + |host|, value + SIG_ALGS);
    assert b[4..] == value + SIG_ALGS;
    assert b[4 + |value|..] == SIG_ALGS;
    SigAlgsSkipped();
  }

  lemma SigAlgsSkipped()
    ensures ScanExtensions(SIG_ALGS) == Some(false)
  {
    hide BytesBE, Be16;
    var t: Bytes := [0, 8, 4, 1, 5, 1, 6, 1, 2, 1];
    assert SIG_ALGS == [0, 13] + ([0, 10] + t);
    Pair(0, 13, [0, 10] + t);
    Pair(0, 10, t);
    assert SIG_ALGS[14..] == [];
  }

  lemma OfferParses(host: Bytes)
    requires |host| < 0xff00
    ensures ParseOffer([0, 2] + ([0, 0x9c] + ([1, 0] + (BytesBE(23 + |host|, 2) + (SniExtension(host) + SIG_ALGS)))))
            == Some(false)
  {
    hide *;
    var comp := [1, 0] + (BytesBE(23 + |host|, 2) + (SniExtension(host) + SIG_ALGS));
    OneSuite();
    CompressionParses(host);
    OfferOfOne([0, 0x9c], comp);
  }

  lemma OfferOfOne(suites: Bytes, comp: Bytes)
    requires |suites| == 2 && |comp| >= 1 && ScanSuites(suites) == SuiteScan(true, false)
    ensures ParseOffer([0, 2] + (suites + comp)) == ParseCompression(comp, false)
  {
    hide BytesBE, Be16, ScanExtensions, SniExtension, ParseCompression, ScanSuites;
    var b := [0, 2] + (suites + comp);
    LengthTwo(suites + comp);
    assert b[2..2 + 2] == suites && b[2 + 2..] == comp;
  }

  lemma LengthTwo(rest: Bytes)
    ensures Be16([0, 2] + rest) == 2
  {
    hide Be16;
    Pair(0, 2, rest);
  }

  lemma OneSuite()
    ensures ScanSuites([0, 0x9c]) == SuiteScan(true, false)
  {
    hide Be16;
    var suites: Bytes := [0, 0x9c];
    Pair(0, 0x9c, []);
    assert suites + [] == suites && suites[2..] == [];
  }

  lemma CompressionParses(host: Bytes)
    requires |host| < 0xff00
    ensures ParseCompression([1, 0] + (BytesBE(23 + |host|, 2) + (SniExtension(host) + SIG_ALGS)), false) == Some(false)
  {
    hide BytesBE, Be16, ScanExtensions, SniExtension;
    var ext := SniExtension(host) + SIG_ALGS;
    var comp := [1, 0] + (BytesBE(23 + |host|, 2) + ext);
    assert comp[0] as int == 1 && comp[1..2] == [0] && comp[2..] == BytesBE(23 + |host|, 2) + ext;
    TwoBytes(23 + |host|, ext);
    SniLength(host);
    ExtensionsSkipped(host);
  }

  lemma SniLength(host: Bytes)
    ensures |SniExtension(host)| == 9 + |host|
  {}

  // Every hello that fits the client's buffer is accepted, with its random.
  lemma HelloRoundTrip(crandom: Bytes, host: Bytes, cap: nat)
    requires |crandom| == 32 && cap < 0xff00
    ensures match BuildClientHello(crandom, host, cap)
            case None => |host| + 66 > cap
            case Some(b) => ParseClientHello(b) == Some(Hello(crandom, false)) && |b| == 66 + |host|
  {
    hide BytesBE, Be16, ParseOffer, SniExtension;
    if 66 + |host| <= cap {
      var offer := [0, 2] + ([0, 0x9c] + ([1, 0] + (BytesBE(23 + |host|, 2) + (SniExtension(host) + SIG_ALGS))));
      var b := ClientHelloBody(crandom, host);
      var zero: Bytes := [0];
      assert b == [3, 3] + (crandom + (zero + offer));
      Pair(3, 3, crandom + (zero + offer));
      assert b[2..34] == crandom && b[34] == 0 && b[35..] == offer;
      OfferParses(host);
      SniLength(host);
    }
  }

  // The suite loop of parse_client_hello.
  method SuiteLoop(b: Bytes) returns (r: SuiteScan)
    ensures r == ScanSuites(b)
  {
    hide Be16;
    var k := 0;
    r := SuiteScan(false, false);
    assert b[0..] == b;
    while k + 1 < |b|
      invariant k <= |b|
      invariant ScanSuites(b).have == (r.have || ScanSuites(b[k..]).have)
      invariant ScanSuites(b).scsv == (r.scsv || ScanSuites(b[k..]).scsv)
    {
      var cs := Be16(b[k..]);
      assert b[k..][2..] == b[k + 2..];
      if cs == 0x00ff {
        r := r.(scsv := true);
      } else if cs == 0x009c {
        r := r.(have := true);
      }
      k := k + 2;
    }
  }

  // The extension loop of parse_client_hello.
  method ExtensionLoop(b0: Bytes) returns (r: Option<bool>)
    ensures r == ScanExtensions(b0)
  {
    hide Be16;
    var b, reneg := b0, false;
    while |b| >= 4
      invariant ScanExtensions(b0)
                == (if ScanExtensions(b) == None then None else Some(reneg || ScanExtensions(b).value))
      decreases |b|
    {
      var ty := Be16(b);
      var vlen := Be16(b[2..]);
      if vlen > |b| - 4 {
        return None;
      }
      if ty == 0xff01 {
        if vlen != 1 || b[4] != 0 {
          return None;
        }
        reneg := true;
      }
      b := b[4 + vlen..];
    }
    return Some(reneg);
  }

  // The compression loop: the position of a null method, or clen.
  method CompressionLoop(b: Bytes) returns (k: nat)
    requires |b| >= 1
    ensures k <= |b|
    ensures k == |b| <==> 0 !in b
  {
    k := 0;
    while k < |b|
      invariant k <= |b|
      invariant 0 !in b[..k]
    {
      if b[k] == 0 {
        assert b[k] in b;
        return;
      }
      k := k + 1;
    }
    assert b[..k] == b;
  }

  // parse_client_hello from the compression methods on.
  method ReadCompression(b: Bytes, scsv: bool) returns (r: Option<bool>)
    ensures r == ParseCompression(b, scsv)
  {
    hide Be16, ScanExtensions;
    if |b| < 1 {
      return None;
    }
    var clen := b[0] as int;
    if clen < 1 || clen > |b| - 1 {
      return None;
    }
    var k := CompressionLoop(b[1..1 + clen]);
    if k == clen {
      return None;
    }
    var e := b[1 + clen..];
    if |e| < 2 {
      return Some(scsv);
    }
    if Be16(e) > |e| - 2 {
      return None;
    }
    var x := ExtensionLoop(e[2..]);
    if x == None {
      return None;
    }
    return Some(x.value || scsv);
  }

  // parse_client_hello: its loops together compute the parser.
  method ReadClientHello(b: Bytes) returns (h: Option<Hello>)
    ensures h == ParseClientHello(b)
  {
    hide Be16, ScanSuites, ParseCompression;
    if |b| < 35 || Be16(b) != 0x303 {
      return None;
    }
    var sidlen := b[34] as int;
    if sidlen > |b| - 35 {
      return None;
    }
    var t := b[35 + sidlen..];
    if |t| < 5 {
      return None;
    }
    var slen := Be16(t);
    if slen < 2 || slen > |t| - 2 {
      return None;
    }
    var suites := SuiteLoop(t[2..2 + slen]);
    if !suites.have {
      return None;
    }
    var r := ReadCompression(t[2 + slen..], suites.scsv);
    if r == None {
      return None;
    }
    return Some(Hello(b[2..34], r.value));
  }

  // --- ServerHello ---

  function ServerHelloBody(srandom: Bytes, reneg: bool): Bytes {
    [3, 3] + (srandom + ([0] + ([0, 0x9c] + ([0] + (if reneg then [0, 5, 0xff, 1, 0, 1, 0] else [])))))
  }

  function ParseServerHello(b: Bytes): Option<Bytes> {
    if |b| < 35 || Be16(b) != 0x303 then None
    else
      var sidlen := b[34] as int;
      if sidlen > |b| - 35 then None
      else
        var t := b[35 + sidlen..];
        if |t| < 3 || Be16(t) != 0x009c || t[2] != 0 then None else Some(b[2..34])
  }

  lemma ServerHelloRoundTrip(srandom: Bytes, reneg: bool)
    requires |srandom| == 32
    ensures ParseServerHello(ServerHelloBody(srandom, reneg)) == Some(srandom)
  {
    hide Be16;
    var zero: Bytes, suite: Bytes := [0], [0, 0x9c];
    var ext: Bytes := if reneg then [0, 5, 0xff, 1, 0, 1, 0] else [];
    var tail := suite + (zero + ext);
    var b := ServerHelloBody(srandom, reneg);
    assert b == [3, 3] + (srandom + (zero + tail));
    Pair(3, 3, srandom + (zero + tail));
    Pair(0, 0x9c, zero + ext);
    assert b[2..34] == srandom && b[34] == 0 && b[35..] == tail;
  }

  // --- Certificate ---

  function Be24(b: Bytes): (v: int)
    requires |b| >= 3
    ensures v >= 0
  {
    ValBE(b[..3])
  }

  function CertificateBody(cert: Bytes): Bytes {
    BytesBE(3 + |cert|, 3) + (BytesBE(|cert|, 3) + cert)
  }

  // A usable key: the parser's modulus, if it fits peer_mod.
  function KeyOf(x509: Bytes -> Option<Bytes>, cert: Bytes): Option<Bytes> {
    var k := x509(cert);
    if k.Some? && |k.value| <= MAX_MODULUS then k else None
  }

  // The first certificate of the chain that yields a key.
  function ScanChain(x509: Bytes -> Option<Bytes>, b: Bytes, got: Option<Bytes>): Option<Bytes>
    decreases |b|
  {
    if |b| < 3 then got
    else
      var clen := Be24(b);
      if |b| - 3 < clen then None
      else ScanChain(x509, b[3 + clen..], if got.Some? then got else KeyOf(x509, b[3..3 + clen]))
  }

  function ParseCertificate(x509: Bytes -> Option<Bytes>, b: Bytes): Option<Bytes> {
    if |b| < 3 || Be24(b) != |b| - 3 then None else ScanChain(x509, b[3..], None)
  }

  method CertificateLoop(x509: Bytes -> Option<Bytes>, b0: Bytes) returns (r: Option<Bytes>)
    ensures r == ParseCertificate(x509, b0)
  {
    hide Be24, KeyOf;
    if |b0| < 3 || Be24(b0) != |b0| - 3 {
      return None;
    }
    var b, got := b0[3..], None;
    while |b| >= 3
      invariant ParseCertificate(x509, b0) == ScanChain(x509, b, got)
      decreases |b|
    {
      var clen := Be24(b);
      if |b| - 3 < clen {
        return None;
      }
      if got == None {
        got := KeyOf(x509, b[3..3 + clen]);
      }
      b := b[3 + clen..];
    }
    return got;
  }

  lemma ThreeBytes(v: int, rest: Bytes)
    requires 0 <= v < 0x100_0000
    ensures Be24(BytesBE(v, 3) + rest) == v && (BytesBE(v, 3) + rest)[3..] == rest
  {
    hide BytesBE, ValBE;
    assert Pow256(3) == 256 * Pow256(2) && Pow256(2) == 256 * Pow256(1) && Pow256(1) == 256 * Pow256(0);
    ValOfBytes(v, 3);
    assert (BytesBE(v, 3) + rest)[..3] == BytesBE(v, 3);
  }

  lemma CertificateRoundTrip(x509: Bytes -> Option<Bytes>, cert: Bytes)
    requires |cert| + 3 < 0x100_0000
    ensures ParseCertificate(x509, CertificateBody(cert)) == KeyOf(x509, cert)
  {
    hide BytesBE, Be24, KeyOf;
    var inner := BytesBE(|cert|, 3) + cert;
    ThreeBytes(3 + |cert|, inner);
    ThreeBytes(|cert|, cert);
    assert inner[3..3 + |cert|] == cert && inner[3 + |cert|..] == [];
    assert ScanChain(x509, [], KeyOf(x509, cert)) == KeyOf(x509, cert);
  }

  // --- hs_drain ---

  // One complete server message taken off rx, or nothing usable.
  function HandleServerMsg(x509: Bytes -> Option<Bytes>, v: Tls, ty: bv8, body: Bytes): Option<Tls> {
    if ty == HS_SERVER_HELLO then
      match ParseServerHello(body)
      case None => None
      case Some(r) => Some(v.(srandom := r))
    else if ty == HS_CERTIFICATE then
      match ParseCertificate(x509, body)
      case None => None
      case Some(m) => Some(v.(peerMod := m))
    else if ty == HS_CERT_REQUEST then Some(v)
    else if ty == HS_SERVER_HELLO_DONE then Some(v.(stage := FlightDone))
    else None
  }

  // Whole messages are consumed; a partial one stays in rx.
  function Drain(x509: Bytes -> Option<Bytes>, v: Tls, p: Bytes): Option<Tls>
    decreases |p|
  {
    if |p| < 4 || |p| - 4 < Be24(p[1..]) then Some(v.(rx := p))
    else
      var len := Be24(p[1..]);
      match HandleServerMsg(x509, v, p[0], p[4..4 + len])
      case None => None
      case Some(v') => Drain(x509, v', p[4 + len..])
  }

  method ServerMsg(x509: Bytes -> Option<Bytes>, v: Tls, ty: bv8, body: Bytes) returns (r: Option<Tls>)
    ensures r == HandleServerMsg(x509, v, ty, body)
  {
    hide ParseServerHello, ParseCertificate;
    if ty == HS_SERVER_HELLO {
      var h := ParseServerHello(body);
      return if h == None then None else Some(v.(srandom := h.value));
    }
    if ty == HS_CERTIFICATE {
      var m := CertificateLoop(x509, body);
      return if m == None then None else Some(v.(peerMod := m.value));
    }
    if ty == HS_CERT_REQUEST {
      return Some(v);
    }
    return if ty == HS_SERVER_HELLO_DONE then Some(v.(stage := FlightDone)) else None;
  }

  method HsDrain(x509: Bytes -> Option<Bytes>, v0: Tls) returns (r: Option<Tls>)
    ensures r == Drain(x509, v0, v0.rx)
  {
    hide Be24, HandleServerMsg;
    var p, v := v0.rx, v0;
    while |p| >= 4
      invariant Drain(x509, v0, v0.rx) == Drain(x509, v, p)
      decreases |p|
    {
      var len := Be24(p[1..]);
      if |p| - 4 < len {
        break;
      }
      var h := ServerMsg(x509, v, p[0], p[4..4 + len]);
      if h == None {
        return None;
      }
      v, p := h.value, p[4 + len..];
    }
    return Some(v.(rx := p));
  }

  // A record that is one whole message is handled and leaves nothing behind.
  lemma DrainOne(x509: Bytes -> Option<Bytes>, v: Tls, ty: bv8, body: Bytes)
    requires |body| < 0x100_0000
    ensures Drain(x509, v, HsMsg(ty, body)) ==
            match HandleServerMsg(x509, v, ty, body)
            case None => None
            case Some(v') => Some(v'.(rx := []))
  {
    hide BytesBE, Be24, HandleServerMsg;
    var p := HsMsg(ty, body);
    assert p[1..] == BytesBE(|body|, 3) + body;
    ThreeBytes(|body|, body);
    assert p[4..4 + |body|] == body && p[4 + |body|..] == [];
  }
}
