/** The SOCKS5 front end of CatSocks: method selection and the CONNECT request
    of RFC 1928 (sections 3, 4, 5 and 6) as the relay actually reads and answers
    them. The relay never checks the version bytes, always selects method 0x00
    ("no authentication"), and answers an unsupported command or address type
    with nothing at all. */
module Socks {
  import opened Text
  import opened Wire

  const SOCKS_VERSION: byte := 5
  const CMD_CONNECT: byte := 1
  const ATYP_IPV4: byte := 1
  const ATYP_DOMAIN: byte := 3

  /** The reply to every greeting: version 5, method 0x00. */
  const GREETING_REPLY: seq<byte> := [5, 0]

  datatype Address = IPv4(octets: seq<byte>) | DomainName(name: seq<byte>)

  datatype ConnectRequest = ConnectRequest(address: Address, port: nat)

  /** What the handler makes of the bytes after the greeting. */
  datatype RequestParse =
    | Request(request: ConnectRequest, length: nat)
      // CMD is not CONNECT, or ATYP is neither IPv4 nor a domain name:
      // the handler returns without a reply
    | NotSupported
      // the request ends early or its name is not text: the handler raises
    | Malformed

  predicate ValidRequest(r: ConnectRequest) {
    && r.port < 0x1_0000
    && (r.address.IPv4? ==> |r.address.octets| == 4)
    && (r.address.DomainName? ==> |r.address.name| < 256 && AsciiBytes(r.address.name))
  }

  // ------------------------------------------------------------ greeting

  /** How many bytes the handler consumes for `VER NMETHODS METHODS`: two, then
      up to NMETHODS more (a socket read returns what is left when the client
      stops early). None when the two-byte header itself is missing. */
  function GreetingLength(input: seq<byte>): (r: Option<nat>)
    ensures r.Some? <==> |input| >= 2
    ensures r.Some? ==> r.value <= |input| && r.value <= 2 + input[1] as int
    ensures r.Some? && |input| >= 2 + input[1] as int ==> r.value == 2 + input[1] as int
  {
    if |input| < 2 then None
    else if |input| < 2 + input[1] as int then Some(|input|)
    else Some(2 + input[1] as int)
  }

  function EncodeGreeting(version: byte, methods: seq<byte>): seq<byte>
    requires |methods| < 256
  {
    [version, |methods| as byte] + methods
  }

  /** A greeting is consumed whole, whatever its version byte and whatever
      methods it offers, and nothing after it is touched. */
  lemma GreetingConsumedWhole(version: byte, methods: seq<byte>, rest: seq<byte>)
    requires |methods| < 256
    ensures GreetingLength(EncodeGreeting(version, methods) + rest) == Some(2 + |methods|)
  {
    var s := EncodeGreeting(version, methods) + rest;
    assert s[1] == |methods| as byte;
  }

  // ------------------------------------------------------------- request

  function Port(hi: byte, lo: byte): (p: nat)
    ensures p < 0x1_0000
  {
    hi as int * 256 + lo as int
  }

  /** `VER CMD RSV ATYP DST.ADDR DST.PORT`, read field by field. VER and RSV are
      never looked at; CMD is checked before the address is read. */
  function ParseRequest(input: seq<byte>): (r: RequestParse)
    ensures r.Request? ==> r.length <= |input| && ValidRequest(r.request)
    ensures |input| >= 4 && input[1] != CMD_CONNECT ==> r == NotSupported
    ensures |input| >= 4 && input[3] != ATYP_IPV4 && input[3] != ATYP_DOMAIN ==> r == NotSupported
  {
    if |input| < 4 then Malformed
    else if input[1] != CMD_CONNECT then NotSupported
    else if input[3] == ATYP_IPV4 then
      if |input| < 10 then Malformed
      else Request(ConnectRequest(IPv4(input[4..8]), Port(input[8], input[9])), 10)
    else if input[3] == ATYP_DOMAIN then
      if |input| < 5 then Malformed
      else
        var n := input[4] as int;
        if |input| < 7 + n || !AsciiBytes(input[5..5 + n]) then Malformed
        else Request(ConnectRequest(DomainName(input[5..5 + n]), Port(input[5 + n], input[6 + n])), 7 + n)
    else NotSupported
  }

  function EncodeAddress(a: Address): seq<byte>
    requires a.DomainName? ==> |a.name| < 256
  {
    match a
    case IPv4(octets) => [ATYP_IPV4] + octets
    case DomainName(name) => [ATYP_DOMAIN, |name| as byte] + name
  }

  /** A CONNECT request as a client writes it. */
  function EncodeRequest(r: ConnectRequest): seq<byte>
    requires ValidRequest(r)
  {
    [SOCKS_VERSION, CMD_CONNECT, 0] + EncodeAddress(r.address) + [(r.port / 256) as byte, (r.port % 256) as byte]
  }

  /** Every valid request is read back exactly, and no byte after it is consumed. */
  lemma ParseEncodedRequest(r: ConnectRequest, rest: seq<byte>)
    requires ValidRequest(r)
    ensures ParseRequest(EncodeRequest(r) + rest) == Request(r, |EncodeRequest(r)|)
  {
    var e := EncodeRequest(r);
    var s := e + rest;
    match r.address
    case IPv4(o) =>
      ParseEncodedIPv4(r, rest);
    case DomainName(name) =>
      assert s[4] as int == |name|;
      assert s[5..5 + |name|] == name;
  }

  lemma ParseEncodedIPv4(r: ConnectRequest, rest: seq<byte>)
    requires ValidRequest(r) && r.address.IPv4?
    ensures ParseRequest(EncodeRequest(r) + rest) == Request(r, |EncodeRequest(r)|)
  {
    var e := EncodeRequest(r);
    var s := e + rest;
    var o := r.address.octets;
    assert e == [SOCKS_VERSION, CMD_CONNECT, 0, ATYP_IPV4] + o + [(r.port / 256) as byte, (r.port % 256) as byte];
    assert |e| == 10 && s[..|e|] == e;
    assert e[4..8] == o;
    assert s[4..8] == o;
  }

  /** Conversely, what the parser accepts is an encoded request, up to the two
      bytes (VER and RSV) it ignores. */
  lemma ParsedRequestIsEncoded(input: seq<byte>)
    requires ParseRequest(input).Request?
    ensures var p := ParseRequest(input);
      input[1..2] + input[3..p.length] == EncodeRequest(p.request)[1..2] + EncodeRequest(p.request)[3..]
  {
    if input[3] == ATYP_IPV4 {
      ParsedIPv4IsEncoded(input);
    } else {
      ParsedDomainIsEncoded(input);
    }
  }

  lemma ParsedIPv4IsEncoded(input: seq<byte>)
    requires ParseRequest(input).Request? && input[3] == ATYP_IPV4
    ensures var p := ParseRequest(input);
      p.length == 10 && input[3..10] == EncodeRequest(p.request)[3..]
  {
    var e := EncodeRequest(ParseRequest(input).request);
    PortBytes(input[8], input[9]);
    assert e == [SOCKS_VERSION, CMD_CONNECT, 0, ATYP_IPV4] + input[4..8] + [input[8], input[9]];
  }

  lemma ParsedDomainIsEncoded(input: seq<byte>)
    requires ParseRequest(input).Request? && input[3] != ATYP_IPV4
    ensures var p := ParseRequest(input);
      p.length == 7 + input[4] as int && input[3..p.length] == EncodeRequest(p.request)[3..]
  {
    var n := input[4] as int;
    var e := EncodeRequest(ParseRequest(input).request);
    PortBytes(input[5 + n], input[6 + n]);
    assert e == [SOCKS_VERSION, CMD_CONNECT, 0, ATYP_DOMAIN, input[4]] + input[5..5 + n] + [input[5 + n], input[6 + n]];
    assert input[3..7 + n] == [input[3], input[4]] + input[5..5 + n] + [input[5 + n], input[6 + n]];
  }

  /** The port's two bytes are recovered from its value. */
  lemma PortBytes(hi: byte, lo: byte)
    ensures (Port(hi, lo) / 256) as byte == hi && (Port(hi, lo) % 256) as byte == lo
  {
  }

  // ------------------------------------------------------- host and reply

  /** `socket.inet_ntoa`: the four octets in decimal, joined by dots. */
  function DottedQuad(o: seq<byte>): (h: string)
    requires |o| == 4
    ensures IsAscii(h)
  {
    var parts := QuadParts(o);
    forall i | 0 <= i < 4 ensures IsAscii(parts[i]) {
      DecimalIsAscii(o[i] as nat);
    }
    JoinIsAscii(parts, '.');
    Join(parts, '.')
  }

  function QuadParts(o: seq<byte>): (parts: seq<string>)
    requires |o| == 4
    ensures |parts| == 4 && forall i | 0 <= i < 4 :: parts[i] == Decimal(o[i] as nat)
  {
    [Decimal(o[0] as nat), Decimal(o[1] as nat), Decimal(o[2] as nat), Decimal(o[3] as nat)]
  }

  /** The dotted quad splits back into the four octets it was made from. */
  lemma DottedQuadRoundTrip(o: seq<byte>)
    requires |o| == 4
    ensures var parts := Split(DottedQuad(o), '.');
      |parts| == 4 && forall i | 0 <= i < 4 :: ParseDecimal(parts[i]) == Some(o[i] as nat)
  {
    var parts := QuadParts(o);
    forall i | 0 <= i < 4 ensures '.' !in parts[i] && ParseDecimal(parts[i]) == Some(o[i] as nat) {
      DecimalHasNoSeparator(o[i] as nat, '.');
      DecimalRoundTrip(o[i] as nat);
    }
    SplitJoin(parts, '.');
  }

  /** The host handed to the modem: the dotted quad, or the domain name as text. */
  function HostText(a: Address): (h: string)
    requires a.IPv4? ==> |a.octets| == 4
    requires a.DomainName? ==> AsciiBytes(a.name)
    ensures IsAscii(h)
  {
    match a
    case IPv4(o) => DottedQuad(o)
    case DomainName(name) => EncodeDecode(name); Decode(name)
  }

  /** The ten-byte reply after the modem was asked to connect: REP 0x00 on
      success, 0x01 (general failure) otherwise, ATYP IPv4 and an all-zero
      bound address and port. */
  function ConnectReply(success: bool): (r: seq<byte>)
    ensures |r| == 10 && r[0] == SOCKS_VERSION && r[3] == ATYP_IPV4
    ensures (r[1] == 0) == success
    ensures forall i | 4 <= i < 10 :: r[i] == 0
  {
    [SOCKS_VERSION, if success then 0 else 1, 0, ATYP_IPV4, 0, 0, 0, 0, 0, 0]
  }

  /** The twelve bytes a client is sent before any data: the greeting reply,
      then the reply to its CONNECT. */
  lemma RepliesBytes(success: bool)
    ensures GREETING_REPLY + ConnectReply(success) == [5, 0, 5, if success then 0 else 1, 0, 1, 0, 0, 0, 0, 0, 0]
  {
  }
}
