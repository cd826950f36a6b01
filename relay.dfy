/** `handle_client`, the per-client coordinator of CatSocks: the SOCKS5
    handshake, the CONNECT through the module, then the relay loop. The client
    socket is given as the bytes it sends before the relay starts (`hello`) and
    a schedule of readiness events; which of the two sources `select` reports
    first is the order of that schedule. */
module Relay {
  import opened Text
  import opened Wire
  import opened Socks
  import opened Chunking
  import opened Modem

  /** One wake-up of the relay loop. */
  datatype Event =
      // the client socket was readable and one read returned `data`
      // (empty when the client has closed)
    | ClientReadable(data: seq<byte>)
      // the serial line was readable
    | SerialReadable

  datatype Outcome =
    | Dropped          // the SOCKS messages ended early or did not decode: the handler raised
    | Unsupported      // CMD or ATYP not supported: the handler returned without a reply
    | OpenFailed       // the module refused the connection or did not answer
    | ClientClosed     // the client closed; the module socket was closed
    | RemoteClosed     // a `closed` notice arrived; the module socket was closed
    | SendFailed(why: SendResult)  // `send_raw` raised
    | BadNotice        // the length field of a `recv` notice is not a number: `int()` raised
    | Stuck            // a serial read waits for bytes that never arrive
    | Running          // the schedule ended with the relay still running

  /** The serial line: bytes still to arrive, bytes written. */
  datatype Link = Link(rx: seq<byte>, tx: seq<byte>)

  datatype SessionResult = SessionResult(outcome: Outcome, toClient: seq<byte>, link: Link)

  // --------------------------------------------------- module operations

  datatype OpenResult = OpenResult(verdict: OpenVerdict, link: Link)

  /** `open_tcp_direct_push` on a link. */
  function OpenEffect(link: Link, cid: nat, sockId: nat, host: string, port: nat): OpenResult
    requires IsAscii(host)
  {
    var scan := OpenScan(link.rx[AtReplyLength(link.rx)..], sockId);
    OpenResult(scan.verdict, Link(scan.rest, link.tx + Encode(OpenCommand(cid, sockId, host, port) + "\r")))
  }

  /** `close_tcp` on a link. */
  function CloseEffect(link: Link, sockId: nat): Link {
    Link(link.rx[AtReplyLength(link.rx)..], link.tx + Encode(CloseCommand(sockId) + "\r"))
  }

  datatype Forwarded = Forwarded(result: SendResult, link: Link)

  /** `send_raw` of each chunk in turn, stopping at the first that raises. */
  function SendChunks(link: Link, sockId: nat, chunks: seq<seq<byte>>): (f: Forwarded)
    decreases |chunks|
  {
    if chunks == [] then Forwarded(Acked, link)
    else
      var e := SendRawEffect(link.rx, sockId, chunks[0]);
      var next := Link(e.rest, link.tx + e.written);
      if e.result != Acked then Forwarded(e.result, next)
      else SendChunks(next, sockId, chunks[1..])
  }

  lemma SendChunksStep(link: Link, sockId: nat, chunk: seq<byte>, rest: seq<seq<byte>>)
    ensures var e := SendRawEffect(link.rx, sockId, chunk);
      var next := Link(e.rest, link.tx + e.written);
      SendChunks(link, sockId, [chunk] + rest)
        == if e.result != Acked then Forwarded(e.result, next) else SendChunks(next, sockId, rest)
  {
    assert ([chunk] + rest)[1..] == rest;
  }

  /** One QISEND exchange as the module sees it. */
  function Frame(sockId: nat, chunk: seq<byte>): seq<byte> {
    Encode(QisendCommand(sockId, |chunk|)) + chunk + [CTRL_Z]
  }

  function Frames(sockId: nat, chunks: seq<seq<byte>>): seq<byte> {
    if chunks == [] then [] else Frame(sockId, chunks[0]) + Frames(sockId, chunks[1..])
  }

  /** When every exchange is acknowledged the module is sent one frame per
      chunk, in order, and nothing else. */
  lemma {:induction false} SendChunksWrites(link: Link, sockId: nat, chunks: seq<seq<byte>>)
    ensures var f := SendChunks(link, sockId, chunks);
      f.result == Acked ==> f.link.tx == link.tx + Frames(sockId, chunks)
    decreases |chunks|
  {
    if chunks != [] {
      var e := SendRawEffect(link.rx, sockId, chunks[0]);
      var next := Link(e.rest, link.tx + e.written);
      SendChunksWrites(next, sockId, chunks[1..]);
    }
  }

  /** What one client read becomes on the serial line: frames whose payloads,
      each of one to MAX_CHUNK_SIZE bytes, concatenate back to the read. */
  lemma ClientDataForwarded(link: Link, sockId: nat, data: seq<byte>)
    ensures var cs := Chunks(data, MAX_CHUNK_SIZE); var f := SendChunks(link, sockId, cs);
      && (f.result == Acked ==> f.link.tx == link.tx + Frames(sockId, cs))
      && Flatten(cs) == data
      && forall i | 0 <= i < |cs| :: 0 < |cs[i]| <= MAX_CHUNK_SIZE
  {
    var cs := Chunks(data, MAX_CHUNK_SIZE);
    SendChunksWrites(link, sockId, cs);
    ChunksFlatten(data, MAX_CHUNK_SIZE);
    forall i | 0 <= i < |cs| ensures 0 < |cs[i]| <= MAX_CHUNK_SIZE {
      ChunkSizes(data, MAX_CHUNK_SIZE, i);
    }
  }

  // ---------------------------------------------- unsolicited notices

  datatype Notice =
    | Deliver(payload: seq<byte>, rest: seq<byte>)  // a `recv` notice and its payload
    | Ignore(rest: seq<byte>)                       // any other line
    | CloseNotice(rest: seq<byte>)                  // a line mentioning `closed`
    | BadLength(rest: seq<byte>)                    // a `recv` notice whose length is not a number
    | Waiting(rest: seq<byte>)                      // the line or its payload never completes

  /** A line that announces received data. */
  predicate IsRecvNotice(text: string) {
    StartsWith(text, "+QIURC") && Contains(text, "recv")
  }

  /** The last comma-separated field of a line: `line.split(',')[-1]`. */
  function LastField(text: string): string {
    var fields := Split(text, ',');
    fields[|fields| - 1]
  }

  /** What the relay makes of the serial line when it is readable: read one line;
      a `recv` notice is followed by exactly as many raw bytes as its last
      field says, which go to the client unread; otherwise a line mentioning
      `closed` ends the relay, and any other line is dropped. */
  function NoticeStep(rx: seq<byte>): (n: Notice)
    ensures |n.rest| <= |rx|
  {
    if LF !in rx then Waiting(rx)
    else NoticeOnLine(Strip(Decode(rx[..LineEnd(rx)])), rx[LineEnd(rx)..])
  }

  /** The decision on one stripped line `text`, followed on the line by `rest`. */
  function NoticeOnLine(text: string, rest: seq<byte>): (n: Notice)
    ensures |n.rest| <= |rest|
  {
    if IsRecvNotice(text) then
      match ParseDecimal(LastField(text))
      case None => BadLength(rest)
      case Some(length) =>
        if |rest| < length then Waiting([])
        else Deliver(rest[..length], rest[length..])
    else if Contains(text, "closed") then CloseNotice(rest)
    else Ignore(rest)
  }

  /** Without a whole line nothing is read; otherwise the line is consumed and
      what follows it is the payload and the rest, or the rest alone. */
  lemma NoticeStepCases(rx: seq<byte>)
    ensures var n := NoticeStep(rx);
      && (LF !in rx ==> n == Waiting(rx))
      && (LF in rx ==> n.Waiting? ==> n.rest == [])
      && (n.Deliver? ==> LF in rx && n.payload + n.rest == rx[LineEnd(rx)..])
      && (n.Ignore? || n.CloseNotice? || n.BadLength? ==> LF in rx && n.rest == rx[LineEnd(rx)..])
  {
    if LF in rx {
      NoticeOnLineCases(Strip(Decode(rx[..LineEnd(rx)])), rx[LineEnd(rx)..]);
    }
  }

  /** A `recv` notice delivers its announced length, or fails on a length that
      is not a number, or waits for bytes that do not come; a line that is
      not one ends the relay exactly when it mentions `closed`. */
  lemma NoticeOnLineCases(text: string, rest: seq<byte>)
    ensures var n := NoticeOnLine(text, rest);
      && (n.Deliver? || n.BadLength? || n.Waiting? <==> IsRecvNotice(text))
      && (n.BadLength? <==> IsRecvNotice(text) && ParseDecimal(LastField(text)).None?)
      && (n.CloseNotice? <==> !IsRecvNotice(text) && Contains(text, "closed"))
      && (n.Deliver? ==> n.payload + n.rest == rest && ParseDecimal(LastField(text)) == Some(|n.payload|))
      && (n.Waiting? ==> n.rest == [] && |rest| < ParseDecimal(LastField(text)).value)
      && (n.Ignore? || n.CloseNotice? || n.BadLength? ==> n.rest == rest)
  {
    if IsRecvNotice(text) && ParseDecimal(LastField(text)).Some? {
      var length := ParseDecimal(LastField(text)).value;
      if |rest| >= length {
        assert rest[..length] + rest[length..] == rest;
      }
    }
  }

  /** `+QIURC: "recv",<sock_id>,<length>`, the direct-push data notice. */
  function RecvNoticeText(sockId: nat, length: nat): (t: string)
    ensures IsAscii(t)
  {
    var parts := ["+QIURC: \"recv\"", Decimal(sockId), Decimal(length)];
    DecimalIsAscii(sockId);
    DecimalIsAscii(length);
    JoinIsAscii(parts, ',');
    Join(parts, ',')
  }

  /** The notice as the module writes it, CR LF included. */
  function RecvNoticeLine(sockId: nat, length: nat): seq<byte> {
    AsciiAppend(RecvNoticeText(sockId, length), "\r\n");
    Encode(RecvNoticeText(sockId, length) + "\r\n")
  }

  /** The notice is one line, reads back as itself once stripped, is taken
      for a `recv` notice, and its last field is the announced length. */
  lemma RecvNoticeShape(sockId: nat, length: nat)
    ensures var t := RecvNoticeText(sockId, length);
      LF !in Encode(t + "\r") && Strip(t + "\r\n") == t
      && IsRecvNotice(t) && ParseDecimal(LastField(t)) == Some(length)
  {
    RecvNoticeRecognised(sockId, length);
    RecvNoticeStrips(sockId, length);
    RecvNoticeLength(sockId, length);
    RecvNoticeOneLine(sockId, length);
  }

  lemma RecvNoticeRecognised(sockId: nat, length: nat)
    ensures IsRecvNotice(RecvNoticeText(sockId, length))
  {
    var t := RecvNoticeText(sockId, length);
    RecvNoticeFields(sockId, length);
    assert StartsWith(t, "+QIURC") && OccursAt(t, "recv", 9);
  }

  lemma RecvNoticeStrips(sockId: nat, length: nat)
    ensures var t := RecvNoticeText(sockId, length); Strip(t + "\r\n") == t
  {
    var t := RecvNoticeText(sockId, length);
    var d := Decimal(length);
    RecvNoticeFields(sockId, length);
    assert t[|t| - 1] == d[|d| - 1];
    StripPadded(t, "\r\n");
  }

  lemma RecvNoticeLength(sockId: nat, length: nat)
    ensures ParseDecimal(LastField(RecvNoticeText(sockId, length))) == Some(length)
  {
    RecvNoticeFields(sockId, length);
    DecimalRoundTrip(length);
  }

  lemma RecvNoticeOneLine(sockId: nat, length: nat)
    ensures LF !in Encode(RecvNoticeText(sockId, length) + "\r")
  {
    var t := RecvNoticeText(sockId, length);
    RecvNoticeFields(sockId, length);
    RecvNoticeNoLF(t);
  }

  lemma RecvNoticeFields(sockId: nat, length: nat)
    ensures var t := RecvNoticeText(sockId, length);
      && t == "+QIURC: \"recv\"," + Decimal(sockId) + "," + Decimal(length)
      && LastField(t) == Decimal(length)
  {
    RecvNoticeJoined(sockId, length);
    RecvNoticeSplit(sockId, length);
  }

  lemma RecvNoticeJoined(sockId: nat, length: nat)
    ensures RecvNoticeText(sockId, length) == "+QIURC: \"recv\"," + Decimal(sockId) + "," + Decimal(length)
  {
    var head := "+QIURC: \"recv\"";
    JoinThree(head, Decimal(sockId), Decimal(length), ',');
    assert head + [','] == "+QIURC: \"recv\",";
  }

  lemma RecvNoticeSplit(sockId: nat, length: nat)
    ensures Split(RecvNoticeText(sockId, length), ',') == ["+QIURC: \"recv\"", Decimal(sockId), Decimal(length)]
  {
    var parts := ["+QIURC: \"recv\"", Decimal(sockId), Decimal(length)];
    assert forall i | 0 <= i < |parts| :: ',' !in parts[i] by {
      DecimalHasNoSeparator(sockId, ',');
      DecimalHasNoSeparator(length, ',');
      assert ',' !in parts[0];
    }
    SplitJoin(parts, ',');
  }

  lemma JoinThree(a: string, b: string, c: string, sep: char)
    ensures Join([a, b, c], sep) == a + [sep] + b + [sep] + c
  {
    assert [a, b, c][1..] == [b, c];
    assert [b, c][1..] == [c];
    assert Join([c], sep) == c;
    assert Join([b, c], sep) == b + [sep] + c;
  }

  lemma RecvNoticeNoLF(t: string)
    requires IsAscii(t) && forall i | 0 <= i < |t| :: t[i] != '\n'
    ensures LF !in Encode(t + "\r")
  {
    var e := Encode(t + "\r");
    forall i | 0 <= i < |e| ensures e[i] != LF {
      assert e[i] as int == (t + "\r")[i] as int;
    }
  }

  lemma {:induction false} LineEndAfter(a: seq<byte>, b: seq<byte>)
    requires LF !in a
    ensures LineEnd(a + [LF] + b) == |a| + 1
  {
    if a != [] {
      LineEndAfter(a[1..], b);
      assert (a + [LF] + b)[1..] == a[1..] + [LF] + b;
    }
  }

  /** A `recv` notice hands the client exactly the announced number of bytes,
      whatever they contain (line ends and `closed` included), and leaves
      what follows them for the next read. */
  lemma RecvNoticeDeliversExactly(sockId: nat, payload: seq<byte>, rest: seq<byte>)
    ensures NoticeStep(RecvNoticeLine(sockId, |payload|) + payload + rest) == Deliver(payload, rest)
  {
    var t := RecvNoticeText(sockId, |payload|);
    var head := Encode(t + "\r");
    RecvNoticeLineBytes(sockId, |payload|);
    NoticeStepOneLine(head, payload + rest);
    assert RecvNoticeLine(sockId, |payload|) + payload + rest == head + [LF] + (payload + rest);
    RecvNoticeOnLine(t, |payload|, payload, rest);
  }

  /** The notice line is the encoded text and CR, then LF, and its stripped
      text is the notice itself. */
  lemma RecvNoticeLineBytes(sockId: nat, length: nat)
    ensures var t := RecvNoticeText(sockId, length);
      && RecvNoticeLine(sockId, length) == Encode(t + "\r") + [LF]
      && LF !in Encode(t + "\r")
      && Strip(Decode(Encode(t + "\r") + [LF])) == t
      && IsRecvNotice(t) && ParseDecimal(LastField(t)) == Some(length)
  {
    var t := RecvNoticeText(sockId, length);
    RecvNoticeShape(sockId, length);
    AsciiAppend(t + "\r", "\n");
    assert t + "\r\n" == (t + "\r") + "\n";
    DecodeEncode(t + "\r\n");
  }

  /** A readable line is decided on its stripped text alone. */
  lemma NoticeStepOneLine(head: seq<byte>, rest: seq<byte>)
    requires LF !in head
    ensures NoticeStep(head + [LF] + rest) == NoticeOnLine(Strip(Decode(head + [LF])), rest)
  {
    var rx := head + [LF] + rest;
    LineEndAfter(head, rest);
    assert rx[..|head| + 1] == head + [LF];
    assert rx[|head| + 1..] == rest;
  }

  lemma RecvNoticeOnLine(t: string, length: nat, payload: seq<byte>, rest: seq<byte>)
    requires IsRecvNotice(t) && ParseDecimal(LastField(t)) == Some(length) && |payload| == length
    ensures NoticeOnLine(t, payload + rest) == Deliver(payload, rest)
  {
    assert (payload + rest)[..length] == payload;
    assert (payload + rest)[length..] == rest;
  }

  // --------------------------------------------------------- the session

  /** What one wake-up of the relay loop leads to: the loop goes on with a new
      link and new client output, or the handler stops with a result. */
  datatype Step = Next(link: Link, toClient: seq<byte>) | Stop(result: SessionResult)

  /** One wake-up of the relay loop. Client data goes to the module and never
      to the client; serial data goes to the client and nothing is written to
      the module; a stop leaves the client output as it was. */
  function RelayStep(sockId: nat, event: Event, link: Link, toClient: seq<byte>): (s: Step)
    ensures s.Next? ==> |toClient| <= |s.toClient| && s.toClient[..|toClient|] == toClient
    ensures s.Stop? ==> s.result.toClient == toClient
    ensures s.Next? && event.ClientReadable? ==> s.toClient == toClient
    ensures s.Next? && event.SerialReadable? ==> s.link.tx == link.tx
  {
    match event
    case ClientReadable(data) =>
      if data == [] then Stop(SessionResult(ClientClosed, toClient, CloseEffect(link, sockId)))
      else
        var f := SendChunks(link, sockId, Chunks(data, MAX_CHUNK_SIZE));
        if f.result != Acked then Stop(SessionResult(SendFailed(f.result), toClient, f.link))
        else Next(f.link, toClient)
    case SerialReadable =>
      match NoticeStep(link.rx)
      case Deliver(payload, rest) =>
        assert (toClient + payload)[..|toClient|] == toClient;
        Next(Link(rest, link.tx), toClient + payload)
      case Ignore(rest) => Next(Link(rest, link.tx), toClient)
      case CloseNotice(rest) => Stop(SessionResult(RemoteClosed, toClient, CloseEffect(Link(rest, link.tx), sockId)))
      case BadLength(rest) => Stop(SessionResult(BadNotice, toClient, Link(rest, link.tx)))
      case Waiting(rest) => Stop(SessionResult(Stuck, toClient, Link(rest, link.tx)))
  }

  /** The relay loop over the remaining events. */
  function RelayLoop(sockId: nat, events: seq<Event>, link: Link, toClient: seq<byte>): (r: SessionResult)
    ensures |toClient| <= |r.toClient|
    decreases |events|
  {
    if events == [] then SessionResult(Running, toClient, link)
    else match RelayStep(sockId, events[0], link, toClient)
      case Next(link', toClient') => RelayLoop(sockId, events[1..], link', toClient')
      case Stop(result) => result
  }

  /** The relay loop never ends as a refused handshake or a failed open, and it
      is still running at the end only if the client never closed. */
  lemma {:induction false} RelayLoopOutcome(sockId: nat, events: seq<Event>, link: Link, toClient: seq<byte>)
    ensures var r := RelayLoop(sockId, events, link, toClient);
      && !r.outcome.Dropped? && !r.outcome.Unsupported? && !r.outcome.OpenFailed?
      && (r.outcome == Running ==> forall i | 0 <= i < |events| :: events[i] != ClientReadable([]))
    decreases |events|
  {
    if events != [] {
      var s := RelayStep(sockId, events[0], link, toClient);
      if s.Next? {
        RelayLoopOutcome(sockId, events[1..], s.link, s.toClient);
        assert events == [events[0]] + events[1..];
      }
    }
  }

  /** The relay only ever appends to what the client has been sent. */
  lemma {:induction false} RelayLoopExtends(sockId: nat, events: seq<Event>, link: Link, toClient: seq<byte>)
    ensures var r := RelayLoop(sockId, events, link, toClient);
      |toClient| <= |r.toClient| && r.toClient[..|toClient|] == toClient
    decreases |events|
  {
    if events != [] {
      var s := RelayStep(sockId, events[0], link, toClient);
      if s.Next? {
        RelayLoopExtends(sockId, events[1..], s.link, s.toClient);
        var r := RelayLoop(sockId, events, link, toClient);
        assert r.toClient[..|s.toClient|] == s.toClient;
        assert r.toClient[..|toClient|] == s.toClient[..|toClient|];
      }
    }
  }

  /** What the SOCKS5 handshake makes of the client's first bytes. */
  datatype Handshake =
    | Refuse(outcome: Outcome, reply: seq<byte>)   // the handler ends before touching the module
    | Connect(request: ConnectRequest)             // the module is asked to connect

  /** Greeting, then request. The greeting is answered before the request is
      read, so every refusal after the two-byte header carries `05 00`. */
  function HandshakeOf(hello: seq<byte>): (h: Handshake)
    ensures h == Refuse(Dropped, []) <==> |hello| < 2
    ensures h.Refuse? && |hello| >= 2 ==> h.reply == GREETING_REPLY
    ensures h.Refuse? ==> h.outcome == Dropped || h.outcome == Unsupported
    ensures h.Connect? ==> ValidRequest(h.request)
  {
    match GreetingLength(hello)
    case None => Refuse(Dropped, [])
    case Some(g) =>
      match ParseRequest(hello[g..])
      case NotSupported => Refuse(Unsupported, GREETING_REPLY)
      case Malformed => Refuse(Dropped, GREETING_REPLY)
      case Request(req, _) => Connect(req)
  }

  /** Whatever version byte and methods the greeting carries, and whatever
      follows the request, a well-formed CONNECT is what the handler acts on. */
  lemma HandshakeReadsRequest(version: byte, methods: seq<byte>, req: ConnectRequest, rest: seq<byte>)
    requires |methods| < 256 && ValidRequest(req)
    ensures HandshakeOf(EncodeGreeting(version, methods) + EncodeRequest(req) + rest) == Connect(req)
  {
    var hello := EncodeGreeting(version, methods) + EncodeRequest(req) + rest;
    assert hello == EncodeGreeting(version, methods) + (EncodeRequest(req) + rest);
    GreetingConsumedWhole(version, methods, EncodeRequest(req) + rest);
    assert hello[2 + |methods|..] == EncodeRequest(req) + rest;
    ParseEncodedRequest(req, rest);
  }

  /** A request for another command or address type ends the handler with no
      reply beyond the greeting's. */
  lemma HandshakeRefusesUnsupported(version: byte, methods: seq<byte>, request: seq<byte>)
    requires |methods| < 256 && |request| >= 4
    requires request[1] != CMD_CONNECT || (request[3] != ATYP_IPV4 && request[3] != ATYP_DOMAIN)
    ensures HandshakeOf(EncodeGreeting(version, methods) + request) == Refuse(Unsupported, GREETING_REPLY)
  {
    var hello := EncodeGreeting(version, methods) + request;
    GreetingConsumedWhole(version, methods, request);
    assert hello[2 + |methods|..] == request;
  }

  /** The whole of `handle_client` for one client. */
  function Session(cid: nat, sockId: nat, hello: seq<byte>, events: seq<Event>, link: Link): (r: SessionResult)
  {
    match HandshakeOf(hello)
    case Refuse(outcome, reply) => SessionResult(outcome, reply, link)
    case Connect(req) => Connected(cid, sockId, req, events, link)
  }

  /** From the CONNECT on: open the module socket, answer, relay. */
  function Connected(cid: nat, sockId: nat, req: ConnectRequest, events: seq<Event>, link: Link): (r: SessionResult)
    requires ValidRequest(req)
  {
    var attempt := OpenEffect(link, cid, sockId, HostText(req.address), req.port);
    if attempt.verdict != Opened then
      SessionResult(OpenFailed, GREETING_REPLY + ConnectReply(false), attempt.link)
    else
      RelayLoop(sockId, events, attempt.link, GREETING_REPLY + ConnectReply(true))
  }

  /** The handler ends before touching the module exactly when the handshake
      is refused, and fails the open exactly when the module does not open
      the socket; every other ending comes from the relay loop. */
  lemma SessionOutcomes(cid: nat, sockId: nat, hello: seq<byte>, events: seq<Event>, link: Link)
    ensures var r := Session(cid, sockId, hello, events, link);
      && (|hello| < 2 ==> r == SessionResult(Dropped, [], link))
      && (r.outcome == Dropped || r.outcome == Unsupported <==> HandshakeOf(hello).Refuse?)
      && (HandshakeOf(hello).Refuse? ==> r.link == link)
      && (r.outcome == Unsupported ==> r.toClient == GREETING_REPLY)
      && (r.outcome == OpenFailed <==> HandshakeOf(hello).Connect? && OpenEffect(link, cid, sockId,
            HostText(HandshakeOf(hello).request.address), HandshakeOf(hello).request.port).verdict != Opened)
  {
    match HandshakeOf(hello)
    case Refuse(_, _) =>
    case Connect(req) =>
      var attempt := OpenEffect(link, cid, sockId, HostText(req.address), req.port);
      if attempt.verdict == Opened {
        RelayLoopOutcome(sockId, events, attempt.link, GREETING_REPLY + ConnectReply(true));
      }
  }

  /** Every client that sends a two-byte greeting header is answered `05 00`
      first, whatever version and methods it offered; a shorter one is sent
      nothing. */
  lemma GreetingAlwaysAnswered(cid: nat, sockId: nat, hello: seq<byte>, events: seq<Event>, link: Link)
    ensures var r := Session(cid, sockId, hello, events, link);
      && (|hello| < 2 ==> r.toClient == [] && r.outcome == Dropped && r.link == link)
      && (|hello| >= 2 ==> |r.toClient| >= 2 && r.toClient[..2] == GREETING_REPLY)
  {
    var r := Session(cid, sockId, hello, events, link);
    match HandshakeOf(hello)
    case Refuse(_, _) =>
    case Connect(req) =>
      var attempt := OpenEffect(link, cid, sockId, HostText(req.address), req.port);
      if attempt.verdict == Opened {
        RelayLoopExtends(sockId, events, attempt.link, GREETING_REPLY + ConnectReply(true));
        assert r.toClient[..2] == r.toClient[..12][..2];
      }
  }

  /** A CONNECT the module does not open is answered `05 01 00 01` and six zero
      bytes, after the QIOPEN command and nothing else was sent. */
  lemma RefusedConnectReply(cid: nat, sockId: nat, req: ConnectRequest, events: seq<Event>, link: Link)
    requires ValidRequest(req)
    requires OpenEffect(link, cid, sockId, HostText(req.address), req.port).verdict != Opened
    ensures var r := Connected(cid, sockId, req, events, link);
      && r.outcome == OpenFailed
      && r.toClient == [5, 0, 5, 1, 0, 1, 0, 0, 0, 0, 0, 0]
      && r.link.tx == link.tx + Encode(OpenCommand(cid, sockId, HostText(req.address), req.port) + "\r")
  {
    RepliesBytes(false);
    ConnectedCases(cid, sockId, req, events, link);
  }

  /** A CONNECT the module opens is answered `05 00 00 01` and six zero bytes
      before any relayed data. */
  lemma OpenedConnectReply(cid: nat, sockId: nat, req: ConnectRequest, events: seq<Event>, link: Link)
    requires ValidRequest(req)
    requires OpenEffect(link, cid, sockId, HostText(req.address), req.port).verdict == Opened
    ensures var r := Connected(cid, sockId, req, events, link);
      |r.toClient| >= 12 && r.toClient[..12] == [5, 0, 5, 0, 0, 1, 0, 0, 0, 0, 0, 0]
  {
    var attempt := OpenEffect(link, cid, sockId, HostText(req.address), req.port);
    var sent := GREETING_REPLY + ConnectReply(true);
    RepliesBytes(true);
    ConnectedCases(cid, sockId, req, events, link);
    RelayLoopExtends(sockId, events, attempt.link, sent);
  }

  lemma ConnectedCases(cid: nat, sockId: nat, req: ConnectRequest, events: seq<Event>, link: Link)
    requires ValidRequest(req)
    ensures var attempt := OpenEffect(link, cid, sockId, HostText(req.address), req.port);
      var r := Connected(cid, sockId, req, events, link);
      && (attempt.verdict != Opened ==>
            r == SessionResult(OpenFailed, GREETING_REPLY + ConnectReply(false), attempt.link))
      && (attempt.verdict == Opened ==>
            r == RelayLoop(sockId, events, attempt.link, GREETING_REPLY + ConnectReply(true)))
  {
  }

  // ---------------------------------------------------------- the methods

  /** `handle_client`. */
  method HandleClient(modem: QuectelModem, hello: seq<byte>, events: seq<Event>)
    returns (toClient: seq<byte>, outcome: Outcome)
    modifies modem
    ensures var r := Session(modem.cid, modem.sockId, hello, events, Link(old(modem.rx), old(modem.tx)));
      outcome == r.outcome && toClient == r.toClient && Link(modem.rx, modem.tx) == r.link
  {
    // SOCKS5 handshake
    var greeting := GreetingLength(hello);
    if greeting.None? {
      return [], Dropped;
    }
    toClient := GREETING_REPLY;

    // CONNECT request
    var parsed := ParseRequest(hello[greeting.value..]);
    if parsed.NotSupported? {
      return toClient, Unsupported;
    }
    if parsed.Malformed? {
      return toClient, Dropped;
    }
    var req := parsed.request;

    // open the module socket and answer
    var ok := modem.OpenTcpDirectPush(HostText(req.address), req.port);
    if !ok {
      toClient := toClient + ConnectReply(false);
      return toClient, OpenFailed;
    }
    toClient := toClient + ConnectReply(true);

    // relay loop
    ghost var goal := RelayLoop(modem.sockId, events, Link(modem.rx, modem.tx), toClient);
    var i := 0;
    while i < |events|
      invariant i <= |events|
      invariant RelayLoop(modem.sockId, events[i..], Link(modem.rx, modem.tx), toClient) == goal
      decreases |events| - i
    {
      assert events[i..][1..] == events[i + 1..];
      var step := RelayEvent(modem, events[i], toClient);
      if step.Stop? {
        return step.result.toClient, step.result.outcome;
      }
      toClient := step.toClient;
      i := i + 1;
    }
    return toClient, Running;
  }

  /** One pass of the loop body for the source `select` reported. */
  method RelayEvent(modem: QuectelModem, event: Event, toClient: seq<byte>) returns (step: Step)
    modifies modem
    ensures step == RelayStep(modem.sockId, event, Link(old(modem.rx), old(modem.tx)), toClient)
    ensures step.Next? ==> Link(modem.rx, modem.tx) == step.link
    ensures step.Stop? ==> Link(modem.rx, modem.tx) == step.result.link
  {
    match event
    case ClientReadable(data) =>
      if data == [] {
        modem.CloseTcp();
        return Stop(SessionResult(ClientClosed, toClient, Link(modem.rx, modem.tx)));
      }
      var r := ForwardClientData(modem, data);
      if r != Acked {
        return Stop(SessionResult(SendFailed(r), toClient, Link(modem.rx, modem.tx)));
      }
      return Next(Link(modem.rx, modem.tx), toClient);
    case SerialReadable =>
      var notice := ServeSerial(modem);
      match notice
      case Deliver(payload, _) =>
        return Next(Link(modem.rx, modem.tx), toClient + payload);
      case Ignore(_) =>
        return Next(Link(modem.rx, modem.tx), toClient);
      case CloseNotice(_) =>
        modem.CloseTcp();
        return Stop(SessionResult(RemoteClosed, toClient, Link(modem.rx, modem.tx)));
      case BadLength(_) =>
        return Stop(SessionResult(BadNotice, toClient, Link(modem.rx, modem.tx)));
      case Waiting(_) =>
        return Stop(SessionResult(Stuck, toClient, Link(modem.rx, modem.tx)));
  }

  /** The chunk loop: `send_raw` of `data[offset:offset+MAX_CHUNK_SIZE]` until
      the offset passes the end; a failed exchange propagates at once. */
  method ForwardClientData(modem: QuectelModem, data: seq<byte>) returns (r: SendResult)
    modifies modem
    ensures var f := SendChunks(Link(old(modem.rx), old(modem.tx)), modem.sockId, Chunks(data, MAX_CHUNK_SIZE));
      r == f.result && Link(modem.rx, modem.tx) == f.link
  {
    var offset := 0;
    while offset < |data|
      invariant offset <= |data|
      invariant SendChunks(Link(modem.rx, modem.tx), modem.sockId, Chunks(data[offset..], MAX_CHUNK_SIZE))
        == SendChunks(Link(old(modem.rx), old(modem.tx)), modem.sockId, Chunks(data, MAX_CHUNK_SIZE))
      decreases |data| - offset
    {
      var chunk := data[offset..offset + Min(MAX_CHUNK_SIZE, |data| - offset)];
      ChunksFrom(data, MAX_CHUNK_SIZE, offset);
      ghost var rest := Chunks(data[offset + |chunk|..], MAX_CHUNK_SIZE);
      ghost var before := Link(modem.rx, modem.tx);
      offset := offset + |chunk|;
      r := modem.SendRaw(chunk);
      SendChunksStep(before, modem.sockId, chunk, rest);
      if r != Acked {
        return;
      }
    }
    assert data[offset..] == [];
    return Acked;
  }

  /** The serial branch of the loop: read a line and act on it; a `recv`
      notice is followed by the payload loop. */
  method ServeSerial(modem: QuectelModem) returns (notice: Notice)
    modifies modem
    ensures notice == NoticeStep(old(modem.rx))
    ensures modem.tx == old(modem.tx)
    ensures modem.rx == notice.rest
  {
    var line := modem.ReadLine();
    if line.None? {
      return Waiting(modem.rx);
    }
    var text := Strip(Decode(line.value));
    if IsRecvNotice(text) {
      var length := ParseDecimal(LastField(text));
      if length.None? {
        return BadLength(modem.rx);
      }
      ghost var after := modem.rx;
      var payload := modem.ReadPayload(length.value);
      if payload.None? {
        return Waiting([]);
      }
      return Deliver(payload.value, modem.rx);
    } else if Contains(text, "closed") {
      return CloseNotice(modem.rx);
    }
    return Ignore(modem.rx);
  }
}
