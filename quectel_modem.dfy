/** The CatSocks modem driver: one Quectel module on one serial line, holding a
    single TCP socket (`sockId`) in direct-push mode. The serial line is two
    byte streams: `rx`, what the module has yet to deliver, consumed from the
    front, and `tx`, everything written to it so far. The driver's waits are
    modelled as their deadlines intend: a deadline that expires is the end of
    `rx`, nothing more arrives in time. The port is in fact opened without a
    read timeout, so reads block; the `...AsWritten` functions below model
    the three waits as they then behave. */
module Modem {
  import opened Text
  import opened Wire

  // ------------------------------------------------- AT command replies

  /** `_send_at` stops reading once its accumulated reply mentions OK or ERROR. */
  predicate Terminated(resp: string) {
    Contains(resp, "OK") || Contains(resp, "ERROR")
  }

  function ReplyFrom(s: seq<byte>, n: nat): (m: nat)
    requires n <= |s|
    requires forall j | 0 <= j <= n :: !Terminated(Decode(s[..j]))
    ensures n <= m <= |s|
    ensures Terminated(Decode(s[..m])) || m == |s|
    ensures forall j | 0 <= j < m :: !Terminated(Decode(s[..j]))
    decreases |s| - n
  {
    if n == |s| then n
    else if Terminated(Decode(s[..n + 1])) then n + 1
    else ReplyFrom(s, n + 1)
  }

  /** How many bytes `_send_at` reads: up to the first point at which the reply
      so far contains OK or ERROR, or everything that arrives before the
      deadline. */
  function AtReplyLength(s: seq<byte>): (m: nat)
    ensures m <= |s|
    ensures Terminated(Decode(s[..m])) || m == |s|
    ensures forall j | 0 <= j < m :: !Terminated(Decode(s[..j]))
  {
    assert forall j | 0 <= j <= 0 :: s[..j] == [];
    ReplyFrom(s, 0)
  }

  // ---------------------------------------------------------- QIOPEN

  /** `AT+QIOPEN=<cid>,<sock_id>,"TCP","<host>",<port>,0,1`: direct-push mode. */
  function OpenCommand(cid: nat, sockId: nat, host: string, port: nat): (c: string)
    requires IsAscii(host)
    ensures IsAscii(c)
  {
    DecimalIsAscii(cid); DecimalIsAscii(sockId); DecimalIsAscii(port);
    "AT+QIOPEN=" + Decimal(cid) + "," + Decimal(sockId) + ",\"TCP\",\"" + host + "\"," + Decimal(port) + ",0,1"
  }

  /** A line reporting that socket `sockId` opened: `+QIOPEN: <id>,0`, or `CONNECT`. */
  predicate OpenSuccess(line: string, sockId: nat) {
    Contains(line, "+QIOPEN: " + Decimal(sockId) + ",0") || line == "CONNECT"
  }

  /** A line reporting any result for socket `sockId`. */
  predicate OpenFailure(line: string, sockId: nat) {
    Contains(line, "+QIOPEN: " + Decimal(sockId) + ",")
  }

  datatype OpenVerdict = Opened | Refused | NoAnswer

  datatype OpenScanResult = OpenScanResult(verdict: OpenVerdict, rest: seq<byte>)

  /** The line-by-line scan `open_tcp_direct_push` makes of what arrives after
      the command: the success test, then the failure test, on each line in turn. */
  function OpenScan(s: seq<byte>, sockId: nat): (r: OpenScanResult)
    ensures |r.rest| <= |s|
    decreases |s|
  {
    if s == [] then OpenScanResult(NoAnswer, [])
    else
      var n := LineEnd(s);
      var t := LineText(s[..n]);
      if OpenSuccess(t, sockId) then OpenScanResult(Opened, s[n..])
      else if OpenFailure(t, sockId) then OpenScanResult(Refused, s[n..])
      else OpenScan(s[n..], sockId)
  }

  /** The scan leaves unread a suffix of what it was given: the lines after
      the decisive one, or nothing when no line decides. */
  lemma {:induction false} OpenScanRest(s: seq<byte>, sockId: nat)
    ensures var r := OpenScan(s, sockId);
      && r.rest == s[|s| - |r.rest|..]
      && (r.verdict == NoAnswer ==> r.rest == [])
      && (r.verdict != NoAnswer ==> |r.rest| < |s|)
    decreases |s|
  {
    if s != [] {
      var n := LineEnd(s);
      var t := LineText(s[..n]);
      if !OpenSuccess(t, sockId) && !OpenFailure(t, sockId) {
        OpenScanRest(s[n..], sockId);
        var r := OpenScan(s[n..], sockId);
        assert s[n..][|s[n..]| - |r.rest|..] == s[|s| - |r.rest|..];
      }
    }
  }

  function LineTexts(s: seq<byte>): (ts: seq<string>)
    ensures |ts| == |Lines(s)|
  {
    seq(|Lines(s)|, i requires 0 <= i < |Lines(s)| => LineText(Lines(s)[i]))
  }

  lemma LineTextsCons(s: seq<byte>)
    requires s != []
    ensures LineTexts(s) == [LineText(s[..LineEnd(s)])] + LineTexts(s[LineEnd(s)..])
  {
    var n := LineEnd(s);
    var ls := Lines(s);
    var tail := Lines(s[n..]);
    assert ls == [s[..n]] + tail;
    var a := LineTexts(s);
    var b := [LineText(s[..n])] + LineTexts(s[n..]);
    assert |a| == |b|;
    forall i | 0 <= i < |a| ensures a[i] == b[i] {
      if i > 0 {
        assert ls[i] == tail[i - 1];
      }
    }
  }

  /** What one line says about the open, success test first. */
  function LineVerdict(line: string, sockId: nat): OpenVerdict {
    if OpenSuccess(line, sockId) then Opened
    else if OpenFailure(line, sockId) then Refused
    else NoAnswer
  }

  /** The verdict of the first line that has one. */
  function FirstVerdict(ts: seq<string>, sockId: nat): OpenVerdict {
    if ts == [] then NoAnswer
    else if LineVerdict(ts[0], sockId) != NoAnswer then LineVerdict(ts[0], sockId)
    else FirstVerdict(ts[1..], sockId)
  }

  /** The scan over bytes gives the verdict of the first decisive line of text. */
  lemma {:induction false} OpenScanVerdict(s: seq<byte>, sockId: nat)
    ensures OpenScan(s, sockId).verdict == FirstVerdict(LineTexts(s), sockId)
    decreases |s|
  {
    if s != [] {
      var n := LineEnd(s);
      LineTextsCons(s);
      OpenScanVerdict(s[n..], sockId);
      assert LineTexts(s)[1..] == LineTexts(s[n..]);
    }
  }

  /** Line `k` is the first line that mentions socket `sockId`'s open result. */
  predicate DecidesAt(ts: seq<string>, sockId: nat, k: nat) {
    k < |ts| && LineVerdict(ts[k], sockId) != NoAnswer
    && forall j | 0 <= j < k :: LineVerdict(ts[j], sockId) == NoAnswer
  }

  /** The first decisive line decides; with none, the open times out. */
  lemma {:induction false} FirstVerdictDecides(ts: seq<string>, sockId: nat)
    ensures FirstVerdict(ts, sockId) == NoAnswer <==> forall k | 0 <= k < |ts| :: LineVerdict(ts[k], sockId) == NoAnswer
    ensures forall k: nat | DecidesAt(ts, sockId, k) :: FirstVerdict(ts, sockId) == LineVerdict(ts[k], sockId)
  {
    if ts != [] {
      var ts' := ts[1..];
      FirstVerdictDecides(ts', sockId);
      if LineVerdict(ts[0], sockId) == NoAnswer {
        forall k: nat | DecidesAt(ts, sockId, k)
          ensures FirstVerdict(ts, sockId) == LineVerdict(ts[k], sockId)
        {
          assert DecidesAt(ts', sockId, k - 1);
        }
        forall k | 0 <= k < |ts| && LineVerdict(ts[k], sockId) != NoAnswer
          ensures FirstVerdict(ts, sockId) != NoAnswer
        {
          assert LineVerdict(ts'[k - 1], sockId) != NoAnswer;
        }
      } else {
        forall k: nat | DecidesAt(ts, sockId, k) ensures k == 0 { }
      }
    }
  }

  /** The open succeeds exactly when the first line that mentions the open
      result passes the success test; it fails on the first line that passes
      only the failure test; with no such line it times out. */
  lemma OpenScanFirstDecisive(s: seq<byte>, sockId: nat)
    ensures var ts := LineTexts(s);
      OpenScan(s, sockId).verdict == NoAnswer <==> forall k | 0 <= k < |ts| :: LineVerdict(ts[k], sockId) == NoAnswer
    ensures var ts := LineTexts(s);
      forall k: nat | DecidesAt(ts, sockId, k) :: OpenScan(s, sockId).verdict == LineVerdict(ts[k], sockId)
  {
    OpenScanVerdict(s, sockId);
    FirstVerdictDecides(LineTexts(s), sockId);
  }

  // ------------------------------------------------------ QISEND framing

  /** `AT+QISEND=<sock_id>,<len>` and its carriage return. */
  function QisendCommand(sockId: nat, length: nat): (c: string)
    ensures IsAscii(c)
  {
    DecimalIsAscii(sockId); DecimalIsAscii(length);
    "AT+QISEND=" + Decimal(sockId) + "," + Decimal(length) + "\r"
  }

  /** The command names the socket and carries the payload length, which reads
      back as exactly that length. */
  lemma QisendFields(sockId: nat, length: nat)
    ensures Split(QisendCommand(sockId, length), ',') == ["AT+QISEND=" + Decimal(sockId), Decimal(length) + "\r"]
    ensures ParseDecimal(Decimal(length) + "\r") == Some(length)
  {
    var parts := ["AT+QISEND=" + Decimal(sockId), Decimal(length) + "\r"];
    DecimalHasNoSeparator(sockId, ',');
    DecimalHasNoSeparator(length, ',');
    assert ',' !in parts[0] && ',' !in parts[1];
    assert Join(parts, ',') == QisendCommand(sockId, length);
    SplitJoin(parts, ',');
    DecimalThenSpace(length, '\r');
  }

  /** Index just after the first `>` of `s`. */
  function PromptEnd(s: seq<byte>): (r: Option<nat>)
    ensures r.Some? <==> PROMPT in s
    ensures r.Some? ==> 1 <= r.value <= |s| && s[r.value - 1] == PROMPT && PROMPT !in s[..r.value - 1]
  {
    if PROMPT in s then Some(FirstIndex(s, PROMPT) + 1) else None
  }

  /** `s[..m]` ends with CR LF. */
  predicate EndsLineAt(s: seq<byte>, m: nat) {
    2 <= m <= |s| && s[m - 2] == CR && s[m - 1] == LF
  }

  function AckFrom(s: seq<byte>, m: nat): (r: Option<nat>)
    requires m <= |s|
    ensures r.Some? ==> m <= r.value <= |s| && EndsLineAt(s, r.value)
    ensures r.Some? ==> forall j | m <= j < r.value :: !EndsLineAt(s, j)
    ensures r.None? ==> forall j | m <= j <= |s| :: !EndsLineAt(s, j)
    decreases |s| - m
  {
    if EndsLineAt(s, m) then Some(m)
    else if m == |s| then None
    else AckFrom(s, m + 1)
  }

  /** Length of the one response line after a payload: the bytes through the
      first CR LF, whatever they say. */
  function AckEnd(s: seq<byte>): (r: Option<nat>)
    ensures r.Some? ==> 2 <= r.value <= |s| && EndsLineAt(s, r.value)
    ensures r.Some? ==> forall j | 0 <= j < r.value :: !EndsLineAt(s, j)
    ensures r.None? ==> forall j | 0 <= j <= |s| :: !EndsLineAt(s, j)
  {
    AckFrom(s, 0)
  }

  /** How one `send_raw` ends. The acknowledgement line is not inspected, so
      `Acked` says only that some line came back, not that the module took
      the payload. */
  datatype SendResult = Acked | PromptTimeout | AckTimeout

  datatype Exchange = Exchange(result: SendResult, written: seq<byte>, rest: seq<byte>)

  /** What one `send_raw` of `data` writes, reports and leaves unread. */
  function SendRawEffect(rx: seq<byte>, sockId: nat, data: seq<byte>): (e: Exchange)
  {
    var command := Encode(QisendCommand(sockId, |data|));
    match PromptEnd(rx)
    case None => Exchange(PromptTimeout, command, [])
    case Some(p) =>
      var after := rx[p..];
      match AckEnd(after)
      case None => Exchange(AckTimeout, command + data + [CTRL_Z], [])
      case Some(a) => Exchange(Acked, command + data + [CTRL_Z], after[a..])
  }

  /** The three ways a `send_raw` ends: no prompt in what arrives, a prompt but
      no line after it, or a prompt and a line, past which the rest is left
      unread. The command always goes out; the payload only after a prompt. */
  lemma SendRawEffectCases(rx: seq<byte>, sockId: nat, data: seq<byte>)
    ensures var e := SendRawEffect(rx, sockId, data);
      && e.rest == rx[|rx| - |e.rest|..]
      && (e.result == PromptTimeout <==> PROMPT !in rx)
      && (e.result == PromptTimeout ==> e.written == Encode(QisendCommand(sockId, |data|)))
      && (e.result != PromptTimeout ==> e.written == Encode(QisendCommand(sockId, |data|)) + data + [CTRL_Z])
      && (e.result != Acked ==> e.rest == [])
      && (e.result == Acked ==> |e.rest| + 3 <= |rx| && rx[|rx| - |e.rest| - 2..|rx| - |e.rest|] == [CR, LF])
  {
    var command := Encode(QisendCommand(sockId, |data|));
    var e := SendRawEffect(rx, sockId, data);
    match PromptEnd(rx)
    case None =>
      assert e == Exchange(PromptTimeout, command, []);
    case Some(p) =>
      var after := rx[p..];
      match AckEnd(after)
      case None =>
        assert e == Exchange(AckTimeout, command + data + [CTRL_Z], []);
      case Some(a) =>
        assert e == Exchange(Acked, command + data + [CTRL_Z], after[a..]);
        assert |rx| - |e.rest| == p + a && e.rest == rx[p + a..];
        assert rx[p + a - 2] == CR && rx[p + a - 1] == LF;
        assert rx[p + a - 2..p + a] == [CR, LF];
  }

  /** The QISEND exchange: bytes before the prompt are dropped, the payload and
      Ctrl-Z follow the command, and the first CR LF-terminated line after it
      is consumed whatever its content. */
  lemma QisendFraming(sockId: nat, data: seq<byte>, noise: seq<byte>, line: seq<byte>, rest: seq<byte>)
    requires PROMPT !in noise
    requires EndsLineAt(line, |line|) && forall j | 0 <= j < |line| :: !EndsLineAt(line, j)
    ensures SendRawEffect(noise + [PROMPT] + line + rest, sockId, data)
      == Exchange(Acked, Encode(QisendCommand(sockId, |data|)) + data + [CTRL_Z], rest)
  {
    var rx := noise + [PROMPT] + line + rest;
    FirstIndexAfter(noise, PROMPT, line + rest);
    assert rx == noise + [PROMPT] + (line + rest);
    assert PromptEnd(rx) == Some(|noise| + 1);
    var after := rx[|noise| + 1..];
    assert after == line + rest;
    assert EndsLineAt(after, |line|);
    assert forall j | 0 <= j < |line| :: EndsLineAt(after, j) == EndsLineAt(line, j);
    assert AckEnd(after) == Some(|line|);
  }

  /** The prompt wait as written: `ser.read(1)` on a port opened with
      `timeout=None` blocks until a byte arrives, so the deadline is only
      looked at between bytes, and a module that falls silent leaves the wait
      blocked for good. */
  datatype PromptWait = Prompted(rest: seq<byte>) | Blocked

  function PromptWaitAsWritten(s: seq<byte>): (w: PromptWait)
    ensures w.Blocked? <==> PROMPT !in s
    ensures w.Prompted? ==> |w.rest| < |s| && s[|s| - |w.rest| - 1] == PROMPT && w.rest == s[|s| - |w.rest|..]
    decreases |s|
  {
    if s == [] then Blocked
    else if s[0] == PROMPT then Prompted(s[1..])
    else
      var w := PromptWaitAsWritten(s[1..]);
      assert PROMPT in s <==> PROMPT in s[1..] by {
        assert s == [s[0]] + s[1..];
      }
      w
  }

  /** The wait as written agrees with the intended one whenever `>` arrives,
      and blocks, instead of timing out, whenever it does not. */
  lemma {:induction false} PromptWaitAsWrittenAgrees(s: seq<byte>)
    ensures PROMPT in s ==> PromptWaitAsWritten(s) == Prompted(s[PromptEnd(s).value..])
    ensures PROMPT !in s ==> PromptWaitAsWritten(s) == Blocked
    decreases |s|
  {
    if s != [] && s[0] != PROMPT {
      PromptWaitAsWrittenAgrees(s[1..]);
      if PROMPT in s {
        assert PromptEnd(s).value == PromptEnd(s[1..]).value + 1;
        assert s[1..][PromptEnd(s[1..]).value..] == s[PromptEnd(s).value..];
      }
    }
  }

  /** A module that answers the QISEND command with CR LF and then nothing:
      the wait as written never returns, where the intended one times out and
      `send_raw` raises. */
  lemma SilentModemBlocksPromptWait(sockId: nat, data: seq<byte>)
    ensures PromptWaitAsWritten([CR, LF]) == Blocked
    ensures SendRawEffect([CR, LF], sockId, data).result == PromptTimeout
  {
    PromptWaitAsWrittenAgrees([CR, LF]);
  }

  /** `send_raw` as written: the prompt wait and the acknowledgement wait both
      read with `read(1)`, which blocks, so neither `TimeoutError` is raised;
      the call returns after one CR LF line or never (None). */
  function SendRawAsWritten(rx: seq<byte>, sockId: nat, data: seq<byte>): (r: Option<Exchange>)
    ensures r.Some? ==> r.value.result == Acked
  {
    match PromptWaitAsWritten(rx)
    case Blocked => None
    case Prompted(after) =>
      match AckEnd(after)
      case None => None
      case Some(a) => Some(Exchange(Acked, Encode(QisendCommand(sockId, |data|)) + data + [CTRL_Z], after[a..]))
  }

  /** As written, `send_raw` completes exactly when the intended one is
      acknowledged, with the same writes and the same bytes left; wherever the
      intended one raises a `TimeoutError`, it blocks instead. */
  lemma SendRawAsWrittenAgrees(rx: seq<byte>, sockId: nat, data: seq<byte>)
    ensures var e := SendRawEffect(rx, sockId, data);
      SendRawAsWritten(rx, sockId, data) == if e.result == Acked then Some(e) else None
  {
    PromptWaitAsWrittenAgrees(rx);
  }

  /** A module that shows the prompt and falls silent: the intended `send_raw`
      times out waiting for the response line; as written it never returns. */
  lemma SilentModemBlocksAck(sockId: nat, data: seq<byte>)
    ensures SendRawEffect([PROMPT], sockId, data).result == AckTimeout
    ensures SendRawAsWritten([PROMPT], sockId, data).None?
  {
    assert PromptEnd([PROMPT]) == Some(1);
    assert [PROMPT][1..] == [];
    SendRawAsWrittenAgrees([PROMPT], sockId, data);
  }

  /** `_send_at`'s read loop as written: `read(in_waiting or 1)` blocks until a
      byte arrives, so a module that falls silent before OK or ERROR (and
      before the deadline) leaves the loop blocked for good (None). */
  function ReplyAsWrittenFrom(s: seq<byte>, n: nat): (r: Option<nat>)
    requires n <= |s|
    ensures r.Some? ==> n < r.value <= |s| && Terminated(Decode(s[..r.value]))
    decreases |s| - n
  {
    if n == |s| then None
    else if Terminated(Decode(s[..n + 1])) then Some(n + 1)
    else ReplyAsWrittenFrom(s, n + 1)
  }

  function AtReplyAsWritten(s: seq<byte>): (r: Option<nat>)
    ensures r.Some? ==> 0 < r.value <= |s| && Terminated(Decode(s[..r.value]))
  {
    ReplyAsWrittenFrom(s, 0)
  }

  lemma {:induction false} ReplyAsWrittenAgrees(s: seq<byte>, n: nat)
    requires n <= |s|
    requires forall j | 0 <= j <= n :: !Terminated(Decode(s[..j]))
    ensures var m := ReplyFrom(s, n);
      ReplyAsWrittenFrom(s, n) == if Terminated(Decode(s[..m])) then Some(m) else None
    decreases |s| - n
  {
    if n < |s| && !Terminated(Decode(s[..n + 1])) {
      ReplyAsWrittenAgrees(s, n + 1);
    }
  }

  /** As written, `_send_at` returns exactly when the intended one finds OK or
      ERROR, having read the same bytes; where the intended one returns at its
      deadline, it blocks. */
  lemma AtReplyAsWrittenAgrees(s: seq<byte>)
    ensures var m := AtReplyLength(s);
      AtReplyAsWritten(s) == if Terminated(Decode(s[..m])) then Some(m) else None
  {
    assert forall j | 0 <= j <= 0 :: s[..j] == [];
    ReplyAsWrittenAgrees(s, 0);
  }

  /** A module that answers a command with CR LF and falls silent: the intended
      `_send_at` returns those two bytes at its deadline; as written it never
      returns. */
  lemma SilentModemBlocksSendAt()
    ensures AtReplyLength([CR, LF]) == 2
    ensures AtReplyAsWritten([CR, LF]).None?
  {
    var t := Decode([CR, LF]);
    assert t == "\r\n";
    assert !Contains(t, "OK") by {
      forall k | 0 <= k <= |t| ensures !OccursAt(t, "OK", k) {
        if k == 0 { assert t[0] != 'O'; }
      }
    }
    assert !Contains(t, "ERROR") by {
      forall k | 0 <= k <= |t| ensures !OccursAt(t, "ERROR", k) { }
    }
    assert [CR, LF][..2] == [CR, LF];
    AtReplyAsWrittenAgrees([CR, LF]);
  }

  // ------------------------------------------------------------ the class

  class QuectelModem {
    const cid: nat
    const sockId: nat
    /** Bytes the module has yet to deliver on the serial line. */
    var rx: seq<byte>
    /** Every byte written to the serial line so far. */
    var tx: seq<byte>

    /** Opens the driver on a module that has finished booting (the wait for
        `RDY` is not modelled) and turns command echo off. */
    constructor (cid: nat, sockId: nat, link: seq<byte>)
      ensures this.cid == cid && this.sockId == sockId
      ensures tx == Encode("ATE0\r") && rx == link[AtReplyLength(link)..]
    {
      this.cid := cid;
      this.sockId := sockId;
      rx := link;
      tx := [];
      new;
      var _ := SendAt("ATE0");
    }

    /** `_send_at`: write the command and a carriage return, then read until the
        reply mentions OK or ERROR or nothing more arrives. */
    method SendAt(cmd: string) returns (resp: string)
      requires IsAscii(cmd)
      modifies this
      ensures tx == old(tx) + Encode(cmd + "\r")
      ensures var m := AtReplyLength(old(rx)); resp == Decode(old(rx)[..m]) && rx == old(rx)[m..]
      ensures Terminated(resp) || rx == []
    {
      tx := tx + Encode(cmd + "\r");
      ghost var link := rx;
      ghost var n := 0;
      resp := "";
      assert forall j | 0 <= j <= 0 :: link[..j] == [];
      while rx != []
        invariant tx == old(tx) + Encode(cmd + "\r")
        invariant n <= |link| && rx == link[n..] && resp == Decode(link[..n])
        invariant forall j | 0 <= j <= n :: !Terminated(Decode(link[..j]))
        invariant AtReplyLength(link) == ReplyFrom(link, n)
        decreases |rx|
      {
        var part := rx[0];
        rx := rx[1..];
        assert link[..n + 1] == link[..n] + [part];
        DecodeAppend(link[..n], [part]);
        resp := resp + Decode([part]);
        n := n + 1;
        if Terminated(resp) {
          break;
        }
      }
    }

    /** `open_tcp_direct_push`: issue QIOPEN, then scan the lines that arrive
        within the deadline. */
    method OpenTcpDirectPush(host: string, port: nat) returns (ok: bool)
      requires IsAscii(host)
      modifies this
      ensures tx == old(tx) + Encode(OpenCommand(cid, sockId, host, port) + "\r")
      ensures var scan := OpenScan(old(rx)[AtReplyLength(old(rx))..], sockId);
        ok == (scan.verdict == Opened) && rx == scan.rest
    {
      var _ := SendAt(OpenCommand(cid, sockId, host, port));
      ghost var start := rx;
      while rx != []
        invariant tx == old(tx) + Encode(OpenCommand(cid, sockId, host, port) + "\r")
        invariant OpenScan(start, sockId) == OpenScan(rx, sockId)
        decreases |rx|
      {
        ghost var before := rx;
        var n := LineEnd(rx);
        var line := LineText(rx[..n]);
        rx := rx[n..];
        assert OpenScan(before, sockId) == if OpenSuccess(line, sockId) then OpenScanResult(Opened, rx)
          else if OpenFailure(line, sockId) then OpenScanResult(Refused, rx) else OpenScan(rx, sockId);
        if OpenSuccess(line, sockId) {
          return true;
        }
        if OpenFailure(line, sockId) {
          return false;
        }
      }
      return false;
    }

    /** `_wait_for_prompt`: read single bytes until `>`; bytes before it are lost. */
    method WaitForPrompt() returns (ok: bool)
      modifies this
      ensures tx == old(tx)
      ensures ok == PromptEnd(old(rx)).Some?
      ensures rx == if ok then old(rx)[PromptEnd(old(rx)).value..] else []
    {
      ghost var link := rx;
      ghost var n := 0;
      while rx != []
        invariant tx == old(tx)
        invariant n <= |link| && rx == link[n..] && PROMPT !in link[..n]
        decreases |rx|
      {
        var b := rx[0];
        rx := rx[1..];
        assert link[..n + 1] == link[..n] + [b];
        n := n + 1;
        if b == PROMPT {
          assert link == link[..n - 1] + [PROMPT] + link[n..];
          FirstIndexAfter(link[..n - 1], PROMPT, link[n..]);
          return true;
        }
      }
      assert link[..n] == link;
      return false;
    }

    /** Step 4 of `send_raw`: read single bytes until the bytes read end with
        CR LF. */
    method ReadAck() returns (ok: bool)
      modifies this
      ensures tx == old(tx)
      ensures ok == AckEnd(old(rx)).Some?
      ensures rx == if ok then old(rx)[AckEnd(old(rx)).value..] else []
    {
      ghost var link := rx;
      var line: seq<byte> := [];
      while rx != []
        invariant tx == old(tx)
        invariant |line| <= |link| && line == link[..|line|] && rx == link[|line|..]
        invariant AckEnd(link) == AckFrom(link, |line|) && !EndsLineAt(link, |line|)
        decreases |rx|
      {
        var ch := rx[0];
        rx := rx[1..];
        line := line + [ch];
        if |line| >= 2 && line[|line| - 2] == CR && line[|line| - 1] == LF {
          assert EndsLineAt(link, |line|);
          return true;
        }
      }
      return false;
    }

    /** `send_raw`: QISEND command, prompt, payload and Ctrl-Z, one response line. */
    method SendRaw(data: seq<byte>) returns (r: SendResult)
      modifies this
      ensures var e := SendRawEffect(old(rx), sockId, data);
        r == e.result && tx == old(tx) + e.written && rx == e.rest
    {
      ghost var rx0 := rx;
      ghost var tx0 := tx;
      var command := Encode(QisendCommand(sockId, |data|));
      tx := tx + command;
      var prompted := WaitForPrompt();
      if !prompted {
        assert SendRawEffect(rx0, sockId, data) == Exchange(PromptTimeout, command, []);
        return PromptTimeout;
      }
      ghost var after := rx;
      tx := tx + data + [CTRL_Z];
      assert tx == tx0 + (command + data + [CTRL_Z]);
      var acked := ReadAck();
      assert after == rx0[PromptEnd(rx0).value..];
      if acked {
        assert SendRawEffect(rx0, sockId, data) == Exchange(Acked, command + data + [CTRL_Z], rx);
        r := Acked;
      } else {
        assert SendRawEffect(rx0, sockId, data) == Exchange(AckTimeout, command + data + [CTRL_Z], []);
        r := AckTimeout;
      }
    }

    /** `close_tcp`. */
    method CloseTcp()
      modifies this
      ensures tx == old(tx) + Encode(CloseCommand(sockId) + "\r")
      ensures rx == old(rx)[AtReplyLength(old(rx))..]
    {
      var _ := SendAt(CloseCommand(sockId));
    }

    /** `ser.readline()`: the bytes through the next LF. It blocks (None) while no
        LF arrives. */
    method ReadLine() returns (line: Option<seq<byte>>)
      modifies this
      ensures tx == old(tx)
      ensures line.Some? <==> LF in old(rx)
      ensures line.Some? ==> line.value == old(rx)[..LineEnd(old(rx))] && rx == old(rx)[LineEnd(old(rx))..]
      ensures line.None? ==> rx == old(rx)
    {
      if LF !in rx {
        return None;
      }
      var n := LineEnd(rx);
      line := Some(rx[..n]);
      rx := rx[n..];
    }

    /** The payload loop after a `recv` notice: keep reading until `length`
        bytes are in hand. It blocks (None) when fewer arrive. */
    method ReadPayload(length: nat) returns (payload: Option<seq<byte>>)
      modifies this
      ensures tx == old(tx)
      ensures payload.Some? <==> length <= |old(rx)|
      ensures payload.Some? ==> payload.value == old(rx)[..length] && rx == old(rx)[length..]
      ensures payload.None? ==> rx == []
    {
      ghost var link := rx;
      var got: seq<byte> := [];
      while |got| < length
        invariant tx == old(tx)
        invariant |got| <= length && |got| <= |link| && got == link[..|got|] && rx == link[|got|..]
        decreases length - |got|
      {
        if rx == [] {
          return None;
        }
        var k := if length - |got| <= |rx| then length - |got| else |rx|;
        assert link[..|got| + k] == got + rx[..k];
        got := got + rx[..k];
        rx := rx[k..];
      }
      return Some(got);
    }
  }

  /** `AT+QICLOSE=<sock_id>,10`. */
  function CloseCommand(sockId: nat): (c: string)
    ensures IsAscii(c)
  {
    DecimalIsAscii(sockId);
    "AT+QICLOSE=" + Decimal(sockId) + ",10"
  }
}
