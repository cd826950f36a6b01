/** CatScan: a TCP port scanner that asks the cellular module to open a
    socket to each address and port in turn, and reads the `+QIOPEN` result
    code out of the module's reply. Each AT command is written with CR LF and
    its reply is whatever the module sent in the next two seconds, modelled as
    the next string of a finite queue of replies (empty once the queue runs
    out). */
module CatScan {
  import opened Text

  // ------------------------------------------------------------- port list

  /** `[p.strip() for p in ports.split(',') if p.strip()]`. */
  function ParsePortList(s: string): (ports: seq<string>)
    ensures AllTrimmed(ports)
  {
    KeepNonEmpty(Split(s, ','))
  }

  /** What `strip` leaves when it leaves anything: no whitespace at either end. */
  predicate Trimmed(p: string) {
    p != [] && !IsSpace(p[0]) && !IsSpace(p[|p| - 1])
  }

  predicate AllTrimmed(ps: seq<string>) {
    forall i | 0 <= i < |ps| :: Trimmed(ps[i])
  }

  function KeepNonEmpty(items: seq<string>): (ports: seq<string>)
    ensures |ports| <= |items|
    ensures AllTrimmed(ports)
  {
    if items == [] then []
    else
      var p := Strip(items[0]);
      var rest := KeepNonEmpty(items[1..]);
      if p == [] then rest
      else
        assert forall i | 1 <= i < |rest| + 1 :: ([p] + rest)[i] == rest[i - 1];
        [p] + rest
  }

  /** What `strip` keeps is part of its input. */
  lemma StripInside(s: string, c: char)
    requires c in Strip(s)
    ensures c in s
  {
    var r := Strip(s);
    StripInfix(s);
    var i, j :| 0 <= i <= j <= |s| && r == s[i..j] && AllSpace(s[..i]) && AllSpace(s[j..]);
    var k :| 0 <= k < |r| && r[k] == c;
    assert s[i + k] == c;
  }

  predicate CommaFree(p: string) {
    ',' !in p
  }

  predicate AllCommaFree(ps: seq<string>) {
    forall i | 0 <= i < |ps| :: CommaFree(ps[i])
  }

  lemma {:induction false} KeepNonEmptyNoComma(items: seq<string>)
    requires AllCommaFree(items)
    ensures AllCommaFree(KeepNonEmpty(items))
  {
    if items != [] {
      KeepNonEmptyNoComma(items[1..]);
      var p := Strip(items[0]);
      var rest := KeepNonEmpty(items[1..]);
      assert CommaFree(items[0]);
      assert CommaFree(p) by {
        if ',' in p {
          StripInside(items[0], ',');
        }
      }
      if p != [] {
        assert KeepNonEmpty(items) == [p] + rest;
        forall i | 0 <= i < |rest| + 1 ensures CommaFree(([p] + rest)[i]) {
          if i > 0 {
            assert ([p] + rest)[i] == rest[i - 1];
          }
        }
      }
    }
  }

  /** No port item contains the separator. */
  lemma ParsePortListNoComma(s: string)
    ensures AllCommaFree(ParsePortList(s))
  {
    var items := Split(s, ',');
    assert AllCommaFree(items);
    KeepNonEmptyNoComma(items);
  }

  /** A list already in the parsed form reads back as itself: the parser keeps
      every item that is trimmed and comma-free, in order. */
  lemma ParsePortListJoin(ports: seq<string>)
    requires |ports| >= 1 && AllTrimmed(ports) && AllCommaFree(ports)
    ensures ParsePortList(Join(ports, ',')) == ports
  {
    assert forall i | 0 <= i < |ports| :: ',' !in ports[i] by {
      forall i | 0 <= i < |ports| ensures ',' !in ports[i] {
        assert CommaFree(ports[i]);
      }
    }
    SplitJoin(ports, ',');
    KeepTrimmed(ports);
  }

  lemma {:induction false} KeepTrimmed(ports: seq<string>)
    requires AllTrimmed(ports)
    ensures KeepNonEmpty(ports) == ports
  {
    if ports != [] {
      assert Trimmed(ports[0]);
      StripPadded(ports[0], "");
      assert ports[0] + "" == ports[0];
      assert AllTrimmed(ports[1..]) by {
        forall i | 0 <= i < |ports| - 1 ensures Trimmed(ports[1..][i]) {
          assert ports[1..][i] == ports[i + 1];
        }
      }
      KeepTrimmed(ports[1..]);
    }
  }

  /** Parsing is idempotent: joining the parsed list with commas and parsing
      again gives the same list. */
  lemma ParsePortListIdempotent(s: string)
    requires ParsePortList(s) != []
    ensures ParsePortList(Join(ParsePortList(s), ',')) == ParsePortList(s)
  {
    ParsePortListNoComma(s);
    ParsePortListJoin(ParsePortList(s));
  }

  // ------------------------------------------------------- the result code

  const QIOPEN_TAG: string := "+QIOPEN:"

  /** End of the run of whitespace starting at `i`. */
  function SkipSpace(s: string, i: nat): (j: nat)
    requires i <= |s|
    ensures i <= j <= |s| && (j == |s| || !IsSpace(s[j]))
    ensures forall k | i <= k < j :: IsSpace(s[k])
    decreases |s| - i
  {
    if i < |s| && IsSpace(s[i]) then SkipSpace(s, i + 1) else i
  }

  /** The match of `\+QIOPEN:\s*\d+,(\d+)` that starts at `k`, if any, as its
      group. Whitespace, digits and the comma are disjoint classes, so the
      greedy runs never give anything back and the match is unique. */
  function MatchAt(s: string, k: nat): (g: Option<string>)
    requires k <= |s|
    ensures g.Some? ==> g.value != [] && AllDigits(g.value)
  {
    if !OccursAt(s, QIOPEN_TAG, k) then None
    else
      var a := SkipSpace(s, k + |QIOPEN_TAG|);
      var b := SkipDigits(s, a);
      if b == a || b == |s| || s[b] != ',' then None
      else
        var c := SkipDigits(s, b + 1);
        if c == b + 1 then None else Some(s[b + 1..c])
  }

  /** `re.search` from position `k` on: the group of the first position that
      matches. */
  function SearchFrom(s: string, k: nat): (g: Option<string>)
    requires k <= |s|
    ensures g.Some? ==> g.value != [] && AllDigits(g.value)
    decreases |s| - k
  {
    if MatchAt(s, k).Some? then MatchAt(s, k)
    else if k == |s| then None
    else SearchFrom(s, k + 1)
  }

  /** The search finds the first match, and finds none only when there is none. */
  lemma {:induction false} SearchFromFirst(s: string, k: nat)
    requires k <= |s|
    ensures SearchFrom(s, k).None? ==> forall j | k <= j <= |s| :: MatchAt(s, j).None?
    ensures SearchFrom(s, k).Some? ==>
      exists j | k <= j <= |s| :: MatchAt(s, j) == SearchFrom(s, k) && NoMatchBetween(s, k, j)
    decreases |s| - k
  {
    if MatchAt(s, k).Some? {
      assert NoMatchBetween(s, k, k);
    } else if k < |s| {
      SearchFromFirst(s, k + 1);
      if SearchFrom(s, k).Some? {
        var j :| k + 1 <= j <= |s| && MatchAt(s, j) == SearchFrom(s, k) && NoMatchBetween(s, k + 1, j);
        assert NoMatchBetween(s, k, j);
      }
    }
  }

  predicate NoMatchBetween(s: string, k: nat, j: nat)
    requires k <= j <= |s|
  {
    forall i | k <= i < j :: MatchAt(s, i).None?
  }

  /** `code2`: the digits after the first `+QIOPEN:`, optional whitespace, a
      number and a comma; None when nothing in the reply matches. */
  function Code2(resp: string): (g: Option<string>)
    ensures g.Some? ==> g.value != [] && AllDigits(g.value)
  {
    SearchFrom(resp, 0)
  }

  /** Positions that cannot start a match are passed over. */
  lemma {:induction false} SearchSkips(s: string, k: nat, m: nat)
    requires k <= m <= |s| && NoMatchBetween(s, k, m)
    ensures SearchFrom(s, k) == SearchFrom(s, m)
    decreases m - k
  {
    if k < m {
      SearchSkips(s, k + 1, m);
    }
  }

  /** The module's answer `+QIOPEN: <id>,<err>` yields `err` as written, provided
      nothing before it starts with `+` and the number is not run on into
      further digits. */
  lemma Code2OfReply(pre: string, id: nat, err: nat, post: string)
    requires '+' !in pre
    requires post == [] || !IsDigit(post[0])
    ensures Code2(pre + "+QIOPEN: " + Decimal(id) + "," + Decimal(err) + post) == Some(Decimal(err))
  {
    var s := pre + "+QIOPEN: " + Decimal(id) + "," + Decimal(err) + post;
    var k := |pre|;
    forall i | 0 <= i < k ensures MatchAt(s, i).None? {
      assert s[i] == pre[i];
      assert s[i..i + |QIOPEN_TAG|][0] == s[i];
    }
    SearchSkips(s, 0, k);
    MatchAtReply(pre, Decimal(id), Decimal(err), post);
  }

  lemma MatchAtReply(pre: string, d1: string, d2: string, post: string)
    requires d1 != [] && AllDigits(d1) && d2 != [] && AllDigits(d2)
    requires post == [] || !IsDigit(post[0])
    ensures var s := pre + "+QIOPEN: " + d1 + "," + d2 + post;
      |pre| <= |s| && MatchAt(s, |pre|) == Some(d2)
  {
    var s := pre + "+QIOPEN: " + d1 + "," + d2 + post;
    var k := |pre|;
    var b := k + 9 + |d1|;
    var c := b + 1 + |d2|;
    assert s[k..k + 8] == QIOPEN_TAG;
    assert s[k + 8] == ' ';
    assert s[k + 9..b] == d1;
    assert s[b] == ',';
    assert s[b + 1..c] == d2;
    assert c == |s| || s[c] == post[0];
    MatchAtFields(s, k, d1, d2);
  }

  /** The tag, one space, digits, a comma and digits not run on into more
      digits: the second run of digits is the group. */
  lemma MatchAtFields(s: string, k: nat, d1: string, d2: string)
    requires d1 != [] && AllDigits(d1) && d2 != [] && AllDigits(d2)
    requires k + 10 + |d1| + |d2| <= |s|
    requires s[k..k + 8] == QIOPEN_TAG && s[k + 8] == ' '
    requires s[k + 9..k + 9 + |d1|] == d1 && s[k + 9 + |d1|] == ','
    requires s[k + 10 + |d1|..k + 10 + |d1| + |d2|] == d2
    requires k + 10 + |d1| + |d2| == |s| || !IsDigit(s[k + 10 + |d1| + |d2|])
    ensures MatchAt(s, k) == Some(d2)
  {
    var a := k + 9;
    var b := a + |d1|;
    var c := b + 1 + |d2|;
    assert OccursAt(s, QIOPEN_TAG, k);
    assert SkipSpace(s, k + 8) == a by {
      assert s[a] == d1[0];
    }
    SkipDigitsOver(s, a, d1);
    SkipDigitsOver(s, b + 1, d2);
  }

  /** `code2` is the group of the first position where the pattern matches,
      and None exactly when it matches nowhere. */
  lemma Code2IsFirstMatch(resp: string)
    ensures Code2(resp).None? <==> forall j | 0 <= j <= |resp| :: MatchAt(resp, j).None?
    ensures Code2(resp).Some? ==>
      exists j | 0 <= j <= |resp| :: MatchAt(resp, j) == Code2(resp) && NoMatchBetween(resp, 0, j)
  {
    SearchFromFirst(resp, 0);
  }

  // ------------------------------------------------------------- reports

  /** One printed line of the scan. */
  datatype Report =
    | Open(ip: string, port: nat)        // `<ip>:<port> - OPEN`
    | Closed(ip: string, port: nat)      // `<ip>:<port> - CLOSED`
    | Unknown(ip: string, port: nat)     // `<ip>:<port> - UNKNOWN`
    | Down(ip: string, port: nat)        // `<ip> - DOWN` (printed without the port)
    | Skipped(item: string)              // `Skipping invalid port: <item>`

  predicate IsValid(r: Report) {
    r.Open? || r.Closed?
  }

  /** The evaluation of one result code: `'0'` is open, `'566'` is closed (the
      module's "connection refused"), anything else, a missing code included,
      is DOWN until the host has given a valid answer and UNKNOWN after. */
  function Classify(code: Option<string>, seenValid: bool, ip: string, port: nat): (r: Report)
    ensures !r.Skipped? && r.ip == ip && r.port == port
    ensures r.Open? <==> code == Some("0")
    ensures r.Closed? <==> code == Some("566")
    ensures r.Down? <==> !seenValid && !IsValid(r)
    ensures r.Unknown? <==> seenValid && !IsValid(r)
  {
    if code == Some("0") then Open(ip, port)
    else if code == Some("566") then Closed(ip, port)
    else if !seenValid then Down(ip, port)
    else Unknown(ip, port)
  }

  /** `AT+QIOPEN=1,0,"TCP","<ip>",<port>,0,0`. */
  function ScanOpenCommand(ip: string, port: nat): string {
    "AT+QIOPEN=1,0,\"TCP\",\"" + ip + "\"," + Decimal(port) + ",0,0"
  }

  const SCAN_CLOSE_COMMAND: string := "AT+QICLOSE=0,10"

  // ---------------------------------------------------------- the scan

  /** The reply to the next command and the replies left after it. */
  function NextReply(replies: seq<string>): string {
    if replies == [] then "" else replies[0]
  }

  function LaterReplies(replies: seq<string>): seq<string> {
    if replies == [] then [] else replies[1..]
  }

  /** Reports, commands written (each with its CR LF) and replies left. */
  datatype ScanRun = ScanRun(reports: seq<Report>, written: seq<string>, replies: seq<string>)

  /** What one port item of the list does. */
  datatype PortRun = PortRun(report: Report, written: seq<string>, replies: seq<string>)

  /** The body of the `for port` loop: an item that is not a number is
      reported and nothing is sent; a number is tried with QIOPEN, closed with
      QICLOSE, and judged on the QIOPEN reply. */
  function ScanItem(ip: string, item: string, seenValid: bool, replies: seq<string>): (p: PortRun)
    ensures p.report.Skipped? <==> ParseDecimal(item).None?
    ensures p.report.Skipped? ==> p.report.item == item && p.written == [] && p.replies == replies
    ensures !p.report.Skipped? ==>
      && p.report.ip == ip && Some(p.report.port) == ParseDecimal(item)
      && p.written == [ScanOpenCommand(ip, p.report.port) + "\r\n", SCAN_CLOSE_COMMAND + "\r\n"]
      && p.replies == LaterReplies(LaterReplies(replies))
    ensures !p.report.Skipped? ==>
      p.report == Classify(Code2(NextReply(replies)), seenValid, ip, p.report.port)
  {
    match ParseDecimal(item)
    case None => PortRun(Skipped(item), [], replies)
    case Some(port) =>
      PortRun(Classify(Code2(NextReply(replies)), seenValid, ip, port),
              [ScanOpenCommand(ip, port) + "\r\n", SCAN_CLOSE_COMMAND + "\r\n"],
              LaterReplies(LaterReplies(replies)))
  }

  /** Every report other than a skipped item names one of `ips`. */
  predicate AllAbout(rs: seq<Report>, ips: seq<string>) {
    forall i | 0 <= i < |rs| :: !rs[i].Skipped? ==> rs[i].ip in ips
  }

  /** One report per item of a list of `n`, unless the last report is DOWN. */
  predicate CoversOrStopsAtDown(rs: seq<Report>, n: nat) {
    |rs| <= n && (|rs| < n ==> rs != [] && rs[|rs| - 1].Down?)
  }

  /** The `for port` loop for one address. */
  function HostScan(ip: string, ports: seq<string>, seenValid: bool, replies: seq<string>): (h: ScanRun)
    ensures CoversOrStopsAtDown(h.reports, |ports|)
    ensures AllAbout(h.reports, [ip])
    decreases |ports|
  {
    if ports == [] then ScanRun([], [], replies)
    else
      var p := ScanItem(ip, ports[0], seenValid, replies);
      if p.report.Down? then ScanRun([p.report], p.written, p.replies)
      else
        var h := HostScan(ip, ports[1..], seenValid || IsValid(p.report), p.replies);
        var rs := [p.report] + h.reports;
        assert forall i | 1 <= i < |rs| :: rs[i] == h.reports[i - 1];
        assert AllAbout(rs, [ip]);
        ScanRun(rs, p.written + h.written, h.replies)
  }

  /** The `for ip` loop: every address starts with `seen_valid` false. */
  function Scan(ips: seq<string>, ports: seq<string>, replies: seq<string>): (s: ScanRun)
    ensures AllAbout(s.reports, ips)
    decreases |ips|
  {
    if ips == [] then ScanRun([], [], replies)
    else
      var h := HostScan(ips[0], ports, false, replies);
      var rest := Scan(ips[1..], ports, h.replies);
      var rs := h.reports + rest.reports;
      assert forall i | |h.reports| <= i < |rs| :: rs[i] == rest.reports[i - |h.reports|];
      assert forall ip | ip in ips[1..] :: ip in ips;
      assert forall i | 0 <= i < |h.reports| :: !h.reports[i].Skipped? ==> h.reports[i].ip in [ips[0]];
      assert AllAbout(rs, ips);
      ScanRun(rs, h.written + rest.written, rest.replies)
  }

  /** Whether any report so far was OPEN or CLOSED. */
  function AnyValid(rs: seq<Report>): bool {
    if rs == [] then false else IsValid(rs[0]) || AnyValid(rs[1..])
  }

  /** The order the `seen_valid` flag imposes on one address's reports, read
      left to right with the flag's current value. */
  predicate FlagOrder(rs: seq<Report>, seenValid: bool) {
    rs != [] ==>
      && (rs[0].Down? ==> !seenValid && |rs| == 1)
      && (rs[0].Unknown? ==> seenValid)
      && FlagOrder(rs[1..], seenValid || IsValid(rs[0]))
  }

  lemma {:induction false} HostScanFlagOrder(ip: string, ports: seq<string>, seenValid: bool, replies: seq<string>)
    ensures FlagOrder(HostScan(ip, ports, seenValid, replies).reports, seenValid)
    decreases |ports|
  {
    if ports != [] {
      var h := HostScan(ip, ports, seenValid, replies);
      var p := ScanItem(ip, ports[0], seenValid, replies);
      if !p.report.Down? {
        var seen := seenValid || IsValid(p.report);
        HostScanFlagOrder(ip, ports[1..], seen, p.replies);
        assert h.reports[1..] == HostScan(ip, ports[1..], seen, p.replies).reports;
      }
    }
  }

  lemma {:induction false} FlagOrderMeans(rs: seq<Report>, seenValid: bool)
    requires FlagOrder(rs, seenValid)
    ensures forall i | 0 <= i < |rs| ::
      && (rs[i].Down? ==> i == |rs| - 1 && !seenValid && !AnyValid(rs[..i]))
      && (rs[i].Unknown? ==> seenValid || AnyValid(rs[..i]))
  {
    if rs != [] {
      var seen := seenValid || IsValid(rs[0]);
      FlagOrderMeans(rs[1..], seen);
      forall i | 1 <= i < |rs|
        ensures (rs[i].Down? ==> i == |rs| - 1 && !seenValid && !AnyValid(rs[..i]))
        ensures (rs[i].Unknown? ==> seenValid || AnyValid(rs[..i]))
      {
        assert rs[..i][1..] == rs[1..][..i - 1];
        assert rs[i] == rs[1..][i - 1];
      }
      assert rs[..0] == [];
    }
  }

  /** The `seen_valid` state machine of one address, stated over the reports
      it prints: DOWN can only be the last report and only while no port has
      been found open or closed, after which nothing more is scanned; UNKNOWN
      only comes after an OPEN or CLOSED (or with the flag already set). */
  lemma HostScanOrder(ip: string, ports: seq<string>, seenValid: bool, replies: seq<string>)
    ensures var rs := HostScan(ip, ports, seenValid, replies).reports;
      forall i | 0 <= i < |rs| ::
        && (rs[i].Down? ==> i == |rs| - 1 && !seenValid && !AnyValid(rs[..i]))
        && (rs[i].Unknown? ==> seenValid || AnyValid(rs[..i]))
  {
    HostScanFlagOrder(ip, ports, seenValid, replies);
    FlagOrderMeans(HostScan(ip, ports, seenValid, replies).reports, seenValid);
  }

  /** The commands written for an address: one QIOPEN and one QICLOSE for each
      accepted port, in report order, none for a skipped one. */
  function Commands(rs: seq<Report>): seq<string> {
    if rs == [] then []
    else if rs[0].Skipped? then Commands(rs[1..])
    else [ScanOpenCommand(rs[0].ip, rs[0].port) + "\r\n", SCAN_CLOSE_COMMAND + "\r\n"] + Commands(rs[1..])
  }

  /** The number of ports that were accepted. */
  function Accepted(rs: seq<Report>): nat {
    if rs == [] then 0 else (if rs[0].Skipped? then 0 else 1) + Accepted(rs[1..])
  }

  lemma {:induction false} CommandsCount(rs: seq<Report>)
    ensures |Commands(rs)| == 2 * Accepted(rs)
  {
    if rs != [] {
      CommandsCount(rs[1..]);
    }
  }

  /** What one address's scan writes is fixed by what it reports, and it
      consumes one reply per command (fewer once the replies run out). */
  lemma {:induction false} HostScanCommands(ip: string, ports: seq<string>, seenValid: bool, replies: seq<string>)
    ensures var h := HostScan(ip, ports, seenValid, replies);
      && h.written == Commands(h.reports)
      && |h.written| == 2 * Accepted(h.reports)
      && (2 * Accepted(h.reports) <= |replies| ==> |h.replies| == |replies| - 2 * Accepted(h.reports))
    decreases |ports|
  {
    var h := HostScan(ip, ports, seenValid, replies);
    CommandsCount(h.reports);
    if ports != [] {
      var p := ScanItem(ip, ports[0], seenValid, replies);
      if !p.report.Down? {
        var seen := seenValid || IsValid(p.report);
        HostScanCommands(ip, ports[1..], seen, p.replies);
        assert h.reports[1..] == HostScan(ip, ports[1..], seen, p.replies).reports;
      } else {
        assert h.reports[1..] == [];
      }
    }
  }

  /** A port that is not a number is reported and passed over: no command is
      written, no reply consumed, and the `seen_valid` flag carries on. */
  lemma SkippedPortIsInert(ip: string, item: string, ports: seq<string>, seenValid: bool, replies: seq<string>)
    requires ParseDecimal(item).None?
    ensures var h := HostScan(ip, [item] + ports, seenValid, replies);
      var t := HostScan(ip, ports, seenValid, replies);
      h.reports == [Skipped(item)] + t.reports && h.written == t.written && h.replies == t.replies
  {
    assert ([item] + ports)[1..] == ports;
  }

  /** The first accepted port of every address is judged with `seen_valid`
      false: an address whose first answer carries neither code is reported
      DOWN and no further port of it is tried, whatever came before it. */
  lemma EveryHostStartsUnseen(ip: string, ips: seq<string>, ports: seq<string>, replies: seq<string>)
    requires ports != [] && ParseDecimal(ports[0]).Some?
    requires var c := Code2(NextReply(replies)); c != Some("0") && c != Some("566")
    ensures var s := Scan([ip] + ips, ports, replies);
      |s.reports| >= 1 && s.reports[0] == Down(ip, ParseDecimal(ports[0]).value)
      && s.written[..2] == [ScanOpenCommand(ip, ParseDecimal(ports[0]).value) + "\r\n", SCAN_CLOSE_COMMAND + "\r\n"]
  {
    assert ([ip] + ips)[0] == ip;
  }

  // ------------------------------------------------------------ the method

  /** The serial port as the scanner uses it. */
  class ScanPort {
    /** Replies still to come, one per command. */
    var replies: seq<string>
    /** Everything written. */
    var written: seq<string>

    constructor (replies: seq<string>)
      ensures this.replies == replies && written == []
    {
      this.replies := replies;
      written := [];
    }

    /** `send_at_command`: write the command and CR LF, then take what arrived. */
    method SendAtCommand(cmd: string) returns (resp: string)
      modifies this
      ensures resp == NextReply(old(replies))
      ensures replies == LaterReplies(old(replies)) && written == old(written) + [cmd + "\r\n"]
    {
      written := written + [cmd + "\r\n"];
      resp := NextReply(replies);
      replies := LaterReplies(replies);
    }
  }

  /** The nested loops of `main`: every address in turn. */
  method RunScan(ser: ScanPort, ips: seq<string>, ports: seq<string>) returns (reports: seq<Report>)
    modifies ser
    ensures var s := Scan(ips, ports, old(ser.replies));
      reports == s.reports && ser.written == old(ser.written) + s.written && ser.replies == s.replies
  {
    reports := [];
    var i := 0;
    while i < |ips|
      invariant i <= |ips|
      invariant var s := Scan(ips[i..], ports, ser.replies);
        var whole := Scan(ips, ports, old(ser.replies));
        reports + s.reports == whole.reports && ser.written + s.written == old(ser.written) + whole.written
        && s.replies == whole.replies
      decreases |ips| - i
    {
      ghost var h := HostScan(ips[i], ports, false, ser.replies);
      ghost var n := Scan(ips[i + 1..], ports, h.replies);
      ghost var w := ser.written;
      ghost var whole := Scan(ips, ports, old(ser.replies));
      ScanAdvance(ips, i, ports, ser.replies);
      ScanSplice(reports, w, old(ser.written), whole, Scan(ips[i..], ports, ser.replies), h, n);
      var host := ScanHost(ser, ips[i], ports);
      reports := reports + host;
      i := i + 1;
    }
  }

  /** How the `for ip` loop advances by one address. */
  lemma ScanAdvance(ips: seq<string>, i: nat, ports: seq<string>, replies: seq<string>)
    requires i < |ips|
    ensures var h := HostScan(ips[i], ports, false, replies);
      var n := Scan(ips[i + 1..], ports, h.replies);
      Scan(ips[i..], ports, replies) == ScanRun(h.reports + n.reports, h.written + n.written, n.replies)
  {
    assert ips[i..][1..] == ips[i + 1..];
  }

  /** Bookkeeping for one pass of the address loop. */
  lemma ScanSplice(reports: seq<Report>, written: seq<string>, written0: seq<string>,
                   whole: ScanRun, s: ScanRun, h: ScanRun, n: ScanRun)
    requires reports + s.reports == whole.reports
    requires written + s.written == written0 + whole.written
    requires s == ScanRun(h.reports + n.reports, h.written + n.written, n.replies)
    ensures (reports + h.reports) + n.reports == whole.reports
    ensures (written + h.written) + n.written == written0 + whole.written
  {
    assert (reports + h.reports) + n.reports == reports + (h.reports + n.reports);
    assert (written + h.written) + n.written == written + (h.written + n.written);
  }

  /** How the `for port` loop advances by one item. */
  lemma HostScanAdvance(ip: string, ports: seq<string>, j: nat, seenValid: bool, replies: seq<string>)
    requires j < |ports|
    ensures var p := ScanItem(ip, ports[j], seenValid, replies);
      var t := HostScan(ip, ports[j..], seenValid, replies);
      var n := HostScan(ip, ports[j + 1..], seenValid || IsValid(p.report), p.replies);
      && (p.report.Down? ==> t == ScanRun([p.report], p.written, p.replies))
      && (!p.report.Down? ==> t == ScanRun([p.report] + n.reports, p.written + n.written, n.replies))
  {
    assert ports[j..][1..] == ports[j + 1..];
  }

  /** Bookkeeping for one pass of the port loop: what is reported and written
      so far, followed by the rest of the run, is still the whole run. */
  lemma ScanHostStep(host: ScanRun, t: ScanRun, p: PortRun, n: ScanRun,
                     reports: seq<Report>, written: seq<string>, written0: seq<string>)
    requires reports + t.reports == host.reports
    requires written + t.written == written0 + host.written
    requires t == ScanRun([p.report] + n.reports, p.written + n.written, n.replies)
    ensures (reports + [p.report]) + n.reports == host.reports
    ensures (written + p.written) + n.written == written0 + host.written
  {
    assert (reports + [p.report]) + n.reports == reports + ([p.report] + n.reports);
    assert (written + p.written) + n.written == written + (p.written + n.written);
  }

  /** The body of the `for ip` loop: `seen_valid` starts false, then every port
      in turn until the address is found down. */
  method ScanHost(ser: ScanPort, ip: string, ports: seq<string>) returns (reports: seq<Report>)
    modifies ser
    ensures var h := HostScan(ip, ports, false, old(ser.replies));
      reports == h.reports && ser.written == old(ser.written) + h.written && ser.replies == h.replies
  {
    ghost var host := HostScan(ip, ports, false, ser.replies);
    ghost var written0 := ser.written;
    reports := [];
    var seenValid := false;
    var j := 0;
    ghost var t := host;
    assert ports[j..] == ports;
    var down := false;
    while j < |ports| && !down
      invariant j <= |ports|
      invariant !down ==> t == HostScan(ip, ports[j..], seenValid, ser.replies)
      invariant down ==> t == ScanRun([], [], ser.replies)
      invariant reports + t.reports == host.reports
      invariant ser.written + t.written == written0 + host.written
      invariant t.replies == host.replies
      decreases |ports| - j, if down then 0 else 1
    {
      ghost var written := ser.written;
      ghost var p := ScanItem(ip, ports[j], seenValid, ser.replies);
      ghost var n := HostScan(ip, ports[j + 1..], seenValid || IsValid(p.report), p.replies);
      HostScanAdvance(ip, ports, j, seenValid, ser.replies);
      var report := TryPort(ser, ip, ports[j], seenValid);
      if report.Down? {
        n := ScanRun([], [], p.replies);
        down := true;
      } else {
        seenValid := seenValid || IsValid(report);
        j := j + 1;
      }
      ScanHostStep(host, t, p, n, reports, written, written0);
      reports := reports + [report];
      t := n;
    }
    assert !down ==> ports[j..] == [];
  }

  /** One pass of the `for port` loop body. */
  method TryPort(ser: ScanPort, ip: string, port: string, seenValid: bool) returns (report: Report)
    modifies ser
    ensures var p := ScanItem(ip, port, seenValid, old(ser.replies));
      report == p.report && ser.written == old(ser.written) + p.written && ser.replies == p.replies
  {
    var parsed := ParseDecimal(port);
    if parsed.None? {
      return Skipped(port);
    }
    var portInt := parsed.value;
    var resp := ser.SendAtCommand(ScanOpenCommand(ip, portInt));
    var _ := ser.SendAtCommand(SCAN_CLOSE_COMMAND);
    var code2 := Code2(resp);
    if code2 == Some("0") {
      report := Open(ip, portInt);
    } else if code2 == Some("566") {
      report := Closed(ip, portInt);
    } else if !seenValid {
      report := Down(ip, portInt);
    } else {
      report := Unknown(ip, portInt);
    }
  }
}
