# CatSocks, CatScan and CellS3Enum in Dafny

This project models the decision logic of three small tools. Each tool drives a
Quectel cellular module over a serial line with AT commands.

- **CatSocks** is a SOCKS5 proxy whose upstream connections go through the
  module. It covers the SOCKS5 greeting and CONNECT request (RFC 1928, sections
  3, 4, 5 and 6, as the proxy implements them), the `AT+QIOPEN` open and its
  result lines, the QISEND framing of client data in chunks of at most 1024
  bytes, and the `+QIURC` notices that carry data back or announce a close.
- **CatScan** is a TCP port scanner. It covers the comma-separated port list,
  the extraction of the result code from the `+QIOPEN: <n>,<code>` reply, and
  the per-address loop whose `seen_valid` flag decides between OPEN, CLOSED,
  UNKNOWN and DOWN (which stops the address).
- **CellS3Enum** is an S3 object enumerator that uses the module's HTTPS stack.
  It covers the base×extension object names with order-preserving
  de-duplication, the bucket×object URL loop, the accumulate-until-token
  `send_at`, the `+QHTTPGET: 0,<code>` status, and the classification of
  results.

The serial line and the sockets are explicit values:

- A CatSocks module is two byte streams. `rx` holds what the module has yet to
  deliver and `tx` holds everything written to it. The client is the bytes it
  sends before the relay starts, plus a schedule of readiness events in the
  order `select` reports them.
- CatScan's module is a queue of replies, one per command.
- CellS3Enum's module is the sequence of lines it sends back.

CatSocks opens its serial port with no read timeout (`timeout=None`,
CatSocks/CatSocks.py:66). Two kinds of wait follow from that:

- `open_tcp_direct_push` reads only what is already waiting. Its deadline is
  modelled as the end of the input: nothing more arrives in time.
- `_send_at`, `_wait_for_prompt` and the acknowledgement read of `send_raw`
  read with `read(1)` or `read(in_waiting or 1)`. Those reads block, so each
  deadline is looked at only between bytes. The driver's methods model these
  waits as their deadlines intend: they give up at the end of the input. The
  functions named `...AsWritten` model the blocking reads, and lemmas relate
  the two readings (see "Findings").

`readline` and the payload read of the relay block in both readings. A session
that waits there for bytes that never come ends as `Stuck`.

Loops that change state are methods. The drivers are classes
(`QuectelModem`, `ScanPort`, `EG91`) whose methods update their fields; the
loops of the scripts themselves (`RunScan`, `ScanHost`, `TryPort`,
`BuildObjects`, `Enumerate`, `HandleClient`, `ForwardClientData`) are
module-level methods, most of which take the driver object as a parameter and
modify it. Each is proved against a function that states the same behaviour on
values, and the properties are lemmas about those functions.

Modules and files:

| module | file | models |
|---|---|---|
| `Text` | text.dfy | `strip`, `split`/`join`, `in`, `startswith`, `str(n)`, `int(s)` on strings |
| `Wire` | wire.dfy | bytes, `encode`/`decode` of ASCII text, and lines as `readline` returns them |
| `Socks` | socks.dfy | SOCKS5 greeting, CONNECT request and replies |
| `Chunking` | chunking.dfy | the `MAX_CHUNK_SIZE` slicing of client data |
| `Modem` | quectel_modem.dfy | the `QuectelModem` driver of CatSocks |
| `Relay` | relay.dfy | `handle_client` of CatSocks |
| `CatScan` | catscan.dfy | CatScan |
| `CellS3Enum` | cells3enum.dfy | CellS3Enum |

## Model

| member | source | states |
|---|---|---|
| Text.Strip | CatSocks/CatSocks.py:218 | the stripped text is empty or neither starts nor ends with whitespace |
| Text.StripInfix | CatSocks/CatSocks.py:218 | `strip` keeps one infix of its input and removes only whitespace around it |
| Text.StripPadded | CatSocks/CatSocks.py:218 | a word that starts and ends with non-space, followed by whitespace, strips to the word |
| Text.Split | CatSocks/CatSocks.py:221 | `split` on one character gives at least one field, and no field holds the separator |
| Text.JoinSplit | CatScan/CatScan.py:46 | joining the fields of a split with the separator gives back the string |
| Text.SplitJoin | CatScan/CatScan.py:46 | splitting a join of separator-free fields gives back the fields |
| Text.Decimal | CatSocks/CatSocks.py:139 | `str(n)` is a non-empty run of digits without a leading zero |
| Text.SkipDigits | CatScan/CatScan.py:72 | the greedy `\d+` run ends at the first non-digit or at the end |
| Text.SkipDigitsOver | CatScan/CatScan.py:72 | a run of digits followed by a non-digit is consumed exactly |
| Text.ParseDecimal | CatSocks/CatSocks.py:221 | `int()` succeeds exactly when the stripped text is a non-empty run of digits |
| Text.DecimalValue | CatSocks/CatSocks.py:221 | the digits of `str(n)` have the value n |
| Text.DecimalRoundTrip | CatSocks/CatSocks.py:221 | `int(str(n)) == n` |
| Text.DecimalThenSpace | CatSocks/CatSocks.py:139 | `int(str(n) + "\r") == n` |
| Text.DecimalHasNoSeparator | CatSocks/CatSocks.py:221 | `str(n)` holds no comma or dot |
| Wire.Encode | CatSocks/CatSocks.py:87 | UTF-8 `encode()` of ASCII text gives one byte per character with the same code |
| Wire.Decode | CatSocks/CatSocks.py:218 | `decode()` gives one character per byte with the same code |
| Wire.DecodeEncode | CatSocks/CatSocks.py:87 | decoding what was encoded gives back the ASCII text |
| Wire.EncodeDecode | CatSocks/CatSocks.py:218 | ASCII bytes decode to ASCII text, which encodes back to the bytes |
| Wire.LineEnd | CatSocks/CatSocks.py:218 | `readline` takes the bytes through the first LF and none beyond it |
| Wire.FlattenLines | CatSocks/CatSocks.py:218 | the lines of a stream, concatenated, are the stream |
| Wire.LinesShape | CatSocks/CatSocks.py:218 | every line but the last ends with LF, and no line has an LF before its end |
| Socks.GreetingLength | CatSocks/CatSocks.py:169-170 | the greeting takes two header bytes, then at most NMETHODS more; it fails exactly when the header is short |
| Socks.GreetingConsumedWhole | CatSocks/CatSocks.py:169-171 | a greeting with any version byte and any methods is consumed whole, and nothing after it |
| Socks.Port | CatSocks/CatSocks.py:185 | the big-endian port is below 65536 |
| Socks.ParseRequest | CatSocks/CatSocks.py:174-185 | CMD other than 1, or ATYP other than 1 or 3, yields no reply; an accepted request is well-formed and lies inside the input |
| Socks.ParseEncodedRequest | CatSocks/CatSocks.py:174-185 | every well-formed CONNECT request parses back to itself, whatever follows it |
| Socks.ParsedRequestIsEncoded | CatSocks/CatSocks.py:174-185 | an accepted request is the encoding of what was parsed, except VER and RSV |
| Socks.ParsedIPv4IsEncoded | CatSocks/CatSocks.py:178-179 | an IPv4 request is ten bytes: four octets, then the two port bytes |
| Socks.ParsedDomainIsEncoded | CatSocks/CatSocks.py:180-182 | a domain request is a length byte, that many name bytes, then the two port bytes |
| Socks.PortBytes | CatSocks/CatSocks.py:185 | the two port bytes are recovered from the port |
| Socks.DottedQuadRoundTrip | CatSocks/CatSocks.py:179 | `inet_ntoa` splits at the dots into four decimals that read back as the four octets |
| Socks.HostText | CatSocks/CatSocks.py:179-182 | the host handed to the module is ASCII text |
| Socks.ConnectReply | CatSocks/CatSocks.py:190-192 | the reply is ten bytes: version 5, REP 0 exactly on success, ATYP IPv4, six zero bytes |
| Socks.RepliesBytes | CatSocks/CatSocks.py:171-192 | greeting reply and CONNECT reply together are `05 00 05 0x 00 01` plus six zeros |
| Chunking.ChunksFrom | CatSocks/CatSocks.py:209-211 | one pass of the chunk loop takes the next slice of at most MAX_CHUNK_SIZE bytes |
| Chunking.ChunksFlatten | CatSocks/CatSocks.py:208-213 | the chunks of one read, concatenated in order, give back the read |
| Chunking.ChunkSizes | CatSocks/CatSocks.py:209-211 | every chunk is non-empty and at most MAX_CHUNK_SIZE, and only the last is shorter |
| Chunking.ChunkCount | CatSocks/CatSocks.py:208-211 | the loop makes ceil(len(data) / MAX_CHUNK_SIZE) chunks |
| Chunking.RecvFitsFourChunks | CatSocks/CatSocks.py:37-213 | a read of at most 4096 bytes gives at most four chunks |
| Modem.ReplyFrom | CatSocks/CatSocks.py:89-95 | the reply loop stops at the first point where the text read holds OK or ERROR, or at the end |
| Modem.AtReplyLength | CatSocks/CatSocks.py:89-95 | `_send_at` reads up to the first point where its reply holds OK or ERROR, and no further |
| Modem.OpenCommand | CatSocks/CatSocks.py:103 | the QIOPEN command is ASCII text |
| Modem.OpenScanRest | CatSocks/CatSocks.py:107-117 | the scan leaves unread only the bytes after the deciding line, and nothing when no line decides |
| Modem.OpenScanVerdict | CatSocks/CatSocks.py:110-117 | the scan of the bytes gives the verdict of the first line of text that has one |
| Modem.FirstVerdictDecides | CatSocks/CatSocks.py:110-117 | the first decisive line decides; with none, the open times out |
| Modem.OpenScanFirstDecisive | CatSocks/CatSocks.py:110-117 | the open succeeds or fails as the first line mentioning the result says, success test first, and times out when no line does |
| Modem.QisendFields | CatSocks/CatSocks.py:139 | the QISEND command splits into the socket and a length field that reads back as the chunk length |
| Modem.PromptEnd | CatSocks/CatSocks.py:122-128 | the prompt wait ends just after the first `>`, and there is none exactly when no `>` arrives |
| Modem.AckFrom | CatSocks/CatSocks.py:152-160 | the ack loop stops at the first CR LF at or after its start |
| Modem.AckEnd | CatSocks/CatSocks.py:150-160 | the ack line is the bytes through the first CR LF, whatever they say |
| Modem.SendRawEffectCases | CatSocks/CatSocks.py:130-161 | no `>` in what arrives is a prompt timeout with only the command written; after a `>` the payload and 0x1A follow, and the exchange is acknowledged after a CR LF and times out without one; only bytes after that CR LF are left |
| Modem.QisendFraming | CatSocks/CatSocks.py:139-160 | bytes before `>` are dropped; the command, the payload and 0x1A are written; one CR LF line is consumed |
| Modem.PromptWaitAsWritten | CatSocks/CatSocks.py:122-128 | the blocking wait blocks exactly when no `>` arrives, and otherwise ends just after a `>` |
| Modem.PromptWaitAsWrittenAgrees | CatSocks/CatSocks.py:122-128 | the wait as written agrees with the intended one when `>` arrives, and blocks when it does not |
| Modem.SilentModemBlocksPromptWait | CatSocks/CatSocks.py:66-144 | a module that sends CR LF and falls silent blocks the wait as written, where the intended one times out |
| Modem.SendRawAsWritten | CatSocks/CatSocks.py:130-161 | `send_raw` as written returns only after an acknowledgement line, and never raises |
| Modem.SendRawAsWrittenAgrees | CatSocks/CatSocks.py:66-161 | as written, `send_raw` completes exactly where the intended one is acknowledged, with the same writes and bytes left, and blocks wherever the intended one raises |
| Modem.SilentModemBlocksAck | CatSocks/CatSocks.py:150-161 | a module that sends `>` and falls silent makes the intended ack wait time out and the one as written block |
| Modem.ReplyAsWrittenFrom | CatSocks/CatSocks.py:88-95 | the blocking reply loop returns only once the text read holds OK or ERROR |
| Modem.AtReplyAsWritten | CatSocks/CatSocks.py:83-99 | `_send_at` as written returns a reply that holds OK or ERROR, or never returns |
| Modem.ReplyAsWrittenAgrees | CatSocks/CatSocks.py:88-95 | the blocking loop returns where the intended one finds OK or ERROR, and blocks where the intended one reaches its deadline |
| Modem.AtReplyAsWrittenAgrees | CatSocks/CatSocks.py:66-99 | as written, `_send_at` returns exactly the bytes the intended one reads when they hold OK or ERROR, and blocks otherwise |
| Modem.SilentModemBlocksSendAt | CatSocks/CatSocks.py:83-99 | a module that answers CR LF and falls silent makes the intended `_send_at` return at its deadline and the one as written block |
| Modem.QuectelModem.constructor | CatSocks/CatSocks.py:65-73 | the driver sends `ATE0` and reads its reply |
| Modem.QuectelModem.SendAt | CatSocks/CatSocks.py:83-99 | writes the command and CR, returns the reply through the first OK or ERROR, and leaves the rest unread |
| Modem.QuectelModem.OpenTcpDirectPush | CatSocks/CatSocks.py:101-120 | writes QIOPEN, then returns the verdict of the line scan |
| Modem.QuectelModem.WaitForPrompt | CatSocks/CatSocks.py:122-128 | succeeds exactly when a `>` arrives, consuming through it; otherwise times out |
| Modem.QuectelModem.ReadAck | CatSocks/CatSocks.py:150-161 | succeeds exactly when a CR LF arrives, consuming through it; otherwise times out |
| Modem.QuectelModem.SendRaw | CatSocks/CatSocks.py:130-161 | result, bytes written and bytes left are those of one QISEND exchange |
| Modem.QuectelModem.CloseTcp | CatSocks/CatSocks.py:163-164 | writes `AT+QICLOSE=<sock_id>,10` and reads its reply |
| Modem.QuectelModem.ReadLine | CatSocks/CatSocks.py:218 | returns the bytes through the next LF, and blocks when none arrives |
| Modem.QuectelModem.ReadPayload | CatSocks/CatSocks.py:222-224 | returns exactly `length` bytes, and blocks when fewer arrive |
| Relay.SendChunksWrites | CatSocks/CatSocks.py:208-213 | when every exchange succeeds, the module is sent one frame per chunk, in order |
| Relay.ClientDataForwarded | CatSocks/CatSocks.py:204-213 | one client read becomes frames whose payloads, at most 1024 bytes each, concatenate back to the read |
| Relay.RecvNoticeShape | CatSocks/CatSocks.py:218-221 | a `recv` notice is one line, strips to itself, is recognised, and its last field reads back as its length |
| Relay.RecvNoticeRecognised | CatSocks/CatSocks.py:219 | a `recv` notice starts with `+QIURC` and holds `recv` |
| Relay.RecvNoticeStrips | CatSocks/CatSocks.py:218 | a `recv` notice with its CR LF strips to itself |
| Relay.RecvNoticeLength | CatSocks/CatSocks.py:221 | the last comma field of a `recv` notice reads back as its length |
| Relay.RecvNoticeOneLine | CatSocks/CatSocks.py:218 | a `recv` notice holds no LF before its terminator |
| Relay.RecvNoticeFields | CatSocks/CatSocks.py:221 | the notice is `+QIURC: "recv",<id>,<len>`, and its last field is the length |
| Relay.RecvNoticeDeliversExactly | CatSocks/CatSocks.py:218-226 | a `recv` notice hands the client exactly the announced bytes, whatever they hold, and leaves the rest |
| Relay.NoticeStepCases | CatSocks/CatSocks.py:216-229 | without a whole line nothing is read; otherwise the line is consumed and the payload and the rest, or the rest alone, follow it |
| Relay.NoticeOnLineCases | CatSocks/CatSocks.py:219-229 | a `recv` line delivers its announced length, fails on a length that is not a number, or waits; any other line ends the relay exactly when it holds `closed` |
| Relay.NoticeStepOneLine | CatSocks/CatSocks.py:218-229 | a readable line is decided on its stripped text alone |
| Relay.RecvNoticeOnLine | CatSocks/CatSocks.py:219-226 | a recognised notice with a valid length delivers that many bytes |
| Relay.RelayStep | CatSocks/CatSocks.py:199-229 | client data goes only to the module, serial data only to the client, and a stop sends nothing more |
| Relay.RelayLoopOutcome | CatSocks/CatSocks.py:199-229 | the relay never ends as a refused handshake or a failed open, and is still running only if the client never closed |
| Relay.RelayLoopExtends | CatSocks/CatSocks.py:199-229 | the relay only appends to what the client was sent |
| Relay.HandshakeOf | CatSocks/CatSocks.py:168-185 | a short greeting gets no reply; any other refusal has had `05 00`; a CONNECT is well-formed |
| Relay.HandshakeReadsRequest | CatSocks/CatSocks.py:168-185 | whatever the greeting's version and methods, a well-formed CONNECT is what the handler acts on |
| Relay.HandshakeRefusesUnsupported | CatSocks/CatSocks.py:174-184 | another CMD or ATYP ends the handler with no reply beyond `05 00` |
| Relay.SessionOutcomes | CatSocks/CatSocks.py:166-231 | the handler ends before the module is touched exactly when the handshake is refused, and fails the open exactly when the module does not open the socket |
| Relay.GreetingAlwaysAnswered | CatSocks/CatSocks.py:169-171 | every client with a two-byte greeting header is sent `05 00` first |
| Relay.RefusedConnectReply | CatSocks/CatSocks.py:189-191 | a refused open is answered `05 01 00 01` plus six zeros, after only the QIOPEN command was sent |
| Relay.OpenedConnectReply | CatSocks/CatSocks.py:189-192 | a successful open is answered `05 00 00 01` plus six zeros before any relayed data |
| Relay.ConnectedCases | CatSocks/CatSocks.py:188-192 | after the open, the handler either stops with the failure reply or relays after the success reply |
| Relay.HandleClient | CatSocks/CatSocks.py:166-231 | outcome, client bytes and serial traffic are those of the whole session |
| Relay.RelayEvent | CatSocks/CatSocks.py:199-229 | one pass of the relay loop does what the relay step says |
| Relay.ForwardClientData | CatSocks/CatSocks.py:208-213 | sends the chunks in order and stops at the first failed exchange |
| Relay.ServeSerial | CatSocks/CatSocks.py:216-229 | reads one line and acts on it as the notice step says, writing nothing |
| CatScan.ParsePortList | CatScan/CatScan.py:46 | every item kept is stripped and non-empty |
| CatScan.KeepNonEmpty | CatScan/CatScan.py:46 | the filter keeps at most the items it is given, each trimmed |
| CatScan.StripInside | CatScan/CatScan.py:46 | `strip` adds no character |
| CatScan.KeepNonEmptyNoComma | CatScan/CatScan.py:46 | comma-free items stay comma-free |
| CatScan.ParsePortListNoComma | CatScan/CatScan.py:46 | no port item holds a comma |
| CatScan.ParsePortListJoin | CatScan/CatScan.py:46 | a list of trimmed, comma-free items, joined by commas, parses back to itself in order |
| CatScan.KeepTrimmed | CatScan/CatScan.py:46 | the filter keeps trimmed items unchanged |
| CatScan.ParsePortListIdempotent | CatScan/CatScan.py:46 | parsing the joined result again gives the same list |
| CatScan.SkipSpace | CatScan/CatScan.py:72 | the greedy `\s*` run ends at the first non-space |
| CatScan.MatchAt | CatScan/CatScan.py:72 | a match at a position yields a non-empty digit group |
| CatScan.SearchFrom | CatScan/CatScan.py:72 | a found group is a non-empty run of digits |
| CatScan.SearchFromFirst | CatScan/CatScan.py:72 | the search yields the group at the first matching position, and nothing only when no position matches |
| CatScan.Code2 | CatScan/CatScan.py:72-73 | `code2` is a non-empty run of digits when present |
| CatScan.SearchSkips | CatScan/CatScan.py:72 | positions that cannot start a match are passed over |
| CatScan.Code2OfReply | CatScan/CatScan.py:72-73 | the reply `+QIOPEN: <id>,<err>` yields `err` as written |
| CatScan.MatchAtReply | CatScan/CatScan.py:72 | the pattern matches at the start of `+QIOPEN: <d>,<d>` with the second number as group |
| CatScan.MatchAtFields | CatScan/CatScan.py:72 | tag, whitespace, digits, comma and digits match, with the last digits as group |
| CatScan.Code2IsFirstMatch | CatScan/CatScan.py:72-73 | `code2` is the group of the first match, and None exactly when nothing matches |
| CatScan.Classify | CatScan/CatScan.py:75-88 | `0` is OPEN, `566` is CLOSED, anything else is DOWN before a valid result and UNKNOWN after it, each both ways |
| CatScan.ScanItem | CatScan/CatScan.py:59-88 | a non-number is skipped with no command; a number gets QIOPEN then QICLOSE, and its report is `Classify` of the `code2` found in the reply to that QIOPEN |
| CatScan.HostScan | CatScan/CatScan.py:58-91 | one report per port item unless the address stops at DOWN, which is then the last report; every report of a numeric port names that address |
| CatScan.Scan | CatScan/CatScan.py:57-91 | every report of a numeric port names one of the scanned addresses |
| CatScan.HostScanFlagOrder | CatScan/CatScan.py:57-91 | the reports of one address follow the `seen_valid` flag |
| CatScan.FlagOrderMeans | CatScan/CatScan.py:76-88 | DOWN is last and only with no valid result before; UNKNOWN only after a valid one |
| CatScan.HostScanOrder | CatScan/CatScan.py:57-91 | DOWN ends an address and comes only before any OPEN or CLOSED; UNKNOWN comes only after one |
| CatScan.CommandsCount | CatScan/CatScan.py:67-69 | two commands per accepted port |
| CatScan.HostScanCommands | CatScan/CatScan.py:59-91 | one QIOPEN and one QICLOSE per accepted port, in report order, one reply consumed per command |
| CatScan.SkippedPortIsInert | CatScan/CatScan.py:60-64 | a non-numeric port sends nothing, consumes no reply and leaves the flag as it was |
| CatScan.EveryHostStartsUnseen | CatScan/CatScan.py:57-58 | each address starts with the flag false: a first answer with neither code reports DOWN |
| CatScan.ScanPort.constructor | CatScan/CatScan.py:52 | the port starts with nothing written |
| CatScan.ScanPort.SendAtCommand | CatScan/CatScan.py:126-129 | writes the command and CR LF and takes the next reply |
| CatScan.RunScan | CatScan/CatScan.py:57-91 | reports, commands and replies left are those of the scan of every address |
| CatScan.ScanAdvance | CatScan/CatScan.py:57-58 | the address loop advances one address at a time |
| CatScan.HostScanAdvance | CatScan/CatScan.py:59-91 | the port loop advances one item at a time, and stops after DOWN |
| CatScan.ScanHost | CatScan/CatScan.py:58-91 | reports, commands and replies left are those of the scan of one address |
| CatScan.TryPort | CatScan/CatScan.py:60-88 | one pass of the port loop does what the item scan says |
| CellS3Enum.Product | CellS3Enum/CellS3Enum.py:135-138 | the nested loops append `|bases|·|exts|` names |
| CellS3Enum.ProductIndex | CellS3Enum/CellS3Enum.py:135-138 | the name for base i and extension j is at i·|exts| + j |
| CellS3Enum.BuildObjects | CellS3Enum/CellS3Enum.py:135-138 | the object list is every `base.ext`, bases outer and extensions inner |
| CellS3Enum.DedupFrom | CellS3Enum/CellS3Enum.py:139 | the result has no duplicate and holds exactly the names not already seen |
| CellS3Enum.Dedup | CellS3Enum/CellS3Enum.py:139 | `dict.fromkeys` leaves no duplicate and loses or adds no name |
| CellS3Enum.DedupFromSnoc | CellS3Enum/CellS3Enum.py:139 | a name at the end is kept only if it was not seen before |
| CellS3Enum.DedupKeepsFirst | CellS3Enum/CellS3Enum.py:139 | de-duplication keeps the first occurrence of each name, in original order |
| CellS3Enum.DedupFromDistinct | CellS3Enum/CellS3Enum.py:139 | a list without duplicates is left unchanged |
| CellS3Enum.DedupIdempotent | CellS3Enum/CellS3Enum.py:139 | de-duplicating twice changes nothing more |
| CellS3Enum.TakeThrough | CellS3Enum/CellS3Enum.py:52-59 | the loop reads through the first line holding the token, or to the end |
| CellS3Enum.TakeThroughIs | CellS3Enum/CellS3Enum.py:52-59 | that stopping point is the only one |
| CellS3Enum.HttpStatusFirst | CellS3Enum/CellS3Enum.py:83-85 | `re.search` fails only when the pattern matches nowhere, and otherwise yields the match at the first position |
| CellS3Enum.StatusFromFirst | CellS3Enum/CellS3Enum.py:83 | the status comes from the first match, and fails only when nothing matches |
| CellS3Enum.StatusSkips | CellS3Enum/CellS3Enum.py:83 | positions that cannot start a match are passed over |
| CellS3Enum.StatusOfResult | CellS3Enum/CellS3Enum.py:83-87 | `+QHTTPGET: 0,<code>` yields that code |
| CellS3Enum.FailedResultHasNoStatus | CellS3Enum/CellS3Enum.py:83-85 | a result whose first field is not 0 yields no status |
| CellS3Enum.NoResultAt | CellS3Enum/CellS3Enum.py:83 | no match where there is no `+`, nor where the first field is not 0 |
| CellS3Enum.UrlCommandFields | CellS3Enum/CellS3Enum.py:65 | the QHTTPURL command is `AT+QHTTPURL=`, a length field that reads back as the URL's length, and `,30` |
| CellS3Enum.GetResultCases | CellS3Enum/CellS3Enum.py:83-91 | the GET is a fetch exactly when the buffer holds a status, which it reports, with the QHTTPREAD answer as body; otherwise it raises and reads nothing more |
| CellS3Enum.ConnectedSendsUrl | CellS3Enum/CellS3Enum.py:63-85 | after CONNECT, QHTTPURL, the URL and QHTTPGET are written in that order, and the GET is a fetch exactly when the collected lines hold a status |
| CellS3Enum.UrlRefusedStops | CellS3Enum/CellS3Enum.py:65-67 | a QHTTPURL answer without CONNECT raises, and nothing beyond QHTTPURL is written |
| CellS3Enum.FetchedHasStatus | CellS3Enum/CellS3Enum.py:63-87 | a fetch means QHTTPURL was answered with CONNECT and its status is the one found in the lines collected by the QHTTPGET wait |
| CellS3Enum.FetchedWritesFour | CellS3Enum/CellS3Enum.py:63-88 | a fetch writes exactly QHTTPURL, the URL with Ctrl-Z, QHTTPGET and QHTTPREAD |
| CellS3Enum.AtExchangeReply | CellS3Enum/CellS3Enum.py:46-61 | `send_at` returns the stripped lines through the token, and leaves the rest |
| CellS3Enum.TakeThroughPrefix | CellS3Enum/CellS3Enum.py:52-59 | the loop stops at the first line with the token, whatever follows |
| CellS3Enum.AtExchangeLine | CellS3Enum/CellS3Enum.py:46-61 | a single answer line holding the token is returned stripped |
| CellS3Enum.GetWaitLine | CellS3Enum/CellS3Enum.py:73-80 | the result line ends the QHTTPGET wait and is the whole buffer |
| CellS3Enum.AnsweredGet | CellS3Enum/CellS3Enum.py:63-91 | CONNECT, OK, a good result and a body yield that code and body after four writes |
| CellS3Enum.ConnectAnswered | CellS3Enum/CellS3Enum.py:65-66 | a CONNECT line satisfies QHTTPURL |
| CellS3Enum.OkAnswered | CellS3Enum/CellS3Enum.py:70 | an OK line ends the QHTTPGET command |
| CellS3Enum.BodyAnswered | CellS3Enum/CellS3Enum.py:83-91 | a good status is followed by QHTTPREAD, whose lines through OK are the body |
| CellS3Enum.GetSpecConnected | CellS3Enum/CellS3Enum.py:63-91 | after CONNECT, the URL and QHTTPGET are written and the status decides the rest |
| CellS3Enum.EG91.constructor | CellS3Enum/CellS3Enum.py:14-17 | the client starts with nothing written |
| CellS3Enum.EG91.SendAt | CellS3Enum/CellS3Enum.py:46-61 | writes the command and CR and returns the stripped lines through the first holding `wait` |
| CellS3Enum.EG91.AwaitGet | CellS3Enum/CellS3Enum.py:71-81 | collects stripped lines through the first holding `+QHTTPGET:` |
| CellS3Enum.EG91.HttpsGet | CellS3Enum/CellS3Enum.py:63-91 | status and body, or the error message, and the writes of one GET |
| CellS3Enum.EG91.Finish | CellS3Enum/CellS3Enum.py:83-91 | no status raises; a status is followed by QHTTPREAD and its body |
| CellS3Enum.Truncate | CellS3Enum/CellS3Enum.py:154 | `body[:200]` is a prefix of the body, 200 long when the body is longer and the whole body otherwise |
| CellS3Enum.BannerOf | CellS3Enum/CellS3Enum.py:157-164 | 200 is SUCCESS, 404 NOT FOUND, an exception ERROR, each both ways |
| CellS3Enum.EnumSpec | CellS3Enum/CellS3Enum.py:144-173 | one record per (bucket, object) pair |
| CellS3Enum.EnumSpecRecords | CellS3Enum/CellS3Enum.py:144-156 | every record names its bucket, its object and its URL |
| CellS3Enum.UrlsBucketMajor | CellS3Enum/CellS3Enum.py:144-146 | `|buckets|·|objects|` records, and the one at i·|objects| + j is for bucket i and object j |
| CellS3Enum.EnumSpecSnoc | CellS3Enum/CellS3Enum.py:144-173 | one more pair adds one record and one GET's writes |
| CellS3Enum.Enumerate | CellS3Enum/CellS3Enum.py:144-173 | records, writes and lines left are those of every bucket with every object |
| CellS3Enum.Run | CellS3Enum/CellS3Enum.py:135-173 | objects are built and de-duplicated, then every bucket is tried with every object |

## Left out

- Threads (CatSocks/CatSocks.py:55-62) are left out. Every client shares one module and one socket id without locking, which is a concurrency defect and not modelled.
- `select` is not modelled. Its answers are a given schedule of events.
- Socket reads are not modelled: the client's bytes are given in advance. A `recv` that returns fewer bytes is a read of what is left.
- `finally: client_sock.close()` and logging have no counterpart.
- Relay.HandleClient: it ends with `Running` when the schedule runs out. The source loops for ever.
- Modem.QuectelModem.SendAt: it reads one byte at a time, so it stops just after OK or ERROR. The source reads whatever is waiting and may consume bytes beyond it. The same goes for `reset_input_buffer` (CatSocks/CatSocks.py:86), which drops bytes according to their timing.
- Modem.QuectelModem.SendAt: at the end of the input it returns what was read, as the two-second deadline intends. As written, the read blocks on the port without timeout; Modem.AtReplyAsWritten models that, and the first table under "Findings" lists it.
- Modem.ReplyFrom: the end of the input stands for the two-second deadline. As written, the loop blocks there (Modem.ReplyAsWrittenFrom).
- Modem.AtReplyLength: the end of the input stands for the two-second deadline. As written, `_send_at` blocks there (Modem.AtReplyAsWritten).
- Modem.QuectelModem.WaitForPrompt: it times out at the end of the input, as `PROMPT_TIMEOUT` intends. As written, `read(1)` blocks there (Modem.PromptWaitAsWritten).
- Modem.QuectelModem.ReadAck: it times out at the end of the input, as `ACK_TIMEOUT` intends. As written, `read(1)` blocks there and the `TimeoutError` is never raised (Modem.SendRawAsWritten).
- Modem.QuectelModem.SendRaw: it returns `PromptTimeout` or `AckTimeout` where the source raises after its deadline. As written, the source blocks instead of raising (Modem.SendRawAsWritten, Modem.SendRawAsWrittenAgrees).
- Relay.HandleClient: it follows the driver's intended deadlines. As written, a module that falls silent inside `_send_at` or `send_raw` leaves the handler blocked, where the model ends with `OpenFailed`, `SendFailed`, `ClientClosed` or `RemoteClosed` (the last two close the link with `close_tcp`, CatSocks/CatSocks.py:163-164 and :231, which goes through `_send_at`).
- Relay.HandleClient: `sendall` on the client socket (CatSocks/CatSocks.py:226) is not modelled as failing. After `setblocking(False)` (:197) it raises `BlockingIOError` when the client's socket buffer is full, and the handler then ends without `close_tcp`; in the model every delivery is appended to the client's bytes.
- Modem.QuectelModem.SendRaw: every write to the serial port is taken whole. With `write_timeout=0` (CatSocks/CatSocks.py:66) pyserial's `write` does not block and returns the number of bytes written, which CatSocks/CatSocks.py:87, :140, :147 and :148 ignore, so a command or a payload can go out only in part; partial writes are not modelled.
- Modem.QuectelModem.OpenTcpDirectPush: it tests whole lines and leaves the bytes after the deciding line unread. The source reads whatever is waiting and re-tests all of `buffer.splitlines()`, so its result depends on how the bytes are split between reads.
- Wire.LineText: it splits at LF and drops a CR before it. `splitlines` also splits at a lone CR and at other separators.
- Wire.Decode: it is one character per byte. UTF-8 decoding and `errors='ignore'` are not modelled.
- Wire.Encode: it is defined only on ASCII text (code points below 0x80), where UTF-8 gives one byte per character. Every string the model writes to the module is ASCII; the encoding of wider characters is not modelled.
- Socks.ParseRequest: it accepts a domain name only in ASCII, because UTF-8 decoding is not modelled. The source accepts any valid UTF-8 name.
- Text.ParseDecimal: it accepts only ASCII digits after whitespace is stripped. Python's `int()` also takes a sign, underscores and other Unicode digits.
- CatScan.MatchAt: `\d` is the ASCII digits. Python's `\d` on a `str` also matches the other Unicode decimal digits. `\s` is the whitespace of `str.isspace`, as in Python.
- CellS3Enum.StatusAt: `\d` in `\+QHTTPGET: 0,(\d+)` (CellS3Enum/CellS3Enum.py:83) is the ASCII digits. Python's `\d` on a `str` also matches the other Unicode decimal digits.
- CatScan.ScanPort.SendAtCommand: the reply to each command is the next string of a queue. The two-second wait and `read_all` are not modelled.
- CatScan.ScanPort.SendAtCommand: the strict `.decode()` of the reply (CatScan/CatScan.py:129) raises `UnicodeDecodeError` on bytes that are not UTF-8, and nothing catches it. Replies are modelled as text, so that failure is not modelled.
- CIDR expansion, IP and port file loading, `argparse`, coloured printing, `time.sleep` and `ser.close` in CatScan are not modelled.
- CellS3Enum.EG91.HttpsGet: only the two exceptions `https_get` raises itself are modelled. Serial errors caught by `main` are not.
- CellS3Enum.UrlCommand: `len(url)` counts characters, while the module receives UTF-8 bytes; writes are kept as text.
- `wait_for_ready`, `flush`, `close`, the verbose prints, timestamps, JSON output, colours and file loading in CellS3Enum are not modelled.
- `_wait_for_rdy` is not modelled. The CatSocks constructor starts on a module that has finished booting.

## Findings

| source | as written | input that shows it | evidently intended | confidence | as-written member | corrected member |
|---|---|---|---|---|---|---|
| CatSocks/CatSocks.py:66-128 | The port is opened with `timeout=None`, so `ser.read(1)` blocks until a byte arrives. The 5-second deadline of the prompt wait is never checked while the module is silent, and `send_raw` never raises "No '>' prompt". | The module answers `AT+QISEND` with CR LF and then sends nothing. | Give up after `PROMPT_TIMEOUT` seconds and raise `TimeoutError`. | high; not executed | Modem.SilentModemBlocksPromptWait | Modem.QuectelModem.WaitForPrompt |
| CatSocks/CatSocks.py:150-161 | On the same port, the acknowledgement loop of `send_raw` reads with `ser.read(1)`, which blocks. The 5-second `ACK_TIMEOUT` is never checked while the module is silent, and "Timeout waiting for QISEND response" is never raised. | The module sends `>` and then nothing. | Give up after `ACK_TIMEOUT` seconds and raise `TimeoutError`. | high; not executed | Modem.SilentModemBlocksAck | Modem.QuectelModem.ReadAck |
| CatSocks/CatSocks.py:83-99 | `_send_at` reads with `ser.read(self.ser.in_waiting or 1)`. With nothing waiting that is `read(1)`, which blocks on the same port, so the 2-second deadline never ends a reply that lacks OK and ERROR. The constructor, `open_tcp_direct_push` and `close_tcp` all go through it. | The module answers a command with CR LF and then nothing. | Return what was read after `timeout` seconds. | high; not executed | Modem.SilentModemBlocksSendAt | Modem.QuectelModem.SendAt |
