/** CellS3Enum: S3 object enumeration through the HTTPS stack of a Quectel
    EG91. Object names are every base name with every extension, de-duplicated
    in order; every bucket is asked for every object with an HTTPS GET, and the
    status and body the modem reports are recorded.

    The modem is the line stream it sends back (`lines`, each line as
    `readline()` returns it, its terminator included) and the text written to
    it (`written`). A wall-clock timeout is the end of that stream. */
module CellS3Enum {
  import opened Text

  // ------------------------------------------------------------- targets

  /** One row of a nested `for x in xs: for y in ys` loop. */
  function Row<A, B, C>(x: A, ys: seq<B>, f: (A, B) -> C): seq<C> {
    seq(|ys|, j requires 0 <= j < |ys| => f(x, ys[j]))
  }

  /** What a nested `for x in xs: for y in ys` loop appends, in order. */
  function Product<A, B, C>(xs: seq<A>, ys: seq<B>, f: (A, B) -> C): (ps: seq<C>)
    ensures |ps| == |xs| * |ys|
  {
    if xs == [] then [] else Product(xs[..|xs| - 1], ys, f) + Row(xs[|xs| - 1], ys, f)
  }

  /** The outer loop is the major one: the pair (xs[i], ys[j]) comes at
      position i * |ys| + j. */
  lemma {:induction false} ProductIndex<A, B, C>(xs: seq<A>, ys: seq<B>, f: (A, B) -> C, i: nat, j: nat)
    requires i < |xs| && j < |ys|
    ensures i * |ys| + j < |xs| * |ys|
    ensures Product(xs, ys, f)[i * |ys| + j] == f(xs[i], ys[j])
  {
    var n := |xs| - 1;
    var init := xs[..n];
    assert (i + 1) * |ys| <= |xs| * |ys| by {
      assert i + 1 <= |xs|;
    }
    if i < n {
      ProductIndex(init, ys, f, i, j);
    } else {
      assert |Product(init, ys, f)| == i * |ys|;
    }
  }

  /** One more pass of the inner loop appends one more element. */
  lemma RowSnoc<A, B, C>(before: seq<C>, x: A, ys: seq<B>, j: nat, f: (A, B) -> C)
    requires j < |ys|
    ensures before + Row(x, ys[..j + 1], f) == before + Row(x, ys[..j], f) + [f(x, ys[j])]
  {
    assert Row(x, ys[..j + 1], f) == Row(x, ys[..j], f) + [f(x, ys[j])];
  }

  function ObjectName(base: string, ext: string): string {
    base + "." + ext
  }

  function Url(bucket: string, endpoint: string, obj: string): string {
    "https://" + bucket + "." + endpoint + "/" + obj
  }

  function Pair(bucket: string, obj: string): (string, string) {
    (bucket, obj)
  }

  /** The nested `append` loops building the object list. */
  method BuildObjects(bases: seq<string>, exts: seq<string>) returns (objects: seq<string>)
    ensures objects == Product(bases, exts, ObjectName)
  {
    objects := [];
    var i := 0;
    while i < |bases|
      invariant i <= |bases|
      invariant objects == Product(bases[..i], exts, ObjectName)
    {
      var j := 0;
      while j < |exts|
        invariant j <= |exts|
        invariant objects == Product(bases[..i], exts, ObjectName) + Row(bases[i], exts[..j], ObjectName)
      {
        RowSnoc(Product(bases[..i], exts, ObjectName), bases[i], exts, j, ObjectName);
        objects := objects + [ObjectName(bases[i], exts[j])];
        j := j + 1;
      }
      assert exts[..j] == exts;
      assert bases[..i + 1][..i] == bases[..i];
      i := i + 1;
    }
    assert bases[..i] == bases;
  }

  // --------------------------------------------------------------- dedup

  predicate Distinct<T(==)>(xs: seq<T>) {
    forall i, j | 0 <= i < j < |xs| :: xs[i] != xs[j]
  }

  /** `dict.fromkeys` over `xs` when the keys in `seen` are already present. */
  function DedupFrom<T(==,!new)>(xs: seq<T>, seen: set<T>): (r: seq<T>)
    ensures Distinct(r)
    ensures forall x :: x in r <==> x in xs && x !in seen
  {
    if xs == [] then []
    else if xs[0] in seen then DedupFrom(xs[1..], seen)
    else
      var rest := DedupFrom(xs[1..], seen + {xs[0]});
      assert xs[0] !in rest;
      [xs[0]] + rest
  }

  /** `list(dict.fromkeys(xs))`: no name twice, and no name lost or added. */
  function Dedup<T(==,!new)>(xs: seq<T>): (r: seq<T>)
    ensures Distinct(r)
    ensures forall x :: x in r <==> x in xs
  {
    DedupFrom(xs, {})
  }

  /** Reference definition: the elements of `xs` that do not occur earlier. */
  function FirstOccurrences<T(==)>(xs: seq<T>): seq<T> {
    if xs == [] then []
    else
      var init := xs[..|xs| - 1];
      var x := xs[|xs| - 1];
      FirstOccurrences(init) + (if x in init then [] else [x])
  }

  lemma {:induction false} DedupFromSnoc<T(!new)>(a: seq<T>, x: T, seen: set<T>)
    ensures DedupFrom(a + [x], seen) == DedupFrom(a, seen) + (if x in seen || x in a then [] else [x])
    decreases |a|
  {
    if a == [] {
      assert [x][1..] == [];
      assert a + [x] == [x];
    } else {
      var b := a[1..];
      assert (a + [x])[0] == a[0];
      assert (a + [x])[1..] == b + [x];
      assert x in a <==> x == a[0] || x in b;
      if a[0] in seen {
        DedupFromSnoc(b, x, seen);
      } else {
        var seen' := seen + {a[0]};
        DedupFromSnoc(b, x, seen');
        var tail := if x in seen' || x in b then [] else [x];
        assert DedupFrom(a + [x], seen) == [a[0]] + (DedupFrom(b, seen') + tail);
        assert DedupFrom(a, seen) == [a[0]] + DedupFrom(b, seen');
      }
    }
  }

  /** `dict.fromkeys` keeps the first occurrence of every name, in the
      original order. */
  lemma {:induction false} DedupKeepsFirst<T(!new)>(xs: seq<T>)
    ensures Dedup(xs) == FirstOccurrences(xs)
  {
    if xs != [] {
      var init := xs[..|xs| - 1];
      assert xs == init + [xs[|xs| - 1]];
      DedupFromSnoc(init, xs[|xs| - 1], {});
      DedupKeepsFirst(init);
    }
  }

  lemma {:induction false} DedupFromDistinct<T(!new)>(xs: seq<T>, seen: set<T>)
    requires Distinct(xs) && forall x | x in xs :: x !in seen
    ensures DedupFrom(xs, seen) == xs
  {
    if xs != [] {
      assert xs[0] !in xs[1..];
      DedupFromDistinct(xs[1..], seen + {xs[0]});
    }
  }

  /** De-duplicating twice changes nothing more. */
  lemma DedupIdempotent<T(!new)>(xs: seq<T>)
    ensures Dedup(Dedup(xs)) == Dedup(xs)
  {
    DedupFromDistinct(Dedup(xs), {});
  }

  // ---------------------------------------------------------- modem lines

  function Concat(ls: seq<string>): string {
    if ls == [] then [] else Concat(ls[..|ls| - 1]) + ls[|ls| - 1]
  }

  /** How many lines a read-until-token loop consumes: up to and including the
      first line holding `token`, or the whole stream when none does. */
  function TakeThrough(ls: seq<string>, token: string): (k: nat)
    ensures k <= |ls|
    ensures forall i | 0 <= i < k - 1 :: !Contains(ls[i], token)
    ensures (k >= 1 && Contains(ls[k - 1], token)) || k == |ls|
  {
    if ls == [] then 0
    else if Contains(ls[0], token) then 1
    else 1 + TakeThrough(ls[1..], token)
  }

  /** The stopping point above is the only one with those properties. */
  lemma TakeThroughIs(ls: seq<string>, token: string, n: nat)
    requires n <= |ls|
    requires forall i | 0 <= i < n - 1 :: !Contains(ls[i], token)
    requires (n >= 1 && Contains(ls[n - 1], token)) || n == |ls|
    ensures TakeThrough(ls, token) == n
  {
  }

  /** `send_at`'s answer and the lines left after it. */
  function AtExchange(ls: seq<string>, wait: string): (string, seq<string>) {
    var k := TakeThrough(ls, wait);
    (Strip(Concat(ls[..k])), ls[k..])
  }

  function Stripped(ls: seq<string>): seq<string> {
    seq(|ls|, i requires 0 <= i < |ls| => Strip(ls[i]))
  }

  /** The buffer of the QHTTPGET wait: every line stripped, then ended by "\n". */
  function GetBuffer(ls: seq<string>): string {
    if ls == [] then [] else GetBuffer(ls[..|ls| - 1]) + Strip(ls[|ls| - 1]) + "\n"
  }

  // -------------------------------------------------------- status code

  const GET_RESULT := "+QHTTPGET: 0,"
  const GET_TAG := "+QHTTPGET:"

  /** The match of `\+QHTTPGET: 0,(\d+)` that starts at `k`, if any, as the
      value of its group. */
  function StatusAt(s: string, k: nat): Option<nat>
    requires k <= |s|
  {
    if !OccursAt(s, GET_RESULT, k) then None
    else
      var a := k + |GET_RESULT|;
      var b := SkipDigits(s, a);
      if b == a then None else Some(DigitsValue(s[a..b]))
  }

  function StatusFrom(s: string, k: nat): Option<nat>
    requires k <= |s|
    decreases |s| - k
  {
    if StatusAt(s, k).Some? then StatusAt(s, k)
    else if k == |s| then None
    else StatusFrom(s, k + 1)
  }

  /** `int(re.search(r'\+QHTTPGET: 0,(\d+)', buffer).group(1))`, None when
      the pattern matches nowhere. */
  function HttpStatus(buffer: string): Option<nat> {
    StatusFrom(buffer, 0)
  }

  /** `re.search` fails only when the pattern matches at no position, and
      otherwise reports the match at the first position where it does. */
  lemma HttpStatusFirst(buffer: string)
    ensures HttpStatus(buffer).None? <==> forall j | 0 <= j <= |buffer| :: StatusAt(buffer, j).None?
    ensures HttpStatus(buffer).Some? ==> exists j | 0 <= j <= |buffer| ::
      StatusAt(buffer, j) == HttpStatus(buffer) && forall i | 0 <= i < j :: StatusAt(buffer, i).None?
  {
    StatusFromFirst(buffer, 0);
  }

  /** The search takes the first position that matches, and fails only when
      none does. */
  lemma {:induction false} StatusFromFirst(s: string, k: nat)
    requires k <= |s|
    ensures StatusFrom(s, k).None? <==> forall j | k <= j <= |s| :: StatusAt(s, j).None?
    ensures StatusFrom(s, k).Some? ==>
      exists j | k <= j <= |s| :: StatusAt(s, j) == StatusFrom(s, k) && forall i | k <= i < j :: StatusAt(s, i).None?
    decreases |s| - k
  {
    if StatusAt(s, k).None? && k < |s| {
      StatusFromFirst(s, k + 1);
      if StatusFrom(s, k).Some? {
        var j :| k + 1 <= j <= |s| && StatusAt(s, j) == StatusFrom(s, k) && forall i | k + 1 <= i < j :: StatusAt(s, i).None?;
        assert forall i | k <= i < j :: StatusAt(s, i).None?;
      }
    }
  }

  lemma {:induction false} StatusSkips(s: string, k: nat, m: nat)
    requires k <= m <= |s| && forall i | k <= i < m :: StatusAt(s, i).None?
    ensures StatusFrom(s, k) == StatusFrom(s, m)
    decreases m - k
  {
    if k < m {
      StatusSkips(s, k + 1, m);
    }
  }

  /** A successful `+QHTTPGET: 0,<code>` line yields its code, when nothing
      before it starts with `+` and the code is not run on into more digits. */
  lemma StatusOfResult(pre: string, code: nat, post: string)
    requires '+' !in pre
    requires post == [] || !IsDigit(post[0])
    ensures HttpStatus(pre + GET_RESULT + Decimal(code) + post) == Some(code)
  {
    var d := Decimal(code);
    var s := pre + GET_RESULT + d + post;
    var k := |pre|;
    forall i | 0 <= i < k ensures StatusAt(s, i).None? {
      assert s[i] == pre[i];
      assert s[i..i + |GET_RESULT|][0] == s[i];
    }
    StatusSkips(s, 0, k);
    var a := k + |GET_RESULT|;
    assert s[k..a] == GET_RESULT;
    assert s[a..a + |d|] == d;
    assert a + |d| == |s| || s[a + |d|] == post[0];
    SkipDigitsOver(s, a, d);
    DecimalValue(code);
  }

  /** A `+QHTTPGET: <err>,<code>` line whose first field is not 0 yields no
      status at all, whatever the code. */
  lemma FailedResultHasNoStatus(err: nat, code: nat, post: string)
    requires err != 0 && '+' !in post
    ensures HttpStatus(GET_TAG + " " + Decimal(err) + "," + Decimal(code) + post).None?
  {
    FailedResultShape(Decimal(err), Decimal(code), post);
    NoResultAnywhere(GET_TAG + " " + Decimal(err) + "," + Decimal(code) + post);
  }

  lemma FailedResultShape(e: string, c: string, post: string)
    requires e != [] && e[0] != '0' && AllDigits(e) && AllDigits(c) && '+' !in post
    ensures var s := GET_TAG + " " + e + "," + c + post;
      |GET_RESULT| <= |s| && s[|GET_RESULT| - 2] != '0' && '+' !in s[1..]
  {
    var s := GET_TAG + " " + e + "," + c + post;
    assert s[11] == e[0];
    assert s[1..] == GET_TAG[1..] + " " + e + "," + c + post;
  }

  lemma NoResultAnywhere(s: string)
    requires |GET_RESULT| <= |s| && s[|GET_RESULT| - 2] != '0' && '+' !in s[1..]
    ensures HttpStatus(s).None?
  {
    forall j | 0 <= j <= |s| ensures StatusAt(s, j).None? {
      NoResultAt(s, j);
    }
    StatusFromFirst(s, 0);
  }

  /** The pattern cannot match where there is no `+`, nor where the first
      field of the result is not `0`. */
  lemma NoResultAt(s: string, j: nat)
    requires j <= |s| && 1 <= |s|
    requires j == 0 ==> |GET_RESULT| <= |s| && s[|GET_RESULT| - 2] != '0'
    requires j > 0 ==> '+' !in s[1..]
    ensures StatusAt(s, j).None?
  {
    if j == 0 {
      assert s[..|GET_RESULT|][|GET_RESULT| - 2] != GET_RESULT[|GET_RESULT| - 2];
    } else if j + |GET_RESULT| <= |s| {
      assert s[j..j + |GET_RESULT|][0] == s[1..][j - 1];
    }
  }

  // ------------------------------------------------------------- fetches

  /** What `https_get` returns, or the message of the exception it raises. */
  datatype Fetch = Fetched(status: nat, body: string) | Raised(error: string)

  /** One HTTPS GET as seen on the serial line. */
  datatype GetRun = GetRun(result: Fetch, written: seq<string>, rest: seq<string>)

  function UrlCommand(url: string): string {
    "AT+QHTTPURL=" + Decimal(|url|) + ",30"
  }

  /** The QHTTPURL command announces the length of the URL that follows it,
      with a 30-second input window. */
  lemma UrlCommandFields(url: string)
    ensures var c := UrlCommand(url);
      && |c| >= 15 && c[..12] == "AT+QHTTPURL=" && c[|c| - 3..] == ",30"
      && ParseDecimal(c[12..|c| - 3]) == Some(|url|)
  {
    var d := Decimal(|url|);
    var c := UrlCommand(url);
    assert c[12..|c| - 3] == d;
    DecimalRoundTrip(|url|);
  }

  /** Ctrl-Z, which ends the URL written after CONNECT. */
  const CTRL_Z: char := 26 as char
  const GET_COMMAND := "AT+QHTTPGET=60"
  const READ_COMMAND := "AT+QHTTPREAD=30"

  /** `https_get(url)` against the modem lines `ls`: set the URL (the modem
      must answer CONNECT), send it ended by Ctrl-Z, start the GET, collect
      lines through the `+QHTTPGET:` one, take the status from them, and read
      the body. */
  function GetSpec(url: string, ls: seq<string>): GetRun {
    var urlReply := AtExchange(ls, "CONNECT").0;
    var ls1 := AtExchange(ls, "CONNECT").1;
    var w1 := [UrlCommand(url) + "\r"];
    if !Contains(urlReply, "CONNECT") then GetRun(Raised("Failed at QHTTPURL: " + urlReply), w1, ls1)
    else
      var wait := GetWaitOf(ls1);
      var g := GetResult(wait.0, wait.1);
      GetRun(g.result, w1 + [url + [CTRL_Z], GET_COMMAND + "\r"] + g.written, g.rest)
  }

  /** After the URL: the QHTTPGET command's OK, then the buffer the wait for
      `+QHTTPGET:` collects and the lines left after it. */
  function GetWaitOf(ls1: seq<string>): (string, seq<string>) {
    var ls2 := AtExchange(ls1, "OK").1;
    var k := TakeThrough(Stripped(ls2), GET_TAG);
    (GetBuffer(ls2[..k]), ls2[k..])
  }

  /** The end of `https_get` once the `+QHTTPGET:` lines are collected in
      `buffer`: no status raises, a status is followed by QHTTPREAD. */
  function GetResult(buffer: string, ls: seq<string>): GetRun {
    match HttpStatus(buffer)
    case None => GetRun(Raised("No valid +QHTTPGET response: " + Strip(buffer)), [], ls)
    case Some(code) =>
      var read := AtExchange(ls, "OK");
      GetRun(Fetched(code, read.0), [READ_COMMAND + "\r"], read.1)
  }

  /** With no status in the buffer the GET raises and reads nothing more; with
      one, that status is reported and the body is the QHTTPREAD answer. */
  lemma GetResultCases(buffer: string, ls: seq<string>)
    ensures var g := GetResult(buffer, ls);
      && (g.result.Fetched? <==> HttpStatus(buffer).Some?)
      && (g.result.Fetched? ==> && g.result.status == HttpStatus(buffer).value
                                && g.written == [READ_COMMAND + "\r"]
                                && (g.result.body, g.rest) == AtExchange(ls, "OK"))
      && (g.result.Raised? ==> g.written == [] && g.rest == ls)
  {
  }

  /** Once the modem answers QHTTPURL with CONNECT, the URL and QHTTPGET
      follow it, and the GET is a fetch exactly when the collected lines hold
      a status. */
  lemma ConnectedSendsUrl(url: string, ls: seq<string>)
    requires Contains(AtExchange(ls, "CONNECT").0, "CONNECT")
    ensures var r := GetSpec(url, ls);
      && |r.written| >= 3 && r.written[..3] == [UrlCommand(url) + "\r", url + [CTRL_Z], GET_COMMAND + "\r"]
      && (r.result.Fetched? <==> HttpStatus(GetWaitOf(AtExchange(ls, "CONNECT").1).0).Some?)
  {
    GetSpecAfterUrl(url, ls);
    var wait := GetWaitOf(AtExchange(ls, "CONNECT").1);
    GetResultCases(wait.0, wait.1);
  }

  lemma GetSpecAfterUrl(url: string, ls: seq<string>)
    requires Contains(AtExchange(ls, "CONNECT").0, "CONNECT")
    ensures var wait := GetWaitOf(AtExchange(ls, "CONNECT").1);
      var g := GetResult(wait.0, wait.1);
      GetSpec(url, ls) == GetRun(g.result, [UrlCommand(url) + "\r", url + [CTRL_Z], GET_COMMAND + "\r"] + g.written, g.rest)
  {
  }

  lemma FetchedWasConnected(url: string, ls: seq<string>)
    requires GetSpec(url, ls).result.Fetched?
    ensures Contains(AtExchange(ls, "CONNECT").0, "CONNECT")
  {
  }

  /** A QHTTPURL answer without CONNECT aborts the GET: the URL itself is never
      sent and no further command is issued. */
  lemma UrlRefusedStops(url: string, ls: seq<string>)
    requires !Contains(AtExchange(ls, "CONNECT").0, "CONNECT")
    ensures GetSpec(url, ls).result == Raised("Failed at QHTTPURL: " + AtExchange(ls, "CONNECT").0)
    ensures GetSpec(url, ls).written == [UrlCommand(url) + "\r"]
  {
  }

  /** A status is reported only if the lines collected after QHTTPURL was
      answered with CONNECT hold a successful result, and it is that result's
      code. */
  lemma FetchedHasStatus(url: string, ls: seq<string>)
    requires GetSpec(url, ls).result.Fetched?
    ensures Contains(AtExchange(ls, "CONNECT").0, "CONNECT")
    ensures HttpStatus(GetWaitOf(AtExchange(ls, "CONNECT").1).0) == Some(GetSpec(url, ls).result.status)
  {
    FetchedWasConnected(url, ls);
    GetSpecAfterUrl(url, ls);
    var wait := GetWaitOf(AtExchange(ls, "CONNECT").1);
    GetResultCases(wait.0, wait.1);
  }

  /** A fetch writes four commands: QHTTPURL, the URL, QHTTPGET, QHTTPREAD. */
  lemma FetchedWritesFour(url: string, ls: seq<string>)
    requires GetSpec(url, ls).result.Fetched?
    ensures GetSpec(url, ls).written == [UrlCommand(url) + "\r", url + [CTRL_Z], GET_COMMAND + "\r", READ_COMMAND + "\r"]
  {
    FetchedWasConnected(url, ls);
    GetSpecAfterUrl(url, ls);
    var wait := GetWaitOf(AtExchange(ls, "CONNECT").1);
    var g := GetResult(wait.0, wait.1);
    GetResultCases(wait.0, wait.1);
    assert g.written == [READ_COMMAND + "\r"];
    ThreeThenOne(UrlCommand(url) + "\r", url + [CTRL_Z], GET_COMMAND + "\r", READ_COMMAND + "\r");
  }

  lemma ThreeThenOne<T>(a: T, b: T, c: T, d: T)
    ensures [a, b, c] + [d] == [a, b, c, d]
  {
  }

  /** A `send_at` whose wait token is answered in the lines `reply` returns
      them stripped and leaves what follows them. */
  lemma AtExchangeReply(reply: seq<string>, wait: string, rest: seq<string>)
    requires reply != [] && Contains(reply[|reply| - 1], wait)
    requires forall i | 0 <= i < |reply| - 1 :: !Contains(reply[i], wait)
    ensures AtExchange(reply + rest, wait) == (Strip(Concat(reply)), rest)
  {
    TakeThroughPrefix(reply, wait, rest);
    assert (reply + rest)[..|reply|] == reply;
    assert (reply + rest)[|reply|..] == rest;
  }

  lemma {:induction false} TakeThroughPrefix(reply: seq<string>, wait: string, rest: seq<string>)
    requires reply != [] && Contains(reply[|reply| - 1], wait)
    requires forall i | 0 <= i < |reply| - 1 :: !Contains(reply[i], wait)
    ensures TakeThrough(reply + rest, wait) == |reply|
    decreases |reply|
  {
    var ls := reply + rest;
    assert ls[0] == reply[0];
    if |reply| > 1 {
      assert ls[1..] == reply[1..] + rest;
      TakeThroughPrefix(reply[1..], wait, rest);
    }
  }

  lemma TokenLine(token: string)
    requires token != [] && !IsSpace(token[0]) && !IsSpace(token[|token| - 1])
    ensures Contains(token + "\r\n", token) && Strip(Concat([token + "\r\n"])) == token
  {
    var line := token + "\r\n";
    assert Contains(line, token) by {
      assert line[..|token|] == token;
      ContainsPrefix(line, token);
    }
    assert Concat([line]) == line by {
      assert [line][..0] == [];
    }
    assert Strip(line) == token by {
      assert AllSpace("\r\n");
      StripPadded(token, "\r\n");
    }
  }

  lemma AtExchangeLine(token: string, rest: seq<string>)
    requires token != [] && !IsSpace(token[0]) && !IsSpace(token[|token| - 1])
    ensures AtExchange([token + "\r\n"] + rest, token) == (token, rest)
  {
    TokenLine(token);
    AtExchangeReply([token + "\r\n"], token, rest);
  }

  /** The QHTTPGET wait over a result line yields that line, stripped, as the
      whole buffer. */
  lemma GetWaitLine(code: nat, rest: seq<string>)
    ensures var ls := [GET_RESULT + Decimal(code) + "\r\n"] + rest;
      var k := TakeThrough(Stripped(ls), GET_TAG);
      k == 1 && GetBuffer(ls[..k]) == GET_RESULT + Decimal(code) + "\n" && ls[k..] == rest
  {
    var ls := [GET_RESULT + Decimal(code) + "\r\n"] + rest;
    var line := GET_RESULT + Decimal(code);
    assert ls[0] == line + "\r\n";
    StripPadded(line, "\r\n");
    assert Stripped(ls)[0] == line;
    assert OccursAt(line, GET_TAG, 0);
    assert ls[..1] == [ls[0]];
    assert GetBuffer(ls[..1]) == GetBuffer([]) + line + "\n";
  }

  /** A modem that answers CONNECT, OK, a successful `+QHTTPGET` result and
      then the body (through its OK line) yields that status and that body. */
  lemma AnsweredGet(url: string, code: nat, body: seq<string>, rest: seq<string>)
    requires body != [] && Contains(body[|body| - 1], "OK")
    requires forall i | 0 <= i < |body| - 1 :: !Contains(body[i], "OK")
    ensures var ls := ["CONNECT\r\n", "OK\r\n", GET_RESULT + Decimal(code) + "\r\n"] + body + rest;
      GetSpec(url, ls) == GetRun(Fetched(code, Strip(Concat(body))),
        [UrlCommand(url) + "\r", url + [CTRL_Z], GET_COMMAND + "\r", READ_COMMAND + "\r"], rest)
  {
    var ls3 := body + rest;
    var ls2 := [GET_RESULT + Decimal(code) + "\r\n"] + ls3;
    var ls1 := ["OK\r\n"] + ls2;
    var ls := ["CONNECT\r\n"] + ls1;
    var buffer := GET_RESULT + Decimal(code) + "\n";
    ThreeThen("CONNECT\r\n", "OK\r\n", GET_RESULT + Decimal(code) + "\r\n", body, rest);
    ConnectAnswered(ls1);
    OkAnswered(ls2);
    GetWaitLine(code, ls3);
    BodyAnswered(code, body, rest);
    GetSpecConnected(url, ls, ls1, ls2, 1, buffer, ls3);
    FourWrites(UrlCommand(url) + "\r", url + [CTRL_Z], GET_COMMAND + "\r", READ_COMMAND + "\r");
  }

  lemma ConnectAnswered(ls1: seq<string>)
    ensures AtExchange(["CONNECT\r\n"] + ls1, "CONNECT") == ("CONNECT", ls1)
    ensures Contains("CONNECT", "CONNECT")
  {
    assert "CONNECT" + "\r\n" == "CONNECT\r\n";
    AtExchangeLine("CONNECT", ls1);
    assert OccursAt("CONNECT", "CONNECT", 0);
  }

  lemma OkAnswered(ls2: seq<string>)
    ensures AtExchange(["OK\r\n"] + ls2, "OK").1 == ls2
  {
    assert "OK" + "\r\n" == "OK\r\n";
    AtExchangeLine("OK", ls2);
  }

  lemma BodyAnswered(code: nat, body: seq<string>, rest: seq<string>)
    requires body != [] && Contains(body[|body| - 1], "OK")
    requires forall i | 0 <= i < |body| - 1 :: !Contains(body[i], "OK")
    ensures GetResult(GET_RESULT + Decimal(code) + "\n", body + rest) ==
      GetRun(Fetched(code, Strip(Concat(body))), [READ_COMMAND + "\r"], rest)
  {
    StatusOfResult([], code, "\n");
    assert [] + GET_RESULT + Decimal(code) + "\n" == GET_RESULT + Decimal(code) + "\n";
    AtExchangeReply(body, "OK", rest);
  }

  lemma FourWrites<T>(a: T, b: T, c: T, d: T)
    ensures [a] + [b, c] + [d] == [a, b, c, d]
  {
  }

  /** `https_get` once QHTTPURL was answered with CONNECT. */
  lemma GetSpecConnected(url: string, ls: seq<string>, ls1: seq<string>, ls2: seq<string>, k: nat,
                         buffer: string, ls3: seq<string>)
    requires AtExchange(ls, "CONNECT").1 == ls1 && Contains(AtExchange(ls, "CONNECT").0, "CONNECT")
    requires AtExchange(ls1, "OK").1 == ls2
    requires TakeThrough(Stripped(ls2), GET_TAG) == k && GetBuffer(ls2[..k]) == buffer && ls2[k..] == ls3
    ensures var g := GetResult(buffer, ls3);
      GetSpec(url, ls) == GetRun(g.result, [UrlCommand(url) + "\r"] + [url + [CTRL_Z], GET_COMMAND + "\r"] + g.written, g.rest)
  {
  }

  lemma ThreeThen<T>(a: T, b: T, c: T, x: seq<T>, y: seq<T>)
    ensures [a, b, c] + x + y == [a] + ([b] + ([c] + (x + y)))
  {
  }

  // ----------------------------------------------------------- the modem

  class EG91 {
    /** Lines the modem has yet to send, each with its terminator. */
    var lines: seq<string>
    /** Everything written to the serial port, in order. */
    var written: seq<string>

    constructor(lines: seq<string>)
      ensures this.lines == lines && written == []
    {
      this.lines := lines;
      written := [];
    }

    /** `send_at`: write the command and a CR, collect lines through the first
        that holds `wait`, and return them concatenated and stripped. */
    method SendAt(cmd: string, wait: string) returns (resp: string)
      modifies this
      ensures var k := TakeThrough(old(lines), wait);
        resp == Strip(Concat(old(lines)[..k])) && lines == old(lines)[k..]
      ensures written == old(written) + [cmd + "\r"]
    {
      written := written + [cmd + "\r"];
      ghost var ls := lines;
      ghost var n := 0;
      var buffer := "";
      var done := false;
      while !done && lines != []
        invariant n <= |ls| && lines == ls[n..]
        invariant buffer == Concat(ls[..n])
        invariant forall i | 0 <= i < n - 1 :: !Contains(ls[i], wait)
        invariant done ==> n >= 1 && Contains(ls[n - 1], wait)
        invariant !done && n >= 1 ==> !Contains(ls[n - 1], wait)
        invariant written == old(written) + [cmd + "\r"]
        decreases |lines|
      {
        var line := lines[0];
        lines := lines[1..];
        buffer := buffer + line;
        assert ls[..n + 1][..n] == ls[..n];
        n := n + 1;
        if Contains(line, wait) {
          done := true;
        }
      }
      TakeThroughIs(ls, wait, n);
      resp := Strip(buffer);
    }

    /** The wait loop of `https_get`: collect stripped lines, each followed by
        "\n", through the first that holds `+QHTTPGET:`. */
    method AwaitGet() returns (buffer: string)
      modifies this
      ensures var k := TakeThrough(Stripped(old(lines)), GET_TAG);
        buffer == GetBuffer(old(lines)[..k]) && lines == old(lines)[k..]
      ensures written == old(written)
    {
      ghost var ls := lines;
      ghost var stripped := Stripped(ls);
      ghost var n := 0;
      buffer := "";
      var done := false;
      while !done && lines != []
        invariant n <= |ls| && lines == ls[n..]
        invariant buffer == GetBuffer(ls[..n])
        invariant !done ==> forall i | 0 <= i < n :: !Contains(stripped[i], GET_TAG)
        invariant done ==> n >= 1 && Contains(stripped[n - 1], GET_TAG)
        invariant done ==> forall i | 0 <= i < n - 1 :: !Contains(stripped[i], GET_TAG)
        invariant written == old(written)
        decreases |lines|
      {
        var line := Strip(lines[0]);
        assert line == stripped[n];
        lines := lines[1..];
        buffer := buffer + line + "\n";
        assert ls[..n + 1][..n] == ls[..n];
        if Contains(line, GET_TAG) {
          done := true;
        }
        n := n + 1;
      }
      TakeThroughIs(stripped, GET_TAG, n);
    }

    /** `https_get(url)`: the status and body, or the exception's message. */
    method HttpsGet(url: string) returns (r: Fetch)
      modifies this
      ensures var g := GetSpec(url, old(lines));
        r == g.result && lines == g.rest && written == old(written) + g.written
    {
      ghost var ls := lines;
      var resp := SendAt(UrlCommand(url), "CONNECT");
      ghost var ls1 := lines;
      assert AtExchange(ls, "CONNECT") == (resp, ls1);
      if !Contains(resp, "CONNECT") {
        return Raised("Failed at QHTTPURL: " + resp);
      }
      written := written + [url + [CTRL_Z]];
      var _ := SendAt(GET_COMMAND, "OK");
      ghost var ls2 := lines;
      assert AtExchange(ls1, "OK").1 == ls2;
      var buffer := AwaitGet();
      ghost var k := TakeThrough(Stripped(ls2), GET_TAG);
      assert buffer == GetBuffer(ls2[..k]) && lines == ls2[k..];
      ghost var w := written;
      r := Finish(buffer);
      ghost var g := GetResult(buffer, ls2[k..]);
      SnocSnocAppend(old(written), UrlCommand(url) + "\r", url + [CTRL_Z], GET_COMMAND + "\r", g.written);
    }

    /** The status search and, on success, the QHTTPREAD of `https_get`. */
    method Finish(buffer: string) returns (r: Fetch)
      modifies this
      ensures var g := GetResult(buffer, old(lines));
        r == g.result && lines == g.rest && written == old(written) + g.written
    {
      var status := HttpStatus(buffer);
      if status.None? {
        return Raised("No valid +QHTTPGET response: " + Strip(buffer));
      }
      var body := SendAt(READ_COMMAND, "OK");
      r := Fetched(status.value, body);
    }
  }

  lemma AppendAssoc<T>(a: seq<T>, b: seq<T>, c: seq<T>)
    ensures a + b + c == a + (b + c)
  {
  }

  lemma SnocSnocAppend<T>(w: seq<T>, a: T, b: T, c: T, rest: seq<T>)
    ensures w + [a] + [b] + [c] + rest == w + ([a] + [b, c] + rest)
  {
  }

  // ------------------------------------------------------------- results

  /** Python's `s[:n]`. */
  function Truncate(s: string, n: nat): (r: string)
    ensures |r| <= |s| && |r| <= n && r == s[..|r|]
    ensures |s| > n ==> |r| == n
    ensures |s| <= n ==> r == s
  {
    if |s| <= n then s else s[..n]
  }

  /** One entry of the JSON results (the timestamp is not modelled). */
  datatype Record = Record(bucket: string, obj: string, url: string, outcome: Fetch)

  function RecordOf(bucket: string, obj: string, url: string, f: Fetch): Record {
    match f
    case Fetched(status, body) => Record(bucket, obj, url, Fetched(status, Truncate(body, 200)))
    case Raised(e) => Record(bucket, obj, url, f)
  }

  /** The coloured line printed for a result. */
  datatype Banner = Success | NotFound | OtherResponse | Error

  function BannerOf(r: Record): (b: Banner)
    ensures b == Error <==> r.outcome.Raised?
    ensures b == Success <==> r.outcome.Fetched? && r.outcome.status == 200
    ensures b == NotFound <==> r.outcome.Fetched? && r.outcome.status == 404
  {
    match r.outcome
    case Raised(_) => Error
    case Fetched(status, _) =>
      if status == 200 then Success else if status == 404 then NotFound else OtherResponse
  }

  datatype EnumRun = EnumRun(results: seq<Record>, written: seq<string>, rest: seq<string>)

  /** The `for bucket: for obj:` loop over the (bucket, object) pairs `targets`
      already put in loop order. */
  function EnumSpec(targets: seq<(string, string)>, endpoint: string, ls: seq<string>): (e: EnumRun)
    ensures |e.results| == |targets|
  {
    if targets == [] then EnumRun([], [], ls)
    else
      var prev := EnumSpec(targets[..|targets| - 1], endpoint, ls);
      var (bucket, obj) := targets[|targets| - 1];
      var url := Url(bucket, endpoint, obj);
      var g := GetSpec(url, prev.rest);
      EnumRun(prev.results + [RecordOf(bucket, obj, url, g.result)], prev.written + g.written, g.rest)
  }

  /** Every target gets one record, in order, naming its bucket, its object
      and its URL. */
  lemma {:induction false} EnumSpecRecords(targets: seq<(string, string)>, endpoint: string, ls: seq<string>, k: nat)
    requires k < |targets|
    ensures var r := EnumSpec(targets, endpoint, ls).results[k];
      r.bucket == targets[k].0 && r.obj == targets[k].1 && r.url == Url(targets[k].0, endpoint, targets[k].1)
  {
    if k < |targets| - 1 {
      EnumSpecRecords(targets[..|targets| - 1], endpoint, ls, k);
    }
  }

  /** One URL per (bucket, object) pair, bucket-major: the record at
      i * |objects| + j is for bucket i and object j. */
  lemma UrlsBucketMajor(buckets: seq<string>, objects: seq<string>, endpoint: string, ls: seq<string>, i: nat, j: nat)
    requires i < |buckets| && j < |objects|
    ensures var rs := EnumSpec(Product(buckets, objects, Pair), endpoint, ls).results;
      |rs| == |buckets| * |objects| && i * |objects| + j < |rs| &&
      rs[i * |objects| + j].url == Url(buckets[i], endpoint, objects[j])
  {
    ProductIndex(buckets, objects, Pair, i, j);
    EnumSpecRecords(Product(buckets, objects, Pair), endpoint, ls, i * |objects| + j);
  }

  lemma EnumSpecSnoc(targets: seq<(string, string)>, t: (string, string), endpoint: string, ls: seq<string>)
    ensures var prev := EnumSpec(targets, endpoint, ls);
      var url := Url(t.0, endpoint, t.1);
      var g := GetSpec(url, prev.rest);
      EnumSpec(targets + [t], endpoint, ls) ==
        EnumRun(prev.results + [RecordOf(t.0, t.1, url, g.result)], prev.written + g.written, g.rest)
  {
    assert (targets + [t])[..|targets|] == targets;
  }

  /** The `for bucket in buckets: for obj in objects:` loop of `main`. */
  method Enumerate(modem: EG91, buckets: seq<string>, objects: seq<string>, endpoint: string)
    returns (results: seq<Record>)
    modifies modem
    ensures var e := EnumSpec(Product(buckets, objects, Pair), endpoint, old(modem.lines));
      results == e.results && modem.lines == e.rest && modem.written == old(modem.written) + e.written
  {
    ghost var ls := modem.lines;
    ghost var w0 := modem.written;
    results := [];
    var i := 0;
    while i < |buckets|
      invariant i <= |buckets|
      invariant var e := EnumSpec(Product(buckets[..i], objects, Pair), endpoint, ls);
        results == e.results && modem.lines == e.rest && modem.written == w0 + e.written
    {
      var bucket := buckets[i];
      var j := 0;
      assert Product(buckets[..i], objects, Pair) + Row(bucket, objects[..j], Pair) == Product(buckets[..i], objects, Pair);
      while j < |objects|
        invariant j <= |objects|
        invariant var e := EnumSpec(Product(buckets[..i], objects, Pair) + Row(bucket, objects[..j], Pair), endpoint, ls);
          results == e.results && modem.lines == e.rest && modem.written == w0 + e.written
      {
        var obj := objects[j];
        var url := Url(bucket, endpoint, obj);
        ghost var done := Product(buckets[..i], objects, Pair) + Row(bucket, objects[..j], Pair);
        ghost var w := modem.written;
        var r := modem.HttpsGet(url);
        results := results + [RecordOf(bucket, obj, url, r)];
        EnumSpecSnoc(done, (bucket, obj), endpoint, ls);
        RowSnoc(Product(buckets[..i], objects, Pair), bucket, objects, j, Pair);
        AppendAssoc(w0, EnumSpec(done, endpoint, ls).written, GetSpec(url, EnumSpec(done, endpoint, ls).rest).written);
        j := j + 1;
      }
      assert objects[..j] == objects;
      assert buckets[..i + 1][..i] == buckets[..i];
      i := i + 1;
    }
    assert buckets[..i] == buckets;
  }

  /** `main` once the lists are loaded: build and de-duplicate the object
      names, then try every bucket with every object. */
  method Run(modem: EG91, bases: seq<string>, exts: seq<string>, buckets: seq<string>, endpoint: string)
    returns (results: seq<Record>)
    modifies modem
    ensures var objects := Dedup(Product(bases, exts, ObjectName));
      var e := EnumSpec(Product(buckets, objects, Pair), endpoint, old(modem.lines));
      results == e.results && modem.lines == e.rest && modem.written == old(modem.written) + e.written
  {
    var objects := BuildObjects(bases, exts);
    objects := Dedup(objects);
    results := Enumerate(modem, buckets, objects, endpoint);
  }
}
