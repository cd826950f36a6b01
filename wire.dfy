/** Bytes on the serial line and on the client socket, and the conversion
    between those bytes and the text the drivers reason about. */
module Wire {
  import opened Text

  newtype byte = b: int | 0 <= b < 256

  const LF: byte := 0x0A
  const CR: byte := 0x0D
  /** Ctrl-Z, which ends a payload written after the `>` prompt. */
  const CTRL_Z: byte := 0x1A
  /** The one-byte prompt by which the modem asks for a payload. */
  const PROMPT: byte := 0x3E

  /** Text every character of which fits in one byte. */
  predicate IsLatin1(s: string) {
    forall i | 0 <= i < |s| :: s[i] as int < 256
  }

  /** Text whose characters are all ASCII, which UTF-8 writes one byte each. */
  predicate IsAscii(s: string) {
    forall i | 0 <= i < |s| :: s[i] as int < 0x80
  }

  /** Bytes that are all ASCII. */
  predicate AsciiBytes(bs: seq<byte>) {
    forall i | 0 <= i < |bs| :: bs[i] < 0x80
  }

  /** `str.encode()` (UTF-8) on ASCII text: one byte per character. */
  function Encode(s: string): (bs: seq<byte>)
    requires IsAscii(s)
    ensures |bs| == |s|
    ensures forall i | 0 <= i < |s| :: bs[i] as int == s[i] as int
  {
    seq(|s|, i requires 0 <= i < |s| => s[i] as int as byte)
  }

  /** `bytes.decode()`, one character per byte. */
  function Decode(bs: seq<byte>): (s: string)
    ensures |s| == |bs| && IsLatin1(s)
    ensures forall i {:trigger s[i]} | 0 <= i < |bs| :: s[i] as int == bs[i] as int
  {
    seq(|bs|, i requires 0 <= i < |bs| => bs[i] as int as char)
  }

  lemma DecodeEncode(s: string)
    requires IsAscii(s)
    ensures Decode(Encode(s)) == s
  {
  }

  lemma EncodeDecode(bs: seq<byte>)
    requires AsciiBytes(bs)
    ensures IsAscii(Decode(bs))
    ensures Encode(Decode(bs)) == bs
  {
  }

  lemma DecodeAppend(a: seq<byte>, b: seq<byte>)
    ensures Decode(a + b) == Decode(a) + Decode(b)
  {
  }

  lemma AsciiAppend(a: string, b: string)
    requires IsAscii(a) && IsAscii(b)
    ensures IsAscii(a + b) && Encode(a + b) == Encode(a) + Encode(b)
  {
  }

  lemma {:induction false} JoinIsAscii(parts: seq<string>, sep: char)
    requires |parts| >= 1 && sep as int < 0x80
    requires forall i | 0 <= i < |parts| :: IsAscii(parts[i])
    ensures IsAscii(Join(parts, sep))
  {
    if |parts| > 1 {
      JoinIsAscii(parts[1..], sep);
      AsciiAppend(parts[0] + [sep], Join(parts[1..], sep));
    }
  }

  lemma DecimalIsAscii(n: nat)
    ensures IsAscii(Decimal(n))
  {
  }

  // ------------------------------------------------------------- lines

  /** Length of the first line of `s`, its LF included; all of `s` when no LF
      arrives (the line is then unterminated). */
  function LineEnd(s: seq<byte>): (n: nat)
    ensures n <= |s| && (s != [] ==> n >= 1)
    ensures LF in s ==> 1 <= n && s[n - 1] == LF && LF !in s[..n - 1]
    ensures LF !in s ==> n == |s|
  {
    if s == [] then 0
    else if s[0] == LF then 1
    else LineEnd(s[1..]) + 1
  }

  /** The text of a line as Python's `splitlines()` yields it: the trailing LF,
      and a CR before it, removed. */
  function LineText(line: seq<byte>): (t: string)
    ensures |t| <= |line|
  {
    var a := if line != [] && line[|line| - 1] == LF then line[..|line| - 1] else line;
    var b := if a != [] && a[|a| - 1] == CR then a[..|a| - 1] else a;
    Decode(b)
  }

  /** The lines of a byte stream, each with its terminator; the last one may be
      unterminated. */
  function Lines(s: seq<byte>): (ls: seq<seq<byte>>)
    ensures forall i | 0 <= i < |ls| :: ls[i] != []
  {
    if s == [] then [] else var n := LineEnd(s); [s[..n]] + Lines(s[n..])
  }

  function Flatten(ls: seq<seq<byte>>): seq<byte> {
    if ls == [] then [] else ls[0] + Flatten(ls[1..])
  }

  /** Splitting a stream into lines loses and reorders nothing. */
  lemma {:induction false} FlattenLines(s: seq<byte>)
    ensures Flatten(Lines(s)) == s
  {
    if s != [] {
      var n := LineEnd(s);
      FlattenLines(s[n..]);
      assert s == s[..n] + s[n..];
    }
  }

  /** Every line but possibly the last ends with LF, and no line has an LF
      before its end. */
  lemma {:induction false} LinesShape(s: seq<byte>, i: nat)
    requires i < |Lines(s)|
    ensures LF !in Lines(s)[i][..|Lines(s)[i]| - 1]
    ensures i < |Lines(s)| - 1 ==> Lines(s)[i][|Lines(s)[i]| - 1] == LF
  {
    var n := LineEnd(s);
    var ls := Lines(s);
    assert ls == [s[..n]] + Lines(s[n..]);
    if i > 0 {
      assert ls[i] == Lines(s[n..])[i - 1];
      LinesShape(s[n..], i - 1);
    } else {
      assert ls[0] == s[..n];
      assert s[..n][..n - 1] == s[..n - 1];
      if LF !in s {
        assert s[n..] == [];
        assert |ls| == 1;
      }
    }
  }
}
