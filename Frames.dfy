/**
  Wire framing of the responses the robot sends back.

  A response starts with one code byte. A code of 127 or more announces a
  binary frame: one echoed timestamp byte, a 16-bit length (low byte first)
  and that many payload bytes. Any other code announces a text frame: one
  line, newline included, of the form `<timestamp>,<payload>`.

  Decoding is a function of the bytes the transport has delivered: it says
  what the reader obtains and how many bytes it takes off the stream.
 */
module Frames {
  import opened Wrappers

  /** One octet of the serial stream. */
  type byte = x: int | 0 <= x < 256

  const Newline: byte := 10
  const Comma: byte := 44
  const Plus: byte := 43
  const Minus: byte := 45
  const DigitZero: byte := 48

  /** Response codes at or above this value announce a binary frame. */
  const BinaryThreshold: byte := 127

  predicate IsBinaryCode(code: byte) {
    code >= BinaryThreshold
  }

  /** What one frame carries to the correlation step. */
  datatype Frame = Frame(code: byte, timestamp: int, payload: seq<byte>)

  /** The two ways a complete text line fails to parse. */
  datatype FrameError =
    | BadTimestamp   // the text before the first comma is not a decimal integer
    | MissingComma   // the line has no comma, so there is no payload part

  /** Starved: the reader wants bytes that have not arrived (the read waits). */
  datatype Status = Complete(frame: Frame) | Starved | Malformed(error: FrameError)

  /** The result of reading one frame, with the number of bytes taken off the stream. */
  datatype Decoded = Decoded(status: Status, consumed: nat)

  /** The bytes one low-level read hands back, with the number of bytes it took. */
  datatype Chunk = Chunk(data: Option<seq<byte>>, consumed: nat)

  /** Position of the first `b` in `s`, or |s| when there is none. */
  function IndexOf(s: seq<byte>, b: byte): (k: nat)
    ensures k <= |s|
    ensures forall i :: 0 <= i < k ==> s[i] != b
    ensures k < |s| ==> s[k] == b
  {
    if s == [] then 0
    else if s[0] == b then 0
    else 1 + IndexOf(s[1..], b)
  }

  /** Length of the line at the head of `s`, newline included; None while no newline has arrived. */
  function LineLength(s: seq<byte>): (n: Option<nat>)
    ensures n.Some? <==> Newline in s
    ensures n.Some? ==> 0 < n.value <= |s| && s[n.value - 1] == Newline
    ensures n.Some? ==> forall i :: 0 <= i < n.value - 1 ==> s[i] != Newline
  {
    var k := IndexOf(s, Newline);
    if k < |s| then Some(k + 1) else None
  }

  // ---------------------------------------------------------------------
  // The binary length field
  // ---------------------------------------------------------------------

  /** The payload length of a binary frame: the low byte arrives first. */
  function FrameLength(lo: byte, hi: byte): (n: nat)
    ensures n < 0x1_0000
    ensures n % 256 == lo && n / 256 == hi
  {
    lo + 256 * hi
  }

  /** The two length bytes a sender puts before a payload of `n` bytes. */
  function LengthBytes(n: nat): (b: (byte, byte))
    requires n < 0x1_0000
    ensures FrameLength(b.0, b.1) == n
  {
    (n % 256, n / 256)
  }

  /** Two length fields that denote the same length are the same bytes. */
  lemma FrameLengthInjective(lo: byte, hi: byte, lo': byte, hi': byte)
    requires FrameLength(lo, hi) == FrameLength(lo', hi')
    ensures lo == lo' && hi == hi'
  {
  }

  function Pow2(e: nat): (p: nat)
    ensures p >= 1
  {
    if e == 0 then 1 else 2 * Pow2(e - 1)
  }

  /**
    The length as the source computes it. In `hi << 8 + lo` the addition
    binds tighter than the shift, so the expression is `hi << (8 + lo)`.
   */
  function LengthAsWritten(lo: byte, hi: byte): nat {
    hi * Pow2(8 + lo)
  }

  lemma {:induction false} Pow2Monotone(a: nat, b: nat)
    requires a <= b
    ensures Pow2(a) <= Pow2(b)
  {
    if a < b {
      Pow2Monotone(a, b - 1);
    }
  }

  /**
    As written, the length is either zero or at least 256: every frame
    whose payload has 1 to 255 bytes is read with the wrong length
    (lo = 3, hi = 0 reads as 0 instead of 3).
   */
  lemma LengthAsWrittenMisreadsShortPayloads(lo: byte, hi: byte)
    ensures LengthAsWritten(lo, hi) == 0 || LengthAsWritten(lo, hi) >= 256
    ensures 0 < FrameLength(lo, hi) < 256 ==> LengthAsWritten(lo, hi) != FrameLength(lo, hi)
  {
    if hi > 0 {
      Pow2Monotone(8, 8 + lo);
      assert Pow2(8) == 256;
      AtLeastOnce(hi, Pow2(8 + lo));
    }
  }

  lemma AtLeastOnce(a: nat, b: nat)
    requires a >= 1
    ensures a * b >= b
  {
    assert a * b == (a - 1) * b + b;
  }

  // ---------------------------------------------------------------------
  // Python 2's int() on the timestamp text
  // ---------------------------------------------------------------------

  /** The characters Python's `int()` ignores around a number. */
  predicate IsSpace(b: byte) {
    b == 32 || 9 <= b <= 13
  }

  predicate IsDigit(b: byte) {
    DigitZero <= b <= DigitZero + 9
  }

  predicate AllDigits(s: seq<byte>) {
    forall i :: 0 <= i < |s| ==> IsDigit(s[i])
  }

  function TrimStart(s: seq<byte>): (t: seq<byte>)
    ensures |t| <= |s| && t == s[|s| - |t|..]
    ensures t == [] || !IsSpace(t[0])
    ensures forall i :: 0 <= i < |s| - |t| ==> IsSpace(s[i])
  {
    if s != [] && IsSpace(s[0]) then TrimStart(s[1..]) else s
  }

  function TrimEnd(s: seq<byte>): (t: seq<byte>)
    ensures |t| <= |s| && t == s[..|t|]
    ensures t == [] || !IsSpace(t[|t| - 1])
    ensures forall i :: |t| <= i < |s| ==> IsSpace(s[i])
  {
    if s != [] && IsSpace(s[|s| - 1]) then TrimEnd(s[..|s| - 1]) else s
  }

  /** The value of a string of decimal digits, most significant first. */
  function DigitsValue(s: seq<byte>): nat
    requires AllDigits(s)
  {
    if s == [] then 0 else 10 * DigitsValue(s[..|s| - 1]) + (s[|s| - 1] - DigitZero)
  }

  function ParseUnsigned(s: seq<byte>): Option<nat> {
    if |s| > 0 && AllDigits(s) then Some(DigitsValue(s)) else None
  }

  /**
    Python 2's `int(text)` in base 10: whitespace around the number is
    ignored, then an optional sign and at least one decimal digit. The
    unsigned conversion that follows the sign skips whitespace of its own,
    so whitespace may also stand between the sign and the digits.
   */
  function ParseInt(s: seq<byte>): Option<int> {
    ParseSigned(TrimEnd(TrimStart(s)))
  }

  /** The number once the surrounding whitespace is gone: an optional sign, then the digits. */
  function ParseSigned(t: seq<byte>): Option<int> {
    if |t| > 0 && (t[0] == Minus || t[0] == Plus) then
      var u := ParseUnsigned(TrimStart(t[1..]));
      if u.None? then None
      else if t[0] == Minus then Some(-(u.value as int))
      else Some(u.value as int)
    else
      var u := ParseUnsigned(t);
      if u.None? then None else Some(u.value as int)
  }

  /** The decimal digits of `n`, most significant first, without leading zeros. */
  function Digits(n: nat): (s: seq<byte>)
    ensures |s| > 0 && AllDigits(s)
  {
    if n < 10 then [DigitZero + n] else Digits(n / 10) + [DigitZero + n % 10]
  }

  /** How a sender writes a timestamp: `str(n)`. */
  function Decimal(n: int): seq<byte> {
    if n < 0 then [Minus] + Digits(-n) else Digits(n)
  }

  lemma {:induction false} DigitsValueOfDigits(n: nat)
    ensures DigitsValue(Digits(n)) == n
  {
    if n >= 10 {
      var s := Digits(n);
      assert s[..|s| - 1] == Digits(n / 10);
      DigitsValueOfDigits(n / 10);
    }
  }

  lemma TrimNothing(s: seq<byte>)
    requires |s| > 0 && !IsSpace(s[0]) && !IsSpace(s[|s| - 1])
    ensures TrimEnd(TrimStart(s)) == s
  {
  }

  lemma TrimStartDigits(d: seq<byte>)
    requires |d| > 0 && AllDigits(d)
    ensures TrimStart(d) == d
  {
    assert !IsSpace(d[0]);
  }

  lemma SignedNegativeDigits(d: seq<byte>)
    requires |d| > 0 && AllDigits(d)
    ensures ParseSigned([Minus] + d) == Some(-(DigitsValue(d) as int))
  {
    var t := [Minus] + d;
    assert t[1..] == d;
    TrimStartDigits(d);
    assert ParseUnsigned(TrimStart(t[1..])) == Some(DigitsValue(d));
    assert ParseSigned(t).value == -(DigitsValue(d) as int);
  }

  /** A string of digits with a minus sign in front reads as minus its value. */
  lemma ParseIntNegativeDigits(d: seq<byte>)
    requires |d| > 0 && AllDigits(d)
    ensures ParseInt([Minus] + d) == Some(-(DigitsValue(d) as int))
  {
    var s := [Minus] + d;
    SignedNegativeDigits(d);
    assert s[|s| - 1] == d[|d| - 1] && IsDigit(d[|d| - 1]);
    TrimNothing(s);
  }

  /** A string of digits reads as its value. */
  lemma ParseIntDigits(d: seq<byte>)
    requires |d| > 0 && AllDigits(d)
    ensures ParseInt(d) == Some(DigitsValue(d))
  {
    assert IsDigit(d[0]) && IsDigit(d[|d| - 1]);
    TrimNothing(d);
  }

  /** Reading back a written timestamp gives the timestamp. */
  lemma ParseIntDecimal(n: int)
    ensures ParseInt(Decimal(n)) == Some(n)
  {
    if n < 0 {
      ParseIntNegativeDecimal(n);
    } else {
      ParseIntNonNegativeDecimal(n);
    }
  }

  lemma ParseIntNegativeDecimal(n: int)
    requires n < 0
    ensures ParseInt(Decimal(n)) == Some(n)
  {
    DigitsValueOfDigits(-n);
    NegativeFromDigits(Digits(-n), n);
  }

  /** Minus followed by the digits of `-n` reads as `n`. */
  lemma NegativeFromDigits(d: seq<byte>, n: int)
    requires |d| > 0 && AllDigits(d) && DigitsValue(d) == -n
    ensures ParseInt([Minus] + d) == Some(n)
  {
    ParseIntNegativeDigits(d);
    var r := ParseInt([Minus] + d);
    assert r.value == n;
  }

  lemma ParseIntNonNegativeDecimal(n: int)
    requires n >= 0
    ensures ParseInt(Decimal(n)) == Some(n)
  {
    DigitsValueOfDigits(n);
    ParseIntDigits(Digits(n));
  }

  lemma TrimStartSpace(b: byte, x: seq<byte>)
    requires IsSpace(b)
    ensures TrimStart([b] + x) == TrimStart(x)
  {
    assert ([b] + x)[1..] == x;
  }

  lemma TrimEndSpace(x: seq<byte>, b: byte)
    requires IsSpace(b)
    ensures TrimEnd(x + [b]) == TrimEnd(x)
  {
    assert (x + [b])[..|x|] == x;
  }

  /** `int(" - 5 ")` is -5: whitespace is skipped around the number and between the sign and the digits. */
  lemma SpaceAfterSign()
    ensures ParseInt([32, Minus, 32, DigitZero + 5, 32]) == Some(-5)
  {
    var d: seq<byte> := [DigitZero + 5];
    var t: seq<byte> := [Minus, 32] + d;
    var s: seq<byte> := [32, Minus, 32, DigitZero + 5, 32];
    assert s == [32] + (t + [32]);
    TrimStartSpace(32, t + [32]);
    assert TrimStart(t + [32]) == t + [32];
    TrimEndSpace(t, 32);
    assert TrimEnd(t) == t;
    assert t[1..] == [32] + d;
    TrimStartSpace(32, d);
    assert TrimStart(d) == d;
    assert DigitsValue(d) == 5;
    assert ParseSigned(t).value == -5;
  }

  /** A written timestamp never contains the comma or the newline that delimit it. */
  lemma DecimalHasNoDelimiters(n: int)
    ensures Comma !in Decimal(n) && Newline !in Decimal(n)
  {
    var s := Decimal(n);
    if n < 0 {
      assert s == [Minus] + Digits(-n);
    }
    forall i | 0 <= i < |s|
      ensures s[i] != Comma && s[i] != Newline
    {
      if n < 0 && i > 0 {
        assert s[i] == Digits(-n)[i - 1];
      }
    }
  }

  // ---------------------------------------------------------------------
  // Frame decoding
  // ---------------------------------------------------------------------

  /** `_read_binary_data`: two length bytes, then that many payload bytes. */
  function BinaryData(s: seq<byte>): (c: Chunk)
    ensures c.consumed <= |s|
    ensures c.data.None? ==> c.consumed == |s|
    ensures c.data.Some? ==> 2 <= c.consumed && c.data.value == s[2..c.consumed]
    ensures c.data.Some? ==> |c.data.value| == FrameLength(s[0], s[1])
    ensures c.data.None? <==> |s| < 2 || |s| < 2 + FrameLength(s[0], s[1])
  {
    if |s| < 2 then Chunk(None, |s|)
    else
      var size := FrameLength(s[0], s[1]);
      if |s| < 2 + size then Chunk(None, |s|)
      else Chunk(Some(s[2..2 + size]), 2 + size)
  }

  /** `_read_text_data`: one line, newline included. */
  function TextData(s: seq<byte>): (c: Chunk)
    ensures c.consumed <= |s|
    ensures c.data.None? <==> Newline !in s
    ensures c.data.None? ==> c.consumed == |s|
    ensures c.data.Some? ==> c.data.value == s[..c.consumed]
    ensures c.data.Some? ==> LineLength(s) == Some(c.consumed)
  {
    match LineLength(s)
    case Some(n) => Chunk(Some(s[..n]), n)
    case None => Chunk(None, |s|)
  }

  /** The text before the first comma, and the text after it when there is a comma. */
  function SplitAtComma(line: seq<byte>): (parts: (seq<byte>, Option<seq<byte>>))
    ensures Comma !in parts.0
    ensures parts.1.None? ==> parts.0 == line
    ensures parts.1.Some? ==> line == parts.0 + [Comma] + parts.1.value
  {
    var c := IndexOf(line, Comma);
    if c < |line| then (line[..c], Some(line[c + 1..])) else (line, None)
  }

  /**
    The text branch of `_read_response` on a line: the timestamp is parsed
    first (failing with BadTimestamp), then the part after the comma is
    taken (failing with MissingComma).
   */
  function ParseTextLine(code: byte, line: seq<byte>): (st: Status)
    ensures !st.Starved?
    ensures st.Complete? ==> st.frame.code == code
  {
    var (head, tail) := SplitAtComma(line);
    match ParseInt(head)
    case None => Malformed(BadTimestamp)
    case Some(t) =>
      match tail
      case None => Malformed(MissingComma)
      case Some(payload) => Complete(Frame(code, t, payload))
  }

  /** `_read_response` as a function of the bytes the transport has delivered. */
  function DecodeFrame(s: seq<byte>): (d: Decoded)
    ensures d.consumed <= |s|
    ensures d.status.Starved? ==> d.consumed == |s|
    ensures !d.status.Starved? ==> |s| > 0
    ensures d.status.Complete? ==> d.status.frame.code == s[0]
  {
    if |s| == 0 then Decoded(Starved, 0)
    else if IsBinaryCode(s[0]) then
      if |s| == 1 then Decoded(Starved, 1)
      else
        var c := BinaryData(s[2..]);
        match c.data
        case None => Decoded(Starved, |s|)
        case Some(payload) => Decoded(Complete(Frame(s[0], s[1], payload)), 2 + c.consumed)
    else
      var c := TextData(s[1..]);
      match c.data
      case None => Decoded(Starved, |s|)
      case Some(line) => Decoded(ParseTextLine(s[0], line), 1 + c.consumed)
  }

  /**
    Where a binary frame ends: after the code, the timestamp byte, the two
    length bytes and exactly as many payload bytes as the length says.
   */
  lemma BinaryFrameBoundary(s: seq<byte>)
    requires DecodeFrame(s).status.Complete? && IsBinaryCode(s[0])
    ensures var d := DecodeFrame(s);
      4 <= d.consumed && |d.status.frame.payload| == FrameLength(s[2], s[3]) &&
      d.consumed == 4 + |d.status.frame.payload| &&
      d.status.frame.timestamp == s[1] &&
      d.status.frame.payload == s[4..d.consumed]
  {
    var b := s[2..];
    assert b[0] == s[2] && b[1] == s[3];
    var size := FrameLength(s[2], s[3]);
    assert BinaryData(b).data.Some? && |s| >= 4 + size;
    assert b[2..2 + size] == s[4..4 + size];
  }

  /**
    Where a text frame ends, whether it parses or not: at the first newline
    after the code byte, which is the last byte taken.
   */
  lemma TextFrameBoundary(s: seq<byte>)
    requires !DecodeFrame(s).status.Starved? && !IsBinaryCode(s[0])
    ensures var d := DecodeFrame(s);
      1 < d.consumed && s[d.consumed - 1] == Newline &&
      forall i :: 1 <= i < d.consumed - 1 ==> s[i] != Newline
  {
    var n := LineLength(s[1..]).value;
    forall i | 1 <= i < n
      ensures s[i] != Newline
    {
      assert s[i] == s[1..][i - 1];
    }
  }

  // ---------------------------------------------------------------------
  // Encoding, round trips and frame boundaries
  // ---------------------------------------------------------------------

  /** The bytes of a binary frame as the robot sends it. */
  function EncodeBinary(code: byte, timestamp: byte, payload: seq<byte>): seq<byte>
    requires IsBinaryCode(code) && |payload| < 0x1_0000
  {
    var (lo, hi) := LengthBytes(|payload|);
    [code, timestamp, lo, hi] + payload
  }

  /** A text payload is one line: it ends in the one newline it contains. */
  predicate IsLine(payload: seq<byte>) {
    |payload| > 0 && payload[|payload| - 1] == Newline &&
    forall i :: 0 <= i < |payload| - 1 ==> payload[i] != Newline
  }

  /** The bytes of a text frame as the robot sends it. */
  function EncodeText(code: byte, timestamp: int, payload: seq<byte>): seq<byte>
    requires !IsBinaryCode(code) && IsLine(payload)
  {
    [code] + Decimal(timestamp) + [Comma] + payload
  }

  /** A binary frame decodes to what was sent, whatever follows it on the stream. */
  lemma BinaryRoundTrip(code: byte, timestamp: byte, payload: seq<byte>, rest: seq<byte>)
    requires IsBinaryCode(code) && |payload| < 0x1_0000
    ensures DecodeFrame(EncodeBinary(code, timestamp, payload) + rest)
         == Decoded(Complete(Frame(code, timestamp, payload)), 4 + |payload|)
  {
    var s := EncodeBinary(code, timestamp, payload) + rest;
    assert s[2..][2..2 + |payload|] == payload;
  }

  /** The line reader stops at the payload's newline, not at anything before it. */
  lemma TextLineOf(digits: seq<byte>, payload: seq<byte>, rest: seq<byte>)
    requires Newline !in digits && IsLine(payload)
    ensures TextData(digits + [Comma] + payload + rest) == Chunk(Some(digits + [Comma] + payload), |digits| + 1 + |payload|)
  {
    var line := digits + [Comma] + payload;
    var s := line + rest;
    assert s == digits + [Comma] + payload + rest;
    forall i | 0 <= i < |line| - 1
      ensures s[i] != Newline
    {
      if i < |digits| {
        assert s[i] == digits[i];
      } else if i > |digits| {
        assert s[i] == payload[i - |digits| - 1];
      }
    }
    assert s[|line| - 1] == Newline;
    assert IndexOf(s, Newline) == |line| - 1;
    assert s[..|line|] == line;
  }

  /** The split happens at the comma that follows the timestamp. */
  lemma SplitAfterTimestamp(digits: seq<byte>, payload: seq<byte>)
    requires Comma !in digits
    ensures SplitAtComma(digits + [Comma] + payload) == (digits, Some(payload))
  {
    var line := digits + [Comma] + payload;
    forall i | 0 <= i < |digits|
      ensures line[i] != Comma
    {
      assert line[i] == digits[i];
    }
    assert line[|digits|] == Comma;
    assert IndexOf(line, Comma) == |digits|;
    assert line[..|digits|] == digits;
    assert line[|digits| + 1..] == payload;
  }

  /**
    A text frame decodes to what was sent, whatever follows it on the
    stream; the payload keeps its newline, as `readline` does.
   */
  lemma TextRoundTrip(code: byte, timestamp: int, payload: seq<byte>, rest: seq<byte>)
    requires !IsBinaryCode(code) && IsLine(payload)
    ensures DecodeFrame(EncodeText(code, timestamp, payload) + rest)
         == Decoded(Complete(Frame(code, timestamp, payload)), |EncodeText(code, timestamp, payload)|)
  {
    var digits := Decimal(timestamp);
    var s := EncodeText(code, timestamp, payload) + rest;
    assert s[1..] == digits + [Comma] + payload + rest;
    DecimalHasNoDelimiters(timestamp);
    TextLineOf(digits, payload, rest);
    SplitAfterTimestamp(digits, payload);
    ParseIntDecimal(timestamp);
  }

  lemma {:induction false} IndexOfExtend(s: seq<byte>, t: seq<byte>, b: byte)
    requires IndexOf(s, b) < |s|
    ensures IndexOf(s + t, b) == IndexOf(s, b)
  {
    if s[0] != b {
      assert (s + t)[1..] == s[1..] + t;
      IndexOfExtend(s[1..], t, b);
    }
  }

  /** Once a whole binary body has arrived, later bytes do not change it. */
  lemma BinaryDataExtend(a: seq<byte>, t: seq<byte>)
    requires BinaryData(a).data.Some?
    ensures BinaryData(a + t) == BinaryData(a)
  {
    var u := a + t;
    assert u[0] == a[0] && u[1] == a[1];
    var size := FrameLength(a[0], a[1]);
    assert u[2..2 + size] == a[2..2 + size];
  }

  /** Two streams that start with the same binary header and body decode alike. */
  lemma SameBinaryFrame(s: seq<byte>, u: seq<byte>)
    requires |s| >= 2 && |u| >= 2 && s[0] == u[0] && s[1] == u[1] && IsBinaryCode(s[0])
    requires BinaryData(s[2..]) == BinaryData(u[2..])
    ensures DecodeFrame(s) == DecodeFrame(u)
  {
  }

  lemma BinaryIgnoresLaterBytes(s: seq<byte>, t: seq<byte>)
    requires DecodeFrame(s).status.Complete? && IsBinaryCode(s[0])
    ensures DecodeFrame(s + t) == DecodeFrame(s)
  {
    assert (s + t)[2..] == s[2..] + t;
    BinaryDataExtend(s[2..], t);
    SameBinaryFrame(s, s + t);
  }

  /** Once a newline has arrived, later bytes do not change the line that is read. */
  lemma TextDataExtend(a: seq<byte>, t: seq<byte>)
    requires Newline in a
    ensures TextData(a + t) == TextData(a)
  {
    var k := IndexOf(a, Newline);
    IndexOfExtend(a, t, Newline);
    assert (a + t)[..k + 1] == a[..k + 1];
  }

  /** Two streams that start with the same text code and the same line decode alike. */
  lemma SameTextFrame(s: seq<byte>, u: seq<byte>)
    requires |s| > 0 && |u| > 0 && s[0] == u[0] && !IsBinaryCode(s[0])
    requires TextData(s[1..]) == TextData(u[1..])
    ensures DecodeFrame(s) == DecodeFrame(u)
  {
  }

  lemma TextIgnoresLaterBytes(s: seq<byte>, t: seq<byte>)
    requires !DecodeFrame(s).status.Starved? && !IsBinaryCode(s[0])
    ensures DecodeFrame(s + t) == DecodeFrame(s)
  {
    var a := s[1..];
    assert TextData(a).data.Some?;
    assert Newline in a;
    assert (s + t)[1..] == a + t;
    TextDataExtend(a, t);
    SameTextFrame(s, s + t);
  }

  /**
    Frame boundaries: once the delivered bytes hold a whole frame (or a
    whole malformed line), bytes arriving later change neither the frame
    nor how much of the stream it takes.
   */
  lemma DecodeIgnoresLaterBytes(s: seq<byte>, t: seq<byte>)
    requires !DecodeFrame(s).status.Starved?
    ensures DecodeFrame(s + t) == DecodeFrame(s)
  {
    if IsBinaryCode(s[0]) {
      BinaryIgnoresLaterBytes(s, t);
    } else {
      TextIgnoresLaterBytes(s, t);
    }
  }
}
