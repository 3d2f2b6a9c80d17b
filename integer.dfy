/**
  RESP2 Integers: `:<decimal>\r\n`. The encoder spells a signed 64-bit integer
  in decimal; the decoder keeps the payload as raw text and checks only the
  line shape, not that the payload is a number.
 */
module Integers {
  import opened Wire

  const I64_MIN: int := -0x8000_0000_0000_0000
  const I64_MAX: int := 0x7fff_ffff_ffff_ffff

  /** `InvalidValue` is declared by the source but produced by none of its operations. */
  datatype IntegerError = InvalidValueChar | InvalidValue | InvalidFirstChar | InvalidTerminate

  /** An integer, held as its wire encoding (`from_bytes`/`from_slice` are the constructor). */
  datatype Integer = Integer(bytes: seq<byte>) {

    /** The number of wire bytes; a well-formed line has at least its tag and CRLF. */

    function Len(): (n: nat)

      ensures WellFormed() ==> n >= 3

    {
      |bytes|
    }

    /** The encoding is one `:` line with a CR/LF-free payload. */
    predicate WellFormed() {
      IsLine(bytes, COLON)
    }

    /** The payload text between the tag byte and the trailing two bytes. */
    function RawValue(): (v: seq<byte>)
      requires Len() >= 3
      ensures |v| == Len() - 3
      ensures bytes == bytes[..1] + v + bytes[Len() - 2..]
    {
      bytes[1..Len() - 2]
    }
  }

  /**
    Encodes `input` as `:` + its decimal spelling + CRLF; the raw value reads
    back as `input`.
   */
  method New(input: int) returns (s: Integer)
    requires I64_MIN <= input <= I64_MAX
    ensures s.bytes == Line(COLON, Decimal(input))
    ensures s.WellFormed() && s.Len() == |Decimal(input)| + 3
    ensures s.RawValue() == Decimal(input)
    ensures s.RawValue()[0] == MINUS <==> input < 0
  {
    var text := Decimal(input);
    var buf: seq<byte> := [];
    buf := buf + [COLON];
    buf := buf + text;
    buf := buf + [CR];
    buf := buf + [LF];
    s := Integer(buf);
    LineIsLine(COLON, text);
    assert buf[1..|buf| - 2] == text;
  }

  /** Accepts exactly the payloads that hold no CR and no LF byte. */
  method ValidateValue(input: seq<byte>) returns (r: Result<(), IntegerError>)
    ensures r.Ok? <==> NoCrLf(input)
    ensures r.Err? ==> r.error == InvalidValueChar
  {
    var index := 0;
    var length := |input|;
    while index < length && input[index] != LF && input[index] != CR
      invariant 0 <= index <= length
      invariant forall j :: 0 <= j < index ==> !IsCrLf(input[j])
    {
      index := index + 1;
    }
    if index != length {
      return Err(InvalidValueChar);
    }
    return Ok(());
  }

  /**
    What `Parse` computes: the decoded value and the new cursor. Failures leave
    the cursor at `start`; a success copies out exactly the consumed line.
   */
  function Parsed(input: seq<byte>, start: nat, end: nat): (p: (Result<Integer, IntegerError>, nat))
    requires end <= |input|
    ensures p.0.Err? ==> p.1 == start && (p.0.error == InvalidFirstChar || p.0.error == InvalidTerminate)
    ensures p.0 == Err(InvalidFirstChar) <==> start >= end || input[start] != COLON
    ensures p.0.Ok? ==> start < p.1 <= end && p.0.value.bytes == input[start..p.1] && p.0.value.WellFormed()
  {
    match ScanLine(input, start, end, COLON)
    case BadFirstChar => (Err(InvalidFirstChar), start)
    case BadTerminate => (Err(InvalidTerminate), start)
    case Complete(k) => (Ok(Integer(input[start..k])), k)
  }

  /** Decoding looks only inside the window: buffers that agree on [start, end) decode alike. */
  lemma {:induction false} ParsedWithinWindow(input: seq<byte>, other: seq<byte>, start: nat, end: nat)
    requires end <= |input| && end <= |other|
    requires forall j :: start <= j < end ==> input[j] == other[j]
    ensures Parsed(input, start, end) == Parsed(other, start, end)
  {
    ScanLineWithinWindow(input, other, start, end, COLON);
    var k := Parsed(input, start, end).1;
    if Parsed(input, start, end).0.Ok? {
      assert input[start..k] == other[start..k];
    }
  }

  /**
    Decodes one integer from input[start..end]. The source advances its
    `&mut start` cursor only on success; here the new cursor is `next`.
   */
  method Parse(input: seq<byte>, start: nat, end: nat) returns (r: Result<Integer, IntegerError>, next: nat)
    requires end <= |input|
    ensures (r, next) == Parsed(input, start, end)
  {
    var index := start;
    if index >= end || input[index] != COLON {
      return Err(InvalidFirstChar), start;
    }
    index := index + 1;
    while index < end && input[index] != CR && input[index] != LF
      invariant start + 1 <= index <= end
      invariant LineEnd(input, index, end) == LineEnd(input, start + 1, end)
    {
      index := index + 1;
    }
    if index + 1 >= end || input[index] != CR || input[index + 1] != LF {
      return Err(InvalidTerminate), start;
    }
    index := index + 2;
    r, next := Ok(Integer(input[start..index])), index;
  }

  /**
    The decoder does not look at the payload's characters: any `:` line with a
    CR/LF-free payload, digits or not, followed by anything, parses back to
    itself.
   */
  lemma ParseAnyPayload(v: seq<byte>, rest: seq<byte>)
    requires NoCrLf(v)
    ensures var input := Line(COLON, v) + rest;
            Parsed(input, 0, |input|) == (Ok(Integer(Line(COLON, v))), |v| + 3)
  {
    var input := Line(COLON, v) + rest;
    LineIsLine(COLON, v);
    assert input[0..|v| + 3] == Line(COLON, v);
    ScanLineCompleteIff(input, 0, |input|, COLON, |v| + 3);
  }

  /** Encode then parse: the encoding of `n` parses back to itself, and its text reads back as `n`. */
  lemma RoundTrip(n: int, rest: seq<byte>)
    ensures var input := Line(COLON, Decimal(n)) + rest;
            var p := Parsed(input, 0, |input|);
            p == (Ok(Integer(Line(COLON, Decimal(n)))), |Decimal(n)| + 3)
            && DecimalValue(p.0.value.RawValue()) == n
  {
    var text := Decimal(n);
    ParseAnyPayload(text, rest);
    LineIsLine(COLON, text);
    DecimalRoundTrip(n);
  }

  /** `:100\r\n+bar\r\n` yields the integer 100 and leaves the cursor at 6. */
  lemma ParseExample()
    ensures var input := Ascii(":100\r\n+bar\r\n");
            Parsed(input, 0, |input|) == (Ok(Integer(Line(COLON, Decimal(100)))), 6)
  {
    var input := Ascii(":100\r\n+bar\r\n");
    assert Decimal(100) == Ascii("100");
    assert input == Line(COLON, Decimal(100)) + Ascii("+bar\r\n");
    RoundTrip(100, Ascii("+bar\r\n"));
  }

  /** A payload that is not a number is accepted too: `:abc\r\n` parses. */
  lemma ParseNonNumeric()
    ensures var input := Ascii(":abc\r\n");
            Parsed(input, 0, |input|) == (Ok(Integer(input)), 6)
  {
    var input := Ascii(":abc\r\n");
    assert input == Line(COLON, Ascii("abc"));
    assert input + [] == input;
    ParseAnyPayload(Ascii("abc"), []);
  }

  /** `-100` is spelled `:-100\r\n`. */
  lemma NegativeExample()
    ensures Line(COLON, Decimal(-100)) == Ascii(":-100\r\n")
  {
    assert NatDigits(100) == Ascii("100");
  }

  /** `100` is spelled `:100\r\n`, whose raw value is the text `100`. */
  lemma RawValueExample()
    ensures var i := Integer(Ascii(":100\r\n"));
            i == Integer(Line(COLON, Decimal(100))) && i.RawValue() == Ascii("100")
  {
    assert Decimal(100) == Ascii("100");
  }
}
