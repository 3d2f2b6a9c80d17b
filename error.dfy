/**
  RESP2 Errors: `-<message>\r\n`, the same line shape as a simple string with
  the tag `-`. A value is its complete wire encoding.
 */
module Errors {
  import opened Wire

  datatype ErrorError = InvalidValueChar | InvalidFirstChar | InvalidTerminate

  /** An error, held as its wire encoding (`from_bytes`/`from_slice` are the constructor). */
  datatype Error = Error(bytes: seq<byte>) {

    /** The number of wire bytes; a well-formed line has at least its tag and CRLF. */

    function Len(): (n: nat)

      ensures WellFormed() ==> n >= 3

    {
      |bytes|
    }

    /** The encoding is one `-` line with a CR/LF-free payload. */
    predicate WellFormed() {
      IsLine(bytes, MINUS)
    }

    /** The payload between the tag byte and the trailing two bytes. */
    function Value(): (v: seq<byte>)
      requires Len() >= 3
      ensures |v| == Len() - 3
      ensures bytes == bytes[..1] + v + bytes[Len() - 2..]
    {
      bytes[1..Len() - 2]
    }
  }

  /** Encodes `value` as an error; the payload is not checked. */
  method New(value: seq<byte>) returns (s: Error)
    ensures s.bytes == Line(MINUS, value)
    ensures s.Len() == |value| + 3
    ensures s.Value() == value
    ensures s.WellFormed() <==> NoCrLf(value)
  {
    var buf: seq<byte> := [];
    buf := buf + [MINUS];
    buf := buf + value;
    buf := buf + [CR];
    buf := buf + [LF];
    s := Error(buf);
    assert buf[1..|buf| - 2] == value;
  }

  /** Accepts exactly the payloads that hold no CR and no LF byte. */
  method ValidateValue(input: seq<byte>) returns (r: Result<(), ErrorError>)
    ensures r.Ok? <==> NoCrLf(input)
    ensures r.Err? ==> r.error == InvalidValueChar
  {
    var index := 0;
    var length := |input|;
    while index < length && input[index] != CR && input[index] != LF
      invariant 0 <= index <= length
      invariant forall j :: 0 <= j < index ==> !IsCrLf(input[j])
    {
      index := index + 1;
    }
    if index != length {
      return Err(InvalidValueChar);
    }
    return Ok(());
  }

  /**
    What `Parse` computes: the decoded value and the new cursor. Failures leave
    the cursor at `start`; a success copies out exactly the consumed line.
   */
  function Parsed(input: seq<byte>, start: nat, end: nat): (p: (Result<Error, ErrorError>, nat))
    requires end <= |input|
    ensures p.0.Err? ==> p.1 == start && p.0.error != InvalidValueChar
    ensures p.0 == Err(InvalidFirstChar) <==> start >= end || input[start] != MINUS
    ensures p.0.Ok? ==> start < p.1 <= end && p.0.value.bytes == input[start..p.1] && p.0.value.WellFormed()
  {
    match ScanLine(input, start, end, MINUS)
    case BadFirstChar => (Err(InvalidFirstChar), start)
    case BadTerminate => (Err(InvalidTerminate), start)
    case Complete(k) => (Ok(Error(input[start..k])), k)
  }

  /** Decoding looks only inside the window: buffers that agree on [start, end) decode alike. */
  lemma {:induction false} ParsedWithinWindow(input: seq<byte>, other: seq<byte>, start: nat, end: nat)
    requires end <= |input| && end <= |other|
    requires forall j :: start <= j < end ==> input[j] == other[j]
    ensures Parsed(input, start, end) == Parsed(other, start, end)
  {
    ScanLineWithinWindow(input, other, start, end, MINUS);
    var k := Parsed(input, start, end).1;
    if Parsed(input, start, end).0.Ok? {
      assert input[start..k] == other[start..k];
    }
  }

  /**
    Decodes one error from input[start..end]. The source advances its
    `&mut start` cursor only on success; here the new cursor is `next`.
   */
  method Parse(input: seq<byte>, start: nat, end: nat) returns (r: Result<Error, ErrorError>, next: nat)
    requires end <= |input|
    ensures (r, next) == Parsed(input, start, end)
  {
    var index := start;
    if index >= end || input[index] != MINUS {
      return Err(InvalidFirstChar), start;
    }
    index := index + 1;
    while index < end && input[index] != CR && input[index] != LF
      invariant start + 1 <= index <= end
      invariant LineEnd(input, index, end) == LineEnd(input, start + 1, end)
    {
      index := index + 1;
    }
    if index + 1 >= end || input[index] != CR || input[index + 1] != LF {
      return Err(InvalidTerminate), start;
    }
    index := index + 2;
    r, next := Ok(Error(input[start..index])), index;
  }

  /** Every well-formed error, followed by anything, parses back to itself. */
  lemma ParseWellFormed(s: Error, rest: seq<byte>)
    requires s.WellFormed()
    ensures var input := s.bytes + rest;
            Parsed(input, 0, |input|) == (Ok(s), s.Len())
  {
    var input := s.bytes + rest;
    assert input[0..s.Len()] == s.bytes;
    ScanLineCompleteIff(input, 0, |input|, MINUS, s.Len());
  }

  /** Encode then parse: a payload that passes ValidateValue comes back unchanged. */
  lemma RoundTrip(v: seq<byte>, rest: seq<byte>)
    requires NoCrLf(v)
    ensures var input := Line(MINUS, v) + rest;
            Parsed(input, 0, |input|) == (Ok(Error(Line(MINUS, v))), |v| + 3)
            && Parsed(input, 0, |input|).0.value.Value() == v
  {
    LineIsLine(MINUS, v);
    ParseWellFormed(Error(Line(MINUS, v)), rest);
  }

  /** `-invalid length\r\n+bar\r\n` yields the error "invalid length" and leaves the cursor at 17. */
  lemma ParseExample()
    ensures var input := Ascii("-invalid length\r\n+bar\r\n");
            Parsed(input, 0, |input|) == (Ok(Error(Line(MINUS, Ascii("invalid length")))), 17)
  {
    ExamplePieces();
    AsciiConcat("-invalid length\r\n", "+bar\r\n");
    RoundTrip(Ascii("invalid length"), Ascii("+bar\r\n"));
  }

  lemma ExamplePieces()
    ensures Line(MINUS, Ascii("invalid length")) == Ascii("-invalid length\r\n")
    ensures "-invalid length\r\n" + "+bar\r\n" == "-invalid length\r\n+bar\r\n"
    ensures NoCrLf(Ascii("invalid length"))
  {
  }

  /** `-Error message\r\n` holds the value `Error message`. */
  lemma ValueExample()
    ensures var e := Error(Ascii("-Error message\r\n"));
            e == Error(Line(MINUS, Ascii("Error message"))) && e.Value() == Ascii("Error message")
  {
  }
}
