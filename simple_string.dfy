/**
  RESP2 Simple Strings: `+<payload>\r\n`, the payload free of CR and LF.
  A value is its complete wire encoding; `Parse` decodes one out of a cursor
  window of a caller's buffer.
 */
module SimpleStrings {
  import opened Wire

  datatype SimpleStringError = InvalidValueChar | InvalidFirstChar | InvalidTerminate

  /** A simple string, held as its wire encoding (`from_bytes`/`from_slice` are the constructor). */
  datatype SimpleString = SimpleString(bytes: seq<byte>) {

    /** The number of wire bytes; a well-formed line has at least its tag and CRLF. */

    function Len(): (n: nat)

      ensures WellFormed() ==> n >= 3

    {
      |bytes|
    }

    /** The encoding is one `+` line with a CR/LF-free payload. */
    predicate WellFormed() {
      IsLine(bytes, PLUS)
    }

    /** The payload between the tag byte and the trailing two bytes. */
    function Value(): (v: seq<byte>)
      requires Len() >= 3
      ensures |v| == Len() - 3
      ensures bytes == bytes[..1] + v + bytes[Len() - 2..]
    {
      bytes[1..Len() - 2]
    }

    function ValueLen(): (n: nat)
      requires Len() >= 3
      ensures n == |Value()|
    {
      Len() - 3
    }
  }

  /** Encodes `value` as a simple string; the payload is not checked. */
  method New(value: seq<byte>) returns (s: SimpleString)
    ensures s.bytes == Line(PLUS, value)
    ensures s.Len() == |value| + 3
    ensures s.Value() == value && s.ValueLen() == |value|
    ensures s.WellFormed() <==> NoCrLf(value)
  {
    var buf: seq<byte> := [];
    buf := buf + [PLUS];
    buf := buf + value;
    buf := buf + [CR];
    buf := buf + [LF];
    s := SimpleString(buf);
    assert buf[1..|buf| - 2] == value;
  }

  /** Accepts exactly the payloads that hold no CR and no LF byte. */
  method ValidateValue(input: seq<byte>) returns (r: Result<(), SimpleStringError>)
    ensures r.Ok? <==> NoCrLf(input)
    ensures r.Err? ==> r.error == InvalidValueChar
  {
    var index := 0;
    var length := |input|;
    while index < length && input[index] != CR && input[index] != LF
      invariant 0 <= index <= length
      invariant forall j :: 0 <= j < index ==> !IsCrLf(input[j])
    {
      index := index + 1;
    }
    if index != length {
      return Err(InvalidValueChar);
    }
    return Ok(());
  }

  /**
    What `Parse` computes: the decoded value and the new cursor. Failures leave
    the cursor at `start`; a success copies out exactly the consumed line.
   */
  function Parsed(input: seq<byte>, start: nat, end: nat): (p: (Result<SimpleString, SimpleStringError>, nat))
    requires end <= |input|
    ensures p.0.Err? ==> p.1 == start && p.0.error != InvalidValueChar
    ensures p.0 == Err(InvalidFirstChar) <==> start >= end || input[start] != PLUS
    ensures p.0.Ok? ==> start < p.1 <= end && p.0.value.bytes == input[start..p.1] && p.0.value.WellFormed()
  {
    match ScanLine(input, start, end, PLUS)
    case BadFirstChar => (Err(InvalidFirstChar), start)
    case BadTerminate => (Err(InvalidTerminate), start)
    case Complete(k) => (Ok(SimpleString(input[start..k])), k)
  }

  /** Decoding looks only inside the window: buffers that agree on [start, end) decode alike. */
  lemma {:induction false} ParsedWithinWindow(input: seq<byte>, other: seq<byte>, start: nat, end: nat)
    requires end <= |input| && end <= |other|
    requires forall j :: start <= j < end ==> input[j] == other[j]
    ensures Parsed(input, start, end) == Parsed(other, start, end)
  {
    ScanLineWithinWindow(input, other, start, end, PLUS);
    var k := Parsed(input, start, end).1;
    if Parsed(input, start, end).0.Ok? {
      assert input[start..k] == other[start..k];
    }
  }

  /**
    Decodes one simple string from input[start..end]. The source advances its
    `&mut start` cursor only on success; here the new cursor is `next`.
   */
  method Parse(input: seq<byte>, start: nat, end: nat) returns (r: Result<SimpleString, SimpleStringError>, next: nat)
    requires end <= |input|
    ensures (r, next) == Parsed(input, start, end)
  {
    var index := start;
    if index >= end || input[index] != PLUS {
      return Err(InvalidFirstChar), start;
    }
    index := index + 1;
    while index < end && input[index] != CR && input[index] != LF
      invariant start + 1 <= index <= end
      invariant LineEnd(input, index, end) == LineEnd(input, start + 1, end)
    {
      index := index + 1;
    }
    if index + 1 >= end || input[index] != CR || input[index + 1] != LF {
      return Err(InvalidTerminate), start;
    }
    index := index + 2;
    r, next := Ok(SimpleString(input[start..index])), index;
  }

  /** Every well-formed simple string, followed by anything, parses back to itself. */
  lemma ParseWellFormed(s: SimpleString, rest: seq<byte>)
    requires s.WellFormed()
    ensures var input := s.bytes + rest;
            Parsed(input, 0, |input|) == (Ok(s), s.Len())
  {
    var input := s.bytes + rest;
    assert input[0..s.Len()] == s.bytes;
    ScanLineCompleteIff(input, 0, |input|, PLUS, s.Len());
  }

  /** Encode then parse: a payload that passes ValidateValue comes back unchanged. */
  lemma RoundTrip(v: seq<byte>, rest: seq<byte>)
    requires NoCrLf(v)
    ensures var input := Line(PLUS, v) + rest;
            Parsed(input, 0, |input|) == (Ok(SimpleString(Line(PLUS, v))), |v| + 3)
            && Parsed(input, 0, |input|).0.value.Value() == v
  {
    LineIsLine(PLUS, v);
    ParseWellFormed(SimpleString(Line(PLUS, v)), rest);
  }

  /** `+foo\r\n+bar\r\n` yields the simple string "foo" and leaves the cursor at 6. */
  lemma ParseExample()
    ensures var input := Ascii("+foo\r\n+bar\r\n");
            Parsed(input, 0, |input|) == (Ok(SimpleString(Line(PLUS, Ascii("foo")))), 6)
  {
    var input := Ascii("+foo\r\n+bar\r\n");
    assert input == Line(PLUS, Ascii("foo")) + Ascii("+bar\r\n");
    RoundTrip(Ascii("foo"), Ascii("+bar\r\n"));
  }

  /** `+OK\r\n` is five bytes long and holds the two-byte value `OK`. */
  lemma ValueExample()
    ensures var s := SimpleString(Ascii("+OK\r\n"));
            s == SimpleString(Line(PLUS, Ascii("OK")))
            && s.Len() == 5 && s.Value() == Ascii("OK") && s.ValueLen() == 2
  {
  }

  /** `OK` passes validation; `O\r\nK` fails with InvalidValueChar. */
  method ValidateScenario() returns (good: Result<(), SimpleStringError>, bad: Result<(), SimpleStringError>)
    ensures good == Ok(())
    ensures bad == Err(InvalidValueChar)
  {
    var ok := Ascii("OK");
    assert ok == [0x4f, 0x4b];
    assert NoCrLf(ok);
    good := ValidateValue(ok);
    assert good.Ok?;
    assert good.value == ();
    var text := Ascii("O\r\nK");
    assert IsCrLf(text[1]);
    bad := ValidateValue(text);
  }
}
