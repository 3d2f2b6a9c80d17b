/**
  RESP2 Bulk Strings: `$<len>\r\n<payload>\r\n`. Only the encoder exists;
  the payload is binary-safe and copied verbatim.
 */
module BulkStrings {
  import opened Wire

  /** A bulk string, held as its wire encoding. */
  datatype BulkString = BulkString(bytes: seq<byte>) {

    function Len(): nat {
      |bytes|
    }
  }

  /** The wire encoding of a bulk string with payload `payload`. */
  function Encoding(payload: seq<byte>): seq<byte> {
    [DOLLAR] + NatDigits(|payload|) + CRLF + payload + CRLF
  }

  /** The length of an encoded bulk string: payload, decimal length field, tag and two CRLFs. */
  lemma EncodedLen(payload: seq<byte>)
    ensures BulkString(Encoding(payload)).Len() == |payload| + |NatDigits(|payload|)| + 5
  {
  }

  /** Encodes `input` as a bulk string, writing the header, payload and terminator in turn. */
  method New(input: seq<byte>) returns (s: BulkString)
    ensures s.bytes == Encoding(input)
    ensures s.Len() == |input| + |NatDigits(|input|)| + 5
  {
    var lengthString := NatDigits(|input|);
    var buf: seq<byte> := [];
    buf := buf + [DOLLAR];
    buf := buf + lengthString;
    buf := buf + [CR];
    buf := buf + [LF];
    buf := buf + input;
    buf := buf + [CR];
    buf := buf + [LF];
    s := BulkString(buf);
  }

  /**
    Reading an encoding back: after the tag comes the payload length in decimal
    without a superfluous leading zero, then CRLF, then the payload verbatim
    (CR and LF bytes included), then CRLF.
   */
  lemma {:induction false} EncodingDecodes(p: seq<byte>)
    ensures var b := Encoding(p);
            var d := |NatDigits(|p|)|;
            && |b| == d + |p| + 5
            && b[0] == DOLLAR
            && AllDigits(b[1..d + 1]) && DigitsValue(b[1..d + 1]) == |p|
            && (d > 1 ==> b[1] != ZERO)
            && b[d + 1..d + 3] == CRLF
            && b[d + 3..d + 3 + |p|] == p
            && b[d + 3 + |p|..] == CRLF
  {
    var b := Encoding(p);
    var digits := NatDigits(|p|);
    var d := |digits|;
    assert b[1..d + 1] == digits;
    assert b[d + 3..d + 3 + |p|] == p;
    DigitsRoundTrip(|p|);
  }

  /** The length field ends at the first CR of an encoding, just after its digits. */
  lemma {:induction false} LengthFieldEnd(p: seq<byte>)
    ensures var b := Encoding(p);
            LineEnd(b, 1, |b|) == |NatDigits(|p|)| + 1
  {
    var b := Encoding(p);
    var d := |NatDigits(|p|)|;
    EncodingDecodes(p);
    forall j | 1 <= j < d + 1
      ensures !IsCrLf(b[j])
    {
      assert IsDigit(b[1..d + 1][j - 1]);
    }
    assert b[d + 1] == b[d + 1..d + 3][0] == CR;
    LineEndAt(b, 1, |b|, d + 1);
  }

  /** Different payloads have different encodings. */
  lemma {:induction false} EncodingInjective(p: seq<byte>, q: seq<byte>)
    requires Encoding(p) == Encoding(q)
    ensures p == q
  {
    EncodingDecodes(p);
    EncodingDecodes(q);
    LengthFieldEnd(p);
    LengthFieldEnd(q);
  }

  /** The empty payload encodes as `$0\r\n\r\n`. */
  lemma EmptyExample()
    ensures Encoding([]) == Ascii("$0\r\n\r\n")
  {
  }

  /** `bar` encodes as `$3\r\nbar\r\n`. */
  lemma BarExample()
    ensures Encoding(Ascii("bar")) == Ascii("$3\r\nbar\r\n")
  {
  }
}
