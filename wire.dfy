/**
  Byte-level vocabulary shared by every RESP2 value kind: bytes, the CRLF
  terminator, the "tag + payload + CRLF" line shape of the leaf kinds, the scan
  that the leaf decoders perform over a cursor window, and the decimal spelling
  used by Integer payloads and by the BulkString and Array length headers.
 */
module Wire {

  newtype byte = x: int | 0 <= x < 256

  const CR: byte := 0x0d
  const LF: byte := 0x0a
  const CRLF: seq<byte> := [CR, LF]

  /** Tag bytes of the five value kinds. */
  const PLUS: byte := 0x2b   // '+' SimpleString
  const MINUS: byte := 0x2d  // '-' Error, and the sign of a negative decimal
  const COLON: byte := 0x3a  // ':' Integer
  const DOLLAR: byte := 0x24 // '$' BulkString
  const STAR: byte := 0x2a   // '*' Array

  const ZERO: byte := 0x30   // '0'

  /** The result type of the source's fallible operations. */
  datatype Result<+T, +E> = Ok(value: T) | Err(error: E)

  predicate IsCrLf(b: byte) {
    b == CR || b == LF
  }

  /** `s` holds no CR and no LF byte: the payload constraint of the leaf kinds. */
  predicate NoCrLf(s: seq<byte>) {
    forall i :: 0 <= i < |s| ==> !IsCrLf(s[i])
  }

  /** The encoding of a leaf value: tag byte, payload, CRLF. */
  function Line(tag: byte, payload: seq<byte>): seq<byte> {
    [tag] + payload + CRLF
  }

  /** `s` is one complete line of kind `tag` whose payload holds no CR/LF. */
  predicate IsLine(s: seq<byte>, tag: byte) {
    |s| >= 3 && s[0] == tag && s[|s| - 2] == CR && s[|s| - 1] == LF && NoCrLf(s[1..|s| - 2])
  }

  lemma {:induction false} LineIsLine(tag: byte, v: seq<byte>)
    requires NoCrLf(v)
    ensures IsLine(Line(tag, v), tag)
    ensures Line(tag, v)[1..|v| + 1] == v
  {
    var s := Line(tag, v);
    assert s[1..|s| - 2] == v;
  }

  lemma SliceOfSlice(s: seq<byte>, a: nat, b: nat, c: nat, d: nat)
    requires a <= b <= |s| && c <= d <= b - a
    ensures s[a..b][c..d] == s[a + c..a + d]
  {
    forall i | 0 <= i < d - c
      ensures s[a..b][c..d][i] == s[a + c..a + d][i]
    {
      assert s[a..b][c..d][i] == s[a..b][c + i] == s[a + c + i];
    }
  }

  lemma SliceOfPrefix(a: seq<byte>, b: seq<byte>, lo: nat, hi: nat)
    requires lo <= hi <= |a|
    ensures (a + b)[lo..hi] == a[lo..hi]
  {
  }

  lemma SliceOfSuffix(a: seq<byte>, b: seq<byte>, lo: nat, hi: nat)
    requires lo <= hi <= |b|
    ensures (a + b)[|a| + lo..|a| + hi] == b[lo..hi]
  {
  }

  lemma AppendAssoc(a: seq<byte>, b: seq<byte>, c: seq<byte>)
    ensures (a + b) + c == a + (b + c)
  {
  }

  /** A tag, a CR/LF-free stretch and a CRLF found in place form a line. */
  lemma LineInWindow(input: seq<byte>, start: nat, k: nat, tag: byte)
    requires start < k && k + 2 <= |input|
    requires input[start] == tag && input[k] == CR && input[k + 1] == LF
    requires forall j :: start + 1 <= j < k ==> !IsCrLf(input[j])
    ensures IsLine(input[start..k + 2], tag)
  {
    var s := input[start..k + 2];
    SliceOfSlice(input, start, k + 2, 1, k - start);
    var payload := s[1..|s| - 2];
    forall i | 0 <= i < |payload|
      ensures !IsCrLf(payload[i])
    {
      assert payload[i] == input[start + 1 + i];
    }
  }

  /**
    Index of the first CR or LF byte at or after `i`, or `end` when the window
    [i, end) holds none: where the leaf decoders' payload scan stops.
   */
  function LineEnd(input: seq<byte>, i: nat, end: nat): (k: nat)
    requires i <= end <= |input|
    ensures i <= k <= end
    ensures forall j :: i <= j < k ==> !IsCrLf(input[j])
    ensures k < end ==> IsCrLf(input[k])
    decreases end - i
  {
    if i == end || IsCrLf(input[i]) then i else LineEnd(input, i + 1, end)
  }

  /** Any CR/LF-free stretch that ends at a CR/LF inside the window is what LineEnd finds. */
  lemma {:induction false} LineEndAt(input: seq<byte>, i: nat, end: nat, m: nat)
    requires i <= m < end <= |input|
    requires forall j :: i <= j < m ==> !IsCrLf(input[j])
    requires IsCrLf(input[m])
    ensures LineEnd(input, i, end) == m
    decreases m - i
  {
    if i < m {
      LineEndAt(input, i + 1, end, m);
    }
  }

  /** LineEnd depends on the bytes of the window [i, end) only. */
  lemma {:induction false} LineEndWithinWindow(input: seq<byte>, other: seq<byte>, i: nat, end: nat)
    requires i <= end <= |input| && end <= |other|
    requires forall j :: i <= j < end ==> input[j] == other[j]
    ensures LineEnd(input, i, end) == LineEnd(other, i, end)
    decreases end - i
  {
    if i < end && !IsCrLf(input[i]) {
      LineEndWithinWindow(input, other, i + 1, end);
    }
  }

  /** Outcome of scanning one leaf line out of a cursor window. */
  datatype Scan = BadFirstChar | BadTerminate | Complete(next: nat)

  /**
    The scan shared by the three leaf decoders: the byte at `start` must be
    `tag`, then the payload runs to the first CR/LF before `end`, which must be
    a CR immediately followed by an LF that is still before `end`. On success
    `next` is the index just past that LF.
   */
  function ScanLine(input: seq<byte>, start: nat, end: nat, tag: byte): (r: Scan)
    requires end <= |input|
    ensures r.BadFirstChar? <==> start >= end || input[start] != tag
    ensures r.Complete? ==> start < r.next <= end && IsLine(input[start..r.next], tag)
  {
    if start >= end || input[start] != tag then BadFirstChar
    else
      var k := LineEnd(input, start + 1, end);
      if k + 1 >= end || input[k] != CR || input[k + 1] != LF then BadTerminate
      else
        LineInWindow(input, start, k, tag);
        Complete(k + 2)
  }

  /**
    ScanLine succeeds with `next == k` exactly when input[start..k] is a complete
    line of kind `tag` that ends within the window; so it fails with
    BadTerminate exactly when the tag matches and no such line exists.
   */
  lemma {:induction false} ScanLineCompleteIff(input: seq<byte>, start: nat, end: nat, tag: byte, k: nat)
    requires end <= |input|
    ensures ScanLine(input, start, end, tag) == Complete(k) <==>
            start < k <= end && IsLine(input[start..k], tag)
  {
    if start < k <= end && IsLine(input[start..k], tag) {
      var s := input[start..k];
      assert input[start] == s[0];
      var payload := s[1..|s| - 2];
      forall j | start + 1 <= j < k - 2
        ensures !IsCrLf(input[j])
      {
        assert payload[j - start - 1] == s[j - start] == input[j];
        assert !IsCrLf(payload[j - start - 1]);
      }
      assert input[k - 2] == s[|s| - 2];
      assert input[k - 1] == s[|s| - 1];
      LineEndAt(input, start + 1, end, k - 2);
    }
  }

  /** ScanLine never looks outside the window [start, end). */
  lemma {:induction false} ScanLineWithinWindow(input: seq<byte>, other: seq<byte>, start: nat, end: nat, tag: byte)
    requires end <= |input| && end <= |other|
    requires forall j :: start <= j < end ==> input[j] == other[j]
    ensures ScanLine(input, start, end, tag) == ScanLine(other, start, end, tag)
  {
    if start < end {
      LineEndWithinWindow(input, other, start + 1, end);
    }
  }

  /**
    Encode then scan: a line built from a CR/LF-free payload, placed anywhere in
    a buffer and followed by anything, is scanned back in full and the cursor
    lands just past it.
   */
  lemma {:induction false} ScanLineRoundTrip(pre: seq<byte>, tag: byte, v: seq<byte>, rest: seq<byte>)
    requires NoCrLf(v)
    ensures var input := pre + Line(tag, v) + rest;
            ScanLine(input, |pre|, |input|, tag) == Complete(|pre| + |v| + 3)
  {
    var input := pre + Line(tag, v) + rest;
    LineIsLine(tag, v);
    assert input[|pre|..|pre| + |v| + 3] == Line(tag, v);
    ScanLineCompleteIff(input, |pre|, |input|, tag, |pre| + |v| + 3);
  }

  // ---------------------------------------------------------------------------
  // Decimal spelling (the role of i64::to_string / usize::to_string)
  // ---------------------------------------------------------------------------

  predicate IsDigit(b: byte) {
    ZERO <= b <= 0x39
  }

  predicate AllDigits(s: seq<byte>) {
    forall i :: 0 <= i < |s| ==> IsDigit(s[i])
  }

  /** ASCII decimal spelling of a natural number, most significant digit first. */
  function NatDigits(n: nat): (d: seq<byte>)
    ensures |d| >= 1 && AllDigits(d) && NoCrLf(d)
    ensures |d| > 1 ==> d[0] != ZERO
    ensures d[0] == ZERO <==> n == 0
  {
    if n < 10 then [(0x30 + n) as byte]
    else NatDigits(n / 10) + [(0x30 + n % 10) as byte]
  }

  /** Reads a string of ASCII digits back as a number: the partner of NatDigits. */
  function DigitsValue(s: seq<byte>): nat
    requires AllDigits(s)
  {
    if s == [] then 0
    else DigitsValue(s[..|s| - 1]) * 10 + (s[|s| - 1] as int - 0x30)
  }

  lemma {:induction false} DigitsRoundTrip(n: nat)
    ensures DigitsValue(NatDigits(n)) == n
  {
    var d := NatDigits(n);
    if n >= 10 {
      DigitsRoundTrip(n / 10);
      assert d[..|d| - 1] == NatDigits(n / 10);
    }
  }

  /** Decimal spelling of an integer, with a leading '-' for negatives. */
  function Decimal(n: int): (s: seq<byte>)
    ensures |s| >= 1 && NoCrLf(s)
    ensures s[0] == MINUS <==> n < 0
  {
    if n < 0 then [MINUS] + NatDigits(-n) else NatDigits(n)
  }

  /** Reads a decimal spelling back as an integer: the partner of Decimal. */
  function DecimalValue(s: seq<byte>): int
    requires |s| >= 1
    requires if s[0] == MINUS then AllDigits(s[1..]) else AllDigits(s)
  {
    if s[0] == MINUS then -(DigitsValue(s[1..]) as int) else DigitsValue(s)
  }

  lemma {:induction false} DecimalRoundTrip(n: int)
    ensures var s := Decimal(n);
            (if s[0] == MINUS then AllDigits(s[1..]) else AllDigits(s)) && DecimalValue(s) == n
  {
    var s := Decimal(n);
    if n < 0 {
      assert s[1..] == NatDigits(-n);
      DigitsRoundTrip(-n);
    } else {
      DigitsRoundTrip(n);
    }
  }

  /** Two integers with the same decimal spelling are equal. */
  lemma {:induction false} DecimalInjective(m: int, n: int)
    requires Decimal(m) == Decimal(n)
    ensures m == n
  {
    DecimalRoundTrip(m);
    DecimalRoundTrip(n);
  }

  /** Turns ASCII text into bytes, for writing byte strings in examples. */
  function Ascii(s: string): (b: seq<byte>)
    requires forall i :: 0 <= i < |s| ==> s[i] as int < 256
    ensures |b| == |s|
  {
    seq(|s|, i requires 0 <= i < |s| => s[i] as int as byte)
  }

  lemma AsciiConcat(s: string, t: string)
    requires forall i :: 0 <= i < |s| ==> s[i] as int < 256
    requires forall i :: 0 <= i < |t| ==> t[i] as int < 256
    ensures Ascii(s + t) == Ascii(s) + Ascii(t)
  {
  }
}
