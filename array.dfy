/**
  RESP2 Arrays: `*<count>\r\n` followed by the encodings of the elements, with
  the fixed sentinels `*0\r\n` (empty) and `*-1\r\n` (null). The array value
  and the builder that assembles one live in two modules, because the builder
  holds elements of the union type, which in turn includes arrays.
 */
module Arrays {
  import opened Wire

  /** An array, held as its wire encoding (`from_slice` is the constructor). */
  datatype Array = Array(bytes: seq<byte>) {

    function Len(): nat {
      |bytes|
    }

    /** Compares with the empty sentinel. */
    function IsEmpty(): (b: bool)
      ensures b <==> bytes == [STAR, ZERO, CR, LF]
    {
      this == EMPTY_ARRAY
    }

    /** Compares with the null sentinel. */
    function IsNull(): (b: bool)
      ensures b <==> bytes == [STAR, MINUS, 0x31, CR, LF]
    {
      this == NULL_ARRAY
    }
  }

  const EMPTY_ARRAY: Array := Array([STAR, ZERO, CR, LF])
  const NULL_ARRAY: Array := Array([STAR, MINUS, 0x31, CR, LF])

  /** The sentinels are the count lines for zero elements and for the absent array. */
  lemma SentinelBytes()
    ensures EMPTY_ARRAY.bytes == Line(STAR, Decimal(0)) == Ascii("*0\r\n")
    ensures NULL_ARRAY.bytes == Line(STAR, Decimal(-1)) == Ascii("*-1\r\n")
  {
    assert Decimal(-1) == [MINUS, 0x31];
  }

  /** No array is both the empty and the null sentinel. */
  lemma NeverEmptyAndNull(a: Array)
    ensures !(a.IsEmpty() && a.IsNull())
  {
  }
}

/**
  The mutable accumulator that assembles an Array from already-encoded values.
 */
module ArrayBuilders {
  import opened Wire
  import opened Arrays
  import Resp
  import SimpleStrings
  import Errors
  import Integers
  import BulkStrings

  /** The stored encoding of each element, in order. */
  function Encodings(elems: seq<Resp.RespType>): (es: seq<seq<byte>>)
    ensures |es| == |elems|
  {
    if elems == [] then []
    else Encodings(elems[..|elems| - 1]) + [elems[|elems| - 1].Bytes()]
  }

  /** One more element of a prefix adds its encoding at the end. */
  lemma EncodingsPrefixStep(elems: seq<Resp.RespType>, i: nat)
    requires i < |elems|
    ensures Encodings(elems[..i + 1]) == Encodings(elems[..i]) + [elems[i].Bytes()]
  {
    assert elems[..i + 1][..i] == elems[..i];
  }

  /** One more element of a prefix extends its flattening by that element's bytes and length. */
  lemma PrefixStep(elems: seq<Resp.RespType>, i: nat)
    requires i < |elems|
    ensures Flatten(Encodings(elems[..i + 1])) == Flatten(Encodings(elems[..i])) + elems[i].Bytes()
    ensures SumLengths(Encodings(elems[..i + 1])) == SumLengths(Encodings(elems[..i])) + elems[i].Len()
  {
    EncodingsPrefixStep(elems, i);
    FlattenAppend(Encodings(elems[..i]), elems[i].Bytes());
  }

  /** Appending element i to a buffer holding a header and the elements before it. */
  lemma BufferStep(h: seq<byte>, elems: seq<Resp.RespType>, i: nat)
    requires i < |elems|
    ensures (h + Flatten(Encodings(elems[..i]))) + elems[i].Bytes() == h + Flatten(Encodings(elems[..i + 1]))
  {
    PrefixStep(elems, i);
    AppendAssoc(h, Flatten(Encodings(elems[..i])), elems[i].Bytes());
  }

  lemma FullPrefix(elems: seq<Resp.RespType>)
    ensures elems[..|elems|] == elems
  {
  }

  /** Entry i of `Encodings(elems)` is element i's encoding; its prefixes are the prefixes' encodings. */
  lemma {:induction false} EncodingsAt(elems: seq<Resp.RespType>, i: nat)
    requires i < |elems|
    ensures Encodings(elems)[i] == elems[i].Bytes()
    ensures Encodings(elems)[..i] == Encodings(elems[..i])
  {
    var n := |elems|;
    var init := elems[..n - 1];
    if i < n - 1 {
      EncodingsAt(init, i);
      assert init[i] == elems[i];
      assert init[..i] == elems[..i];
    } else {
      assert elems[..i] == init;
    }
  }

  /** Sum of the lengths of `pieces`. */
  function SumLengths(pieces: seq<seq<byte>>): nat {
    if pieces == [] then 0
    else SumLengths(pieces[..|pieces| - 1]) + |pieces[|pieces| - 1]|
  }

  /** The pieces one after another. */
  function Flatten(pieces: seq<seq<byte>>): (b: seq<byte>)
    ensures |b| == SumLengths(pieces)
  {
    if pieces == [] then []
    else Flatten(pieces[..|pieces| - 1]) + pieces[|pieces| - 1]
  }

  /** `*<count>\r\n`. */
  function Header(count: nat): seq<byte> {
    [STAR] + NatDigits(count) + CRLF
  }

  /** The encoding of an array holding `elems`: the empty sentinel when there are none. */
  function Encoding(elems: seq<Resp.RespType>): seq<byte> {
    if elems == [] then EMPTY_ARRAY.bytes else Header(|elems|) + Flatten(Encodings(elems))
  }

  /** Appending one piece appends it to the flattening. */
  lemma FlattenAppend(pieces: seq<seq<byte>>, x: seq<byte>)
    ensures Flatten(pieces + [x]) == Flatten(pieces) + x
    ensures SumLengths(pieces + [x]) == SumLengths(pieces) + |x|
  {
    assert (pieces + [x])[..|pieces|] == pieces;
  }

  /** Piece i sits verbatim in the flattening, right after the pieces before it. */
  lemma {:induction false} FlattenPieceAt(pieces: seq<seq<byte>>, i: nat)
    requires i < |pieces|
    ensures var off := SumLengths(pieces[..i]);
            off + |pieces[i]| <= SumLengths(pieces)
            && Flatten(pieces)[off..off + |pieces[i]|] == pieces[i]
  {
    var n := |pieces|;
    var init := pieces[..n - 1];
    var last := pieces[n - 1];
    assert pieces == init + [last];
    FlattenAppend(init, last);
    var off := SumLengths(pieces[..i]);
    var len := |pieces[i]|;
    if i == n - 1 {
      assert pieces[..i] == init;
      SliceOfSuffix(Flatten(init), last, 0, len);
      assert last[0..len] == last;
    } else {
      FlattenPieceAt(init, i);
      assert init[..i] == pieces[..i];
      assert init[i] == pieces[i];
      SliceOfPrefix(Flatten(init), last, off, off + len);
    }
  }

  /** The header spells the count in decimal between `*` and CRLF. */
  lemma HeaderLayout(count: nat)
    ensures var h := Header(count);
            var d := |NatDigits(count)|;
            && |h| == d + 3 && h[0] == STAR
            && h[1..d + 1] == NatDigits(count)
            && h[d + 1..d + 3] == CRLF
  {
  }

  /** The length of a built array: four for the empty sentinel, otherwise the header plus every element's length. */
  lemma EncodedLen(elems: seq<Resp.RespType>)
    ensures Array(Encoding(elems)).Len()
            == if elems == [] then 4 else |NatDigits(|elems|)| + 3 + SumLengths(Encodings(elems))
  {
  }

  /**
    A non-empty array's encoding starts with its header: `*`, the element count
    in decimal without a superfluous leading zero, and CRLF; its length is
    digits + 3 + the sum of the element lengths.
   */
  lemma {:induction false} EncodingHeader(elems: seq<Resp.RespType>)
    requires elems != []
    ensures var e := Encoding(elems);
            var d := |NatDigits(|elems|)|;
            && |e| == d + 3 + SumLengths(Encodings(elems))
            && e[0] == STAR
            && AllDigits(e[1..d + 1]) && DigitsValue(e[1..d + 1]) == |elems|
            && (d > 1 ==> e[1] != ZERO)
            && e[d + 1..d + 3] == CRLF
  {
    var body := Flatten(Encodings(elems));
    assert Encoding(elems) == Header(|elems|) + body;
    HeaderThenBody(|elems|, body);
  }

  /** The header's layout survives whatever follows it. */
  lemma HeaderThenBody(count: nat, body: seq<byte>)
    ensures var e := Header(count) + body;
            var d := |NatDigits(count)|;
            && |e| == d + 3 + |body|
            && e[0] == STAR
            && AllDigits(e[1..d + 1]) && DigitsValue(e[1..d + 1]) == count
            && (d > 1 ==> e[1] != ZERO)
            && e[d + 1..d + 3] == CRLF
  {
    var h := Header(count);
    var digits := NatDigits(count);
    var d := |digits|;
    HeaderLayout(count);
    SliceOfPrefix(h, body, 1, d + 1);
    SliceOfPrefix(h, body, d + 1, d + 3);
    assert (h + body)[1] == digits[0];
    DigitsRoundTrip(count);
  }

  /**
    After the header, each element's encoding appears unchanged (a nested
    array's included), in insertion order: element i starts right after the
    header and the elements before it.
   */
  lemma {:induction false} EncodingElementAt(elems: seq<Resp.RespType>, i: nat)
    requires i < |elems|
    ensures var e := Encoding(elems);
            var off := |Header(|elems|)| + SumLengths(Encodings(elems[..i]));
            && off + elems[i].Len() <= |e|
            && e[off..off + elems[i].Len()] == elems[i].Bytes()
  {
    EncodingsAt(elems, i);
    HeadedPieceAt(Header(|elems|), Encodings(elems), i);
  }

  /** Piece i sits verbatim after a header and the pieces before it. */
  lemma HeadedPieceAt(h: seq<byte>, pieces: seq<seq<byte>>, i: nat)
    requires i < |pieces|
    ensures var off := |h| + SumLengths(pieces[..i]);
            off + |pieces[i]| <= |h + Flatten(pieces)|
            && (h + Flatten(pieces))[off..off + |pieces[i]|] == pieces[i]
  {
    FlattenPieceAt(pieces, i);
    var off := SumLengths(pieces[..i]);
    SliceOfSuffix(h, Flatten(pieces), off, off + |pieces[i]|);
  }

  /** The built array is the empty sentinel exactly when there are no elements, and never the null one. */
  lemma {:induction false} EncodingSentinels(elems: seq<Resp.RespType>)
    ensures Array(Encoding(elems)).IsEmpty() <==> elems == []
    ensures !Array(Encoding(elems)).IsNull()
  {
    if elems != [] {
      var e := Encoding(elems);
      var digits := NatDigits(|elems|);
      assert e[1] == digits[0];
      if |digits| == 1 {
        assert e[2] == CR;
      }
    }
  }

  /** Nothing inserted: the empty sentinel `*0\r\n`. */
  lemma BuildEmptyExample()
    ensures Array(Encoding([])) == EMPTY_ARRAY && EMPTY_ARRAY.bytes == Ascii("*0\r\n")
  {
  }

  /** One piece flattens to itself. */
  lemma FlattenOne(x: seq<byte>)
    ensures Flatten([x]) == x
  {
    FlattenAppend([], x);
    assert [] + [x] == [x];
  }

  /** Two pieces flatten to their concatenation. */
  lemma FlattenTwo(x: seq<byte>, y: seq<byte>)
    ensures Flatten([x, y]) == x + y
  {
    FlattenOne(x);
    FlattenAppend([x], y);
    assert [x] + [y] == [x, y];
  }

  /** Four pieces flatten to their concatenation. */
  lemma FlattenFour(w: seq<byte>, x: seq<byte>, y: seq<byte>, z: seq<byte>)
    ensures Flatten([w, x, y, z]) == w + x + y + z
  {
    FlattenTwo(w, x);
    FlattenAppend([w, x], y);
    assert [w, x] + [y] == [w, x, y];
    FlattenAppend([w, x, y], z);
    assert [w, x, y] + [z] == [w, x, y, z];
  }

  /** One error element: `*1\r\n-Invalid value.\r\n`. */
  lemma BuildErrorExample()
    ensures Encoding([Resp.Error(Errors.Error(Line(MINUS, Ascii("Invalid value."))))])
            == Ascii("*1\r\n-Invalid value.\r\n")
  {
    var x := Resp.Error(Errors.Error(Line(MINUS, Ascii("Invalid value."))));
    assert Encodings([x]) == [x.Bytes()];
    FlattenOne(x.Bytes());
    ErrorExamplePieces();
    AsciiConcat("*1\r\n", "-Invalid value.\r\n");
  }

  lemma ErrorExamplePieces()
    ensures Header(1) == Ascii("*1\r\n")
    ensures Line(MINUS, Ascii("Invalid value.")) == Ascii("-Invalid value.\r\n")
    ensures "*1\r\n" + "-Invalid value.\r\n" == "*1\r\n-Invalid value.\r\n"
  {
  }

  /** One element: the header, then its encoding. */
  lemma EncodingOfOne(a: Resp.RespType)
    ensures Encoding([a]) == Header(1) + a.Bytes()
  {
    var e := [a];
    EncodingsPrefixStep(e, 0);
    assert e[..0] == [];
    assert e[..1] == e;
    assert Encodings(e) == [a.Bytes()];
    FlattenOne(a.Bytes());
  }

  /** Three elements: the header, then their encodings in order. */
  lemma EncodingOfThree(a: Resp.RespType, b: Resp.RespType, c: Resp.RespType)
    ensures Encoding([a, b, c]) == Header(3) + a.Bytes() + b.Bytes() + c.Bytes()
  {
    var e := [a, b, c];
    var l1, l2, l3 := a.Bytes(), b.Bytes(), c.Bytes();
    EncodingsPrefixStep(e, 0);
    EncodingsPrefixStep(e, 1);
    EncodingsPrefixStep(e, 2);
    assert e[..0] == [];
    assert e[..3] == e;
    assert Encodings(e) == [l1, l2, l3];
    FlattenTwo(l1, l2);
    FlattenAppend([l1, l2], l3);
    assert [l1, l2] + [l3] == [l1, l2, l3];
    assert Header(3) + (l1 + l2 + l3) == Header(3) + l1 + l2 + l3;
  }

  /** Two elements: the header, then their encodings in order. */
  lemma EncodingOfTwo(a: Resp.RespType, b: Resp.RespType)
    ensures Encoding([a, b]) == Header(2) + a.Bytes() + b.Bytes()
  {
    var e := [a, b];
    var l1, l2 := a.Bytes(), b.Bytes();
    EncodingsPrefixStep(e, 0);
    EncodingsPrefixStep(e, 1);
    assert e[..0] == [];
    assert e[..2] == e;
    assert Encodings(e) == [l1, l2];
    FlattenTwo(l1, l2);
    AppendAssoc(Header(2), l1, l2);
  }

  /** Two simple strings: `*2\r\n+foo\r\n+bar\r\n`. */
  lemma BuildPairExample()
    ensures var foo := Resp.SimpleString(SimpleStrings.SimpleString(Line(PLUS, Ascii("foo"))));
            var bar := Resp.SimpleString(SimpleStrings.SimpleString(Line(PLUS, Ascii("bar"))));
            Encoding([foo, bar]) == Ascii("*2\r\n+foo\r\n+bar\r\n")
  {
    var foo := Resp.SimpleString(SimpleStrings.SimpleString(Line(PLUS, Ascii("foo"))));
    var bar := Resp.SimpleString(SimpleStrings.SimpleString(Line(PLUS, Ascii("bar"))));
    EncodingOfTwo(foo, bar);
    PairExamplePieces();
    AsciiConcat("*2\r\n", "+foo\r\n");
    AsciiConcat("*2\r\n+foo\r\n", "+bar\r\n");
  }

  lemma PairExamplePieces()
    ensures Header(2) == Ascii("*2\r\n")
    ensures Line(PLUS, Ascii("foo")) == Ascii("+foo\r\n")
    ensures Line(PLUS, Ascii("bar")) == Ascii("+bar\r\n")
    ensures "*2\r\n" + "+foo\r\n" == "*2\r\n+foo\r\n"
    ensures "*2\r\n+foo\r\n" + "+bar\r\n" == "*2\r\n+foo\r\n+bar\r\n"
  {
  }

  /**
    A simple string, a bulk string, an integer, then the two-element array
    above nested as the fourth element:
    `*4\r\n+foo\r\n$3\r\nbar\r\n:-100\r\n*2\r\n+foo\r\n+bar\r\n`.
   */
  lemma BuildNestedExample()
    ensures var foo := Resp.SimpleString(SimpleStrings.SimpleString(Line(PLUS, Ascii("foo"))));
            var bar := Resp.SimpleString(SimpleStrings.SimpleString(Line(PLUS, Ascii("bar"))));
            var bulk := Resp.BulkString(BulkStrings.BulkString(BulkStrings.Encoding(Ascii("bar"))));
            var num := Resp.Integer(Integers.Integer(Line(COLON, Decimal(-100))));
            var sub := Resp.Array(Array(Encoding([foo, bar])));
            Encoding([foo, bulk, num, sub])
            == Ascii("*4\r\n+foo\r\n$3\r\nbar\r\n:-100\r\n*2\r\n+foo\r\n+bar\r\n")
  {
    var foo := Resp.SimpleString(SimpleStrings.SimpleString(Line(PLUS, Ascii("foo"))));
    var bar := Resp.SimpleString(SimpleStrings.SimpleString(Line(PLUS, Ascii("bar"))));
    var bulk := Resp.BulkString(BulkStrings.BulkString(BulkStrings.Encoding(Ascii("bar"))));
    var num := Resp.Integer(Integers.Integer(Line(COLON, Decimal(-100))));
    var sub := Resp.Array(Array(Encoding([foo, bar])));
    EncodingOfFour(foo, bulk, num, sub);
    BuildPairExample();
    PairExamplePieces();
    BulkStrings.BarExample();
    Integers.NegativeExample();
    NestedExamplePieces();
  }

  /** Four elements: the header, then their encodings in order. */
  lemma EncodingOfFour(a: Resp.RespType, b: Resp.RespType, c: Resp.RespType, d: Resp.RespType)
    ensures Encoding([a, b, c, d]) == Header(4) + a.Bytes() + b.Bytes() + c.Bytes() + d.Bytes()
  {
    var e := [a, b, c, d];
    var l1, l2, l3, l4 := a.Bytes(), b.Bytes(), c.Bytes(), d.Bytes();
    EncodingsPrefixStep(e, 0);
    EncodingsPrefixStep(e, 1);
    EncodingsPrefixStep(e, 2);
    EncodingsPrefixStep(e, 3);
    assert e[..0] == [];
    assert e[..4] == e;
    assert Encodings(e) == [l1, l2, l3, l4];
    FlattenFour(l1, l2, l3, l4);
    assert Header(4) + (l1 + l2 + l3 + l4) == Header(4) + l1 + l2 + l3 + l4;
  }

  lemma NestedExamplePieces()
    ensures Header(4) == Ascii("*4\r\n")
    ensures Ascii("*4\r\n") + Ascii("+foo\r\n") + Ascii("$3\r\nbar\r\n") + Ascii(":-100\r\n") + Ascii("*2\r\n+foo\r\n+bar\r\n") == Ascii("*4\r\n+foo\r\n$3\r\nbar\r\n:-100\r\n*2\r\n+foo\r\n+bar\r\n")
  {
    AsciiConcat("*4\r\n", "+foo\r\n");
    AsciiConcat("*4\r\n" + "+foo\r\n", "$3\r\nbar\r\n");
    AsciiConcat("*4\r\n" + "+foo\r\n" + "$3\r\nbar\r\n", ":-100\r\n");
    AsciiConcat("*4\r\n" + "+foo\r\n" + "$3\r\nbar\r\n" + ":-100\r\n", "*2\r\n+foo\r\n+bar\r\n");
    NestedExampleText();
  }

  lemma NestedExampleText()
    ensures "*4\r\n" + "+foo\r\n" + "$3\r\nbar\r\n" + ":-100\r\n" + "*2\r\n+foo\r\n+bar\r\n" == "*4\r\n+foo\r\n$3\r\nbar\r\n:-100\r\n*2\r\n+foo\r\n+bar\r\n"
  {
  }

  class ArrayBuilder {
    var inner: seq<Resp.RespType>

    constructor ()
      ensures inner == []
    {
      inner := [];
    }

    /** A copy of the elements inserted so far. */
    method Value() returns (r: seq<Resp.RespType>)
      ensures r == inner
    {
      r := inner;
    }

    /** Appends one element; the earlier ones are unchanged. */
    method Insert(value: Resp.RespType)
      modifies this
      ensures inner == old(inner) + [value]
    {
      inner := inner + [value];
    }

    /**
      Builds the array: the empty sentinel when nothing was inserted, otherwise
      the count header followed by every element's bytes in insertion order,
      written into a buffer whose precomputed size is exactly the result's length.
     */
    method Build() returns (a: Array)
      ensures a.bytes == Encoding(inner)
      ensures inner != [] ==> a.Len() == |NatDigits(|inner|)| + 3 + SumLengths(Encodings(inner))
    {
      var elems := inner;
      var length := |elems|;
      if length == 0 {
        return EMPTY_ARRAY;
      }
      var lengthString := NatDigits(length);
      var totalBytes := |lengthString| + 3;
      var i := 0;
      while i < length
        invariant 0 <= i <= length
        invariant totalBytes == |lengthString| + 3 + SumLengths(Encodings(elems[..i]))
      {
        PrefixStep(elems, i);
        totalBytes := totalBytes + elems[i].Len();
        i := i + 1;
      }
      FullPrefix(elems);
      var buf: seq<byte> := [];
      buf := buf + [STAR];
      buf := buf + lengthString;
      buf := buf + [CR];
      buf := buf + [LF];
      assert buf == Header(length);
      i := 0;
      while i < length
        invariant 0 <= i <= length
        invariant buf == Header(length) + Flatten(Encodings(elems[..i]))
      {
        BufferStep(Header(length), elems, i);
        buf := buf + elems[i].Bytes();
        i := i + 1;
      }
      assert |buf| == totalBytes;
      a := Array(buf);
    }
  }

  /**
    A fresh builder, one inserted error encoded by `Errors.New`, then `Build`:
    the result is `*1\r\n-Invalid value.\r\n`.
   */
  method BuildErrorScenario() returns (a: Array)
    ensures a.bytes == Ascii("*1\r\n-Invalid value.\r\n")
  {
    var builder := new ArrayBuilder();
    var e := Errors.New(Ascii("Invalid value."));
    builder.Insert(Resp.Error(e));
    a := builder.Build();
    BuildErrorExample();
  }

  /** Two simple strings inserted into a fresh builder build `*2\r\n+foo\r\n+bar\r\n`. */
  method BuildPairScenario() returns (a: Array)
    ensures a.bytes == Ascii("*2\r\n+foo\r\n+bar\r\n")
  {
    var foo := SimpleStrings.New(Ascii("foo"));
    var bar := SimpleStrings.New(Ascii("bar"));
    var x, y := Resp.SimpleString(foo), Resp.SimpleString(bar);
    var builder := new ArrayBuilder();
    builder.Insert(x);
    builder.Insert(y);
    assert builder.inner == [x, y];
    a := builder.Build();
    BuildPairExample();
  }

  /**
    The builder test that builds after every insert: a simple string, then a
    bulk string, then an integer, then the two-element array above. Each build
    reflects every insert so far; building leaves the builder unchanged.
   */
  method BuildNestedScenario() returns (a1: Array, a2: Array, a3: Array, a4: Array)
    ensures a1.bytes == Ascii("*1\r\n+foo\r\n")
    ensures a2.bytes == Ascii("*2\r\n+foo\r\n$3\r\nbar\r\n")
    ensures a3.bytes == Ascii("*3\r\n+foo\r\n$3\r\nbar\r\n:-100\r\n")
    ensures a4.bytes == Ascii("*4\r\n+foo\r\n$3\r\nbar\r\n:-100\r\n*2\r\n+foo\r\n+bar\r\n")
  {
    var builder := new ArrayBuilder();
    var x1, x2, x3;
    x1, x2, x3, a1, a2, a3 := BuildLeavesScenario(builder);
    var sub := BuildPairScenario();
    var x4 := Resp.Array(sub);
    a4 := InsertThenBuild(builder, x4);
    NestedScenarioElements(builder.inner, x1, x2, x3, x4);
  }

  /** One step of a builder test: insert a value, then build. */
  method InsertThenBuild(builder: ArrayBuilder, x: Resp.RespType) returns (a: Array)
    modifies builder
    ensures builder.inner == old(builder.inner) + [x]
    ensures a.bytes == Encoding(builder.inner)
  {
    builder.Insert(x);
    a := builder.Build();
  }

  /** The first three steps of the nested scenario: a leaf inserted, then the builder built. */
  method BuildLeavesScenario(builder: ArrayBuilder)
    returns (x1: Resp.RespType, x2: Resp.RespType, x3: Resp.RespType, a1: Array, a2: Array, a3: Array)
    requires builder.inner == []
    modifies builder
    ensures builder.inner == [] + [x1] + [x2] + [x3]
    ensures x1 == Resp.SimpleString(SimpleStrings.SimpleString(Line(PLUS, Ascii("foo"))))
    ensures x2 == Resp.BulkString(BulkStrings.BulkString(BulkStrings.Encoding(Ascii("bar"))))
    ensures x3 == Resp.Integer(Integers.Integer(Line(COLON, Decimal(-100))))
    ensures a1.bytes == Ascii("*1\r\n+foo\r\n")
    ensures a2.bytes == Ascii("*2\r\n+foo\r\n$3\r\nbar\r\n")
    ensures a3.bytes == Ascii("*3\r\n+foo\r\n$3\r\nbar\r\n:-100\r\n")
  {
    var foo := SimpleStrings.New(Ascii("foo"));
    var bulk := BulkStrings.New(Ascii("bar"));
    var num := Integers.New(-100);
    x1, x2, x3 := Resp.SimpleString(foo), Resp.BulkString(bulk), Resp.Integer(num);
    a1 := InsertThenBuild(builder, x1);
    ScenarioAfterOne(builder.inner, x1);
    a2 := InsertThenBuild(builder, x2);
    ScenarioAfterTwo(builder.inner, x1, x2);
    a3 := InsertThenBuild(builder, x3);
    ScenarioAfterThree(builder.inner, x1, x2, x3);
  }

  /** The builder holding `foo` builds the one-element array. */
  lemma ScenarioAfterOne(elems: seq<Resp.RespType>, x1: Resp.RespType)
    requires elems == [] + [x1]
    requires x1 == Resp.SimpleString(SimpleStrings.SimpleString(Line(PLUS, Ascii("foo"))))
    ensures Encoding(elems) == Ascii("*1\r\n+foo\r\n")
  {
    assert elems == [x1];
    EncodingOfOne(x1);
    ScenarioPieces();
  }

  /** The builder holding `foo` and the bulk string `bar` builds the two-element array. */
  lemma ScenarioAfterTwo(elems: seq<Resp.RespType>, x1: Resp.RespType, x2: Resp.RespType)
    requires elems == [] + [x1] + [x2]
    requires x1 == Resp.SimpleString(SimpleStrings.SimpleString(Line(PLUS, Ascii("foo"))))
    requires x2 == Resp.BulkString(BulkStrings.BulkString(BulkStrings.Encoding(Ascii("bar"))))
    ensures Encoding(elems) == Ascii("*2\r\n+foo\r\n$3\r\nbar\r\n")
  {
    assert elems == [x1, x2];
    EncodingOfTwo(x1, x2);
    ScenarioPieces();
    BulkStrings.BarExample();
  }

  /** The builder holding `foo`, `bar` and -100 builds the three-element array. */
  lemma ScenarioAfterThree(elems: seq<Resp.RespType>, x1: Resp.RespType, x2: Resp.RespType, x3: Resp.RespType)
    requires elems == [] + [x1] + [x2] + [x3]
    requires x1 == Resp.SimpleString(SimpleStrings.SimpleString(Line(PLUS, Ascii("foo"))))
    requires x2 == Resp.BulkString(BulkStrings.BulkString(BulkStrings.Encoding(Ascii("bar"))))
    requires x3 == Resp.Integer(Integers.Integer(Line(COLON, Decimal(-100))))
    ensures Encoding(elems) == Ascii("*3\r\n+foo\r\n$3\r\nbar\r\n:-100\r\n")
  {
    assert elems == [x1, x2, x3];
    EncodingOfThree(x1, x2, x3);
    ScenarioPieces();
    BulkStrings.BarExample();
    Integers.NegativeExample();
  }

  /** The headers and the concatenated texts of the step-by-step scenario. */
  lemma ScenarioPieces()
    ensures Header(1) == Ascii("*1\r\n") && Header(2) == Ascii("*2\r\n") && Header(3) == Ascii("*3\r\n")
    ensures Line(PLUS, Ascii("foo")) == Ascii("+foo\r\n")
    ensures Ascii("*1\r\n") + Ascii("+foo\r\n") == Ascii("*1\r\n+foo\r\n")
    ensures Ascii("*2\r\n") + Ascii("+foo\r\n") + Ascii("$3\r\nbar\r\n") == Ascii("*2\r\n+foo\r\n$3\r\nbar\r\n")
    ensures Ascii("*3\r\n") + Ascii("+foo\r\n") + Ascii("$3\r\nbar\r\n") + Ascii(":-100\r\n")
            == Ascii("*3\r\n+foo\r\n$3\r\nbar\r\n:-100\r\n")
  {
    AsciiConcat("*1\r\n", "+foo\r\n");
    AsciiConcat("*2\r\n", "+foo\r\n");
    AsciiConcat("*2\r\n" + "+foo\r\n", "$3\r\nbar\r\n");
    AsciiConcat("*3\r\n", "+foo\r\n");
    AsciiConcat("*3\r\n" + "+foo\r\n", "$3\r\nbar\r\n");
    AsciiConcat("*3\r\n" + "+foo\r\n" + "$3\r\nbar\r\n", ":-100\r\n");
    ScenarioText();
  }

  /** The same concatenations, on the string literals. */
  lemma ScenarioText()
    ensures "*1\r\n" + "+foo\r\n" == "*1\r\n+foo\r\n"
    ensures "*2\r\n" + "+foo\r\n" + "$3\r\nbar\r\n" == "*2\r\n+foo\r\n$3\r\nbar\r\n"
    ensures "*3\r\n" + "+foo\r\n" + "$3\r\nbar\r\n" + ":-100\r\n" == "*3\r\n+foo\r\n$3\r\nbar\r\n:-100\r\n"
  {
  }

  /** The four elements of the nested scenario, pinned down by their encodings. */
  lemma NestedScenarioElements(elems: seq<Resp.RespType>, x1: Resp.RespType, x2: Resp.RespType, x3: Resp.RespType, x4: Resp.RespType)
    requires elems == [] + [x1] + [x2] + [x3] + [x4]
    requires x1 == Resp.SimpleString(SimpleStrings.SimpleString(Line(PLUS, Ascii("foo"))))
    requires x2 == Resp.BulkString(BulkStrings.BulkString(BulkStrings.Encoding(Ascii("bar"))))
    requires x3 == Resp.Integer(Integers.Integer(Line(COLON, Decimal(-100))))
    requires x4 == Resp.Array(Array(Ascii("*2\r\n+foo\r\n+bar\r\n")))
    ensures Encoding(elems)
            == Ascii("*4\r\n+foo\r\n$3\r\nbar\r\n:-100\r\n*2\r\n+foo\r\n+bar\r\n")
  {
    assert elems == [x1, x2, x3, x4];
    BuildPairExample();
    BuildNestedExample();
  }
}
