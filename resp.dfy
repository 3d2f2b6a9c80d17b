/**
  The value union over the five RESP2 kinds and the crate-level error enum.
  `Len` and `Bytes` dispatch to the active variant.
 */
module Resp {
  import opened Wire
  import SimpleStrings
  import Errors
  import Integers
  import BulkStrings
  import Arrays

  /** The crate-level error kinds. No modelled operation produces one. */
  datatype RespError =
    | InvalidFirstChar
    | InvalidLength
    | InvalidLengthSeparator
    | InvalidValue
    | InvalidTerminate
    | LengthsNotMatch

  /** A value of one of the five kinds; the union is closed. */
  datatype RespType =
    | SimpleString(simpleString: SimpleStrings.SimpleString)
    | Error(error: Errors.Error)
    | Integer(integer: Integers.Integer)
    | BulkString(bulkString: BulkStrings.BulkString)
    | Array(array: Arrays.Array)
  {
    /** The type byte that opens the wire encoding of each kind. */
    function Tag(): byte {
      match this
      case SimpleString(_) => PLUS
      case Error(_) => MINUS
      case Integer(_) => COLON
      case BulkString(_) => DOLLAR
      case Array(_) => STAR
    }

    /**
      The active variant holds what the crate's constructors produce: a line for
      the three line kinds, a header, payload and terminator for a bulk string,
      and for an array (built from already encoded values) its tag.
     */
    ghost predicate WellFormed() {
      match this
      case SimpleString(s) => s.WellFormed()
      case Error(e) => e.WellFormed()
      case Integer(i) => i.WellFormed()
      case BulkString(b) => exists p :: b.bytes == BulkStrings.Encoding(p)
      case Array(a) => |a.bytes| >= 1 && a.bytes[0] == STAR
    }

    /** The stored wire encoding of the active variant. */
    function Bytes(): seq<byte> {
      match this
      case SimpleString(s) => s.bytes
      case Error(e) => e.bytes
      case Integer(i) => i.bytes
      case BulkString(b) => b.bytes
      case Array(a) => a.bytes
    }

    /** The active variant's length, which is the number of bytes `Bytes` returns. */
    function Len(): (n: nat)
      ensures n == |Bytes()|
    {
      match this
      case SimpleString(s) => s.Len()
      case Error(e) => e.Len()
      case Integer(i) => i.Len()
      case BulkString(b) => b.Len()
      case Array(a) => a.Len()
    }
  }

  /** A well-formed value's encoding opens with the type byte of its variant. */
  lemma BytesOpenWithTag(x: RespType)
    requires x.WellFormed()
    ensures |x.Bytes()| >= 1 && x.Bytes()[0] == x.Tag()
  {
  }

  /** The type byte tells the kinds apart: two well-formed values with the same bytes are equal. */
  lemma BytesIdentifyVariant(x: RespType, y: RespType)
    requires x.WellFormed() && y.WellFormed()
    requires x.Bytes() == y.Bytes()
    ensures x == y
  {
    BytesOpenWithTag(x);
    BytesOpenWithTag(y);
  }
}
