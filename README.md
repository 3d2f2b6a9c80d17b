# RESP2 value codec — a Dafny model

This project models the value codec of `resp-protocol`, a Rust crate for the
Redis serialization protocol, version 2 (RESP2). Every value is stored as its
complete wire encoding. The model covers five kinds of value:

- **Simple strings** (`+<text>\r\n`), **errors** (`-<text>\r\n`) and
  **integers** (`:<decimal>\r\n`). These are the leaf kinds. Each has an
  encoder (`New`), accessors for its payload, a payload validator, and a
  decoder (`Parse`). The decoder works on a cursor window `[start, end)` of a
  byte buffer.
- **Bulk strings** (`$<len>\r\n<payload>\r\n`). Only the encoder exists.
- **Arrays** (`*<count>\r\n<elements>`), with the fixed sentinels `*0\r\n`
  (empty) and `*-1\r\n` (null). An array is assembled by a mutable
  `ArrayBuilder`.
- **The `RespType` union** over the five kinds. Its `Len`/`Bytes` dispatch to
  the active variant.

Modules, one per source file:

- `Wire` holds what the leaf kinds share: bytes, CRLF, the line shape, the
  decoders' scan, and decimal spelling.
- `SimpleStrings`, `Errors`, `Integers` and `BulkStrings` hold the kinds.
- `Resp` holds the union and the crate-level error enum.
- `Arrays` holds the array value and its sentinels.
- `ArrayBuilders` holds the builder class and the specification of what it
  builds.

Arrays and the builder live in two modules because the builder's elements
are `RespType` values, and `RespType` includes arrays.

Conventions:

- The Rust decoders advance a `&mut start` cursor, and only on success. Here
  each `Parse` method returns the new cursor as an extra out-parameter
  `next`, which equals `start` on every failure.
- Each `Parse` method is proved equal to a specification function `Parsed`.
  Round trips and error cases are proved as lemmas about `Parsed`. Window
  locality is proved once for the shared scan (`Wire.ScanLineWithinWindow`)
  and carried over to each kind's `Parsed` (`ParsedWithinWindow`).
- Integer and length spellings (`to_string` in the source) are the functions
  `Wire.Decimal` and `Wire.NatDigits`, proved against their inverses.
- `ArrayBuilder.Build` keeps the source's two loops: the first computes the
  buffer size, the second writes the bytes. It is proved against
  `ArrayBuilders.Encoding`: the header followed by the elements' encodings
  in order, or the empty sentinel when there are none.

What the crate does, as the model states it:

- The crate declares `RespError` variants (`InvalidLength`,
  `InvalidLengthSeparator`, `LengthsNotMatch`, …) that would belong to
  bulk-string and array decoders, but it has no such decoders; nothing
  produces them.
- Each leaf decoder checks and copies the line in one scan.
- The integer decoder does not check that its payload is a number
  (`Integers.ParseNonNumeric`).

## Model

| member | source | states |
|---|---|---|
| Wire.LineEnd | src/simple_string/mod.rs:130-132 | the payload scan stops at the first CR or LF in the window, or at `end`; no byte before it is CR or LF |
| Wire.ScanLine | src/simple_string/mod.rs:126-137 | the shared leaf scan: fails with the first-char error exactly when `start >= end` or the tag byte differs; on success, `input[start..next]` is a complete line of that kind inside the window |
| Wire.ScanLineCompleteIff | src/simple_string/mod.rs:126-137 | the scan succeeds with cursor `k` if and only if `input[start..k]` is a complete CR/LF-free line of the kind ending within the window |
| Wire.ScanLineWithinWindow | src/simple_string/mod.rs:121-141 | the scan reads only the bytes in `[start, end)`: buffers that agree there give the same outcome |
| Wire.ScanLineRoundTrip | src/simple_string/mod.rs:121-141 | a line encoded from a CR/LF-free payload, placed anywhere and followed by anything, is scanned back in full and the cursor lands just past it |
| Wire.NatDigits | src/bulk_string/mod.rs:7 | the decimal spelling of a length is non-empty, all digits, CR/LF-free, starts with `0` only for zero, and has no superfluous leading zero |
| Wire.DigitsRoundTrip | src/bulk_string/mod.rs:7 | reading the digits of a length back gives the length |
| Wire.Decimal | src/integer/mod.rs:40 | the decimal spelling of an integer is non-empty and CR/LF-free, and starts with `-` exactly when the integer is negative |
| Wire.DecimalRoundTrip | src/integer/mod.rs:40 | reading the spelling of any integer back gives the integer |
| Wire.DecimalInjective | src/integer/mod.rs:39-47 | different integers have different spellings, so different encodings |
| SimpleStrings.SimpleString.Len | src/simple_string/mod.rs:59-61 | the length is the number of wire bytes, at least 3 (tag and CRLF) for a well-formed simple string |
| SimpleStrings.SimpleString.Value | src/simple_string/mod.rs:64-74 | the value is the bytes between the tag and the final two bytes, and `len - 3` long |
| SimpleStrings.SimpleString.ValueLen | src/simple_string/mod.rs:76-78 | the value length is the length of `Value` |
| SimpleStrings.New | src/simple_string/mod.rs:44-51 | the encoding is `+`, the payload, CRLF; its value reads back as the payload; it is well formed exactly when the payload has no CR/LF |
| SimpleStrings.ValidateValue | src/simple_string/mod.rs:80-90 | succeeds exactly when the payload has no CR and no LF, and otherwise fails with `InvalidValueChar` |
| SimpleStrings.Parsed | src/simple_string/mod.rs:121-141 | failures leave the cursor at `start` and are `InvalidFirstChar` (exactly when the tag is missing) or `InvalidTerminate`; a success copies exactly the consumed well-formed line and advances the cursor within the window |
| SimpleStrings.ParsedWithinWindow | src/simple_string/mod.rs:121-141 | decoding reads only `[start, end)`: buffers that agree there decode to the same value and cursor |
| SimpleStrings.Parse | src/simple_string/mod.rs:121-141 | the loop-based decoder computes exactly `Parsed` (result and new cursor) |
| SimpleStrings.ParseWellFormed | src/simple_string/mod.rs:121-141 | every well-formed simple string, followed by anything, parses back to itself and moves the cursor by its length |
| SimpleStrings.RoundTrip | src/simple_string/mod.rs:44-51 | encode then parse: a payload that passes validation comes back unchanged |
| SimpleStrings.ParseExample | src/simple_string/mod.rs:197-208 | `+foo\r\n+bar\r\n` parses to the simple string `foo` with the cursor at 6 |
| SimpleStrings.ValueExample | src/simple_string/mod.rs:156-182 | `+OK\r\n` is `New("OK")`, 5 bytes long, with value `OK` of length 2 |
| SimpleStrings.ValidateScenario | src/simple_string/mod.rs:184-195 | `OK` validates; `O\r\nK` fails with `InvalidValueChar` |
| Errors.Error.Len | src/error/mod.rs:60-62 | the length is the number of wire bytes, at least 3 (tag and CRLF) for a well-formed error |
| Errors.Error.Value | src/error/mod.rs:65-74 | the value is the bytes between the tag and the final two bytes, and `len - 3` long |
| Errors.New | src/error/mod.rs:44-52 | the encoding is `-`, the payload, CRLF; its value reads back as the payload; it is well formed exactly when the payload has no CR/LF |
| Errors.ValidateValue | src/error/mod.rs:76-86 | succeeds exactly when the payload has no CR and no LF, and otherwise fails with `InvalidValueChar` |
| Errors.Parsed | src/error/mod.rs:106-122 | failures leave the cursor at `start` and are `InvalidFirstChar` (exactly when the tag is missing) or `InvalidTerminate`; a success copies exactly the consumed well-formed line |
| Errors.ParsedWithinWindow | src/error/mod.rs:106-122 | decoding reads only `[start, end)`: buffers that agree there decode to the same value and cursor |
| Errors.Parse | src/error/mod.rs:106-122 | the loop-based decoder computes exactly `Parsed` |
| Errors.ParseWellFormed | src/error/mod.rs:106-122 | every well-formed error, followed by anything, parses back to itself and moves the cursor by its length |
| Errors.RoundTrip | src/error/mod.rs:44-52 | encode then parse: a payload that passes validation comes back unchanged |
| Errors.ParseExample | src/error/mod.rs:164-175 | `-invalid length\r\n+bar\r\n` parses to the error `invalid length` with the cursor at 17 |
| Errors.ValueExample | src/error/mod.rs:130-142 | `-Error message\r\n` is `New("Error message")` and its value is `Error message` |
| Integers.Integer.Len | src/integer/mod.rs:67-69 | the length is the number of wire bytes, at least 3 (tag and CRLF) for a well-formed integer |
| Integers.Integer.RawValue | src/integer/mod.rs:50-59 | the raw value is the text between the tag and the final two bytes, and `len - 3` long |
| Integers.New | src/integer/mod.rs:39-47 | the encoding is `:`, the decimal spelling, CRLF; it is well formed; its raw value is the spelling, which starts with `-` exactly for negative input |
| Integers.ValidateValue | src/integer/mod.rs:71-81 | succeeds exactly when the payload has no CR and no LF, and otherwise fails with `InvalidValueChar` |
| Integers.Parsed | src/integer/mod.rs:101-117 | failures leave the cursor at `start` and are `InvalidFirstChar` (exactly when the tag is missing) or `InvalidTerminate`; a success copies exactly the consumed well-formed line |
| Integers.ParsedWithinWindow | src/integer/mod.rs:101-117 | decoding reads only `[start, end)`: buffers that agree there decode to the same value and cursor |
| Integers.Parse | src/integer/mod.rs:101-117 | the loop-based decoder computes exactly `Parsed` |
| Integers.ParseAnyPayload | src/integer/mod.rs:101-117 | any `:` line with a CR/LF-free payload, numeric or not, followed by anything, parses back to itself |
| Integers.RoundTrip | src/integer/mod.rs:39-47 | encode then parse: the encoding of any integer parses back to itself and its raw value reads back as the integer |
| Integers.ParseExample | src/integer/mod.rs:158-169 | `:100\r\n+bar\r\n` parses to `New(100)` with the cursor at 6 |
| Integers.ParseNonNumeric | src/integer/mod.rs:101-117 | `:abc\r\n` is accepted: the decoder does not check for a number |
| Integers.NegativeExample | src/array/mod.rs:139-142 | `-100` encodes as `:-100\r\n` |
| Integers.RawValueExample | src/integer/mod.rs:124-135 | `:100\r\n` is `New(100)` and its raw value is `100` |
| BulkStrings.New | src/bulk_string/mod.rs:6-17 | the encoding is `$`, the payload length in decimal, CRLF, the payload, CRLF; its length is payload + digits + 5 |
| BulkStrings.EncodedLen | src/bulk_string/mod.rs:25-27 | an encoded bulk string is payload + digits + 5 bytes long |
| BulkStrings.EncodingDecodes | src/bulk_string/mod.rs:6-17 | an encoding reads back field by field: the tag, a digit field without a superfluous leading zero whose value is the payload length, CRLF, the payload verbatim (CR/LF included), then CRLF |
| BulkStrings.EncodingInjective | src/bulk_string/mod.rs:6-17 | different payloads have different encodings |
| BulkStrings.EmptyExample | src/bulk_string/mod.rs:6-17 | the empty payload encodes as `$0\r\n\r\n` |
| BulkStrings.BarExample | src/array/mod.rs:134-138 | `bar` encodes as `$3\r\nbar\r\n` |
| Arrays.Array.IsEmpty | src/array/mod.rs:32-34 | true exactly when the bytes are `*0\r\n` |
| Arrays.Array.IsNull | src/array/mod.rs:37-39 | true exactly when the bytes are `*-1\r\n` |
| Arrays.SentinelBytes | src/array/mod.rs:4-5 | the empty sentinel is the count line for 0, `*0\r\n`; the null sentinel is the count line for -1, `*-1\r\n` |
| Arrays.NeverEmptyAndNull | src/array/mod.rs:4-5 | no array is both sentinels |
| Resp.RespType.Len | src/lib.rs:62-70 | the dispatched length is the length of the dispatched bytes |
| Resp.BytesOpenWithTag | src/lib.rs:72-80 | the dispatched bytes of a well-formed value open with its variant's type byte (`+`, `-`, `:`, `$`, `*`) |
| Resp.BytesIdentifyVariant | src/lib.rs:72-80 | two well-formed values with the same dispatched bytes are the same value, variant included |
| ArrayBuilders.Flatten | src/array/mod.rs:87-90 | the element encodings written one after another are as long as the sum of the element lengths |
| ArrayBuilders.EncodedLen | src/array/mod.rs:12-14 | a built array is 4 bytes long when empty, otherwise digits + 3 + the sum of the element lengths |
| ArrayBuilders.EncodingHeader | src/array/mod.rs:86-95 | a non-empty array's encoding starts with `*`, the element count in decimal without a superfluous leading zero, and CRLF; its length is digits + 3 + the sum of the element lengths |
| ArrayBuilders.EncodingElementAt | src/array/mod.rs:96-98 | each element's encoding, nested arrays included, appears verbatim after the header and the elements before it, in insertion order |
| ArrayBuilders.EncodingSentinels | src/array/mod.rs:81-101 | the built array is the empty sentinel exactly when no element was inserted, and never the null sentinel |
| ArrayBuilders.BuildEmptyExample | src/array/mod.rs:109-113 | nothing inserted builds `*0\r\n`, the empty sentinel |
| ArrayBuilders.BuildErrorExample | src/array/mod.rs:115-124 | one error element builds `*1\r\n-Invalid value.\r\n` |
| ArrayBuilders.BuildPairExample | src/array/mod.rs:144-151 | two simple strings build `*2\r\n+foo\r\n+bar\r\n` |
| ArrayBuilders.BuildNestedExample | src/array/mod.rs:152-156 | a simple string, a bulk string, an integer and a nested two-element array build `*4\r\n+foo\r\n$3\r\nbar\r\n:-100\r\n*2\r\n+foo\r\n+bar\r\n` |
| ArrayBuilders.ArrayBuilder.constructor | src/array/mod.rs:63-67 | a new builder holds no elements |
| ArrayBuilders.ArrayBuilder.Value | src/array/mod.rs:70-72 | returns the inserted elements |
| ArrayBuilders.ArrayBuilder.Insert | src/array/mod.rs:75-78 | appends the element; the earlier ones are unchanged |
| ArrayBuilders.ArrayBuilder.Build | src/array/mod.rs:81-101 | the result's bytes are `Encoding` of the inserted elements, and for a non-empty builder its length is the precomputed total (digits + 3 + the sum of element lengths) |
| ArrayBuilders.BuildErrorScenario | src/array/mod.rs:115-124 | `Errors.New`, `Insert` and `Build` on a fresh builder produce `*1\r\n-Invalid value.\r\n` |
| ArrayBuilders.BuildPairScenario | src/array/mod.rs:144-151 | two `SimpleStrings.New` values inserted and built produce `*2\r\n+foo\r\n+bar\r\n` |
| ArrayBuilders.ScenarioAfterOne | src/array/mod.rs:129-133 | the simple string `foo` alone builds `*1\r\n+foo\r\n` |
| ArrayBuilders.ScenarioAfterTwo | src/array/mod.rs:134-138 | adding the bulk string `bar` builds `*2\r\n+foo\r\n$3\r\nbar\r\n` |
| ArrayBuilders.ScenarioAfterThree | src/array/mod.rs:139-143 | adding the integer -100 builds `*3\r\n+foo\r\n$3\r\nbar\r\n:-100\r\n` |
| ArrayBuilders.BuildLeavesScenario | src/array/mod.rs:128-143 | on a fresh builder, each insert followed by `Build` produces `*1\r\n+foo\r\n`, then `*2\r\n+foo\r\n$3\r\nbar\r\n`, then `*3\r\n+foo\r\n$3\r\nbar\r\n:-100\r\n` |
| ArrayBuilders.BuildNestedScenario | src/array/mod.rs:126-157 | the same builder, built after every insert, produces the one-, two- and three-element arrays above and then, with the nested pair, `*4\r\n+foo\r\n$3\r\nbar\r\n:-100\r\n*2\r\n+foo\r\n+bar\r\n` |

## Left out

- `from_raw` on the leaf kinds builds a value from a raw pointer in unsafe code. It has no counterpart here.
- `from_bytes` and `from_slice` only wrap or copy the bytes. The datatype constructors stand for them.
- The `Display` and `std::error::Error` impls of the error enums only format messages.
- Reference-counted `Bytes`/`BytesMut` buffers, their capacities and cheap clones are not modelled. A value is a `seq` of bytes. `bytes()` is the `bytes` field and `len()` is its length.
- `Array::to_vec` uses unsafe `set_len` and returns the first `len - 3` bytes. It is not modelled.
- Decoders for bulk strings and arrays, and the null/length-mismatch checks that would go with them, do not exist in the source.
- `EMPTY_BULK_STRING` and `NULL_BULK_STRING` are re-exported by `src/lib.rs` but not defined in the bulk string source. `BulkStrings.EmptyExample` states the bytes of the empty encoding instead.
- Integers.New: the input range is `i64`, stated as a requires. The `usize` arithmetic of lengths and the cursor is unbounded here, so overflow is not modelled.
- SimpleStrings.Parse: with `end` past the buffer the source still succeeds when a CRLF lies inside the buffer, and panics when the scan runs past it; the model excludes `end > |input|`. Every call site shown passes `end = input.len()`.
- Errors.Parse: the same `end <= |input|` restriction, for the same reason.
- Integers.Parse: the same `end <= |input|` restriction, for the same reason.
- SimpleStrings.Parsed, Errors.Parsed and Integers.Parsed carry the same `end <= |input|` restriction as the methods they specify.
- SimpleStrings.SimpleString.Value requires at least three bytes: below that, the source's `len - 3` underflows and panics.
- SimpleStrings.SimpleString.ValueLen requires at least three bytes: below that, the source's `len - 3` underflows and panics.
- Errors.Error.Value requires at least three bytes, for the same reason.
- Integers.Integer.RawValue requires at least three bytes, for the same reason.
- ArrayBuilders.ArrayBuilder.Insert: the source returns `&Self` for chaining. The method returns nothing.
- ArrayBuilders.ArrayBuilder.Value takes `&mut self` in the source but changes nothing. The method has no `modifies` clause.
- Resp.BytesOpenWithTag: for an array, `RespType.WellFormed` asks only for the leading `*`. `Array::from_slice` accepts any bytes, and the elements inside a built array are not re-checked.
- `RespType::len` and `RespType::bytes` are private in the source. They are ordinary members here.
- `RespError` is modelled as a plain enum. No operation of the source produces it.
- `IntegerError::InvalidValue` is declared but produced by no operation.
