/** The events a reader sends to a handler, and the errors it can end with. */
module Events {
  import opened Ascii

  /** SizeType: a 32-bit unsigned count, which wraps around. */
  type Size = x: int | 0 <= x < 0x1_0000_0000

  function Inc(n: Size): Size {
    if n == 0xFFFF_FFFF then 0 else n + 1
  }

  /** The Handler concept. A Double event carries the literal instead of its floating-point value. */
  datatype Event =
    | Null
    | Bool(b: bool)
    | Int(i: int)
    | Uint(u: int)
    | Int64(i64: int)
    | Uint64(u64: int)
    | Double(literal: seq<Byte>)
    | String(s: seq<Byte>)
    | Key(k: seq<Byte>)
    | StartObject
    | EndObject(memberCount: Size)
    | StartArray
    | EndArray(elementCount: Size)

  datatype ErrorCode =
    | DocumentEmpty
    | DocumentRootNotSingular
    | ValueInvalid
    | ObjectMissName
    | ObjectMissColon
    | ObjectMissCommaOrCurlyBracket
    | ArrayMissCommaOrSquareBracket
    | StringUnicodeEscapeInvalidHex
    | StringUnicodeSurrogateInvalid
    | StringEscapeInvalid
    | StringMissQuotationMark
    | StringInvalidEncoding
    | NumberTooBig
    | NumberMissFraction
    | NumberMissExponent
    | UnspecificSyntaxError

  datatype Option<+T> = None | Some(value: T)

  /** What a scanner makes of the text at a position. */
  datatype Scanned<+T> = Ok(value: T, pos: nat) | Err(code: ErrorCode, offset: nat)

  /** What a parse sends and how it ends. */
  datatype Outcome =
    | Done(events: seq<Event>, pos: nat)
    | Fail(events: seq<Event>, code: ErrorCode, offset: nat)

  /** The parse flags, and the floating-point conversion as a parameter: whether the value of a
      literal exceeds the largest double. */
  datatype Config = Config(
    trailingCommas: bool,
    comments: bool,
    stopWhenDone: bool,
    validateEncoding: bool,
    tooBig: seq<Byte> -> bool)
}
