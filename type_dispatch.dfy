/** The EXPECTED_TYPE table: for every primitive type a stream accepts, the
    printf conversion it is written with and the value handed to the
    rendering engine. The C++ overload set becomes a closed datatype; a value of
    any other type cannot be built, as the source rejects it at compile time. */
module TypeDispatch {
  import opened CStrings

  type uint8 = x: int | 0 <= x < 0x100
  type uint16 = x: int | 0 <= x < 0x1_0000
  type uint32 = x: int | 0 <= x < 0x1_0000_0000
  type uint64 = x: int | 0 <= x < 0x1_0000_0000_0000_0000
  type int8 = x: int | -0x80 <= x < 0x80
  type int16 = x: int | -0x8000 <= x < 0x8000
  type int32 = x: int | -0x8000_0000 <= x < 0x8000_0000
  type int64 = x: int | -0x8000_0000_0000_0000 <= x < 0x8000_0000_0000_0000

  /** A C `char`: one byte. */
  type CChar = c: char | c as int < 0x100

  /** One argument of a stream call, tagged with its C++ type. Floating-point
      values are carried as their bit patterns: only the rendering engine
      looks inside them. `unsigned long` and `long` are 64 bits wide (LP64). */
  datatype Value =
    | Float(fbits: bv32)
    | Double(dbits: bv64)
    | Bool(b: bool)
    | Char(c: CChar)
    | UInt8(u8: uint8)
    | UInt16(u16: uint16)
    | UInt32(u32: uint32)
    | ULong(ul: uint64)
    | UInt64(u64: uint64)
    | Int8(i8: int8)
    | Int16(i16: int16)
    | Int32(i32: int32)
    | Long(l: int64)
    | Int64(i64: int64)
    | Str(s: Text)

  const StringTrue: Text := "true"
  const StringFalse: Text := "false"
  const StringFmtFloat: Text := "f"
  const StringFmtString: Text := "s"
  const StringFmtChar: Text := "c"
  const StringFmtUint: Text := "d"
  const StringFmtUintLong: Text := "ld"
  const StringFmtInt: Text := "d"
  const StringFmtIntLong: Text := "ld"

  /** charForType: the conversion written after '%' for a value of this type.
      It is one or two characters, holds no terminator, so it can be copied
      into the format buffer as a C string, and holds no further '%'. */
  function Spec(v: Value): (r: Text)
    ensures 1 <= |r| <= 2 && NUL !in r && '%' !in r
  {
    match v
    case Float(_) => StringFmtFloat
    case Double(_) => StringFmtFloat
    case Bool(_) => StringFmtString
    case Char(_) => StringFmtChar
    case UInt8(_) => StringFmtUint
    case UInt16(_) => StringFmtUint
    case UInt32(_) => StringFmtUint
    case ULong(_) => StringFmtUintLong
    case UInt64(_) => StringFmtUintLong
    case Int8(_) => StringFmtInt
    case Int16(_) => StringFmtInt
    case Int32(_) => StringFmtInt
    case Long(_) => StringFmtIntLong
    case Int64(_) => StringFmtIntLong
    case Str(_) => StringFmtString
  }

  /** coerceToExpectedParam: the value actually passed to the rendering engine.
      No boolean reaches the engine, and the conversion chosen for the
      original value is still the one for the value passed. */
  function Coerce(v: Value): (r: Value)
    ensures !r.Bool?
    ensures Spec(r) == Spec(v)
  {
    match v
    case Bool(b) => Str(if b then StringTrue else StringFalse)
    case _ => v
  }

  /** The coerced argument list of one call, in order. */
  function CoerceAll(vals: seq<Value>): (r: seq<Value>)
    ensures |r| == |vals|
    ensures forall i :: 0 <= i < |vals| ==> r[i] == Coerce(vals[i])
  {
    seq(|vals|, i requires 0 <= i < |vals| => Coerce(vals[i]))
  }

  /** What a variadic argument becomes after C's default argument promotions:
      types narrower than `int` become `int`, `float` becomes `double`, and
      32- and 64-bit unsigned types stay unsigned. */
  datatype Passed = IntWord | UIntWord | LongWord | ULongWord | DoubleWord | Pointer

  /** The argument kind with its signedness dropped. */
  function AsSigned(p: Passed): Passed {
    match p
    case UIntWord => IntWord
    case ULongWord => LongWord
    case _ => p
  }

  function Promoted(v: Value): Passed {
    match v
    case Float(_) => DoubleWord
    case Double(_) => DoubleWord
    case Bool(_) => IntWord
    case Char(_) => IntWord
    case UInt8(_) => IntWord
    case UInt16(_) => IntWord
    case UInt32(_) => UIntWord
    case ULong(_) => ULongWord
    case UInt64(_) => ULongWord
    case Int8(_) => IntWord
    case Int16(_) => IntWord
    case Int32(_) => IntWord
    case Long(_) => LongWord
    case Int64(_) => LongWord
    case Str(_) => Pointer
  }

  datatype Option<T> = None | Some(value: T)

  /** What a printf conversion reads from the argument list; None for a
      conversion this table never produces. */
  function Expects(conversion: string): (r: Option<Passed>) {
    if conversion == "f" then Some(DoubleWord)
    else if conversion == "d" || conversion == "c" then Some(IntWord)
    else if conversion == "ld" then Some(LongWord)
    else if conversion == "s" then Some(Pointer)
    else None
  }

  /** Up to signedness the table is consistent: for every value, the
      conversion chosen for it reads the width and kind of argument its coerced
      value is passed as. The match is exact for every type except the 32- and
      64-bit unsigned ones, which are read by the signed conversions. */
  lemma SpecMatchesCoerced(v: Value)
    ensures Expects(Spec(v)) == Some(AsSigned(Promoted(Coerce(v))))
    ensures Expects(Spec(v)) == Some(Promoted(Coerce(v))) <==> !(v.UInt32? || v.ULong? || v.UInt64?)
  {
  }

  /** The `int` that "%d" reads from the bits of an `unsigned int` (two's
      complement). */
  function ReadAsInt32(x: uint32): (r: int32)
    ensures r % 0x1_0000_0000 == x % 0x1_0000_0000
  {
    if x < 0x8000_0000 then x else x - 0x1_0000_0000
  }

  /** A `uint32_t` at or above 2^31 is written with "%d", which reads it as a
      negative `int`; 3000000000 reads as -1294967296. */
  lemma UnsignedReadAsSigned(x: uint32)
    requires x >= 0x8000_0000
    ensures Spec(UInt32(x)) == "d" && Expects("d") == Some(IntWord)
    ensures Promoted(Coerce(UInt32(x))) == UIntWord
    ensures ReadAsInt32(x) == x - 0x1_0000_0000 < 0
    ensures ReadAsInt32(3000000000) == -1294967296
  {
  }

  /** Booleans are passed as one of the two words, never as 0 or 1, every
      other value passes through unchanged, and coercing twice changes nothing
      more. */
  lemma CoerceKeepsAllButBool(v: Value)
    ensures Coerce(Coerce(v)) == Coerce(v)
    ensures v.Bool? ==> Coerce(v).Str? && Coerce(v).s in {StringTrue, StringFalse}
    ensures v.Bool? ==> (Coerce(v).s == StringTrue <==> v.b)
    ensures !v.Bool? ==> Coerce(v) == v
  {
  }

  /** Only five conversions are ever chosen. */
  lemma SpecIsOneOfFive(v: Value)
    ensures Spec(v) in {"f", "s", "c", "d", "ld"}
  {
  }

  /** A value is written with "%s" exactly when a string is passed for it:
      a `char const *`, or a boolean turned into its word. */
  lemma StringConversionIffString(v: Value)
    ensures Spec(v) == "s" <==> Coerce(v).Str?
    ensures Spec(v) == "s" <==> v.Str? || v.Bool?
  {
  }
}
