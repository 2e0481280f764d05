# Verified model of the JSON engine and the object-model generator

A Dafny model of the RapidJSON copy and of the CreateDOM tool in this repository, with proofs of what
they are for. `dafny verify dfyconfig.toml` checks everything.

The project has five parts.

**The text engine.** `Scanner`, `Descent` and `Machine` describe the lexical level, the recursive-descent
parser and the table-driven parser of `reader.h` as functions of the text; `Reader` is the mutable reader
proved equal to them. `Machine` proves that the two parsers agree. `Tree` and `Document` hold the document
tree, its events and the handler that builds a tree on a stack; `Printing` and `Writer` the printer with its
level stack. `RoundTrip` proves that what is printed parses to the same tree. `Gaps`, `Literals`, `Strings` and
`Grammar` put texts together from their parts, without the scanner: white space and comments, numbers, strings,
whole documents. They prove that each is read as what it stands for, and that nothing else is accepted.
`Utf8` is the codec under them.

**Numbers.** `Limbs` and `BigInteger` hold multi-limb arithmetic; `HalfUlp` the exact half-ULP comparison of
`strtod.h`, over reals; `DigitGen` Grisu2 digit generation; `Prettify` the layout of its digits; `Itoa` and
`Jeaiii` the two families of integer printers. `Decimal` and `Powers` are the reference they are held to.

**JSON Pointer.** `Pointer` describes parsing and stringifying in both forms, `PointerText` the texts that are
accepted, `PointerCode` the loops that do it with one name buffer, `PointerTree` Get, Create and Set.

**Memory.** `Pool` is the pool allocator as a state machine on a flat address space, `Allocator` the class.

**The tool.** `Csv` is the scanner of CreateDOM, `ObjectModel` the state machine that builds the object model
from rows, `Generator` what is emitted for a class and what the emitted code does, `Generated` the proof that
the emitted reader undoes the emitted writer.

Conventions: a byte is an integer below 256; reading past the end of a text yields NUL, as with a
terminated C string; fixed-width arithmetic is written out where the source relies on it; an assertion of
the source is a precondition, or a missing result where a caller can run into it. Floating-point conversion,
the base allocator and the string-to-integer helper of the generated code are parameters.

Results that are not what a reader might expect, each with the exact condition:

- The two parsers report different error codes for a root that begins with `]`, `}`, a comma or a colon, and
  agree on everything else (`Machine.ParsersAgree`, `Machine.ParsersDiffer`).
- With encoding validation a printed tree is read back exactly if its strings are UTF-8, since the writer prints
  other bytes as they are (`RoundTrip.TextParses`, `RoundTrip.RejectedString`).
- `BigInteger::Difference` loses a borrow when it meets a limb of 2^64 - 1 (`Limbs.DifferenceExactly`,
  `Limbs.DifferenceMayFail`). `HalfUlp.VerdictMayFail` is a double and a decimal whose verdict that makes wrong,
  `HalfUlp.VerdictExactly` says which inputs are misjudged.
- The overflow test for pointer indices misses some numbers (`Pointers.IndexExactly`, `Pointers.OverflowMissed`).
- Get after Create or Set misses the value exactly if a `-` token appended to an array
  (`PointerTree.SetThenGet`, `PointerTree.AppendMissed`).
- The emitted reader rejects every array of strings that the emitted writer produces
  (`Generated.SerializeThenDeserialize`, `Generated.TextsFail`).
- Blocks cut from a buffer of the user's are 8-aligned exactly if the buffer is (`Pool.FirstBlock`, `Pool.RunAligned`).
- Member rows before the first object row end up in that object (`ObjectModel.ModelDeclares`).

## Model

| member | source | states |
|---|---|---|
| `Utf8.EncodeIsUtf8` | include/rapidjson/encodings.h:102-121 | what is encoded carries the code point and is a UTF8-char of section 4 of RFC 3629 if and only if the code point is a scalar value |
| `Utf8.DecodedIsEncoded` | include/rapidjson/encodings.h:102-121 | every UTF8-char is the encoding of exactly one scalar value |
| `Utf8.Masks` | include/rapidjson/encodings.h:204-220 | the range classes and masks select exactly the byte ranges of the grammar |
| `Utf8.Decode` | include/rapidjson/encodings.h:146-176 | takes the bytes its lead byte asks for, accepts exactly the UTF8-chars, and yields their code point |
| `Utf8.Validate` | include/rapidjson/encodings.h:179-202 | takes and copies the bytes Decode takes and gives the same verdict |
| `Utf8.EncodeThenDecode` | include/rapidjson/encodings.h:102-176 | for every sequence of scalar values decoding what is encoded is the identity |
| `Utf8.DecodeThenEncode` | include/rapidjson/encodings.h:102-176 | for every well-formed text encoding what is decoded is the identity |
| `Utf8.CountStringCodePoint` | include/rapidjson/internal/strfunc.h:50-64 | succeeds if and only if the text is well formed, and counts its code points |
| `Reader.Reader.SkipWhitespaceAndComments` | include/rapidjson/reader.h:709-734 | moves the cursor as the specification of white space and comments says, with its errors |
| `Reader.Reader.ParseName` | include/rapidjson/reader.h:854-891 | null, true and false, with the offset of the first character that differs |
| `Reader.Reader.ParseString` | include/rapidjson/reader.h:957-1054 | escapes, surrogate pairs (a lone low surrogate being accepted), encoding validation and every string error |
| `Reader.Reader.ParseDigits` | include/rapidjson/reader.h:1476-1559 | 32-bit and then 64-bit accumulation never exceed their type; the type switches exactly when the value exceeds the limit |
| `Reader.Reader.ParseNumber` | include/rapidjson/reader.h:1454-1732 | the event and end the specification of numbers gives, including the two's complement negation |
| `Reader.Reader.ParseValue` | include/rapidjson/reader.h:1736-1750 | one value by recursive descent, equal to the specification in events, position and error |
| `Reader.Reader.ParseObject` | include/rapidjson/reader.h:738-803 | the loop over members, equal to the specification |
| `Reader.Reader.ParseArray` | include/rapidjson/reader.h:806-851 | the loop over elements, equal to the specification |
| `Reader.Reader.Parse` | include/rapidjson/reader.h:557-588 | the whole parse, equal to the specification |
| `Reader.Reader.IterativeParse` | include/rapidjson/reader.h:2176-2208 | the table-driven loop with its state stack, equal to the machine |
| `Machine.ValueAgrees` | include/rapidjson/reader.h:1828-2144 | from any state that expects a value, the machine on a value of the text does what recursive descent does and goes on |
| `Machine.ParsersAgree` | include/rapidjson/reader.h:2176-2208 | for every text and all flags the two parsers give the same events, verdict, error code and offset if and only if the first character is not a misplaced ], }, comma or colon |
| `Machine.MisplacedRoot` | include/rapidjson/reader.h:2147-2165 | on such a character both reject at the same offset before any event, with ValueInvalid and DocumentEmpty |
| `Machine.ParsersDiffer` | include/rapidjson/reader.h:2147-2165 | the text ] gets ValueInvalid from one parser and DocumentEmpty from the other |
| `Machine.ParsersAccept` | include/rapidjson/reader.h:557-851 | both accept or both reject every text, having sent the same events with the same counts |
| `Literals.LiteralReads` | include/rapidjson/reader.h:1468-1559 | every integer literal, whatever follows that does not go on with the number, gives the narrowest integer event of its sign with its exact value if and only if it is in [-2^63, 2^64), else a double or NumberTooBig |
| `Literals.NumeralReads` | include/rapidjson/reader.h:1568-1710 | every number with a fraction or an exponent, put together by concatenation, is sent as a double carrying exactly that literal, or is NumberTooBig |
| `Literals.NumeralSends` | include/rapidjson/reader.h:1454-1732 | every number of section 6 of RFC 8259 is sent as its event and the cursor is left behind it, unless no double holds it |
| `Literals.NumberIsNumeral` | include/rapidjson/reader.h:1454-1732 | whatever is accepted as a number is such a number, and what is sent is its event |
| `Literals.NoDigits` | include/rapidjson/reader.h:1468-1532 | no digit where one must stand: ValueInvalid behind the minus |
| `Literals.NoFraction` | include/rapidjson/reader.h:1571-1575 | a point without a digit: NumberMissFraction behind the point |
| `Literals.NoExponentDigit` | include/rapidjson/reader.h:1618-1660 | an exponent without a digit: NumberMissExponent behind its sign |
| `Literals.DoubleStored` | include/rapidjson/document.h:2443 | the document keeps a double as it was sent, and sends it again the same |
| `Strings.PairReads` | include/rapidjson/reader.h:1014-1028 | the escapes of the two surrogates of any code point from 0x10000 on, in hexadecimal digits of either case, are read as that code point, 12 bytes on |
| `Strings.CharReads` | include/rapidjson/reader.h:1001-1051 | every one-letter escape, unicode escape, surrogate pair and plain character is read as the bytes it stands for |
| `Strings.CharsRead` | include/rapidjson/reader.h:989-1054 | a string put together from such characters is read as their bytes |
| `Strings.StringIsChars` | include/rapidjson/reader.h:989-1054 | whatever is accepted as a string is put together from such characters, and yields their bytes |
| `Strings.LoneHighSurrogate` | include/rapidjson/reader.h:1018-1027 | the escape of a high surrogate that no low surrogate follows is an error |
| `Strings.StringFails` | include/rapidjson/reader.h:1008-1051 | behind any good characters, a wrong escape, a wrong hexadecimal digit, a control character, bytes that are no UTF-8 under validation, and the end of the text give their error code at their offset |
| `Gaps.PiecesSkip` | include/rapidjson/reader.h:709-734 | any mixture of the four white-space characters and, with the flag, comments of both kinds is passed over up to the first other character |
| `Gaps.CutSkips` | include/rapidjson/reader.h:727-728 | a line comment at the end of the text need not end |
| `Gaps.SkipIsGap` | include/rapidjson/reader.h:709-734 | whatever is passed over is such a mixture, and it goes on until something else comes |
| `Grammar.NodeReads` | include/rapidjson/reader.h:738-851 | the text of any value of section 3 of RFC 8259, with gaps and trailing commas as the flags allow, is parsed as its events wherever it stands |
| `Grammar.ValueIsNode` | include/rapidjson/reader.h:738-851 | whatever is parsed as a value is the text of such a value, with its events and its end |
| `Grammar.DocParses` | include/rapidjson/reader.h:557-588 | a document is parsed as the events of its root |
| `Grammar.DocIs` | include/rapidjson/reader.h:557-588 | whatever Parse accepts is a document |
| `Grammar.AcceptsDocuments` | include/rapidjson/reader.h:557-588 | for every text and all flags but StopWhenDone, both parsers accept exactly the documents |
| `Grammar.StopsBehindRoot` | include/rapidjson/reader.h:576-588 | with StopWhenDone the root is parsed and what follows it is not looked at |
| `Literals.LiteralStored` | include/rapidjson/document.h:712-748 | the value stored for the literal has the flags of exactly the integer types that hold it |
| `Tree.FlagsArePrecise` | include/rapidjson/document.h:712-748 | whichever constructor makes it, an integer gets the flags of precisely the types that hold it |
| `Tree.FindMember` | include/rapidjson/document.h:1254-1262 | the position of the first member of the name, or the number of members |
| `Tree.BuildsValue` | include/rapidjson/document.h:2437-2477 | the events of any tree, on any stack, leave that stack and exactly one value equal to the tree |
| `Tree.BuildsMembers` | include/rapidjson/document.h:2465-2471 | the events of members leave their names and values in order |
| `Tree.BuildsElements` | include/rapidjson/document.h:2473-2477 | the events of elements leave the elements in order |
| `Document.ValueBuilds` | include/rapidjson/document.h:2437-2477 | whatever the reader sends for a value puts one value on the stack |
| `Document.OneRoot` | include/rapidjson/document.h:2259-2269 | every successful parse leaves exactly one root on the stack, and the events of no parse, failing ones included, make a stack assertion fail |
| `Document.GenericDocument.EndObject` | include/rapidjson/document.h:2465-2471 | pops name-value pairs and replaces the object below them |
| `Document.GenericDocument.EndArray` | include/rapidjson/document.h:2473-2477 | pops the elements and replaces the array below them |
| `Document.PrefixBuilds` | include/rapidjson/document.h:2437-2477 | events that can be handled can be handled one by one |
| `Document.GenericDocument.ParseStream` | include/rapidjson/document.h:2259-2269 | on success the document is the one root, on failure it keeps its value, and in neither case a stack assertion failed |
| `Itoa.U32toa` | include/rapidjson/internal/itoa.h:39-113 | the canonical decimal text of every 32-bit number |
| `Itoa.I32toa` | include/rapidjson/internal/itoa.h:115-124 | the signed text, the most negative number included |
| `Itoa.U64toa` | include/rapidjson/internal/itoa.h:126-292 | the canonical decimal text of every 64-bit number |
| `Itoa.I64toa` | include/rapidjson/internal/itoa.h:294-303 | the signed text, the most negative number included |
| `Printing.WritesValue` | include/rapidjson/writer.h:181-251 | the events of any tree, where a value is due, write the separator and exactly the text of the tree, and leave the level stack as it was |
| `Printing.WritesMembers` | include/rapidjson/writer.h:472-490 | members are separated by commas and colons according to the parity of the count |
| `Printing.WritesElements` | include/rapidjson/writer.h:472-490 | elements are separated by commas |
| `Writer.Writer.Prefix` | include/rapidjson/writer.h:472-490 | the separator, the count of the innermost level and the root flag, as the specification says |
| `Writer.Writer.WriteString` | include/rapidjson/writer.h:376-448 | the escaped text of any byte string |
| `Strings.WrittenByte` | include/rapidjson/writer.h:378-435 | the writer takes a one-letter escape if there is one (but none for the solidus), an upper-case unicode escape for other control characters, and else the byte itself |
| `Strings.NoShorterText` | include/rapidjson/writer.h:376-446 | no text of a string that is read as the same bytes is shorter than the one written |
| `Writer.Writer.Integer` | include/rapidjson/writer.h:312-346 | the decimal text of an integer of any of the four types |
| `Writer.Writer.Start` | include/rapidjson/writer.h:215-219 | a level is pushed after the prefix |
| `Writer.Writer.End` | include/rapidjson/writer.h:230-251 | the level is popped, with the assertions on its kind and parity |
| `Writer.Writer.Accept` | include/rapidjson/document.h:1868-1905 | a tree sends its events to the writer in order |
| `RoundTrip.StringReads` | include/rapidjson/reader.h:989-1054 | reading the escaped text of any byte string gives the string back; with validation, if and only if it is UTF-8, and otherwise StringInvalidEncoding |
| `RoundTrip.NumberReads` | include/rapidjson/reader.h:1454-1732 | reading what the integer printers write gives an event carrying the number |
| `RoundTrip.ValueReads` | include/rapidjson/reader.h:1736-1750 | wherever the text of a tree stands in a text, parsing it sends the events of the tree and consumes exactly that text; with validation, if and only if all its strings and names are UTF-8, and otherwise it fails with StringInvalidEncoding after some of the events |
| `RoundTrip.TextParses` | include/rapidjson/reader.h:557-588 | the text of any printable tree parses, and its events build the tree, flags, order and repeated names included; with validation, if and only if all its strings and names are UTF-8 |
| `RoundTrip.RejectedString` | include/rapidjson/reader.h:1045-1051 | the string of the one byte 0xFF is printed and then rejected by validation |
| `RoundTrip.PrintThenParse` | include/rapidjson/writer.h:376-490 | Accept into a writer and ParseStream of the output rebuild the same tree, or report the encoding error, for every printable tree and all flags |
| `BigIntegers.MulAdd64` | include/rapidjson/internal/biginteger.h:264-276 | the portable branch: two limbs that make exactly a * b + k, no carry being lost in the 64-bit additions |
| `BigIntegers.BigInteger.Add` | include/rapidjson/internal/biginteger.h:70-85 | adds u; the top limb stays nonzero |
| `BigIntegers.BigInteger.Multiply` | include/rapidjson/internal/biginteger.h:87-103 | multiplies by a 64-bit number |
| `BigIntegers.BigInteger.Multiply32` | include/rapidjson/internal/biginteger.h:105-126 | multiplies by a 32-bit number, with 32-bit carries |
| `BigIntegers.BigInteger.ShiftLeft` | include/rapidjson/internal/biginteger.h:128-152 | multiplies by 2^shift, given the spare limb the bitwise path writes to |
| `BigIntegers.BigInteger.MultiplyPow5` | include/rapidjson/internal/biginteger.h:162-182 | multiplies by 5^exp |
| `BigIntegers.BigInteger.FromDecimals` | include/rapidjson/internal/biginteger.h:40-53 | the number of a decimal text of any length, given the spare limb the last shift writes to |
| `BigIntegers.SmallHasRoom` | include/rapidjson/internal/biginteger.h:224-232 | every number below the capacity less one limb has that room |
| `BigIntegers.BigInteger.Compare` | include/rapidjson/internal/biginteger.h:208-217 | the sign of the difference of the two numbers |
| `BigIntegers.BigInteger.Difference` | include/rapidjson/internal/biginteger.h:186-206 | which number is smaller, and the distance plus exactly what the lost borrows add |
| `BigIntegers.ParseUint64` | include/rapidjson/internal/biginteger.h:239-246 | at most 19 digits, without wrap-around |
| `BigIntegers.ExcessWhere` | include/rapidjson/internal/biginteger.h:186-206 | Difference is exact if and only if no limb 2^64 - 1 of the smaller number stands where the limbs below it borrow |
| `BigIntegers.ExcessIs` | include/rapidjson/internal/biginteger.h:186-206 | what Difference adds is BASE^(i+1) for every limb i at which a borrow is lost |
| `Limbs.LostIsSum` | include/rapidjson/internal/biginteger.h:194-203 | ... on limbs: the sum over the positions of the lost borrows |
| `Limbs.DifferenceDenotes` | include/rapidjson/internal/biginteger.h:194-203 | the limbs computed denote a - b plus the lost borrows |
| `Limbs.DifferenceExactly` | include/rapidjson/internal/biginteger.h:194-203 | ... and denote a - b if and only if no borrow meets such a limb |
| `Limbs.DifferenceMayFail` | include/rapidjson/internal/biginteger.h:194-203 | 2^128 - (2^128 - 2^64 + 1) comes out wrong |
| `Limbs.AddDenotes` | include/rapidjson/internal/biginteger.h:70-85 | the carry loop adds, and keeps the top limb nonzero |
| `Limbs.MulAddDenotes` | include/rapidjson/internal/biginteger.h:87-103 | the carry loop multiplies |
| `Limbs.ShiftDenotes` | include/rapidjson/internal/biginteger.h:139-147 | the bitwise shift multiplies by a power of two |
| `Limbs.NormalIsLimbsOf` | include/rapidjson/internal/biginteger.h:32-38 | limbs with a nonzero top are the unique representation of their number |
| `HalfUlp.Adjust` | include/rapidjson/internal/strtod.h:62-95 | the step-by-step adjustment gives the smallest exponents with one factor 5^k 2^m common to all three numbers |
| `HalfUlp.ValueIsInteger` | include/rapidjson/internal/ieee754.h:38-48 | IntegerSignificand and IntegerExponent denote the double its bits encode, and half a unit in its last place |
| `HalfUlp.CommonFactor` | include/rapidjson/internal/strtod.h:62-104 | one positive factor takes the decimal, the double and the half unit to the three integers |
| `HalfUlp.SameSign` | include/rapidjson/internal/strtod.h:98-110 | comparing the integers is comparing the reals |
| `HalfUlp.CheckWithinHalfULP` | include/rapidjson/internal/strtod.h:56-111 | the exact sign of the distance minus half a unit if and only if the input is not one of those a lost borrow misjudges; in every case the sign of the measured distance |
| `HalfUlp.VerdictExactly` | include/rapidjson/internal/strtod.h:106-110 | the verdict is wrong if and only if a limb 2^64 - 1 of the smaller scaled number has to borrow, the two numbers are within half a unit, and the lost borrows add up to the rest of half a unit |
| `HalfUlp.VerdictMayFail` | include/rapidjson/internal/strtod.h:56-111 | the decimal 2^128 - 2^64 + 1 against the double 2^128: within half a unit, and judged to be beyond it |
| `DigitGeneration.GrisuRound` | include/rapidjson/internal/dtoa.h:35-42 | lowers the last digit only, never below 0, never past delta, to the candidate closest to W |
| `DigitGeneration.CountsDigits` | include/rapidjson/internal/dtoa.h:44-58 | the number of decimal digits below 10^9 |
| `DigitGeneration.WholeDigits` | include/rapidjson/internal/dtoa.h:60-93 | the digits before the point, without overflow |
| `DigitGeneration.FractionDigits` | include/rapidjson/internal/dtoa.h:94-109 | the digits after the point; terminates after at most 19 of them, without overflow |
| `DigitGeneration.DigitGen` | include/rapidjson/internal/dtoa.h:60-110 | a numeral with nonzero lead whose decimal lies in [Mp.f - delta, Mp.f], the closest of all decimals of its exponent there to the target that the scaled gap gives |
| `DigitGeneration.TargetIsW` | include/rapidjson/internal/dtoa.h:94-109 | the target is W while the table reaches and the scaled gap fits 64 bits |
| `DigitGeneration.FarPlacesTruncate` | include/rapidjson/internal/dtoa.h:103-106 | from nine places behind the point on no digit is lowered: the digits are Mp, truncated |
| `Prettifying.SplitsComposed` | include/rapidjson/internal/dtoa.h:150-214 | the reader takes the laid out text apart into exactly its parts |
| `Prettifying.WriteExponent` | include/rapidjson/internal/dtoa.h:126-148 | the decimal text of an exponent of up to three digits |
| `Prettifying.Prettify` | include/rapidjson/internal/dtoa.h:150-214 | the laid out text, in place, for any number of decimal places, inside 24 bytes |
| `Prettifying.TrimPlaces` | include/rapidjson/internal/dtoa.h:165-172 | trailing zeros are left out but for one digit |
| `Prettifying.PrettyDenotes` | include/rapidjson/internal/dtoa.h:150-214 | the text is one number of section 6 of RFC 8259, equal to digits * 10^k, or below it by less than one in the last place allowed where digits are cut |
| `Prettifying.PrettyIsExact` | include/rapidjson/writer.h:566-568 | with 324 places it is exact, and with a sign it fits 25 bytes |
| `Prettifying.PrettyReads` | include/rapidjson/internal/dtoa.h:150-214 | the text, with a sign or not, is read by ParseNumber as one double event that carries it |
| `Prettifying.ExponentWhen` | include/rapidjson/internal/dtoa.h:150-214 | an exponent is written exactly if the decimal is at least 10^21 or less than 10^-6 |
| `Jeaiii.Extract` | src/itoa_jeaiii.cpp:63-66 | the bits above 32 are the leading digits, the bits below approximate the rest |
| `Jeaiii.Reciprocal` | src/itoa_jeaiii.cpp:30-32 | a rounded-up reciprocal with a small enough error approximates every quotient up to a bound |
| `Jeaiii.StartApproximates` | src/itoa_jeaiii.cpp:30-32 | all eight multiply-and-shift cases: exact leading digits and no 64-bit overflow |
| `Jeaiii.WriteDigits` | src/itoa_jeaiii.cpp:68-77 | two to nine digits behind the first, zero-padded |
| `Jeaiii.WriteText` | src/itoa_jeaiii.cpp:83-86 | the case for the number of digits: the canonical text |
| `Jeaiii.U32toa` | src/itoa_jeaiii.cpp:88-92 | the canonical text of every 32-bit number and a NUL |
| `Jeaiii.I32toa` | src/itoa_jeaiii.cpp:94-99 | the signed text and a NUL |
| `Jeaiii.U64toa` | src/itoa_jeaiii.cpp:101-126 | the canonical text of every 64-bit number and a NUL |
| `Jeaiii.I64toa` | src/itoa_jeaiii.cpp:128-132 | the signed text and a NUL |
| `Pointers.IndexIsNumber` | include/rapidjson/pointer.h:960-977 | a canonical number below 2^32 is its own index |
| `Pointers.IndexExactly` | include/rapidjson/pointer.h:964-977 | the index is right if and only if the number fits, or the overflow test catches it, or it wraps to the invalid index |
| `Pointers.OverflowMissed` | include/rapidjson/pointer.h:969-971 | 10000000000 becomes the index 1410065408 |
| `Pointers.StringifyThenParse` | include/rapidjson/pointer.h:862-1031 | parsing a stringified pointer gives the same names, in both forms |
| `Pointers.PlainText` | include/rapidjson/pointer.h:1001-1031 | in plain form every list of names can be stringified |
| `Pointers.UriText` | include/rapidjson/pointer.h:1001-1031 | in URI fragment form exactly the lists of well-formed UTF-8 names |
| `Pointers.TokenCount` | include/rapidjson/pointer.h:871-877 | a successful parse fills all the tokens counted in advance |
| `PointerText.WholeReads` | include/rapidjson/pointer.h:862-981 | any pointer put together from plain, escaped and, in URI fragment form, percent-encoded characters in digits of either case is parsed as the names it stands for |
| `PointerText.AcceptsPointers` | include/rapidjson/pointer.h:862-981 | Parse accepts exactly these texts |
| `PointerText.WholeFails` | include/rapidjson/pointer.h:896-950 | behind any good tokens and characters, a wrong escape, wrong percent encoding and a character that must be percent-encoded give their error code at their offset |
| `PointerText.NoSolidusFirst` | include/rapidjson/pointer.h:883-894 | a text that does not begin with a solidus is rejected at its place |
| `PointerText.NeedWhen` | include/rapidjson/pointer.h:850-852 | exactly the unreserved characters need no percent encoding |
| `PointerCode.PercentDecodeStream.Take` | include/rapidjson/pointer.h:1051-1071 | the byte of a triplet, or 0 and the stream invalid |
| `PointerCode.Validate` | include/rapidjson/pointer.h:903-912 | a UTF-8 character in triplets is accepted exactly if all are valid and it is one; the bytes written stay in the buffer even if it is rejected |
| `PointerCode.ParseChar` | include/rapidjson/pointer.h:900-955 | one character of a name; the name cursor stays behind the source cursor |
| `PointerCode.ParseName` | include/rapidjson/pointer.h:896-959 | the name, and whether it is all digits |
| `Pointers.ParseIndex` | include/rapidjson/pointer.h:960-977 | the index of a name |
| `PointerCode.GenericPointer.Parse` | include/rapidjson/pointer.h:862-992 | tokens, or error code and offset, as the specification says; the name buffer is never overrun |
| `PointerCode.GenericPointer.Stringify` | include/rapidjson/pointer.h:1001-1031 | succeeds exactly if every character can be encoded, with the text of the specification |
| `PointerTree.Get` | include/rapidjson/pointer.h:539-567 | the value reached, or the first token that cannot be resolved |
| `PointerTree.CreateExists` | include/rapidjson/pointer.h:461-507 | Create reports an existing value if and only if Get resolves, and then changes nothing |
| `PointerTree.PlaceThenResolve` | include/rapidjson/pointer.h:461-507 | afterwards Get reaches the leaf if and only if no token pushed at the end of an array |
| `PointerTree.CreateThenGet` | include/rapidjson/pointer.h:461-567 | ... the value that was there or the Null just made |
| `PointerTree.SetThenGet` | include/rapidjson/pointer.h:670-677 | Get returns the value set if and only if no token pushed at the end of an array |
| `PointerTree.AppendMissed` | include/rapidjson/pointer.h:461-507 | the pointer /- set in an empty array is not found in the result |
| `PointerTree.PlaceKeepsOthers` | include/rapidjson/pointer.h:461-507 | every value beside the path that Create or Set takes keeps its place and content, unless a value on the common part changes its type |
| `PointerTree.MakesArray` | include/rapidjson/pointer.h:461-507 | from a value neither array nor object, a token of index n makes an array of n Nulls and then the leaf |
| `PointerTree.MakesObject` | include/rapidjson/pointer.h:461-507 | a token without an index makes an object of that one member, from anything but an object; an array stays one under the token - |
| `PointerTree.KeepsObject` | include/rapidjson/pointer.h:461-507 | an object stays one under any token and keeps its members, the one named getting the rest of the path |
| `PointerTree.AddsMember` | include/rapidjson/pointer.h:461-507 | a name that an object lacks is added behind its members |
| `PointerTree.KeepsArray` | include/rapidjson/pointer.h:461-507 | an array met by an index inside it keeps the other elements |
| `PointerTree.ExtendsArray` | include/rapidjson/pointer.h:461-507 | an index beyond the end fills the array with Nulls |
| `PointerTree.PushesArray` | include/rapidjson/pointer.h:461-507 | the token - puts a new element behind the array |
| `PointerTree.UnresolvedWhere` | include/rapidjson/pointer.h:539-567 | the token Get reports is the first that names no member, no element or nothing that has any |
| `Pool.MallocKeeps` | include/rapidjson/allocators.h:189-201 | a new block inside its chunk at a multiple of 8 from the header, disjoint from all others; nothing else changes |
| `Pool.MallocFails` | include/rapidjson/allocators.h:189-201 | Malloc returns NULL if and only if the size is 0, or the head chunk lacks the room and the base allocator gives nothing |
| `Pool.MallocAddsChunk` | include/rapidjson/allocators.h:194-200 | when the head chunk lacks the room, a chunk of the larger of the chunk capacity and the size is added where the base allocator says, the block is its first, and the total capacity grows by that |
| `Pool.MallocUsesHead` | include/rapidjson/allocators.h:194-200 | otherwise the block is the next in the head chunk and the capacity stays |
| `Pool.ReallocKeeps` | include/rapidjson/allocators.h:204-235 | in place or moved, the block holds the old bytes and is large enough, and no block's bytes change |
| `Pool.ReallocWhere` | include/rapidjson/allocators.h:204-235 | whether a block stays where it is or moves, and where to |
| `Pool.ReallocFails` | include/rapidjson/allocators.h:204-235 | Realloc returns NULL if and only if the new size is 0, or the block can neither stay nor move |
| `Pool.LastBlock` | include/rapidjson/allocators.h:218-224 | a block that seems to end with the used part of the head chunk does |
| `Pool.ClearKeeps` | include/rapidjson/allocators.h:158-166 | the chunks left are the user's buffer with size 0, or none; no block is live |
| `Pool.RunKeeps` | include/rapidjson/allocators.h:158-262 | over every run live blocks are inside their chunks at multiples of 8 from the header and pairwise disjoint, and the size never exceeds the capacity |
| `Pool.RunAligned` | include/rapidjson/allocators.h:158-262 | over every run every block is 8-aligned, if the user's buffer is or there is none |
| `Pool.FirstBlock` | include/rapidjson/allocators.h:138-147 | the first block of the user's buffer is 8-aligned if and only if the buffer is |
| `Pool.RunPreserves` | include/rapidjson/allocators.h:189-235 | over every run without Clear every block stays where it is, does not shrink and keeps its bytes |
| `Allocators.MemoryPoolAllocator.Malloc` | include/rapidjson/allocators.h:189-201 | as the specification, keeping the invariant |
| `Allocators.MemoryPoolAllocator.Realloc` | include/rapidjson/allocators.h:204-235 | as the specification, keeping the invariant |
| `Allocators.MemoryPoolAllocator.Clear` | include/rapidjson/allocators.h:158-166 | as the specification, keeping the invariant |
| `Allocators.MemoryPoolAllocator.Size` | include/rapidjson/allocators.h:181-186 | the sum over the chunks, within the capacity |
| `Allocators.MemoryPoolAllocator.Capacity` | include/rapidjson/allocators.h:171-176 | the sum over the chunks |
| `Generator.EnumRoundTrip` | src/CreateDOM.cpp:1658-1747 | with distinct texts the emitted enum tables undo each other |
| `Generated.ItemBack` | src/CreateDOM.cpp:811-1236 | the statement emitted to read a member restores what the statement emitted to write it wrote, if and only if no array of strings is inside |
| `Generated.ObjectBack` | src/CreateDOM.cpp:811-1236 | deserializeFrom on any JSON object that holds what serializeTo wrote, base classes included |
| `Generated.SerializeThenDeserialize` | src/CreateDOM.cpp:1396-1623 | for every good schema and object the emitted reader applied to the emitted writer's output rebuilds the object, and returns false exactly if an array of strings is in it |
| `Generated.TextsFail` | src/CreateDOM.cpp:975-1018 | a class with one array of strings and an object of it that the emitted reader rejects |
| `Generated.ObjectPrintable` | src/CreateDOM.cpp:1396-1623 | what the emitted writer makes can be printed |
| `Generated.TextRoundTrip` | src/CreateDOM.cpp:1610-1620 | through the printed text and the parser the object comes back; with validation, if and only if all its strings are UTF-8 |
| `Generated.MissingMember` | src/CreateDOM.cpp:811-1236 | deserializeFrom fails when a required member that is no enum is missing, be it of the class or of a base |
| `Generated.MissingKept` | src/CreateDOM.cpp:811-1236 | a data member whose JSON member is missing keeps what it held |
| `Generated.NothingRead` | src/CreateDOM.cpp:811-1236 | from an object that holds none of its members a class is read exactly if it demands none, and then nothing changes |
| `Csv.ScansRows` | src/CreateDOM.cpp:4291-4352 | rows of at most 128 quoted fields are handed on in order, up to and with the first that says EOF |
| `Csv.ScansRecords` | src/CreateDOM.cpp:4291-4352 | rows of quoted and bare fields, with anything behind a quote, empty lines, CR or LF, are handed on in order up to the first that says EOF; what follows the last newline is not |
| `Csv.CellReads` | src/CreateDOM.cpp:4308-4351 | one field, bare or in quotes, up to its delimiter |
| `Csv.TakeRow` | src/CreateDOM.cpp:4308-4351 | the fields of a row, cut out of the buffer in place |
| `Csv.TakeQuoted` | src/CreateDOM.cpp:4310-4332 | a quoted field and the position of the delimiter |
| `ObjectModel.RunDeclares` | src/CreateDOM.cpp:4489-4724 | from any state, after any rows: each object gets as children the later objects that name it and the member rows that follow it |
| `ObjectModel.ModelDeclares` | src/CreateDOM.cpp:4539-4724 | stored objects and the current one are exactly the object rows in order, member rows before the first object row going to that |
| `ObjectModel.PlansAreModelled` | src/CreateDOM.cpp:4489-4724 | objects with nonempty names that are no keyword, each with member rows, settings and empty rows strewn in: afterwards the objects are exactly these, in order, with kind, base, member rows and the later heirs as children |
| `ObjectModel.SettingsAreKeywords` | src/CreateDOM.cpp:4500-4538 | the six settings are recognised in any case |
| `ObjectModel.EofIsKeyword` | src/CreateDOM.cpp:4495-4499 | so is EOF |
| `ObjectModel.Importer.ProcessArgs` | src/CreateDOM.cpp:4489-4724 | one row, as the specification |
| `ObjectModel.Importer.AddToParents` | src/CreateDOM.cpp:4556-4564 | every stored object of the name gets the child |
| `ObjectModel.Importer.ParseCSV` | src/CreateDOM.cpp:4291-4366 | after the file the objects are those its rows declare |

## Left out

- Document.GenericDocument.ParseStream: a text of 2^32 bytes or more is covered only where its events are known to build one root, because element counts are 32-bit and wrap.
- Csv.TakeRow: fields after the 128th are dropped; the write of their address one past the argument table is not modelled.
- Pool.RunKeeps: sizes whose sums exceed 64 bits are not modelled; addresses and sizes are unbounded integers.
- PointerTree.PlaceThenResolve: Create is modelled on values, so update in place and references into the tree are not captured.
- Generated.SerializeThenDeserialize: covers u64, u32, i64, bool and string members, enums, classes, arrays of integers and classes, and arrays of strings (which fail); maps, arrays of enums and of bools, floats and other integer types are not modelled, because their emitted code does not compile or does not undo itself.
- ObjectModel.Importer.ParseCSV: importComplete, which derives reflection and multiple-inheritance marks from the finished objects, is not modelled.
- Reader.Reader.ParseNumber: the value of a double is left as its literal, and whether it exceeds the largest double is a parameter.
- Doubles: a double is carried as its literal; FastPath, StrtodDiyFp, the cached powers and the rest of the floating-point path need IEEE rounding.
- Parse flags for in-situ parsing, numbers as strings, NaN and infinity, and handlers that stop the parse.
- Stream classes, byte-order marks, UTF-16 and UTF-32, and the SSE and NEON variants.
- Short strings, pointer packing and the equality operator of GenericValue; member removal.
- schema.h, the LevelDB sources and StringHelper.
- Settings rows of the CSV file beyond being recognised, the decoding of member rows into variables, and the TypeScript, Python, Protobuf and class emission of CreateDOM.
