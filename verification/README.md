# Verification of the Ledger app

This project models the arithmetic, the codecs and the protocols of the repository in Dafny and proves what they are
for. `dafny verify dfyconfig.toml` checks all of it.

- **Numbers** (`src/uint256.c`, `src/base58.c`). `Wide128` and `Wide256` are the two-word and four-word numbers with
  their in-place operations; `Multiply128`, `Multiply256`, `WideDivide` and `WideRadix` are multiplication,
  shift-subtract division and printing in a base; `Base58` is the long division over bytes. `Bits`, `WordShift`,
  `Schoolbook`, `Division` and `Radix` hold the arithmetic behind them.
- **nanopb** (`sdk/ledger-nanopb`). `PbFormat` and `PbParse` say what a message struct is encoded to and what bytes
  are decoded to. The C functions are methods on mutable streams, proved against them: `PbStream`, `PbPut`,
  `PbEncode` for the encoder, `PbIn`, `PbDecode`, `PbBitmap`, `PbDecodeMessage` for the decoder, `PbIterator` for
  the cyclic field iterator. `PbMessageTrip`, `PbStreamTrip`, `PbUnknown` and `PbRequired` prove the round trip, the
  invisibility of unknown fields and the check of required fields; `PbDefaults` and `PbAbsent` what absent fields
  hold, `PbPresence` what is left out, `PbFits` when a message can be encoded, `PbStored` that what was decoded can
  be encoded again, `PbMerge` what repeated fields and joined encodings mean; `PbExamples` has the readers on any
  input and byte strings of the Protocol Buffers Encoding specification. `PbMaxSize`, `PbBound`, `PbBoundProof`,
  `PbBoundExact` and `PbAttained` relate the sizes computed by the generator to the encoder, from both sides.
- **Signing** (`src/sign_message.c`, `src/main.c`, `src/io.c`, `nodejs-example/lib/ledger.js`). `Signing` says what
  the device does with one APDU or button event, `SigningRun` proves properties of whole runs, `SigningConfirm` those of
  signing with the user's consent, `SigningDevice` is the device with its mutable context, `SigningHost` the chunking loop of the host against it.
- **Loader** (`hexLoader.py`). `SecureChannel` has the two ends of the channel, `SecureChain` the chains that its
  messages form; `FlashLoader` plans the chunks and replays them, `FlashDevice` is a device that stores on a flush.
- **Framing and files** (`ledgerWrapper.py`, `hexParser.py`). `Framing` is the fragmenter and its inverse;
  `IntelHex`, `IntelHexTrip` and `IntelHexFile` are the printer and the parser of Intel HEX files, `IntelHexBytes` says
  what any file stands for.
- **printf** (`src/printf.c`). `Printf` says which text a format stands for, `PrintfRun` proves the functions that
  write it into a limited buffer, `PrintfField` reads integer fields back, `PrintfPrecision` has the precision and
  '#', `PrintfText` everything else in a format.

Strings are sequences of the characters before the NUL. A struct in memory is a sequence of typed members; the
members of a union share one. Hash, signature, cipher, base-58 text of a signature and public keys are functions
given from outside; of the cipher only that it permutes its blocks is used. `PbFormat.Encoded`, `Option` and similar
types stand for success or failure, exceptions and error returns included. Where one C function is long, its parts
are methods of their own.

## Findings

Properties that the code does not have, each with an input that shows it and the exact condition under which the
property holds.

- *256-bit products.* `mul256` adds the carry of the 2^64 column at weight 2^192 instead of 2^128
  (src/uint256.c:410). The square of 2^128 - 1 comes out wrong (`Multiply256.CarryExample`); the result is right
  exactly when that column does not carry (`Multiply256.ExactWithoutCarry`).
- *In-place right shift.* `shiftr128` with distance 64 clears the upper word before it copies it down
  (src/uint256.c:119-121): in place the result is zero. Every other call divides (`Wide128.Shiftr128`).
- *Announced message sizes.* A member may hold longer numbers than the generator counts for its type
  (sdk/ledger-nanopb/generator/nanopb_generator.py:644-707), and `pb_decode` stores them. A uint32 with int_size 64
  announces six bytes with its key and writes eleven (`PbBoundExact.WidenedExample`); an enum of 0 and 1 in four
  bytes of memory takes 300 from the bytes 08 AC 02, announces two bytes and writes three
  (`PbBoundExact.UndeclaredEnum`); a bool takes -1, announces two and writes eleven (`PbBoundExact.NegativeBool`).
  One number stays within the announced size exactly when it is modest: below 128 in a bool, as short as some
  declared value in an enum, below 2^35 in a uint32, from -2^34 to 2^34 - 1 in a sint32
  (`PbBoundProof.ItemSizeExactly`). Every message of modest numbers is bounded (`PbBoundProof.EncodedSizeIsBound`).
  By types alone: `PbBoundExact.TypeSizeExactly` for a type, `PbBoundExact.FittingBounded` for a message,
  `PbBoundExact.OneFieldExactly` with both directions for a message of one field.
- *Unterminated strings.* The encoder writes a char array without NUL as a string of full length, which the decoder
  refuses for a member of that size (`PbMessageTrip.UnterminatedExample`). Decoding what was encoded succeeds
  exactly when every encoded string has its NUL inside its array (`PbMessageTrip.RoundTrip`).
- *Field number zero.* In a message type without fields the terminator of the descriptor matches a key with field
  number zero and a wire type other than the end mark, so such a record fails instead of being skipped
  (`PbUnknown.KeyZeroOfEmptyType`); every other unknown record is invisible (`PbUnknown.MessageUnknownInvisible`).
- *Overlong keys and lengths.* The 32-bit varint reader looks at the upper bits of the fifth byte only where that byte
  is the last (sdk/ledger-nanopb/pb_decode.c:231-235), so 80 80 80 80 F0 00, which is 7 * 2^32, is read as 0
  (`PbExamples.OverflowMissed`). What it accepts, and as what: `PbExamples.Varint32Exactly`.
- *Empty submessages.* A proto3 submessage is left out exactly when it writes no byte and no union in it has a choice
  (`PbPresence.LeftOutExactly`): with a number of no member as choice it is written as an empty submessage
  (`PbPresence.StrayChoice`). A struct of zeros has size 0 exactly without required fields and without proto3 fields
  of fixed-length bytes (`PbPresence.ZerosExactly`).
- *Raw signing.* After signing, `handle_sign_message` reads the path again against the length left of the message
  (src/sign_message.c:270-271). Without MORE, a message that is shorter than the path bytes is refused: one byte
  under a path of one element, say (`SigningRun.ShortRawRefused`). It is accepted exactly when it is empty or not
  shorter than that (`SigningRun.RawExactly`). Of a collected message of 256 bytes or more only the first length
  modulo 256 bytes are signed in this mode (`SigningRun.RawSignsPrefix`).
- *P2.* The mask of `io_check_p1p2` keeps one bit only, so every P2 up to MORE is accepted, not just the named
  formats (`SigningRun.P1P2Exactly`).
- *APDU limit.* A last chunk is not rounded down, so its wrapped form may exceed the limit given to `load`: 222
  bytes under a limit of 240 become 254 (`FlashLoader.LastChunkOverLimit`). It stays within exactly when its last
  cipher block does (`FlashLoader.WrappedChunk`).
- *Short packets.* A response of fewer than twelve bytes is never complete, so for packet sizes below twelve a short
  command does not come back, such as the empty one in seven bytes (`Framing.ShortCommandLost`). The round trip
  holds exactly for twelve bytes or more (`Framing.RoundTrip`).
- *Intel HEX.* An area at or above 0xFFFF0000 is written without its page (`IntelHexTrip.LastPageLost`), and an area
  with a record behind its page comes back in pieces at wrong addresses; unsorted or empty areas do not come back as
  they were. All other lists of areas do (`IntelHexTrip.RoundTripExactly`).
- *Zero padding.* Zeros beyond the 32 characters of the conversion buffer are not written, and the sign is lost with
  them: a width of 33 prints -5 as 32 characters without a sign (`PrintfField.SignLost`). The width is met exactly
  up to 32 (`PrintfField.WidthExactly`), the number read back exactly where no sign is lost
  (`PrintfField.ReadsBackExactly`).
- *Lost digits.* With '#' and without precision, digits are dropped for the prefix where their number is the width:
  "%#4x" of 0x1234 gives 0x34 (`PrintfPrecision.DigitsLost`). Prefix and number appear exactly where it is not
  (`PrintfPrecision.HashExactly`).
- *Precision.* A precision is ignored with '-' and cut at 32 characters (`PrintfPrecision.PrecisionLost`); as many
  digits as it asks for appear exactly as `PrintfPrecision.PrecisionExactly` says.

## Model

| member | source | states |
|---|---|---|
| Wide128.Add128 | src/uint256.c:235-240 | The target receives the sum modulo 2^128, in place on either operand too. |
| Wide128.Minus128 | src/uint256.c:255-260 | The target receives the difference modulo 2^128, in place too. |
| Wide256.Add256 | src/uint256.c:242-253 | The sum modulo 2^256; the operands may be the target. |
| Wide256.Minus256 | src/uint256.c:262-273 | The difference modulo 2^256; the operands may be the target. |
| Wide128.Or128 | src/uint256.c:275-278 | The two word operations give the bitwise OR of the 128-bit numbers. |
| Wide256.Or256 | src/uint256.c:280-283 | The four word operations give the bitwise OR of the 256-bit numbers. |
| Wide128.Shiftl128 | src/uint256.c:71-89 | Left shift modulo 2^128 for every distance, zero, 64 and beyond 127 included, in place too. |
| Wide256.Shiftl256 | src/uint256.c:91-114 | Left shift modulo 2^256 for every distance, in place too. |
| Wide128.Shiftr128 | src/uint256.c:116-136 | Division by the power of two for every distance, except that an in-place shift by exactly 64 gives zero. |
| Wide256.Shiftr256 | src/uint256.c:138-161 | Division by the power of two for every distance, in place too. |
| Wide128.Bits128 | src/uint256.c:163-180 | The result is the bit length of the value. |
| Wide256.Bits256 | src/uint256.c:182-201 | The result is the bit length of the value. |
| Wide128.Gt128 | src/uint256.c:213-218 | True exactly when the first value is greater. |
| Wide256.Gt256 | src/uint256.c:220-225 | True exactly when the first value is greater. |
| Division.Turn | src/uint256.c:433-449 | One turn of shift-subtract division keeps the invariant dividend = divisor * quotient so far + rest with rest < 2 * aligned divisor; the OR of the quotient bit is an addition. |
| Division.Align | src/uint256.c:431-437 | Aligning the highest bits of divisor and dividend loses no bit of the divisor and leaves the dividend below twice the aligned divisor. |
| Division.Finish | src/uint256.c:440-449 | The invariant with a rest below the divisor determines quotient and remainder. |
| WideDivide.Reduce128 | src/uint256.c:440-449 | From the aligned start the loop terminates with quotient and remainder. |
| WideDivide.Divmod128 | src/uint256.c:421-451 | For every dividend and every divisor other than zero the results are quotient and remainder, also where the quotient is written over the dividend. |
| WideDivide.Divmod256 | src/uint256.c:453-484 | The same for 256 bits. |
| Multiply128.ColumnsAreProduct | src/uint256.c:299-321 | The four column sums of the sixteen digit products, put at their places, are the product modulo 2^128. |
| Multiply128.Mul128 | src/uint256.c:285-325 | The target receives the product modulo 2^128 for all operands; it may be one of them. |
| Multiply256.ColumnsAreProduct64 | src/uint256.c:341-399 | With every column at its place the sums would be the product modulo 2^256. |
| Multiply256.Mul256 | src/uint256.c:327-419 | What is computed for all operands: the column sums with the carry of the 2^64 column at weight 2^192. |
| Multiply256.ExactWithoutCarry | src/uint256.c:400-418 | The result is the product modulo 2^256 exactly when the 2^64 column does not carry. |
| Multiply256.CarryExample | src/uint256.c:407-412 | The square of 2^128 - 1 comes out wrong. |
| Multiply256.CarryIsSmall | src/uint256.c:407-412 | That carry is at most two. |
| Radix.NumeralUnique | src/uint256.c:496-519 | A digit sequence without leading zero is the numeral of its value: the printed form is canonical. |
| Radix.DigitsReadBack | src/uint256.c:496-519 | Reading the digits back gives the number. |
| WideRadix.Full | src/uint256.c:505-514 | With something left to divide the numeral is longer than the digits written; with nothing left the digits are the numeral, reversed. |
| WideRadix.ReverseString | src/uint256.c:486-494 | The first characters are reversed in place and the others untouched. |
| WideRadix.Tostring128 | src/uint256.c:496-519 | True exactly for a base of 2 to 16 and a numeral of at most `outLength` digits; then the buffer holds the numeral, most significant digit first, and NUL. |
| WideRadix.Tostring256 | src/uint256.c:521-545 | The same for 256 bits. |
| HexDigits.SmallLetters | src/uint256.c:24 | The sixteen digits in which the wide numbers are printed are 0 to 9 and the small letters a to f. |
| Base58.DividePass | src/base58.c:37-47 | A pass over the bytes divides the number in place and returns the remainder. |
| Base58.PassRoom | src/base58.c:34-53 | Every byte position takes at most two passes, so the index into the output buffer stays positive. |
| Base58.Convert | src/base58.c:34-53 | The passes write digits of the number from the end of the buffer and never reach the room of the leading zeros. |
| Base58.EncodeBase58 | src/base58.c:13-75 | For at most 64 bytes: one first letter for every leading zero byte, then the minimal numeral in base 58; nothing for longer inputs. |
| Base58.RoundTrip | src/base58.c:13-75 | Decoding the text gives the bytes back, so the encoding is injective. |
| Base58.AlphabetText | src/base58.c:6-11 | The letters are those of the usual alphabet, in its order, as a text. |
| Base58.TwoTexts | src/base58.c:13-75 | The byte 61 becomes "2g" and the byte 00 becomes "1". |
| Wire.VarintRoundTrip | sdk/ledger-nanopb/pb_encode.c:577-597 | A 64-bit varint decodes to its value and leaves what follows it. |
| Wire.Varint32RoundTrip | sdk/ledger-nanopb/pb_decode.c:182-242 | The reader of keys and lengths accepts every canonical varint below 2^32. |
| Wire.ZigZagRoundTrip | sdk/ledger-nanopb/pb_encode.c:599-608 | The numbers 0, -1, 1, -2, ... are encoded as 0, 1, 2, 3, ..., and every signed 64-bit number decodes from its word. |
| Wire.VarintLength | sdk/ledger-nanopb/pb_encode.c:577-597 | A varint has at most k bytes exactly when its value is below 2^(7k). |
| Wire.FixedRoundTrip | sdk/ledger-nanopb/pb_encode.c:610-636 | Little-endian bytes read back as their number. |
| PbTrip.KeyRoundTrip | sdk/ledger-nanopb/pb_decode.c:293-314 | A key reads back as its field number and wire type. |
| PbTrip.FindExact | sdk/ledger-nanopb/pb_common.c:78-95 | From any position of the iterator the lookup finds the field with the tag exactly when there is one. |
| PbStream.OStream.Write | sdk/ledger-nanopb/pb_encode.c:101-119 | The bytes go to the position of the stream, nothing else changes, and the call fails exactly when they do not fit; a sizing stream counts them. |
| PbStream.Then | sdk/ledger-nanopb/pb_encode.c:101-119 | Two encoders one after the other: exactly the two encodings, or failure, on sizing and buffer streams alike. |
| PbPut.EncodeVarint | sdk/ledger-nanopb/pb_encode.c:577-597 | Exactly the bytes of the varint are put. |
| PbPut.EncodeSvarint | sdk/ledger-nanopb/pb_encode.c:599-608 | Exactly the varint of the zigzag word is put. |
| PbPut.EncodeFixed32 | sdk/ledger-nanopb/pb_encode.c:610-619 | Four bytes, least significant first. |
| PbPut.EncodeFixed64 | sdk/ledger-nanopb/pb_encode.c:622-635 | Eight bytes, least significant first. |
| PbPut.EncodeString | sdk/ledger-nanopb/pb_encode.c:677-683 | A length and then exactly the bytes are put. |
| PbEncode.CheckDefault | sdk/ledger-nanopb/pb_encode.c:215-306 | True exactly for a value that a proto3 message leaves out, submessages included. |
| PbEncode.EncodeSubmessage | sdk/ledger-nanopb/pb_encode.c:685-733 | Length and content are put; the second pass writes exactly what the first counted, so the message size never changes between them. |
| PbEncode.WriteEmbedded | sdk/ledger-nanopb/pb_encode.c:714-735 | The second pass through a stream limited to the counted size succeeds and fills that size exactly. |
| PbEncode.EncodeArray | sdk/ledger-nanopb/pb_encode.c:126-211 | A packed array with its key and length, or one record an entry; an array over its maximum fails. |
| PbEncode.EncodeBasicField | sdk/ledger-nanopb/pb_encode.c:310-395 | Presence by rule - required, optional with or without flag, repeated, oneof - and the encoding of what is present. |
| PbEncode.Encode | sdk/ledger-nanopb/pb_encode.c:497-519 | pb_encode puts exactly the encoding of the message and fails exactly when there is none or it does not fit. Sizing and writing streams are described by one contract, so the counted and the written sizes agree at every depth. |
| PbEncode.GetEncodedSize | sdk/ledger-nanopb/pb_encode.c:536-545 | The size is the length of the encoding, and the call fails exactly where encoding fails. |
| PbIn.DecodeVarint | sdk/ledger-nanopb/pb_decode.c:250-270 | Reads a varint of any form, overlong ones included, with bits above 64 shifted out; fails after ten bytes or at the end of the input. |
| PbIn.DecodeVarint32 | sdk/ledger-nanopb/pb_decode.c:182-242 | Reads a 32-bit varint; above bit 32 only zero bits or the sign extension of a negative number are accepted. |
| PbIn.DecodeTag | sdk/ledger-nanopb/pb_decode.c:293-314 | Field number and wire type, or the end mark, or failure. |
| PbIn.SkipField | sdk/ledger-nanopb/pb_decode.c:316-326 | The field is skipped exactly where its wire type is known and its bytes are there. |
| PbIn.MakeSubstream | sdk/ledger-nanopb/pb_decode.c:367-380 | The substream reads exactly the declared bytes, and the limit of the parent no longer includes them. |
| PbIn.CloseSubstream | sdk/ledger-nanopb/pb_decode.c:382-395 | The parent moves behind the substream, whatever the reader left of it. |
| PbDecode.MessageSetToDefaults | sdk/ledger-nanopb/pb_decode.c:889-900 | All fields have their defaults, those of submessages included; array items and union storage stay. |
| PbDecode.DecVarint | sdk/ledger-nanopb/pb_decode.c:1294-1329 | The value is stored exactly when it fits the member; negative numbers in fields of 32 bits or less come from the low 32 bits. |
| PbDecode.ClampIff | sdk/ledger-nanopb/pb_decode.c:1315-1328 | The cast to the member keeps the number exactly when it is in range. |
| PbDecode.DecBytes | sdk/ledger-nanopb/pb_decode.c:1396-1431 | The bytes announced by the length are stored exactly when the member has room for them. |
| PbDecode.DecString | sdk/ledger-nanopb/pb_decode.c:1433-1466 | The string up to its first NUL is stored exactly when the announced length leaves room for the terminator. |
| PbDecodeMessage.DecodePackedArray | sdk/ledger-nanopb/pb_decode.c:418-455 | Items fill the free entries; a malformed item or a full array fails. |
| PbDecodeMessage.DecodeStaticField | sdk/ledger-nanopb/pb_decode.c:401-475 | The member after one record, by the rule and the wire type of its field. |
| PbDecodeMessage.DecSubmessage | sdk/ledger-nanopb/pb_decode.c:1468-1490 | An array entry is reset first; the parent is advanced by the declared length. |
| PbDecodeMessage.DecodeNoInit | sdk/ledger-nanopb/pb_decode.c:906-1054 | The loop with iterator, bitmap and required-field check does what the recursive definition of decoding says, on every input. |
| PbDecodeMessage.Decode | sdk/ledger-nanopb/pb_decode.c:1056-1068 | Defaults first, then decoding; succeeds on exactly the inputs the definition accepts, with that message and those bytes left. |
| PbIterator.OffsetsAreAddresses | sdk/ledger-nanopb/pb_common.c:20-76 | The sums of incremental offsets are the addresses of the members, for descriptors laid out by the generator. |
| PbIterator.FieldIter.Next | sdk/ledger-nanopb/pb_common.c:20-76 | After every step, wrapping around included, data offset and required index are what a computation from the first field gives. |
| PbIterator.FieldIter.Find | sdk/ledger-nanopb/pb_common.c:78-95 | One lap at most from any position: the loop finds what the cyclic lookup by tag finds, and the state is again the one computed from scratch. |
| PbBitmap.FullWord | sdk/ledger-nanopb/pb_decode.c:1032-1050 | A word of the bitmap equals its mask exactly when every index below the mask was seen. |
| PbBitmap.Bitmap.Complete | sdk/ledger-nanopb/pb_decode.c:1032-1050 | The check by words succeeds exactly when every counted index was marked. |
| PbDecodeMessage.CountRequired | sdk/ledger-nanopb/pb_decode.c:1016-1027 | Walking the iterator to its end counts the required fields. |
| PbRequired.SeenExactly | sdk/ledger-nanopb/pb_decode.c:993-998 | The bit of a required field is set exactly when a record with its tag occurred. |
| PbRequired.AcceptedIffComplete | sdk/ledger-nanopb/pb_decode.c:906-1051 | An input that the loop gets through is accepted exactly when each of the first 64 required fields occurs in it. |
| PbRoundTrip.DefaultsTwice | sdk/ledger-nanopb/pb_decode.c:889-900 | Resetting a message twice is resetting it once. |
| PbRoundTrip.LeftOutIsDefault | sdk/ledger-nanopb/pb_encode.c:215-306 | A value that a proto3 message leaves out is the one the decoder starts with. |
| PbMessageTrip.PackedTrip | sdk/ledger-nanopb/pb_decode.c:418-455 | Decoding an encoded packed array stores its items in order. |
| PbMessageTrip.RecordsTrip | sdk/ledger-nanopb/pb_decode.c:456-465 | Decoding an unpacked array, entry by entry, stores its items in order. |
| PbMessageTrip.SubmessageTrip | sdk/ledger-nanopb/pb_decode.c:1468-1490 | An embedded message comes back, whatever the storage held before. |
| PbMessageTrip.LoopTrip | sdk/ledger-nanopb/pb_decode.c:906-1051 | From between any two fields the decoding loop follows the fields in the order in which they were encoded. |
| PbMessageTrip.RoundTrip | sdk/ledger-nanopb/pb_decode.c:906-1054 | For every static descriptor tree and every message that can be encoded: decoding succeeds exactly when the encoded strings are terminated, consumes every byte and yields the same message. |
| PbStreamTrip.PutThenGet | sdk/ledger-nanopb/pb_decode.c:1056-1068 | The round trip on the streams: bytes put by a successful encoder and then read give the message back and leave nothing. |
| PbStreamTrip.EncodeThenDecode | sdk/ledger-nanopb/pb_encode.c:497-519 | A client that encodes into a buffer and decodes from the bytes written: encoding succeeds exactly when the message fits, decoding exactly when in addition the strings are terminated, with the same message. |
| PbMessageTrip.UnterminatedExample | sdk/ledger-nanopb/pb_encode.c:834-858 | One letter in a string member of one byte is encoded, and the decoder refuses what was encoded. |
| PbDefaults.ResetIsInitial | sdk/ledger-nanopb/pb_decode.c:817-903 | After resetting, every required or optional member holds the declared default, and where none is declared zero, nothing or zero bytes, in submessages at every depth; has-flags, counts and choices are 0; entries of arrays and the storage of unions are as they were. |
| PbDefaults.InitialIsReset | sdk/ledger-nanopb/pb_decode.c:817-903 | A struct that holds all defaults is not changed by resetting. |
| PbDefaults.DefaultExactly | sdk/ledger-nanopb/pb_decode.c:859-863 | Resetting leaves a value alone exactly when it is the declared default. |
| PbAbsent.LoopKeeps | sdk/ledger-nanopb/pb_decode.c:906-1053 | A member none of whose fields comes up in the input keeps what it held. |
| PbAbsent.DecodeAbsent | sdk/ledger-nanopb/pb_decode.c:1056-1068 | Whatever the struct held before, a field that does not occur in the input has no flag, no entry, no choice and its declared default afterwards. |
| PbAbsent.EmptyInput | sdk/ledger-nanopb/pb_decode.c:1056-1068 | The empty input is accepted by every type without required fields and gives all defaults. |
| PbAbsent.SubmessageAbsent | sdk/ledger-nanopb/pb_decode.c:1468-1495 | The same inside submessages: entries of arrays and submessages that hold their defaults keep the defaults of all fields that do not occur in them. |
| PbAbsent.ZeroEnds | sdk/ledger-nanopb/pb_decode.c:293-314 | A zero byte in place of a key ends the message, and the bytes behind it are left. |
| PbPresence.LeftOutExactly | sdk/ledger-nanopb/pb_encode.c:310-345 | A proto3 field contributes no byte exactly when it holds the number 0, no characters, no bytes, or a submessage that itself writes no byte and has no choice set in a union. |
| PbPresence.ZerosExactly | sdk/ledger-nanopb/pb_encode.c:215-306 | A struct of zeros has encoded size 0 exactly for message types without required fields and without proto3 fields of fixed-length bytes, at any depth of proto3 submessages. |
| PbPresence.StrayChoice | sdk/ledger-nanopb/pb_encode.c:254-305 | A proto3 submessage that writes no byte, but has a number of no member as the choice of its union, is not left out: it is written as an empty submessage. |
| PbFits.EncodesExactly | sdk/ledger-nanopb/pb_encode.c:497-519 | pb_encode succeeds on a stream without limit exactly when every count is within its array and the bytes to be written fit their members, at any depth. |
| PbMerge.Merges | sdk/ledger-nanopb/pb_decode.c:906-1053 | Whole records with any bytes behind them: the bytes are decoded into the struct that the records have left, and the whole is accepted exactly when they can be read and each of the first 64 required fields occurs before or in them. |
| PbMerge.SubmessageMerges | sdk/ledger-nanopb/pb_decode.c:1468-1495 | Two records of a submessage outside arrays and unions, each of which can be read by itself, are read as one record with their contents put together. |
| PbMerge.LastWins | sdk/ledger-nanopb/pb_decode.c:401-480 | Any other single value, and any member of a union, is replaced by its last record, whatever was stored and whatever wire type the key has. |
| PbMerge.SetsCompanion | sdk/ledger-nanopb/pb_decode.c:401-480 | A record sets the flag of an optional field that has one, and the choice of a union to its tag, and no other companion of a single value. |
| PbMerge.Appends | sdk/ledger-nanopb/pb_decode.c:416-461 | A record of an array goes behind the entries that are there and keeps them. |
| PbMerge.FullRefuses | sdk/ledger-nanopb/pb_decode.c:416-461 | A full array takes no record but a packed one without content. |
| PbMerge.PackedJoins | sdk/ledger-nanopb/pb_decode.c:416-447 | A packed array may be split over several records. |
| PbStored.DecodedComesBack | sdk/ledger-nanopb/pb_decode.c:1056-1068 | Whatever pb_decode accepts has its counts, bytes and strings within their members, so it can be encoded, and decoding that gives the same message again, into any struct. |
| PbExamples.VarintExactly | sdk/ledger-nanopb/pb_decode.c:250-271 | Any varint whose last byte is among the first ten is read as its groups of seven bits modulo 2^64, canonical or not; with the last byte later it fails. |
| PbExamples.NoVarint | sdk/ledger-nanopb/pb_decode.c:250-271 | Without a last byte there is no varint. |
| PbExamples.Varint32Exactly | sdk/ledger-nanopb/pb_decode.c:182-242 | The reader of keys and lengths on any input: the number is that of the first five groups modulo 2^32, and it is refused exactly when the fifth byte is the last and has bits above bit 32, or a later byte has bits that are not the sign extension. |
| PbExamples.OverflowMissed | sdk/ledger-nanopb/pb_decode.c:213-233 | The six bytes of the number 7 * 2^32 are read as 0 by that reader. |
| PbExamples.KeyZero | sdk/ledger-nanopb/pb_decode.c:293-314 | Only a key of zero ends a message; the field number zero with any other wire type is an ordinary key. |
| PbExamples.SkipVarintExactly | sdk/ledger-nanopb/pb_decode.c:273-282 | Skipping takes a varint of any length, up to its first byte without the top bit. |
| PbExamples.SkipsEncoded | sdk/ledger-nanopb/pb_decode.c:316-329 | Skipping a value of the wire type in which it was encoded leaves exactly what follows it. |
| PbExamples.SkipFails | sdk/ledger-nanopb/pb_decode.c:316-329 | Groups and unassigned wire types cannot be skipped. |
| PbExamples.DelimitedExactly | sdk/ledger-nanopb/pb_decode.c:1396-1466 | Bytes are stored as they come, and a string up to its first NUL, exactly when there is room for one byte more; bytes of a fixed length exactly when they are that long, or none, which stands for zeros. |
| PbExamples.SignedExactly | sdk/ledger-nanopb/pb_decode.c:1294-1329 | A member takes from a varint the signed number that agrees with it modulo 2^32, or 2^64 in eight bytes, exactly when the member can hold it. |
| PbExamples.UnsignedExactly | sdk/ledger-nanopb/pb_decode.c:1331-1377 | An unsigned member takes the whole varint exactly when it can hold it; a zigzag member the number of that word exactly when it can hold that. |
| PbExamples.FixedExactly | sdk/ledger-nanopb/pb_decode.c:1259-1291 | A fixed-width member takes the number of its bytes, least significant first, and fails exactly where bytes are missing. |
| PbExamples.FiveByteNegative | sdk/ledger-nanopb/pb_decode.c:1294-1329 | A negative number that another encoder has put into five bytes is read as itself. |
| PbExamples.Varint150 | sdk/ledger-nanopb/pb_encode.c:497-519 | The value 150 in field 1 is 08 96 01. |
| PbExamples.StringTesting | sdk/ledger-nanopb/pb_encode.c:834-858 | The string "testing" in field 2 is 12 07 and its letters. |
| PbExamples.Embedded150 | sdk/ledger-nanopb/pb_encode.c:685-735 | That message in field 3 is 1A 03 08 96 01. |
| PbExamples.PackedThree | sdk/ledger-nanopb/pb_encode.c:126-211 | 3, 270 and 86942 packed in field 4 are 22 06 03 8E 02 9E A7 05. |
| PbExamples.FixedOnes | sdk/ledger-nanopb/pb_encode.c:796-811 | The number 1 in a fixed32 and in a fixed64 field, least significant byte first. |
| PbUnknown.TurnExtends | sdk/ledger-nanopb/pb_decode.c:918-990 | A turn of the decoding loop does not depend on the bytes behind its record. |
| PbUnknown.UnknownInvisible | sdk/ledger-nanopb/pb_decode.c:924-967 | A well-formed record of an unknown field at any record boundary changes neither result, struct nor bytes left. |
| PbUnknown.MessageUnknownInvisible | sdk/ledger-nanopb/pb_decode.c:1056-1068 | The same for pb_decode of a whole message. |
| PbUnknown.NestedUnknownInvisible | sdk/ledger-nanopb/pb_decode.c:367-395 | The same inside a submessage. |
| PbUnknown.SubmessageAdvance | sdk/ledger-nanopb/pb_decode.c:367-395 | The parent of a submessage is advanced by exactly the declared length. |
| PbUnknown.KeyZeroOfEmptyType | sdk/ledger-nanopb/pb_common.c:78-95 | The one exception: in a message type without fields the terminator answers to field number zero, and decoding fails. |
| PbMaxSize.VarintMaxSizeLoop | sdk/ledger-nanopb/generator/nanopb_generator.py:134-141 | The loop returns the first sufficient length, or raises. |
| PbMaxSize.VarintMaxSizeBounds | sdk/ledger-nanopb/generator/nanopb_generator.py:134-141 | No value up to the maximum takes more bytes. |
| PbMaxSize.NegativeMaxSize | sdk/ledger-nanopb/generator/nanopb_generator.py:134-141 | Negative numbers are announced with ten bytes and take ten. |
| PbMaxSize.MessageSizeLoop | sdk/ledger-nanopb/generator/nanopb_generator.py:1039-1050 | The loop over the fields returns their sum, or nothing if one is unknown. |
| PbMaxSize.MembersSizeLoop | sdk/ledger-nanopb/generator/nanopb_generator.py:870-884 | The loop over the members of a oneof returns their maximum. |
| PbBoundProof.PackedBound | sdk/ledger-nanopb/generator/nanopb_generator.py:690-705 | A packed array with key and length fits the room counted for unpacked entries, with the extra byte for a maximum count of one. |
| PbBoundProof.MembersBound | sdk/ledger-nanopb/generator/nanopb_generator.py:870-884 | Of a oneof at most the active member is encoded, within the maximum. |
| PbBoundProof.EncodedSizeIsBound | sdk/ledger-nanopb/generator/nanopb_generator.py:1039-1050 | For every message of a described type, nested to any depth, whose encoded numbers are modest, the bytes written by pb_encode are at most Message.encoded_size. |
| PbBoundProof.ItemSizeExactly | sdk/ledger-nanopb/generator/nanopb_generator.py:644-707 | A value that is not a submessage takes at most the size announced for its type exactly when it is modest: below 128 in a bool, as short as some declared value in an enum, below 2^35 in a uint32, from -2^34 to 2^34 - 1 in a sint32; always for every other type. |
| PbBoundExact.DeclaredIsModest | sdk/ledger-nanopb/generator/nanopb_generator.py:644-707 | Booleans 0 and 1, declared enum values and all numbers of types not widened by int_size are modest. |
| PbBoundExact.TypeSizeExactly | sdk/ledger-nanopb/generator/nanopb_generator.py:644-707 | The announced size of a type bounds everything its member can hold exactly when the type is no bool, is not widened, and as an enum has a negative value or one as long as the member is wide. |
| PbBoundExact.FittingBounded | sdk/ledger-nanopb/generator/nanopb_generator.py:1039-1050 | Where the types of all fields fit in that sense, at every depth, Message.encoded_size bounds every value of the message. |
| PbBoundExact.OneFieldExactly | sdk/ledger-nanopb/generator/nanopb_generator.py:1039-1050 | For a message of one field, of any scalar type, tag, rule and count: the announced size bounds all its values exactly when the type fits, or the field is an array whose announced room is enough for its widest values. |
| PbAttained.VarintMaxExactly | sdk/ledger-nanopb/generator/nanopb_generator.py:134-141 | varint_max_size is the length of the varint, not more. |
| PbAttained.SizeAttained | sdk/ledger-nanopb/generator/nanopb_generator.py:644-707 | For every type but messages, without int_size, some value that the member can hold takes exactly the announced size. |
| PbAttained.MembersLargest | sdk/ledger-nanopb/generator/nanopb_generator.py:870-886 | The size of a oneof is that of its largest member. |
| PbAttained.OneFieldAttained | sdk/ledger-nanopb/generator/nanopb_generator.py:1039-1050 | Some message of one field takes exactly the announced size of its type. |
| PbAttained.ArrayAttained | sdk/ledger-nanopb/generator/nanopb_generator.py:692-706 | A full array of longest strings or bytes takes exactly the announced size, but for one byte where there is room for one entry. |
| PbAttained.KnownExactly | sdk/ledger-nanopb/generator/nanopb_generator.py:644-690 | The size of a type is known exactly when its enum has values and its lengths are in the range of varint_max_size. |
| PbAttained.FieldKnownExactly | sdk/ledger-nanopb/generator/nanopb_generator.py:690-707 | The size of a field is known exactly when that of its type is and its key is in range. |
| PbAttained.MembersKnownExactly | sdk/ledger-nanopb/generator/nanopb_generator.py:870-886 | The size of a oneof is known exactly when those of all its members are. |
| PbAttained.SizesAdd | sdk/ledger-nanopb/generator/nanopb_generator.py:1039-1050 | The sizes of the fields of a message add up and nothing else is counted. |
| PbBoundExact.Exceeds | sdk/ledger-nanopb/generator/nanopb_generator.py:644-707 | Otherwise the message with the widest value in every entry goes over the announced size. |
| PbBoundExact.StoredTooLong | sdk/ledger-nanopb/pb_decode.c:1294-1329 | The decoder accepts the bytes of such a message and stores it. |
| PbBoundExact.WidenedExample | sdk/ledger-nanopb/generator/nanopb_generator.py:644-707 | A required uint32 of int_size 64: six bytes announced, eleven written. |
| PbBoundExact.NegativeBool | sdk/ledger-nanopb/pb_decode.c:1306-1323 | A required bool in which the decoder has stored -1: two bytes announced, eleven written. |
| PbBoundExact.UndeclaredEnum | sdk/ledger-nanopb/pb_decode.c:1331-1353 | A required enum of 0 and 1 in which the decoder has stored 300 from the bytes 08 AC 02: two bytes announced, those three written again. |
| SigningRun.P1P2Exactly | src/io.c:137-149 | Accepted are P1 0 and 1 and, since the mask keeps the top bit only, every P2 up to MORE. |
| SigningRun.Run | src/main.c:33-119 | After any sequence of APDUs and button events the collected message is never longer than the 512-byte buffer. |
| SigningRun.FailureClears | src/main.c:97-113 | Every reply that is not a success leaves the context cleared. |
| SigningRun.OthersKeep | src/main.c:67-90 | A success of another instruction than signing and reset leaves the signing context alone. |
| SigningRun.ChunkStep | src/sign_message.c:166-180 | A chunk is appended while there is room; otherwise the message is dropped with a length error. |
| SigningRun.CollectsChunks | src/sign_message.c:244-265 | Whatever other successful instructions come in between, the device collects exactly the chunks in order. |
| SigningRun.PathBack | src/io.c:91-126 | The path the host wrote is read back. |
| SigningRun.FinalStep | src/sign_message.c:182-281 | The empty chunk makes the device sign the hash of what followed the path, under that path, and clear its context. |
| SigningRun.SignsWhatWasFed | src/sign_message.c:244-305 | From a cleared context, after all chunks of a path and a message, the empty chunk is answered with the signature of the hash of exactly that message under exactly that path. |
| SigningRun.FinalExactly | src/sign_message.c:196-230 | The empty chunk gets a signature exactly when the collected message starts with a path of one to five elements, all of them there, and then it is that of the hash of all that follows, under that path; any other message gets 67 00. Both ways the context is cleared. |
| SigningRun.RawExactly | src/sign_message.c:260-281 | Signing without MORE in one APDU is accepted exactly when the message is empty or at least as long as the path bytes, since the path is read again against the shortened length; what is signed then is the message itself. |
| SigningRun.RawSignsPrefix | src/iost.c:60-75 | In raw mode only the low eight bits of the length count: a message of 256 bytes or more is signed only in its first length modulo 256 bytes, all of it exactly below 256. |
| SigningRun.PathExample | nodejs-example/lib/utils.js:120-132 | The path 44' is sent as 01 80 00 00 2C. |
| SigningRun.PlainReplies | src/main.c:44-113 | The replies byte by byte: 6E 00 for a wrong class, 67 00 for a wrong length, 6D 00 for an unknown instruction, 6B 00 for a wrong P1 or P2, all with a cleared context; 90 00 for a reset, and for the others their data and 90 00. |
| SigningRun.OtherExceptions | src/main.c:95-112 | Any other exception is answered with 68 00 and its low eleven bits, and clears the context. |
| SigningConfirm.ConfirmAsksFirst | src/sign_message.c:277-299 | Where P1 = SILENT is answered with a signature, P1 = CONFIRM is not answered and the context stays; approving then sends exactly that answer, rejecting sends 69 85 alone, and both clear the context. In all other cases the two are answered alike. |
| SigningConfirm.ConfirmedMessage | src/sign_message.c:68-94 | For a collected message: the last APDU gets no reply and leaves the path and the hash in the context; approving then sends the signature of that hash, rejecting sends 69 85. |
| SigningConfirm.NothingUnapproved | src/sign_message.c:277-299 | In every run in which signing is asked for with P1 = CONFIRM and nothing is approved, no sign APDU and no button is answered with more than a status. |
| SigningConfirm.OthersAnswer | src/main.c:67-92 | The other instructions are answered alike whatever the signing context holds. |
| SigningRun.ShortRawRefused | src/sign_message.c:270-271 | One byte under a path of one element is refused. |
| SigningDevice.Device.ReadMessage | src/sign_message.c:166-180 | The buffer update in place is the specified one, and nothing changes when it throws. |
| SigningDevice.Device.SignMessage | src/sign_message.c:182-214 | Hashing in place, the 8-bit length of the signed data and the new lengths are as specified. |
| SigningDevice.Device.Exchange | src/main.c:36-113 | One turn of the main loop on the mutable context does what the specification says of it, replies and clearing included. |
| SigningDevice.Device.Press | src/sign_message.c:68-94 | The button handler sends the waiting answer or 69 85 and clears the context in place, and does nothing where no answer waits. |
| SigningHost.ChunkSent | nodejs-example/lib/ledger.js:43-67 | A chunk sent by the loop keeps host and device in step, or the message was too long and the device is cleared. |
| SigningHost.SendApdu | nodejs-example/lib/ledger.js:21-75 | From a cleared device: with path and message within 512 bytes the loop ends after ceil(n/255) + 1 exchanges with the signature of the hash of the message under the path; otherwise it throws. Either way the device is cleared again, so sessions compose. |
| SecureChannel.PadRoundTrip | sdk/blue-loader-python/ledgerblue/hexLoader.py:212-214 | Padding method 2 of ISO/IEC 9797-1 is undone by the scan for the mark. |
| SecureChannel.CbcRoundTrip | sdk/blue-loader-python/ledgerblue/hexLoader.py:217-220 | Decrypting a CBC chain with the same vector undoes it, for every permutation. |
| SecureChannel.Delivered | sdk/blue-loader-python/ledgerblue/hexLoader.py:203-296 | What one end wraps the other end, in the same state, unwraps to the payload without an exception, and both are in the same state again. |
| SecureChannel.Conversation | sdk/blue-loader-python/ledgerblue/hexLoader.py:203-296 | For every sequence of payloads in either direction all are delivered unchanged and the two ends still agree, in versions 2 and 3. |
| SecureChain.XorLaws | sdk/blue-loader-python/ledgerblue/hexLoader.py:203-243 | The exclusive OR of blocks: zero changes nothing, a block cancels itself, the order does not matter. |
| SecureChain.CbcBlocks | sdk/blue-loader-python/ledgerblue/hexLoader.py:203-243 | Block by block: each ciphertext block is the encryption of its block and the ciphertext block before it, the vector standing before the first. |
| SecureChain.CbcTwoParts | sdk/blue-loader-python/ledgerblue/hexLoader.py:203-243 | Of a text in two parts the second goes on from the last ciphertext block of the first. |
| SecureChain.ChainLaw2 | sdk/blue-loader-python/ledgerblue/hexLoader.py:203-243 | In version 2 the messages of one direction put together are the CBC encryption, from the first vector, of the padded payloads put together. |
| SecureChain.ChainLaw3 | sdk/blue-loader-python/ledgerblue/hexLoader.py:203-243 | In version 3 the ciphertexts put together are the CBC encryption of the padded payloads put together, and every tag is the end of the CBC-MAC over all ciphertexts up to it. |
| SecureChain.UnpadExactly | sdk/blue-loader-python/ledgerblue/hexLoader.py:245-296 | The padding is taken off at the last mark, and refused exactly where there is no mark. |
| SecureChain.AcceptedExactly | sdk/blue-loader-python/ledgerblue/hexLoader.py:245-296 | Version-3 data is accepted exactly when it is whole blocks and a tag, the tag is the last 14 bytes of the MAC chain over them, and the decrypted blocks have a mark; then the vectors are the last blocks. |
| SecureChain.AcceptedExactly2 | sdk/blue-loader-python/ledgerblue/hexLoader.py:245-296 | Version-2 data is accepted exactly when it is whole blocks with a mark in the decrypted text; the vector moves exactly then. |
| SecureChain.PadBytes | sdk/blue-loader-python/ledgerblue/hexLoader.py:203-243 | The padding is the byte 80 and zeros up to a whole number of blocks, at most sixteen bytes. |
| SecureChain.PassesBare | sdk/blue-loader-python/ledgerblue/hexLoader.py:203-258 | Everything passes as it is without keys; so does an empty payload, and a reply of a status alone. |
| SecureChannel.HexLoader.ScpWrap | sdk/blue-loader-python/ledgerblue/hexLoader.py:203-241 | The method that updates the vectors does what the specification of wrapping says. |
| SecureChannel.HexLoader.ScpUnwrap | sdk/blue-loader-python/ledgerblue/hexLoader.py:243-296 | The method that updates the vectors does what the specification of unwrapping says, exceptions included. |
| FlashLoader.ProgressExactly | sdk/blue-loader-python/ledgerblue/hexLoader.py:488-512 | A chunk makes progress exactly where the loop comes to an end. Room for 16 bytes in a chunk is enough, which is an APDU limit of 34; less room may be enough for a short area or with a fixed block length. |
| FlashLoader.ForwardWrites | sdk/blue-loader-python/ledgerblue/hexLoader.py:488-512 | The forward chunks write the rest of the area at its place. |
| FlashLoader.BackwardWrites | sdk/blue-loader-python/ledgerblue/hexLoader.py:488-512 | The reverse chunks write the front of the area at its place. |
| FlashLoader.LoadsImage | sdk/blue-loader-python/ledgerblue/hexLoader.py:456-516 | For disjoint areas, replaying what is sent puts every area at its relative address and changes nothing else, in either direction. |
| FlashDevice.Combined | sdk/blue-loader-python/ledgerblue/hexLoader.py:298-312 | Of a device that collects chunks and stores them only on a flush, stored and collected bytes together are what the plain replay has written. |
| FlashDevice.LoadStores | sdk/blue-loader-python/ledgerblue/hexLoader.py:456-516 | After load nothing is left waiting for a flush, and the stored memory is the image: every disjoint area at its relative address and nothing else changed. |
| FlashDevice.LoadFrame | sdk/blue-loader-python/ledgerblue/hexLoader.py:475-515 | The commands around the chunks: for each area one select, and for a non-empty one then one flush and, with checksums on, one checksum of its length behind the flush. |
| FlashDevice.PlainChunk | sdk/blue-loader-python/ledgerblue/hexLoader.py:489-494 | A chunk is all that is left, or the room for data rounded down to whole blocks of sixteen. |
| FlashDevice.BlockChunk | sdk/blue-loader-python/ledgerblue/hexLoader.py:496-499 | With a fixed block length a chunk is the largest multiple of it within that, and gives up exactly where there is none. |
| FlashDevice.ForwardPlaces | sdk/blue-loader-python/ledgerblue/hexLoader.py:500-512 | Forward, chunk j lies j full chunks behind the start, and the last one is the one that fits. |
| FlashDevice.BackwardPlaces | sdk/blue-loader-python/ledgerblue/hexLoader.py:500-512 | In reverse, chunk j ends j full chunks before the end. |
| FlashLoader.DirectionsAgree | sdk/blue-loader-python/ledgerblue/hexLoader.py:472-474 | Forward and reverse loading, under any limits, leave the same memory. |
| FlashLoader.LoadSized | sdk/blue-loader-python/ledgerblue/hexLoader.py:302-304 | Every chunk offset fits two bytes, and no chunk is empty or over the limit. |
| FlashLoader.WrappedChunk | sdk/blue-loader-python/ledgerblue/hexLoader.py:203-230 | For an APDU limit of at most 254 the wrapped chunk fits the one-byte length; it stays below the limit itself exactly when its last block does. |
| FlashLoader.LastChunkOverLimit | sdk/blue-loader-python/ledgerblue/hexLoader.py:489-494 | A last chunk of 222 bytes under a limit of 240 becomes 254 bytes. |
| FlashLoader.LoadsExactly | sdk/blue-loader-python/ledgerblue/hexLoader.py:475-482 | Without a fixed block length loading gives up exactly on an area over 64 KiB or outside the 32-bit address space. |
| FlashLoader.LoadAreas | sdk/blue-loader-python/ledgerblue/hexLoader.py:472-516 | The loops of `load` exchange exactly the specified commands. |
| Framing.FrameBack | sdk/blue-loader-python/ledgerblue/ledgerWrapper.py:58-107 | Framed bytes of at least twelve are put together again, whatever follows them. |
| Framing.RoundTrip | sdk/blue-loader-python/ledgerblue/ledgerWrapper.py:23-107 | Unwrapping the wrapped command gives it back exactly when the packets have at least twelve bytes together - always from packet size 12 on - and bytes behind them do not matter; otherwise it answers that data is missing. |
| Framing.UnwrapExactly | sdk/blue-loader-python/ledgerblue/ledgerWrapper.py:58-107 | A response is put together to given bytes exactly when the data has at least twelve bytes and begins with the packets of these bytes: the channel, the tag, the sequence numbers and the length are right and every packet is whole. |
| Framing.WrongPacket | sdk/blue-loader-python/ledgerblue/ledgerWrapper.py:67-106 | A packet with another header, the first or any other, and one cut short end in an exception. |
| Framing.FirstPacketBytes | sdk/blue-loader-python/ledgerblue/ledgerWrapper.py:23-56 | The first packet byte by byte: channel, 05, sequence number 0, the length of the command, most significant byte first, and its first bytes; behind the packets zeros. |
| Framing.PacketBytes | sdk/blue-loader-python/ledgerblue/ledgerWrapper.py:23-56 | Packet k of the others byte by byte: channel, 05, its sequence number and its part of the command. |
| Framing.ShortCommandLost | sdk/blue-loader-python/ledgerblue/ledgerWrapper.py:58-66 | The empty command in a packet of seven bytes does not come back. |
| Framing.ProperPrefix | sdk/blue-loader-python/ledgerblue/ledgerWrapper.py:58-107 | Any smaller number of whole packets is answered with "not complete". |
| Framing.PadIsLeast | sdk/blue-loader-python/ledgerblue/ledgerWrapper.py:53-55 | The padding loop adds the least number of zero bytes. |
| Framing.WrapCommandApdu | sdk/blue-loader-python/ledgerblue/ledgerWrapper.py:23-56 | The loop produces the specified packets. |
| Framing.UnwrapResponseApdu | sdk/blue-loader-python/ledgerblue/ledgerWrapper.py:58-107 | The loop answers as specified: the data, "not complete", or an exception. |
| IntelHex.SealedSum | sdk/blue-loader-python/ledgerblue/hexParser.py:177-187 | The bytes of every record add up to zero modulo 256. |
| IntelHex.InsertSorted | sdk/blue-loader-python/ledgerblue/hexParser.py:34-42 | A sorted list stays sorted and gains exactly the new area. |
| IntelHexTrip.OneLine | sdk/blue-loader-python/ledgerblue/hexParser.py:59-69 | A printed line is parsed as the record it was printed from, in capitals or small letters. |
| IntelHexTrip.AreaRun | sdk/blue-loader-python/ledgerblue/hexParser.py:196-212 | After the records of an area the parser holds that area as its open zone, and has closed the one before. |
| IntelHexTrip.PrintedParses | sdk/blue-loader-python/ledgerblue/hexParser.py:192-229 | Parsing what was printed gives the boot address and the areas, sorted by start, as long as every area can be written. |
| IntelHexTrip.ParsedTidy | sdk/blue-loader-python/ledgerblue/hexParser.py:59-110 | Whatever was printed, the parser finds areas in order, none of them empty or in the last page. |
| IntelHexTrip.CrossingCount | sdk/blue-loader-python/ledgerblue/hexParser.py:201-212 | An area with a record that starts behind its page comes back as two areas or more. |
| IntelHexTrip.RoundTripExactly | sdk/blue-loader-python/ledgerblue/hexParser.py:50-111 | For areas in the 32-bit address space, any block size from 1 to 255 and any boot address: the file gives the same areas and boot address back exactly when the areas are sorted, none is empty, none starts at or above 0xFFFF0000 and no record starts behind the page of its area. |
| IntelHexTrip.LastPageLost | sdk/blue-loader-python/ledgerblue/hexParser.py:198-203 | One byte at 0xFFFF0000 does not come back. |
| IntelHexBytes.BytesKept | sdk/blue-loader-python/ledgerblue/hexParser.py:50-111 | Of any file that is accepted and whose data records have the bytes they count: the areas hold exactly the bytes of the data records, each at the address that its record and the page selected before it give and as often as it is there; the boot address is the last one. |
| IntelHexBytes.ParsedSorted | sdk/blue-loader-python/ledgerblue/hexParser.py:34-42 | The areas of any accepted file are in the order of their addresses. |
| IntelHexBytes.RefusedExactly | sdk/blue-loader-python/ledgerblue/hexParser.py:66-103 | A record is refused exactly when it is too short, of type 2 or 3, or data with no page selected. |
| IntelHexBytes.OtherLine | sdk/blue-loader-python/ledgerblue/hexParser.py:64-65 | A line that begins with anything but a colon is refused. |
| IntelHexBytes.HexSpaces | sdk/blue-loader-python/ledgerblue/hexParser.py:66 | White space between the bytes of a line is passed over; other characters and single digits are refused. |
| IntelHexFile.DataLine | sdk/blue-loader-python/ledgerblue/hexParser.py:177-187 | Three bytes at 0x0030 are written as :0300300002337A1E. |
| IntelHexFile.SelectLine | sdk/blue-loader-python/ledgerblue/hexParser.py:198-203 | The page 0x0800 is written as :020000040800F2. |
| IntelHexFile.BootLine | sdk/blue-loader-python/ledgerblue/hexParser.py:214-222 | The boot address 0xCD is written as :04000005000000cd2a. |
| IntelHexFile.PrintEnds | sdk/blue-loader-python/ledgerblue/hexParser.py:214-226 | The file ends with the boot address and the line :00000001FF. |
| IntelHexFile.RecordPlaces | sdk/blue-loader-python/ledgerblue/hexParser.py:196-212 | Data record j of an area has its bytes from j block sizes on, as many as a block, and their address in the page. |
| IntelHexFile.InsertAreaSorted | sdk/blue-loader-python/ledgerblue/hexParser.py:34-42 | The loop finds the specified position. |
| IntelHexFile.IntelHexParser.Read | sdk/blue-loader-python/ledgerblue/hexParser.py:50-111 | The parser loop with its variables computes the specified areas and boot address, or raises. |
| IntelHexFile.IntelHexPrinter.constructor | sdk/blue-loader-python/ledgerblue/hexParser.py:144-152 | Bound to a parser the printer has its areas, inserted in order, and its boot address. |
| IntelHexFile.IntelHexPrinter.WriteTo | sdk/blue-loader-python/ledgerblue/hexParser.py:192-229 | The loops write exactly the specified text. |
| PrintfRun.Out | src/printf.c:133-145 | A character is stored only below the limit; without a buffer nothing is. |
| PrintfRun.OutReversed | src/printf.c:199-223 | The digits in reverse with their padding, cut at the limit, while the index counts all of them. |
| PrintfRun.FormatInteger | src/printf.c:227-277 | Zeros, prefix and sign are put into the conversion buffer as specified, up to its 32 characters. |
| PrintfRun.CollectDigits | src/printf.c:292-298 | The digits of the number, least significant first, as many as the conversion buffer takes. |
| PrintfRun.Vsnprintf | src/printf.c:577-857 | For every format of integer, character and string conversions: the result is the length of the whole text; a buffer of size n > 0 holds its first n - 1 characters and NUL; cells behind are untouched. |
| PrintfField.LowDigitsAre | src/printf.c:292-298 | Reversed, the collected digits are the numeral of the number when it fits the buffer. |
| PrintfField.WidthExactly | src/printf.c:227-277 | A field without precision and '#' has max(width, natural length) characters exactly when it is not zero-padded on the left beyond 32. |
| PrintfField.ReadsBackExactly | src/printf.c:227-301 | Its text reads back as its number exactly when the number is not negative or the width leaves room for the sign. |
| PrintfField.SignLost | src/printf.c:239-267 | -5 printed in 33 places with zeros does not read back. |
| PrintfField.ConversionReadsBack | src/printf.c:690-756 | The same for a whole conversion: the argument is read back from its text. |
| PrintfField.FieldSides | src/printf.c:199-277 | The text of an integer field: sign and digits, with spaces behind them for '-', in front of them otherwise, or zeros between them for '0' up to 32 characters. |
| PrintfField.FlagsActing | src/printf.c:690-719 | Which flags act on an integer conversion: '#' except for decimals, capitals for X, a sign for signed conversions only, zeros only without a precision. |
| PrintfField.ArgumentSizes | src/printf.c:721-753 | hh takes an argument modulo 2^8 without sign, h modulo 2^16, signed or not, and without a length letter it is taken as it is. |
| PrintfField.LongArguments | src/printf.c:721-753 | With l an argument has 32 bits, with ll and j 64, and is taken as it is. |
| PrintfField.Letters | src/printf.c:684-705 | The base of every letter, and which letters take signed numbers. |
| PrintfPrecision.PrecisionLayout | src/printf.c:227-277 | The text of an integer field with a precision: spaces, sign, the zeros that the precision asks for, digits. |
| PrintfPrecision.PrecisionExactly | src/printf.c:227-277 | As many digits as the precision asks for appear exactly when the number has them, or the field is not left-aligned and the precision is at most 32. |
| PrintfPrecision.PrecisionReadsBack | src/printf.c:227-277 | With a precision the text reads back as the number exactly when no sign is lost beyond 32 characters. |
| PrintfPrecision.PrecisionLost | src/printf.c:229-240 | "%-.5d" writes no zeros at all. |
| PrintfPrecision.HashExactly | src/printf.c:242-262 | "%#x" and "%#o" show prefix and number in the width exactly when the number of digits is not the width itself. |
| PrintfPrecision.DigitsLost | src/printf.c:242-262 | "%#4x" of 0x1234 is 0x34. |
| PrintfText.LiteralText | src/printf.c:587-595 | A format without percent sign stands for itself. |
| PrintfText.TextBefore | src/printf.c:587-595 | Text in front of a directive stands for itself. |
| PrintfText.DirectiveReads | src/printf.c:601-680 | A directive as it is written - '-', a width and a precision in decimal digits, a letter - is read as these. |
| PrintfText.StringDirective | src/printf.c:796-820 | A string conversion: the string, cut to the precision, with spaces up to the width in front, or behind for '-'. |
| PrintfText.CharDirective | src/printf.c:776-794 | A character conversion: the character, with spaces up to the width in front, or behind for '-'. |
| PrintfText.PercentDirective | src/printf.c:840-843 | Two percent signs stand for one. |
| PrintfText.FlagLetters | src/printf.c:601-612 | Which flag each flag character sets. |
| PrintfText.LengthLetters | src/printf.c:646-680 | What each length letter sets. |
| PrintfText.StarWidth | src/printf.c:614-629 | A width of "*" is taken from the arguments, and left-aligned where it is negative. |
| PrintfText.StarPrecision | src/printf.c:631-644 | A precision of "*" is taken from the arguments, and is zero where it is negative or where the point stands alone. |
| PrintfText.CharTaken | src/printf.c:776-794 | A character conversion takes its argument modulo 2^8. |
| PrintfText.OtherLetter | src/printf.c:840-848 | A letter that names no conversion stands for itself. |
| PrintfText.AtoiReads | src/printf.c:188-195 | The decimal digits of a number below 2^32 are read as that number. |
| PrintfText.Greeting | src/printf.c:577-857 | "Hello, %s!" greets its argument. |

## Left out

- size_t and pb_size_t wrap-around: lengths and positions are unbounded numbers. Encoded messages and embedded messages are assumed to be shorter than 2^32 bytes, and the index of printf does not wrap.
- uint_fast8_t in the varint readers (sdk/ledger-nanopb/pb_decode.c:208): modelled wide enough not to wrap, as on the devices; a platform where it has eight bits reads keys of more than 36 bytes differently.
- nanopb pointer fields, malloc, callbacks, extensions and fixed-count arrays.
- Memory as bytes: members are typed values, so reading a union through another member, overlapping buffers and padding are not modelled. The decoder methods take and return the struct as a value and only the streams are mutable.
- pb_encode and pb_decode variants with a length prefix or a NUL at the end, and error messages.
- The generator's symbolic sizes: messages whose size depends on another file have no known size here.
- PbBoundProof.EncodedSizeIsBound: one direction. A message with an immodest number in one field and room to spare in another may still be within its size; PbBoundExact.OneFieldExactly has both directions for a message of one field.
- Division by zero: divmod128 and divmod256 require a divisor other than zero, as the loop does not end otherwise.
- WideDivide.Divmod256: requires that the two halves of the numbers are distinct objects and that the two results do not share any, as the C structs by themselves guarantee.
- Big-endian readers of wide numbers (src/uint256.c:26-41).
- User interface: the buttons are events of the device, and the question of P1 = CONFIRM is a reply that waits for one of them; display texts are not modelled. While a question is open the device waits for a button in the original; the model lets APDUs come in between as well, and keeps the waiting reply.
- SigningDevice.Device.Exchange: the answers to the instructions for public keys and configuration are given from outside; modelled are success or failure and the effect on the signing context. The public key is an answer or the status of an internal error.
- SigningRun.RawExactly: one APDU only. Longer raw messages are cut to the low eight bits of their length by iost_sign (src/iost.c:64), see SigningRun.RawSignsPrefix.
- A reset and a return to the dashboard restart the application with a cleared context.
- SecureChannel.HexLoader.ScpUnwrap: for version-3 data of at most 14 bytes the original leaves an empty MAC vector behind its exception; here the vector stays. The library's refusal of partial blocks is an exception.
- FlashLoader.LoadAreas: the CRC-16 of a segment and the SHA-256 that `load` returns are not computed; the checksum command carries the length only. Limits under which the loop does not end are excluded; with negative room for a chunk the original stops with an exception on a negative offset instead.
- Commands of the loader other than those of `load`.
- Framing.WrapCommandApdu: not for Bluetooth framing, packet sizes below seven and commands of 65536 bytes or more.
- Framing.UnwrapResponseApdu: not for Bluetooth framing and packet sizes below seven.
- Intel HEX input: decoding the file and the printer's output to the console.
- printf: floating point, `%p`, NUL characters inside the format, arguments of a wrong kind, the most negative number of a type, and a conversion cut off by the end of the format have no defined text here. Writing through `_putchar` or a callback is not modelled.
- PrintfField.WidthExactly: not for binary conversions of 64 bits, which the conversion buffer cuts at 32 digits; PrintfRun.Vsnprintf covers them.
- Plain `char` is unsigned and `int`, `long` and pointers have 32 bits, as on the devices.
- The rest of the repository: key derivation, cryptography, transports, icon and build tools.
