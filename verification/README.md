# Verified models of the Livox SDK's JSON and CRC code and of the GNSS driver

This project models, in Dafny, the parts of the repository that other code trusts without looking:
the JSON library through which the SDK reads its configuration, the checksum of its packets, and the
event core of the GNSS/RTK driver. The models follow the code branch by branch; what is proved about
them holds for every input, every run and every interleaving that the models admit.

| files | what they model |
|---|---|
| `Bytes`, `Utf8` | byte streams that end in NULs; the UTF-8 encoder, decoder and validator |
| `JsonText`, `JsonDescent`, `JsonAutomaton` | the lexical grammar, the recursive parser and the pushdown automaton as functions on the text |
| `JsonAgreement`, `JsonStack` | the two parsers agree; what the automaton's stack holds |
| `JsonNumber`, `JsonGrammar`, `JsonErrors` | the language of RFC 8259 as trees with their texts, that the parser accepts exactly these, and what it reports for other texts |
| `JsonReader` | the reader as it runs, over a buffer it may decode strings into, proved against those functions |
| `JsonDocument`, `JsonDom`, `JsonMeaning` | values and their number flags, the traversal and the handler that rebuilds a tree; number ranges; the value of a text |
| `JsonPointer`, `JsonPointerGrammar`, `JsonPointerParser`, `JsonPointerTree` | both text forms of RFC 6901, their language, the parser over one name buffer, and path get, create and set |
| `PoolAllocator` | the chunked bump allocator over one memory |
| `FileReadStream` | the buffered file stream |
| `CrcRegister`, `FastCrc` | shift registers and tables; slicing by four with its alignment loops |
| `GnssHistory`, `GnssPose` | the fate of every position sample; the matcher of positions and headings |
| `GnssEventQueue`, `RtcmQueue` | the two bounded queues between the threads, as state machines over single queue operations |
| `NmeaFramer`, `NtripResponse`, `NtripVerdict` | the incremental framers of the serial stream and of the caster's response |

Parsing functions (`JsonDescent`, `JsonAutomaton`, `JsonPointer`, `NmeaFramer.Frame`,
`NtripResponse.Response`) say what a piece of code computes; the classes and methods with loops are
proved to compute it, and the lemmas state what it means. `JsonNumber`, `JsonGrammar`, `JsonErrors`,
`JsonMeaning`, `JsonPointerGrammar` and `NtripVerdict` write bytes and values out, so that their statements
do not rest on the functions they are about. A few conventions:

- Text is followed by a NUL, which ends it; a NUL byte inside ends it as well, as in the source.
- A double is its sign, significand and power of ten. Whether its conversion overflows is a parameter
  of the parsers (`Flags.overflows`), any function of the text of the number: the source rounds while it
  reads. Every statement holds for every such test.
- The tables of FastCRC are defined by their generator; the entries of the arrays at the powers of two are stated.
- The alignment of a message is an arbitrary offset from 0 to 3; words are loaded little-endian, the first byte in the low bits.
- Clock readings, the answers of the base allocator and the results of reading a time field are parameters.

Where the code does not do what one would expect, the models follow the code:

- A stray `]`, `}`, `,` or `:` at the root is ValueInvalid for one parser and DocumentEmpty for the other.
- The allocator hands out a block outside its grant exactly for requests whose sums wrap (`RequestExact`, `ReallocExact`).
- Strings may hold bytes that are not UTF-8 and escapes of lone low surrogates (`JsonGrammar.ValidPiece`), and a number is refused
  when its exponent is too big even if its digits are zeros (`JsonNumber.TooBig`).
- The overflow test of pointer indexes misses some numbers beyond 32 bits (`IndexWraps`).
- Get after Set finds nothing when a `-` token appended to an array (`GetAfterSet`).
- The result for an ICY response depends on the chunks exactly when a header follows its status line (`ChunksMatterExactly`).

## Model

| member | source | states |
|---|---|---|
| `JsonAgreement.ParsersAgree` | Livox-SDK2/3rdparty/rapidjson/reader.h:2401-2433 | for every byte string and all flags the table-driven parser ends exactly as the recursive one does: same verdict, event list, member and element counts, error code and offset, final position; a stray `]`, `}`, `,` or `:` at the root gives DocumentEmpty instead of ValueInvalid |
| `JsonAgreement.ParsersAgreeIff` | Livox-SDK2/3rdparty/rapidjson/reader.h:615-646 | the two outcomes are equal if and only if the root does not begin with one of those four bytes |
| `JsonGrammar.Language` | Livox-SDK2/3rdparty/rapidjson/reader.h:615-646 | a text is accepted if and only if it is white space, a value of the grammar of RFC 8259 and white space, with trailing commas where the flag allows them, followed by a NUL or its end; its events are those of the tree it is the text of, whichever that is |
| `JsonGrammar.LanguageOfFirst` | Livox-SDK2/3rdparty/rapidjson/reader.h:628-646 | with stop-when-done, it is accepted, with no longer number at its start, if and only if it begins with white space and such a value |
| `JsonGrammar.TreeParses` | Livox-SDK2/3rdparty/rapidjson/reader.h:1872-1896 | the text of every tree is parsed to its end, with the events of the tree |
| `JsonGrammar.TreeRead` | Livox-SDK2/3rdparty/rapidjson/reader.h:1872-1896 | what is parsed as a value is the text of a tree with these events |
| `JsonGrammar.StringReads` | Livox-SDK2/3rdparty/rapidjson/reader.h:1058-1129 | every sequence of plain bytes, one-letter escapes, code units and surrogate pairs is read as the bytes it stands for, by the table of section 7 of RFC 8259 and the values of hexadecimal digits and surrogate pairs, written out |
| `JsonGrammar.StringRead` | Livox-SDK2/3rdparty/rapidjson/reader.h:1058-1129 | and what is read as a string is such a sequence, with these bytes |
| `JsonErrors.StringRefused` | Livox-SDK2/3rdparty/rapidjson/reader.h:1070-1129 | behind whole characters, a control byte, the end, an escape that is none, a unit without four hexadecimal digits and a surrogate without its half each have their error, at that byte or backslash |
| `JsonErrors.WordRefused` | Livox-SDK2/3rdparty/rapidjson/reader.h:916-952 | a word that is broken off is refused at the first byte that does not belong to it |
| `JsonErrors.NoValue` | Livox-SDK2/3rdparty/rapidjson/reader.h:1872-1896 | a byte that begins no value is refused where it stands |
| `JsonErrors.ArrayRefused` | Livox-SDK2/3rdparty/rapidjson/reader.h:889-912 | behind an element, whatever elements come before, a byte that is no comma and no bracket has its error, at that byte, after the events of all these elements |
| `JsonErrors.ObjectRefused` | Livox-SDK2/3rdparty/rapidjson/reader.h:814-826 | so do a member without a name, a name that is broken off and a name without a colon |
| `JsonErrors.MemberRefused` | Livox-SDK2/3rdparty/rapidjson/reader.h:836-864 | and a byte behind a member that is no comma and no bracket |
| `JsonErrors.DocumentRefused` | Livox-SDK2/3rdparty/rapidjson/reader.h:615-646 | an error inside any depth of open arrays and objects is the error of the document, with the events of everything in front of it |
| `JsonErrors.RootRefused` | Livox-SDK2/3rdparty/rapidjson/reader.h:624-642 | white space alone is an empty document, and a byte behind the root that is no white space is refused there |
| `JsonNumber.NumberGrammar` | Livox-SDK2/3rdparty/rapidjson/reader.h:1584-1868 | a text is read as a number to its end if and only if it is an optional minus, digits without a leading zero, an optional fraction and an optional exponent, and is not too big; it is delivered as what it means: an integer of 64 bits without fraction and exponent as the narrowest of four types, and anything else as a double whose significand is the decimal value of the digits kept and whose exponent is the signed written one less the fraction digits kept |
| `JsonNumber.NumberReads` | Livox-SDK2/3rdparty/rapidjson/reader.h:1584-1868 | every number of the grammar is delivered so, or refused as too big at its start exactly when a positive exponent is more than 308 beyond the digits kept or the conversion overflows |
| `JsonNumber.AllKept` | Livox-SDK2/3rdparty/rapidjson/reader.h:1720-1750 | all fraction digits are kept if and only if no shorter beginning of them brings the significand beyond 2^53 - 1 with 17 significant digits, and so whenever there are at most 17 digits |
| `JsonNumber.ExponentExact` | Livox-SDK2/3rdparty/rapidjson/reader.h:1764-1801 | the exponent is the one written, with its sign, but for a negative one beyond the limit, whose magnitude stays beyond the limit and in 32 bits |
| `JsonNumber.NumberMisses` | Livox-SDK2/3rdparty/rapidjson/reader.h:1710-1801 | a point or an exponent without digits is an error at the byte where the digit is missing |
| `JsonNumber.NoNumber` | Livox-SDK2/3rdparty/rapidjson/reader.h:1602-1664 | a number is refused as invalid if and only if no digit stands behind the optional minus, and at that byte |
| `JsonNumber.ScanNumberMoves` | Livox-SDK2/3rdparty/rapidjson/reader.h:1584-1868 | a number is read from its own text as from any place where it stands and no byte of a number follows |
| `JsonStack.ReachableStack` | Livox-SDK2/3rdparty/rapidjson/reader.h:2192-2350 | in every state the loop reaches, the stack is one (saved state, count) pair per bracket the token history leaves open, Start at the bottom and Element or MemberValue above, each count the delimiters seen in that container |
| `JsonStack.TransitMirrors` | Livox-SDK2/3rdparty/rapidjson/reader.h:2192-2350 | each transition keeps the stack equal to what the token history determines, so no pop underflows |
| `JsonStack.RunsAreShort` | Livox-SDK2/3rdparty/rapidjson/reader.h:2408-2427 | each transition that is no error consumes input, so there are at most as many as bytes |
| `JsonStack.RunIsTheParse` | Livox-SDK2/3rdparty/rapidjson/reader.h:2401-2433 | the runs the two statements above speak of are the prefixes of the parse itself |
| `JsonAutomaton.Transit` | Livox-SDK2/3rdparty/rapidjson/reader.h:2192-2350 | a transition from a well-formed machine gives a well-formed machine further on in the input |
| `JsonAutomaton.Close` | Livox-SDK2/3rdparty/rapidjson/reader.h:2269-2325 | popping a count and a state leaves a balanced stack |
| `JsonReader.Reader.Parse` | Livox-SDK2/3rdparty/rapidjson/reader.h:615-646 | the recursive parser over a buffer, in place or copying, ends with the events, error and position of the grammar functions over the original text |
| `JsonReader.Reader.IterativeParse` | Livox-SDK2/3rdparty/rapidjson/reader.h:2401-2433 | the same for the loop over the transition table with its explicit stack |
| `JsonReader.Reader.Transit` | Livox-SDK2/3rdparty/rapidjson/reader.h:2192-2350 | one transition changes position, stack and events as the automaton does |
| `JsonReader.Reader.OpenContainer` | Livox-SDK2/3rdparty/rapidjson/reader.h:2203-2230 | pushes the state to return to and a zero count |
| `JsonReader.Reader.CloseContainer` | Livox-SDK2/3rdparty/rapidjson/reader.h:2269-2325 | pops the count and the state and reports the exact number of items |
| `JsonReader.Reader.CountItem` | Livox-SDK2/3rdparty/rapidjson/reader.h:2262-2267 | a delimiter raises the count on top of the stack |
| `JsonReader.Reader.FinishContainer` | Livox-SDK2/3rdparty/rapidjson/reader.h:2269-2325 | a closing bracket does what the automaton does, and after a comma only when trailing commas are allowed |
| `JsonReader.Reader.FinishScalar` | Livox-SDK2/3rdparty/rapidjson/reader.h:2244-2260 | a scalar as element, member value or root does what the automaton does |
| `JsonReader.Reader.ParseScalar` | Livox-SDK2/3rdparty/rapidjson/reader.h:2327-2348 | a scalar of the automaton is read by the recursive parser, with the same event or error |
| `JsonReader.Reader.HandleError` | Livox-SDK2/3rdparty/rapidjson/reader.h:2353-2388 | the error depends on the state only, and an error already set stays |
| `JsonReader.ParseBothWays` | Livox-SDK2/3rdparty/rapidjson/reader.h:1029-1048 | parsing two equal buffers, one in place and one copying, gives the same error and the same events; the in-place strings read back from the modified buffer are the copied ones, and the copying run changes nothing |
| `JsonReader.IterateBothWays` | Livox-SDK2/3rdparty/rapidjson/reader.h:1029-1048 | the same two runs of the parser with the explicit stack |
| `JsonReader.DenoteFrame` | Livox-SDK2/3rdparty/rapidjson/stream.h:211-217 | strings already handed out in place survive every later write |
| `JsonReader.Reader.ParseStringToStream` | Livox-SDK2/3rdparty/rapidjson/reader.h:1058-1129 | the bytes put are the decoded string and a NUL; in place the write cursor never passes the read cursor and bytes before the string and after the cursor stay as they were |
| `JsonReader.Reader.ParseString` | Livox-SDK2/3rdparty/rapidjson/reader.h:1021-1051 | delivers the decoded string or name, or the error of the escape that fails |
| `JsonReader.Reader.Put` | Livox-SDK2/3rdparty/rapidjson/stream.h:211-214 | one byte to the output, and no other byte of the shared buffer from the string on is disturbed |
| `JsonReader.Reader.PutCodepoint` | Livox-SDK2/3rdparty/rapidjson/encodings.h:108-125 | the encoding of a code point is put, never more bytes than were consumed |
| `JsonReader.Reader.ParseEscape` | Livox-SDK2/3rdparty/rapidjson/reader.h:1079-1108 | an escape, surrogate pairs included, is decoded or rejected at the backslash |
| `JsonReader.Reader.ParseCodepoint` | Livox-SDK2/3rdparty/rapidjson/reader.h:1089-1106 | a `\u` escape with its low half, or the error of a lone or wrong half |
| `JsonReader.Reader.ParseHex4` | Livox-SDK2/3rdparty/rapidjson/reader.h:967-987 | four hexadecimal digits, or the error at the escape |
| `JsonReader.Reader.SkipWhitespace` | Livox-SDK2/3rdparty/rapidjson/reader.h:290-296 | the cursor stops at the first byte that is no white space |
| `JsonReader.Reader.Consume` | Livox-SDK2/3rdparty/rapidjson/reader.h:955-962 | moves over the wanted byte, and only over it |
| `JsonReader.Reader.ParseObject` | Livox-SDK2/3rdparty/rapidjson/reader.h:798-865 | reads an object as the grammar does, with the member count it reports |
| `JsonReader.Reader.ParseMember` | Livox-SDK2/3rdparty/rapidjson/reader.h:815-834 | reads a name, a colon and a value, or stops with the error of the first that is missing |
| `JsonReader.Reader.ParseMembers` | Livox-SDK2/3rdparty/rapidjson/reader.h:814-864 | the loop over members ends as the grammar function for the rest of the object does |
| `JsonReader.Reader.MoreMembers` | Livox-SDK2/3rdparty/rapidjson/reader.h:836-864 | after a member: the comma, the bracket, a trailing comma if allowed, or an error |
| `JsonReader.Reader.ParseArray` | Livox-SDK2/3rdparty/rapidjson/reader.h:869-913 | reads an array as the grammar does, with the element count it reports |
| `JsonReader.Reader.ParseElements` | Livox-SDK2/3rdparty/rapidjson/reader.h:885-912 | the loop over elements ends as the grammar function for the rest of the array does |
| `JsonReader.Reader.MoreElements` | Livox-SDK2/3rdparty/rapidjson/reader.h:889-912 | after an element: the comma, the bracket, a trailing comma if allowed, or an error |
| `JsonReader.Reader.ParseValue` | Livox-SDK2/3rdparty/rapidjson/reader.h:1872-1896 | dispatches on the first byte |
| `JsonReader.Reader.ParseLiteral` | Livox-SDK2/3rdparty/rapidjson/reader.h:916-952 | null, true and false, with the error offset at the first wrong letter |
| `JsonReader.Reader.Accumulate` | Livox-SDK2/3rdparty/rapidjson/reader.h:1612-1635 | the wrapping accumulator never wraps: it stops exactly in front of the digit that would exceed the limit |
| `JsonReader.Reader.ParseInteger` | Livox-SDK2/3rdparty/rapidjson/reader.h:1602-1708 | the integer part is exact, and the 64-bit and double marks are set exactly when the value needs them |
| `JsonReader.Reader.ParseInteger64` | Livox-SDK2/3rdparty/rapidjson/reader.h:1666-1708 | the same beyond 32 bits, with the two limits of the signs |
| `JsonReader.Reader.ParseFraction` | Livox-SDK2/3rdparty/rapidjson/reader.h:1710-1752 | the digits kept are those up to 2^53 - 1 and then up to 17 significant ones |
| `JsonReader.Reader.ParseExponent` | Livox-SDK2/3rdparty/rapidjson/reader.h:1754-1801 | the exponent, bounded so that a positive one is rejected above 308 and a negative one saturates |
| `JsonReader.Reader.ParseNumber` | Livox-SDK2/3rdparty/rapidjson/reader.h:1584-1868 | a number is delivered or rejected as the number grammar says, with the same event and error offset |
| `JsonReader.Reader.ParseRest` | Livox-SDK2/3rdparty/rapidjson/reader.h:1710-1868 | what follows the integer part is read and delivered as the number grammar says |
| `JsonReader.Reader.DeliverNumber` | Livox-SDK2/3rdparty/rapidjson/reader.h:1834-1863 | the event is Double exactly when there is a fraction, an exponent or a value beyond 64 bits |
| `JsonReader.Reader.NarrowestInteger` | Livox-SDK2/3rdparty/rapidjson/reader.h:1852-1863 | the two's complement negation gives the event of the exact signed value |
| `JsonText.LongDecimal` | Livox-SDK2/3rdparty/rapidjson/reader.h:1685-1708 | digits that write at least 10^17 are 18 or more, so a value beyond 64 bits already has all the significant digits that are kept |
| `JsonDom.IntegerLiteralExact` | Livox-SDK2/3rdparty/rapidjson/reader.h:1835-1863 | every integer literal, however long, becomes a value that reads back exactly and whose four range tests hold exactly when the number is in the range; outside both 64-bit ranges it is a Double |
| `JsonDocument.ConstructorsRepresent` | Livox-SDK2/3rdparty/rapidjson/document.h:858-899 | each integer constructor sets the flags exactly for the ranges the number is in, and the union reads back the number in each |
| `JsonDocument.RepresentationUnique` | Livox-SDK2/3rdparty/rapidjson/document.h:858-899 | a number has the same flags and bits whichever constructor made it |
| `JsonDom.ExponentDigitsFit` | Livox-SDK2/3rdparty/rapidjson/reader.h:1777-1796 | while the exponent's digits are read, for either sign, no intermediate value leaves 32 bits |
| `JsonDom.ExponentSumFits` | Livox-SDK2/3rdparty/rapidjson/reader.h:1834-1835 | the sum of written exponent and fraction exponent stays in 32 bits and at most 308 |
| `JsonDom.DoubleExponentFits` | Livox-SDK2/3rdparty/rapidjson/reader.h:1834-1840 | so for every double delivered for a number under 2 * 10^8 characters |
| `JsonDocument.ReplayAccept` | Livox-SDK2/3rdparty/rapidjson/document.h:2286-2331 | the events of a typed value, replayed on any handler stack, push exactly that value: member order, number flags and string storage included |
| `JsonDocument.Document.Clone` | Livox-SDK2/3rdparty/rapidjson/document.h:2716-2725 | a document populated from the events of a typed value is equal to it |
| `JsonDocument.Document.Populate` | Livox-SDK2/3rdparty/rapidjson/document.h:2716-2725 | the one value the events leave becomes the root, and the stack is empty again |
| `JsonDocument.Document.EndObject` | Livox-SDK2/3rdparty/rapidjson/document.h:2982-2988 | pops the members in order and folds them into the object below |
| `JsonDocument.Document.EndArray` | Livox-SDK2/3rdparty/rapidjson/document.h:2995-3000 | pops the elements in order and folds them into the array below |
| `JsonDocument.Document.Handle` | Livox-SDK2/3rdparty/rapidjson/document.h:2926-3000 | each handler method changes the stack as the specification of its event |
| `JsonDom.ParseLeavesOne` | Livox-SDK2/3rdparty/rapidjson/document.h:2738-2750 | the events of any successful parse, by either parser, leave exactly one value on the stack, and traversing that value gives events that rebuild it |
| `JsonDom.ValueLeavesOne` | Livox-SDK2/3rdparty/rapidjson/document.h:2926-3000 | the events of one parsed value push one typed value on any stack |
| `JsonMeaning.ParsedMeaning` | Livox-SDK2/3rdparty/rapidjson/document.h:2738-2750 | parsing a document puts the value of its text on the stack: null, booleans, decoded strings and numbers with their range flags, in arrays and objects of the same shape and order |
| `JsonMeaning.TreeBuilds` | Livox-SDK2/3rdparty/rapidjson/document.h:2926-3000 | the events of a tree push its value on any stack |
| `Utf8.DecodeEncode` | Livox-SDK2/3rdparty/rapidjson/encodings.h:148-210 | decoding at an encoded scalar succeeds with that scalar and takes exactly its bytes |
| `Utf8.EncodeDecode` | Livox-SDK2/3rdparty/rapidjson/encodings.h:148-210 | what decodes is the encoding of a scalar, so overlong forms and surrogates are refused |
| `Utf8.ValidateAgreesWithDecode` | Livox-SDK2/3rdparty/rapidjson/encodings.h:214-266 | Validate and Decode take the same number of bytes with the same verdict, and Validate copies what it takes |
| `Utf8.ValidIffEncoded` | Livox-SDK2/3rdparty/rapidjson/encodings.h:214-298 | a byte string passes repeated validation if and only if it encodes a scalar sequence |
| `Utf8.EncodeAllInjective` | Livox-SDK2/3rdparty/rapidjson/encodings.h:108-125 | and that sequence is unique |
| `Utf8.EncodeIs` | Livox-SDK2/3rdparty/rapidjson/encodings.h:108-125 | the bytes of a code point are those of the table in section 3 of RFC 3629 |
| `CrcRegister.BytewiseIsRegister` | Livox-SDK2/3rdparty/FastCRC/FastCRCsw.cpp:176-193 | for every message the table-driven register is the bit-at-a-time register; for CCITT the byte-swapped state is the swap of the left-shifting one |
| `CrcRegister.ByteStepIsFeed` | Livox-SDK2/3rdparty/FastCRC/FastCRCsw.cpp:450-453 | one table step of a reflected check is eight steps of the shift register |
| `CrcRegister.ByteStepIsFeedTop` | Livox-SDK2/3rdparty/FastCRC/FastCRCsw.cpp:177-180 | one table step of CCITT is, swapped, eight steps of the left-shifting register |
| `CrcRegister.FeedIsSteps` | Livox-SDK2/3rdparty/FastCRC/FastCRC_tables.h:939-1004 | taking bits one at a time leaves what adding them at once and stepping leaves |
| `CrcRegister.T0Linear` | Livox-SDK2/3rdparty/FastCRC/FastCRC_tables.h:153-282 | the first table is linear over exclusive or |
| `CrcRegister.Crc32Entries` | Livox-SDK2/3rdparty/FastCRC/FastCRC_tables.h:1006-1070 | the entries of the first table at the powers of two are those of the array, so that by linearity all are sums of these |
| `CrcRegister.ModbusEntries` | Livox-SDK2/3rdparty/FastCRC/FastCRC_tables.h:415-447 | the same for Modbus |
| `CrcRegister.KermitEntries` | Livox-SDK2/3rdparty/FastCRC/FastCRC_tables.h:546-578 | the same for Kermit and X.25 |
| `CrcRegister.CcittEntries` | Livox-SDK2/3rdparty/FastCRC/FastCRC_tables.h:153-185 | the same for CCITT and XMODEM, byte-swapped |
| `FastCrc.TableShifts` | Livox-SDK2/3rdparty/FastCRC/FastCRC_tables.h:1006-1263 | table `k` is the shift of a byte by `k + 1` bytes of zeros |
| `FastCrc.FourBytes` | Livox-SDK2/3rdparty/FastCRC/FastCRCsw.cpp:421-431 | all three forms of the four-byte step equal four table steps |
| `FastCrc.SliceStep16IsSliceStep` | Livox-SDK2/3rdparty/FastCRC/FastCRCsw.cpp:161-165 | on a 16-bit register the narrow form, which takes two indexes from the data alone, reads the same entries |
| `FastCrc.Update16` | Livox-SDK2/3rdparty/FastCRC/FastCRCsw.cpp:173-198 | for every message and alignment the head loop, the 16-byte blocks and the tail give the register of the message |
| `FastCrc.Update32` | Livox-SDK2/3rdparty/FastCRC/FastCRCsw.cpp:445-479 | the same for CRC-32, with four tables or with one |
| `FastCrc.FastCRC16.CcittUpd` | Livox-SDK2/3rdparty/FastCRC/FastCRCsw.cpp:173-198 | returns the MSB-first register after the data, going on from the swapped seed |
| `FastCrc.FastCRC16.Ccitt` | Livox-SDK2/3rdparty/FastCRC/FastCRCsw.cpp:200-205 | the one-shot value is the MSB-first register from 0xFFFF |
| `FastCrc.FastCRC16.Xmodem` | Livox-SDK2/3rdparty/FastCRC/FastCRCsw.cpp:363-368 | the same from 0 |
| `FastCrc.FastCRC16.ModbusUpd` | Livox-SDK2/3rdparty/FastCRC/FastCRCsw.cpp:254-279 | goes on with the reflected register of 0xA001 |
| `FastCrc.FastCRC16.Modbus` | Livox-SDK2/3rdparty/FastCRC/FastCRCsw.cpp:281-286 | from 0xFFFF |
| `FastCrc.FastCRC16.KermitUpd` | Livox-SDK2/3rdparty/FastCRC/FastCRCsw.cpp:294-319 | goes on with the reflected register of 0x8408 |
| `FastCrc.FastCRC16.Kermit` | Livox-SDK2/3rdparty/FastCRC/FastCRCsw.cpp:321-327 | from 0 |
| `FastCrc.FastCRC16.X25Upd` | Livox-SDK2/3rdparty/FastCRC/FastCRCsw.cpp:376-403 | the same register, returned inverted in 16 bits |
| `FastCrc.FastCRC16.X25` | Livox-SDK2/3rdparty/FastCRC/FastCRCsw.cpp:405-410 | from 0xFFFF |
| `FastCrc.FastCRC32.Crc32Upd` | Livox-SDK2/3rdparty/FastCRC/FastCRCsw.cpp:445-479 | goes on with the reflected register of 0xEDB88320 and returns it inverted |
| `FastCrc.FastCRC32.Crc32` | Livox-SDK2/3rdparty/FastCRC/FastCRCsw.cpp:481-486 | the one-shot value is the inverted register from all ones |
| `FastCrc.CallsJoin` | Livox-SDK2/3rdparty/FastCRC/FastCRCsw.cpp:445-479 | however a message is divided among update calls, the register is that of the whole message |
| `FastCrc.CcittInParts` | Livox-SDK2/3rdparty/FastCRC/FastCRCsw.cpp:173-198 | a message divided among update calls, each part at its own alignment: the last call returns the check of the whole message, going on from the byte-swapped seed |
| `FastCrc.Crc32InParts` | Livox-SDK2/3rdparty/FastCRC/FastCRCsw.cpp:445-479 | the same for CRC-32 |
| `FastCrc.BurstSeen` | Livox-SDK2/3rdparty/FastCRC/FastCRCsw.cpp:421-425 | from any register, messages that differ only inside four consecutive bytes end in different registers |
| `FastCrc.BurstDetected` | Livox-SDK2/3rdparty/FastCRC/FastCRCsw.cpp:445-486 | two equal-length messages that differ at most inside four consecutive bytes have the same CRC-32 if and only if they are equal |
| `JsonPointer.RoundTrip` | Livox-SDK2/3rdparty/rapidjson/pointer.h:1013-1179 | parsing what a pointer prints gives its tokens back, in the plain and in the URI fragment form, whenever it prints |
| `JsonPointer.PrintableIff` | Livox-SDK2/3rdparty/rapidjson/pointer.h:1151-1179 | the plain form always prints; the URI fragment form prints if and only if every name is UTF-8 |
| `JsonPointer.PlainCanonical` | Livox-SDK2/3rdparty/rapidjson/pointer.h:1013-1142 | a plain text that parses is the text its tokens print |
| `JsonPointer.PlainParses` | Livox-SDK2/3rdparty/rapidjson/pointer.h:1013-1142 | a plain text parses if and only if it is empty or starts with a solidus and every tilde starts one of the two escapes, with the error code of the rule that fails |
| `JsonPointerGrammar.PointerLanguage` | Livox-SDK2/3rdparty/rapidjson/pointer.h:1013-1142 | in either form a text is read if and only if it is names with a solidus in front of each, spelled with bytes as they are, `~0`, `~1` and, in a fragment, percent-encoded UTF-8 characters; the tokens are what the spellings stand for |
| `JsonPointerGrammar.PrintedPointer` | Livox-SDK2/3rdparty/rapidjson/pointer.h:1151-1179 | a pointer is printed in its one canonical spelling: upper case digits, and percent-encoding only where RFC 3986 has no unreserved character |
| `JsonPointerGrammar.PointerRefused` | Livox-SDK2/3rdparty/rapidjson/pointer.h:1043-1107 | behind whole names and characters, a tilde without its digit, a percent sign that begins no character and a byte that must be encoded each have their error, at the byte stated |
| `JsonPointerGrammar.NoSolidus` | Livox-SDK2/3rdparty/rapidjson/pointer.h:1030-1041 | a first name without a solidus is refused, and nothing else is with that error |
| `JsonPointer.IndexExact` | Livox-SDK2/3rdparty/rapidjson/pointer.h:1105-1126 | only a decimal number without leading zeros has an index, and the index is that number if and only if the number has 32 bits |
| `JsonPointer.IndexWraps` | Livox-SDK2/3rdparty/rapidjson/pointer.h:1113-1124 | the test for wrapping around misses 6000000000, which gets another number's index |
| `JsonPointer.IndexOneToOne` | Livox-SDK2/3rdparty/rapidjson/pointer.h:1105-1126 | different names share an index only if one of them writes a number beyond 32 bits |
| `JsonPointerParser.Pointer.Parse` | Livox-SDK2/3rdparty/rapidjson/pointer.h:1013-1142 | the tokens, names and indexes are those of the grammar function, exactly `tokenCount_` of them, or the error code and offset; every write of the run stays inside a name buffer as long as the text |
| `JsonPointerParser.Pointer.ParseAll` | Livox-SDK2/3rdparty/rapidjson/pointer.h:1043-1133 | the loop over tokens fills the token array exactly |
| `JsonPointerParser.Pointer.ParseName` | Livox-SDK2/3rdparty/rapidjson/pointer.h:1047-1107 | a name is put with a NUL behind it, and earlier names stay |
| `JsonPointerParser.Pointer.ParseUnit` | Livox-SDK2/3rdparty/rapidjson/pointer.h:1050-1103 | one character, escape or percent-encoded sequence, or its error |
| `JsonPointerParser.Pointer.PutPercent` | Livox-SDK2/3rdparty/rapidjson/pointer.h:1054-1072 | accepts exactly a valid UTF-8 sequence of whole triples, and stays in the buffer even when it fails |
| `JsonPointerParser.Pointer.Take` | Livox-SDK2/3rdparty/rapidjson/pointer.h:1199-1222 | a triple, or 0 and the mark of an invalid stream |
| `JsonPointerParser.Pointer.ToIndex` | Livox-SDK2/3rdparty/rapidjson/pointer.h:1105-1126 | the index of a name with the 32-bit overflow test |
| `JsonPointerParser.Stringify` | Livox-SDK2/3rdparty/rapidjson/pointer.h:1151-1179 | the printing loops write the specified text, or fail exactly when it does not exist |
| `JsonPointerParser.UnitInside` | Livox-SDK2/3rdparty/rapidjson/pointer.h:1050-1103 | a round of the inner loop passes no solidus and puts no more bytes than it takes |
| `JsonPointerTree.Get` | Livox-SDK2/3rdparty/rapidjson/pointer.h:622-649 | the value the tokens lead to, or the index of the first token that leads nowhere |
| `JsonPointerTree.CreateExisting` | Livox-SDK2/3rdparty/rapidjson/pointer.h:539-585 | Create reports that the value existed if and only if Get resolves it, and then changes nothing |
| `JsonPointerTree.GetAfterSet` | Livox-SDK2/3rdparty/rapidjson/pointer.h:781-790 | Get after Set finds the value set, exactly unless a `-` token met an array |
| `JsonPointerTree.SetKeepsOthers` | Livox-SDK2/3rdparty/rapidjson/pointer.h:539-585 | a path that parts from the one set, at different names of an object or different indexes of an array, keeps its value if and only if no array at the parting is made into an object |
| `JsonPointerTree.ParsedNamesPart` | Livox-SDK2/3rdparty/rapidjson/pointer.h:1105-1126 | parsed tokens that lead to different places have different names, as the statement before asks |
| `JsonPointerTree.SharedIndex` | Livox-SDK2/3rdparty/rapidjson/pointer.h:539-585 | tokens that share an index name one element of an array, so that setting by the one is seen by the other |
| `JsonPointerTree.DashNotFound` | Livox-SDK2/3rdparty/rapidjson/pointer.h:546-549 | an input where Get after Set finds nothing: a dash at the empty array |
| `JsonPointerTree.ElementGone` | Livox-SDK2/3rdparty/rapidjson/pointer.h:551-552 | an input where another path loses its value: a name at an array |
| `JsonPointerTree.NamesDistinct` | Livox-SDK2/3rdparty/rapidjson/pointer.h:1105-1126 | different names lead to different places, unless one of them writes a number beyond 32 bits |
| `JsonPointerTree.ShortNamesDistinct` | Livox-SDK2/3rdparty/rapidjson/pointer.h:1105-1126 | in particular when numeric names have at most nine digits, and other names any length |
| `JsonPointerTree.NewContainer` | Livox-SDK2/3rdparty/rapidjson/pointer.h:551-578 | what is no container becomes an array padded with nulls for a numeric token and an object with one member for any other |
| `JsonPointerTree.PlantedArray` | Livox-SDK2/3rdparty/rapidjson/pointer.h:558-565 | the other elements of an array stay, and the gap up to a new one is filled with nulls |
| `JsonPointerTree.PlantedObject` | Livox-SDK2/3rdparty/rapidjson/pointer.h:566-578 | the other members of an object stay in place, and a new one comes last |
| `JsonPointerTree.Tree.CreateValue` | Livox-SDK2/3rdparty/rapidjson/pointer.h:539-585 | the walk down that makes containers and children gives the specified tree and report |
| `JsonPointerTree.Tree.SetValue` | Livox-SDK2/3rdparty/rapidjson/pointer.h:781-790 | the tree is the specified one, and the value is found in it unless a dash met an array |
| `PoolAllocator.Pool.Malloc` | Livox-SDK2/3rdparty/rapidjson/allocators.h:208-220 | a new block inside the used part of a chunk, apart from every live block, or NULL exactly for size 0 or when no chunk is to be had; chunk list, sizes and live blocks stay valid |
| `PoolAllocator.ServedIs` | Livox-SDK2/3rdparty/rapidjson/allocators.h:208-220 | the block is the next part of the head chunk whenever that has room for it, and otherwise the first of a new head chunk of the larger of the pool's capacity and the block |
| `PoolAllocator.RoundUpIs` | Livox-SDK2/3rdparty/rapidjson/rapidjson.h:291-294 | the size reserved is the first multiple of eight that is no smaller |
| `PoolAllocator.Pool.Realloc` | Livox-SDK2/3rdparty/rapidjson/allocators.h:223-253 | keeps a block that is not to grow, grows the last one of the head chunk where there is room, and moves any other; the old bytes are at the returned address and no byte of any live block changes |
| `PoolAllocator.Pool.Relocate` | Livox-SDK2/3rdparty/rapidjson/allocators.h:248-252 | the moved block starts with the old bytes and disturbs no live block |
| `PoolAllocator.Pool.Extend` | Livox-SDK2/3rdparty/rapidjson/allocators.h:236-245 | the block that ends at the top of the head chunk is the last one given out there, and grows |
| `PoolAllocator.Pool.Cut` | Livox-SDK2/3rdparty/rapidjson/allocators.h:216-219 | the block returned is the next unused part of the head chunk, apart from every live block |
| `PoolAllocator.Pool.AddChunk` | Livox-SDK2/3rdparty/rapidjson/allocators.h:268-281 | a chunk from the base allocator becomes the head, or nothing changes |
| `PoolAllocator.Pool.Clear` | Livox-SDK2/3rdparty/rapidjson/allocators.h:178-187 | gives every chunk back exactly once but the user's buffer, which is left empty |
| `PoolAllocator.Pool.FreeHead` | Livox-SDK2/3rdparty/rapidjson/allocators.h:179-183 | what is freed was held from the base allocator, and is not held afterwards |
| `PoolAllocator.Pool.Capacity` | Livox-SDK2/3rdparty/rapidjson/allocators.h:191-196 | the loop over the list sums all capacities, and the sum never wraps |
| `PoolAllocator.Pool.Size` | Livox-SDK2/3rdparty/rapidjson/allocators.h:201-205 | the loop over the list sums all used bytes, and the sum never wraps |
| `PoolAllocator.Pool.BlocksAligned` | Livox-SDK2/3rdparty/rapidjson/rapidjson.h:291-294 | live blocks are 8-aligned; inside the user's buffer exactly when the buffer is |
| `PoolAllocator.NewBlock` | Livox-SDK2/3rdparty/rapidjson/allocators.h:216-219 | cutting from the unused part of the head keeps all live blocks housed and apart |
| `PoolAllocator.GrownBlock` | Livox-SDK2/3rdparty/rapidjson/allocators.h:236-245 | growing the last block keeps all live blocks housed and apart |
| `PoolAllocator.RoomTestExact` | Livox-SDK2/3rdparty/rapidjson/allocators.h:211-212 | the test for room answers rightly if and only if neither of its sums wraps around 2^64 |
| `PoolAllocator.RequestExact` | Livox-SDK2/3rdparty/rapidjson/allocators.h:208-220 | with or without a head chunk, the block of a request lies in what was granted for it if and only if none of the sums made for it wraps: the rounded size, the used bytes with it and, when a chunk is needed, the header with its capacity |
| `PoolAllocator.ReallocExact` | Livox-SDK2/3rdparty/rapidjson/allocators.h:223-253 | the same for a reallocation, whichever of its cases the wrapped sums choose |
| `PoolAllocator.GrantTooSmall` | Livox-SDK2/3rdparty/rapidjson/allocators.h:268-273 | a request that passes the room test rightly and is granted eight bytes |
| `PoolAllocator.SumsFit` | Livox-SDK2/3rdparty/rapidjson/allocators.h:191-205 | the chunks lie apart, so that their capacities sum up to no more than the memory, and the used bytes to no more than these |
| `FileReadStream.FileReadStream.Take` | Livox-SDK2/3rdparty/rapidjson/filereadstream.h:63-67 | the byte of the file at Tell, or NUL at its end, and one step forward that stops at the length |
| `FileReadStream.FileReadStream.Peek` | Livox-SDK2/3rdparty/rapidjson/filereadstream.h:62-62 | the byte of the file at Tell, NUL at the end |
| `FileReadStream.FileReadStream.Tell` | Livox-SDK2/3rdparty/rapidjson/filereadstream.h:68-70 | the bytes taken, at most the length |
| `FileReadStream.FileReadStream.Peek4` | Livox-SDK2/3rdparty/rapidjson/filereadstream.h:85-87 | succeeds exactly when four real bytes of the file are in the buffer from the cursor on |
| `FileReadStream.FileReadStream.Peek4AtStart` | Livox-SDK2/3rdparty/rapidjson/filereadstream.h:85-87 | at the start it succeeds if and only if the file has four bytes |
| `FileReadStream.FileReadStream.Read` | Livox-SDK2/3rdparty/rapidjson/filereadstream.h:90-105 | refilling keeps the buffer a window of the file, for lengths that are exact multiples of the buffer as well |
| `FileReadStream.TakeAll` | Livox-SDK2/3rdparty/rapidjson/filereadstream.h:48-105 | any number of takes gives what the plain file followed by NULs gives |
| `GnssPose.PoseMatcher.DrainRosEvents` | wtrtk_982dt_driver/gps_ntrip_py/gps_ntrip_node.py:498-529 | over any events: what waits and what was published is exactly what the events, one by one, and then expiry and timeout make of it; each position is booked as an arrival and each heading published as a fresh attitude; each position is published at most once and in order of arrival, what is pending is newer than what was published, every arrival is exactly one of published, superseded, cleared and pending, and newly cleared only if there was a disconnect; every pose is marked valid if and only if it pairs a position with a fix that can be projected and a valid heading, and a heading is only paired with a position whose time is within the tolerance; the stored flag is the last pose's, and nothing pending is as old as the tolerance |
| `GnssPose.HeadingDelivered` | wtrtk_982dt_driver/gps_ntrip_py/gps_ntrip_node.py:498-529 | in every round, when a heading is taken from the queue while a sample of its time waits, the sample is published with it, and marked valid exactly when it has a fix and can be projected and the heading is valid |
| `GnssPose.HeadingPairs` | wtrtk_982dt_driver/gps_ntrip_py/gps_ntrip_node.py:599-626 | the new poses after a heading are those of exactly the waiting samples within the tolerance; what waited in front of the last of them waits no longer, and the others still do |
| `GnssPose.PositionPairs` | wtrtk_982dt_driver/gps_ntrip_py/gps_ntrip_node.py:550-562 | a position waits last, and the same happens if the port is ready and the latest heading no older than the timeout |
| `GnssPose.DuePublished` | wtrtk_982dt_driver/gps_ntrip_py/gps_ntrip_node.py:628-639 | exactly the samples that have waited for the tolerance are published, in order and without a heading |
| `GnssPose.WithinIsNear` | wtrtk_982dt_driver/gps_ntrip_py/local_coordinates.py:95-114 | two times match if and only if both are readable and their seconds of the day differ by at most the tolerance, around midnight if need be |
| `GnssPose.PoseMatcher.HandleEvent` | wtrtk_982dt_driver/gps_ntrip_py/gps_ntrip_node.py:504-521 | one event changes the board as specified and, unless it is a disconnect, clears nothing |
| `GnssPose.PoseMatcher.HandleDue` | wtrtk_982dt_driver/gps_ntrip_py/gps_ntrip_node.py:528-529 | expiry publishes exactly the samples that are due, and the timeout at most one stale attitude |
| `GnssPose.EventsBooked` | wtrtk_982dt_driver/gps_ntrip_py/gps_ntrip_node.py:498-529 | every position among the events is an arrival, every heading a fresh attitude, and no published pose is lost |
| `GnssPose.DueCountIs` | wtrtk_982dt_driver/gps_ntrip_py/gps_ntrip_node.py:628-639 | the samples that are due are a first part of the list, of a length that the clock alone determines |
| `GnssPose.PoseMatcher.PublishGga` | wtrtk_982dt_driver/gps_ntrip_py/gps_ntrip_node.py:531-562 | the sample waits behind the others and is matched with the last heading while that is fresh |
| `GnssPose.PoseMatcher.MatchPendingLocalPoses` | wtrtk_982dt_driver/gps_ntrip_py/gps_ntrip_node.py:599-626 | publishes the matching samples in order; what is left is what came after the last match; nothing is cleared |
| `GnssPose.PoseMatcher.ExpirePendingLocalPoses` | wtrtk_982dt_driver/gps_ntrip_py/gps_ntrip_node.py:628-639 | what has waited too long is a first part of the list, and is published without a heading; nothing is cleared |
| `GnssPose.PoseMatcher.PublishLocalPose` | wtrtk_982dt_driver/gps_ntrip_py/gps_ntrip_node.py:564-597 | a pose is valid exactly with a fix, a projection and a valid heading; the stored flag is the message's |
| `GnssPose.PoseMatcher.PublishInvalidLocalPose` | wtrtk_982dt_driver/gps_ntrip_py/gps_ntrip_node.py:641-652 | after it the last pose is not valid |
| `GnssPose.PoseMatcher.HandleHpr` | wtrtk_982dt_driver/gps_ntrip_py/gps_ntrip_node.py:510-512 | a heading is published fresh and matched with what waits |
| `GnssPose.PoseMatcher.HandleDisconnect` | wtrtk_982dt_driver/gps_ntrip_py/gps_ntrip_node.py:519-521 | exactly what waits is cleared, and the last pose is not valid |
| `GnssPose.PoseMatcher.PublishHpr` | wtrtk_982dt_driver/gps_ntrip_py/gps_ntrip_node.py:712-731 | the stale mark says what the last attitude was |
| `GnssPose.PoseMatcher.CheckAttitudeTimeout` | wtrtk_982dt_driver/gps_ntrip_py/gps_ntrip_node.py:733-745 | one stale attitude at most between two fresh ones, and then the last pose is not valid |
| `GnssHistory.Arrives` | wtrtk_982dt_driver/gps_ntrip_py/gps_ntrip_node.py:550-552 | a new sample is newer than all published ones and waits last |
| `GnssHistory.Publishes` | wtrtk_982dt_driver/gps_ntrip_py/gps_ntrip_node.py:616-626 | publishing a waiting sample keeps arrival order and settles the older ones as superseded, each once |
| `GnssHistory.Withdraws` | wtrtk_982dt_driver/gps_ntrip_py/gps_ntrip_node.py:641-652 | a message without a sample leaves every fate as it is |
| `GnssHistory.Clears` | wtrtk_982dt_driver/gps_ntrip_py/gps_ntrip_node.py:519-521 | clearing seals the fate of what waited, and of nothing else |
| `GnssHistory.UtcDistance` | wtrtk_982dt_driver/gps_ntrip_py/local_coordinates.py:111-114 | the difference is a distance on the circle of a day: at most half a day, symmetric, zero for equal times only, and with the triangle inequality |
| `GnssHistory.UtcShorterWay` | wtrtk_982dt_driver/gps_ntrip_py/local_coordinates.py:111-114 | it is the shorter way around a clock of 86400 seconds |
| `GnssHistory.UtcRange` | wtrtk_982dt_driver/gps_ntrip_py/local_coordinates.py:95-108 | a readable time is inside the day |
| `GnssHistory.UtcSum` | wtrtk_982dt_driver/gps_ntrip_py/local_coordinates.py:95-108 | a time is readable if and only if its three numbers are in range, and is their sum in seconds |
| `GnssEventQueue.AllRuns` | wtrtk_982dt_driver/gps_ntrip_py/gps_ntrip_node.py:484-503 | for every interleaving of single queue operations: at most 1024 events, each thread's events delivered in order and at most once, every event in exactly one place, and at most two lost each time a thread found the queue full |
| `GnssEventQueue.RunTallied` | wtrtk_982dt_driver/gps_ntrip_py/gps_ntrip_node.py:484-503 | in every run each take from a queue that is not empty delivers its oldest event, and as many events are lost as threads make room in a full queue or find it full a second time |
| `GnssEventQueue.RoundDelivers` | wtrtk_982dt_driver/gps_ntrip_py/gps_ntrip_node.py:498-503 | a round that no thread interrupts delivers the first 200 events, or all, in order, and loses none |
| `GnssEventQueue.StepKeeps` | wtrtk_982dt_driver/gps_ntrip_py/gps_ntrip_node.py:484-496 | each operation of each thread keeps bound, order and conservation |
| `GnssEventQueue.PutAgainKeeps` | wtrtk_982dt_driver/gps_ntrip_py/gps_ntrip_node.py:493-496 | the second put keeps them even if the queue is full again |
| `GnssEventQueue.DropOldestKeeps` | wtrtk_982dt_driver/gps_ntrip_py/gps_ntrip_node.py:489-492 | dropping the oldest keeps them even if the queue has been drained in between |
| `RtcmQueue.AllRuns` | wtrtk_982dt_driver/gps_ntrip_py/gps_ntrip_node.py:442-466 | for every interleaving, failed openings of the port included: chunks are written in the order received, each at most once, and each is written, queued or lost; one is lost for each full-queue abort, others only after a disconnect |
| `RtcmQueue.AllTallied` | wtrtk_982dt_driver/gps_ntrip_py/gps_ntrip_node.py:360-366 | in every run as many chunks are written as there were writes with the port open and the queue not empty, as many received as there were puts, and as many lost as failures; written, queued and lost are all that were received |
| `RtcmQueue.StepTallied` | wtrtk_982dt_driver/gps_ntrip_py/gps_ntrip_node.py:360-366 | each step does just this, and opens or closes the port as stated |
| `RtcmQueue.WritesDrain` | wtrtk_982dt_driver/gps_ntrip_py/gps_ntrip_node.py:360-366 | while the port is open, as many writes as there are chunks bring all of them to the port in order and leave the queue empty |
| `RtcmQueue.ClearingEmpties` | wtrtk_982dt_driver/gps_ntrip_py/gps_ntrip_node.py:461-466 | after the port is lost the queue is emptied, its chunks are lost in order, and the port is closed |
| `RtcmQueue.NoGaps` | wtrtk_982dt_driver/gps_ntrip_py/gps_ntrip_node.py:360-366 | without a disconnect or an abort the chunks written are all those received, without a gap |
| `RtcmQueue.StepKeeps` | wtrtk_982dt_driver/gps_ntrip_py/gps_ntrip_node.py:442-466 | each operation keeps order and account |
| `NmeaFramer.ChunksDoNotMatter` | wtrtk_982dt_driver/gps_ntrip_py/nmea.py:31-62 | while the residue stays within the limit, any chunking gives the sentences and the buffer of feeding everything at once |
| `NmeaFramer.FrameConcat` | wtrtk_982dt_driver/gps_ntrip_py/nmea.py:36-60 | framing two parts one after the other is framing the whole |
| `NmeaFramer.NmeaLineBuffer.Feed` | wtrtk_982dt_driver/gps_ntrip_py/nmea.py:31-62 | extracts the specified sentences, and the buffer kept is at most the limit and the latest chunk |
| `NmeaFramer.RetainedBound` | wtrtk_982dt_driver/gps_ntrip_py/nmea.py:38-55 | in all runs: after a chunk at most the limit and the chunk are kept |
| `NmeaFramer.SentenceDelivered` | wtrtk_982dt_driver/gps_ntrip_py/nmea.py:36-60 | noise, an ASCII sentence, white space with a line end and anything after it: exactly that sentence is delivered, and framing goes on behind it |
| `NmeaFramer.LineDelivered` | wtrtk_982dt_driver/gps_ntrip_py/nmea.py:36-60 | so is every line that starts with a dollar, cleaned |
| `NmeaFramer.CleanIs` | wtrtk_982dt_driver/gps_ntrip_py/nmea.py:58-58 | cleaning drops the white space around a text and nothing of the text |
| `NmeaFramer.TrimIs` | wtrtk_982dt_driver/gps_ntrip_py/nmea.py:46-54 | within the limit all is kept; beyond it, exactly what begins with the newest dollar behind the first byte, or nothing |
| `NmeaFramer.LineIsSentence` | wtrtk_982dt_driver/gps_ntrip_py/nmea.py:57-60 | the final test for a dollar never drops a line |
| `NtripResponse.ChunksDoNotMatter` | wtrtk_982dt_driver/gps_ntrip_py/ntrip.py:63-104 | below the header limit the bytes handed on, or the rejection, are those of the whole input, for every response but an ICY one with a header |
| `NtripResponse.ChunksMatterExactly` | wtrtk_982dt_driver/gps_ntrip_py/ntrip.py:63-104 | every division of an input below the header limit gives what the whole input gives, if and only if the input has no ICY status line, ending within the limit, that is followed by an empty line or by what looks like a header |
| `NtripResponse.AcceptedHttp` | wtrtk_982dt_driver/gps_ntrip_py/ntrip.py:81-85 | an accepted HTTP response yields exactly the bytes after the first blank line, for every chunking |
| `NtripVerdict.Verdicts` | wtrtk_982dt_driver/gps_ntrip_py/ntrip.py:63-104 | for every division below the limit, said of the bytes: a bad status exactly when the first line is complete and its second word is not 200; unsupported exactly when it is 200 and the line opens neither HTTP nor ICY; an HTTP response is accepted exactly when there is a blank line, with the bytes behind it; an ICY one with all behind the status line, or with what is behind the blank line of its header |
| `NtripVerdict.SecondWordIs` | wtrtk_982dt_driver/gps_ntrip_py/ntrip.py:74-77 | the second word is 200 if and only if it stands there between white space |
| `NtripResponse.ResponseExtends` | wtrtk_982dt_driver/gps_ntrip_py/ntrip.py:71-104 | what is decided stays decided, and later bytes are handed on, ICY responses without a header included |
| `NtripResponse.NtripResponseParser.Feed` | wtrtk_982dt_driver/gps_ntrip_py/ntrip.py:63-104 | one call decides as the specification of all bytes so far |
| `NtripResponse.IcyChunksMatter` | wtrtk_982dt_driver/gps_ntrip_py/ntrip.py:86-98 | an ICY response with a header that is held back whole and handed on in two chunks |

## Left out

- JsonReader.Reader.ParseLiteral: stands for the three methods for null, true and false, which differ in their letters only.
- JsonReader.Reader.Accumulate: stands for the four digit loops, which differ in sign and width only.
- JsonReader.Reader.ParseFraction: keeps the significand exact and counts the digits kept; the roundings of the double accumulator are not modelled.
- JsonDom.IntegerLiteralExact: beyond 64 bits it gives the exact significand; its rounding to a double is not modelled.
- JsonReader.Reader.IterativeParse: counts are unbounded; the source's 32-bit counts would wrap beyond 2^32 items.
- JsonReader.Reader.ParseString: the copied string is kept in a field of its own, not on the stack that the automaton's states share.
- JsonPointerTree.Tree.CreateValue: values are immutable here, so the walk keeps a path and rebuilds the tree; aliasing of values inside one tree is not modelled.
- JsonPointerParser.Stringify: a failed print leaves unspecified output.
- PoolAllocator.Pool.Malloc: requires that no sum of the request wraps; by `RequestExact` the source then, and only then, hands out a block inside its grant.
- PoolAllocator.Pool.Realloc: requires the same of the sums it makes, by `ReallocExact`.
- PoolAllocator.Pool.Relocate: requires the same of the size it asks for.
- PoolAllocator.Pool.AddChunk: is granted the header and the capacity, without a wrap; the three header fields of a chunk are an object beside the memory, not bytes in it.
- FastCrc.Update16: stands for the loops that the source repeats for each 16-bit check.
- FileReadStream.FileReadStream.Read: a short read means the end of the file; read errors are not modelled.
- GnssPose.PoseMatcher.DrainRosEvents: the latest heading and the state of the port may change between events, and are read once for each.
- GnssHistory.UtcDistance: times are real numbers, so that the triangle inequality is exact here, and up to rounding only in the source's floats; the three numbers of a time field are given, not read from text.
- GnssPose.PoseMatcher.PublishLocalPose: the projection is a yes or no per sample; coordinates and headings are not modelled.
- NtripResponse.ChunksDoNotMatter: excludes ICY responses with a header; `ChunksMatterExactly` shows that it fails for each of them.
- Handlers that refuse an event, comment and NaN/Inf flags, encoding validation, full precision, numbers as strings, and the SIMD scanners.
- The conversion of significand and exponent to a double, `internal/strtod.h`.
- `prettywriter.h` and the writer it extends; the text forms of values are not printed here.
- The 7-bit and 8-bit checks, CKSUM, and the `mcrf4xx` entries, whose one-shot seed disagrees with its comment.
- Sockets, serial ports, publishers, parameters, diagnostics and threads of the GNSS node; only queues and steps are modelled.
- NMEA field parsing and checksums, the caster request, and the ENU projection.
- The SDK's device, command and upgrade managers and the ROS driver's queues, whose dependencies are not part of this model.
