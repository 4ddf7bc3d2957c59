# Verified models of XUL components

XUL is a C++ utility library. This project models seven of its components, those whose loops,
in-place updates and arithmetic carry the risk, and proves what each of them promises:

- **SHA-1** (`Sha1Words`, `Sha1Spec`, `Sha1Answer`, `Sha1Transform`, `Sha1Stream`). `Sha1Spec` is FIPS 180-4
  as it stands: the 80-word schedule and the register shift of section 6.1.2, the padding of section 5.1.1.
  `Sha1Answer` derives the known digest of the message "abc" from it.
  `Sha1Transform` is the code: a 16-word block overwritten in place and registers that rotate through
  the round macros (section 6.1.3). `Sha1Stream` is the context with its buffer and split bit counter.
- **Big integers** (`ByteValue`, `ByteShift`, `BigNumber`, `Hex`). Numbers of N bytes, for every N, are
  arrays changed in place; their meaning is `Val`, the sum of the bytes times powers of 256.
- **BMF** (`BmfInteger`, `Bmf`, `BmfFormat`). A variable-length integer code below a tagged format of nested
  lists and dictionaries; the writer appends to a stream and the reader recurs over one. `BmfFormat` states
  the bytes as literal numbers.
- **Stream framing** (`LineSplit`, `LineDecoder`, `BitConverter`, `PacketStream`, `PacketPipe`).
  Incremental decoders, against a split or a parse of the whole stream.
- **Flow meters** (`FlowMeter`, `FlowRuns`). Rings of counts with a running sum, against the history.
- **JSON writer** (`JsonText`, `JsonReader`, `JsonWriter`). A context stack, comma flags and an indentation
  counter, against a recursive rendering of a tree; and a reader of the text that gives the tree back.
- **Send queue and base64** (`SendProtocol`, `SendQueue`, `Base64Text`, `Base64`). The queue is a state
  machine over calls and completions; base64 is a codec with its inverse and its bounds.

Classes stand where the source has objects whose fields change; each method's contract ties the new
state to a function of the old one, and the theorems are about those functions. `Arithmetic`, `Bits`,
`ByteOrder`, `Chunks`, `Streams` and `Wrappers` hold what several parts need. `dafny verify dfyconfig.toml` checks everything.

Results that a reader of the source may not expect:

- An update of the SHA-1 context writes outside its buffer when the bytes waiting and the new length
  together reach 2^32; below that the digest is right for every way of cutting a message, and
  `HashChunks` says that this is the exact condition.
- `a *= a` on one object gives 0, because the object is cleared before it is read; `a * a` is right.
  A division by zero clears the number before it throws.
- The packet pipe returns the payloads before the first length that is 0 or above the maximum, and never
  gets past that. With a negative maximum the position and a length can wrap in 32 bits, and a read then
  returns a negative size; `SafeExactly` says for which maxima that cannot happen.
- The line decoder's assertion that no more than the maximum is buffered can fail after a feed before
  which nothing was waiting: when that feed leaves a longer rest, or when the decoder is aborted, which
  keeps all bytes. `EntryAssertion` says for every state exactly when it holds.
- The clock-driven meter sees a gap between calls only modulo the length of its ring, so old bytes can
  count again; `ExactIff` says exactly when.
- A dictionary read from BMF keeps the first of two entries with the same key.
- A failed receive or a completed connect, while a write is outstanding, lets a second write start;
  every other step keeps the queue in order.
- Base64 text whose last group is padded is not decoded correctly when a line break follows it. The
  decoder reads past the end of a text, and past the zero behind it, when its last group starts with one
  or two characters left, as for a single letter; it may then also write more than is reserved.
  `ReadWithin` is the exact condition.

## Model

| member | source | states |
|---|---|---|
| Sha1Words.ChooseIsCh | include/xul/hash/sha1.hpp:45-46 | the form of Ch that the rounds compute is the one of section 4.1.1 |
| Sha1Words.MajorityIsMaj | include/xul/hash/sha1.hpp:48 | the form of Maj that the rounds compute is the one of section 4.1.1 |
| Sha1Words.SwapBytesReverses | include/xul/hash/sha1.hpp:25-32 | the two masked rotations turn a little-endian word into the big-endian word of its bytes |
| Sha1Words.WordByteInverse | include/xul/hash/sha1.hpp:191-195 | the four bytes of a state word in the digest, the highest first, are those that give the word back |
| Sha1Transform.WindowWord | include/xul/hash/sha1.hpp:42-43 | the four slots of the 16-word block that are combined hold the schedule words t-3, t-8, t-14 and t-16, so the result is word t of the 80-word schedule |
| Sha1Transform.MacroIsRound | include/xul/hash/sha1.hpp:45-49 | one macro, with its two changed registers, is one step of the five-register shift |
| Sha1Transform.FiveRounds | include/xul/hash/sha1.hpp:69-88 | after five macros with rotated roles the registers are those of five rounds, and stand in their own places again |
| Sha1Transform.Transform | include/xul/hash/sha1.hpp:51-97 | for every state and block the in-place compression gives the state that section 6.1.2 defines |
| Sha1Spec.FoldAppend | include/xul/hash/sha1.hpp:119-128 | compressing the blocks of two messages one after the other is compressing the blocks of both together |
| Sha1Answer.Abc | include/xul/hash/sha1.hpp:51-196 | the digest of "abc" is a9993e36 4706816a ba3e2571 7850c26c 9cd0d89d, byte by byte |
| Sha1Answer.PaddingParts | include/xul/hash/sha1.hpp:174-190 | behind a message come one byte 128, then zeros only, then the eight bytes of its bit length, and fewer would not fill up the last block |
| Sha1Answer.FoldTwo | include/xul/hash/sha1.hpp:119-128 | the second block is compressed from the hash of the first one |
| Sha1Stream.CountSum | include/xul/hash/sha1.hpp:117-118 | the two counter words, with the carry taken from the overflow of the lower one, add up modulo 2^64 |
| Sha1Stream.TailLength | include/xul/hash/sha1.hpp:116 | bits 3 to 8 of the counter are the number of bytes waiting in the buffer |
| Sha1Stream.LengthByte | include/xul/hash/sha1.hpp:178-184 | the eight bytes taken from the counter are the bit length of the message, the highest first |
| Sha1Stream.Context.Init | include/xul/hash/sha1.hpp:145-154 | a new context has hashed the empty message |
| Sha1Stream.Context.Update | include/xul/hash/sha1.hpp:108-137 | succeeds exactly when the waiting bytes and the new ones stay below 2^32, and then the state, buffer and counter are those of the longer message |
| Sha1Stream.Context.Pad | include/xul/hash/sha1.hpp:186-188 | the padding loop ends, having added the byte 80 and the least number of zeros that leaves room for the length |
| Sha1Stream.Context.Final | include/xul/hash/sha1.hpp:174-196 | the digest is that of the padded message |
| Sha1Stream.HashChunks | include/xul/hash/sha1.hpp:108-196 | for every cut of a message into updates: all succeed exactly when no update reaches 2^32 with the waiting bytes, and then the digest is SHA-1 of the whole message |
| Sha1Stream.WaitingByteThenMost | include/xul/hash/sha1.hpp:116-119 | after one waiting byte, the one length below 2^32 that fails is 2^32 - 1 |
| BigNumbers.BigNumber.AddAssign | include/xul/data/big_number.hpp:189-199 | the value becomes the sum modulo 256^N, also for `a += a`; no carry leaves 16 bits |
| BigNumbers.BigNumber.SubAssign | include/xul/data/big_number.hpp:201-205 | the value becomes the difference modulo 256^N |
| BigNumbers.BigNumber.Increment | include/xul/data/big_number.hpp:95-100 | the value grows by one modulo 256^N |
| BigNumbers.BigNumber.Decrement | include/xul/data/big_number.hpp:101-106 | the value falls by one modulo 256^N |
| BigNumbers.BigNumber.Negate | include/xul/data/big_number.hpp:89-93 | the value becomes its negative modulo 256^N |
| BigNumbers.BigNumber.Negated | include/xul/data/big_number.hpp:288-295 | a new number with the negative value modulo 256^N |
| BigNumbers.BigNumber.Compare | include/xul/data/big_number.hpp:173-181 | the order of the values |
| BigNumbers.BigNumber.BitLength | include/xul/data/big_number.hpp:108-123 | the least k with value below 2^k |
| BigNumbers.BigNumber.ShiftLeftAssign | include/xul/data/big_number.hpp:339-376 | for every shift, also one of 8N and more, the value times 2^s modulo 256^N, although source and target bytes overlap |
| BigNumbers.BigNumber.ShiftRightAssign | include/xul/data/big_number.hpp:377-413 | for every shift the value divided by 2^s |
| ByteShift.ShlValue | include/xul/data/big_number.hpp:339-376 | bytes shifted up by n bytes and k bits have the value times 2^(8n+k), less what leaves at the top |
| ByteShift.ShrValue | include/xul/data/big_number.hpp:377-413 | bytes shifted down by n bytes and k bits have the value divided by 2^(8n+k) |
| BigNumbers.SumFits | include/xul/data/big_number.hpp:216 | carry, byte and product of two bytes never leave the 16-bit accumulator |
| BigNumbers.RowStep | include/xul/data/big_number.hpp:214-219 | one step of a row, with byte and carry taken from the accumulator, keeps the value of the row so far |
| BigNumbers.BigNumber.MulAssign | include/xul/data/big_number.hpp:207-222 | for another operand the product modulo 256^N; for the object itself 0 |
| BigNumbers.BigNumber.Product | include/xul/data/big_number.hpp:321 | the product modulo 256^N for every operand, also for a square |
| BigNumbers.Aligned | include/xul/data/big_number.hpp:229-236 | shifting the divisor to the length of the number loses no bits |
| BigNumbers.DivStep | include/xul/data/big_number.hpp:237-245 | a comparison, subtraction and quotient bit keep quotient times divisor plus remainder, and halve the bound on the remainder |
| BigNumbers.FreeBit | include/xul/data/big_number.hpp:242 | the quotient bit set in its byte was free, so setting it adds its power of two |
| BigNumbers.BigNumber.DivAssign | include/xul/data/big_number.hpp:223-248 | fails exactly for a zero divisor, leaving 0; otherwise the value becomes the quotient |
| Hex.Encode | include/xul/text/hex_encoding.hpp:65-76 | two digits for each byte, the high half first, in the chosen case |
| Hex.AllDigits | include/xul/text/hex_encoding.hpp:65-76 | the bytes 01 23 45 67 89 ab cd ef give "0123456789ABCDEF" in upper case and "0123456789abcdef" in lower case |
| Hex.CaseOfDigits | include/xul/text/hex_encoding.hpp:65-76 | no text in one case has letters of the other |
| Hex.Decode | include/xul/text/hex_encoding.hpp:106-123 | succeeds exactly for a nonempty even number of hexadecimal digits that fit; the pairs before a bad one are stored either way |
| Hex.DecodeEncode | include/xul/text/hex_encoding.hpp:65-123 | decoding the digits of any bytes gives them back |
| Hex.EncodeDecode | include/xul/text/hex_encoding.hpp:65-123 | encoding what a digit string decodes to gives it back up to case |
| Hex.FormatIsNumeral | include/xul/data/big_number.hpp:438-441 | the text of a number, read as a hexadecimal numeral, is its value |
| Hex.FormatParse | include/xul/data/big_number.hpp:438-456 | the text of any number of bytes parses back to the same bytes, in either case |
| Hex.ParseFormat | include/xul/data/big_number.hpp:438-456 | a numeral that parses formats back to itself up to case |
| Hex.ReverseBytes | include/xul/data/big_number.hpp:465-468 | the bytes in the opposite order, in place |
| Hex.TryParse | include/xul/data/big_number.hpp:448-456 | succeeds exactly for 2N hexadecimal digits, and then the number has the numeral's value |
| Hex.FormatThenParse | include/xul/data/big_number.hpp:438-456 | parsing a formatted number of at least one byte succeeds and restores it |
| BmfInteger.InClass | include/xul/io/bmf_integer_encoding.hpp:6-16 | the test of the loop against the limit table holds exactly for the magnitudes of the class in the header table |
| BmfInteger.Encode | include/xul/io/bmf_integer_encoding.hpp:34-64 | appends the code of the value: its length class, sign, flag and bytes |
| BmfInteger.DecodeFrom | include/xul/io/bmf_integer_encoding.hpp:65-93 | for every input, what the code at its front stands for, or failure, with the bytes consumed |
| BmfInteger.DecodeEncoded | include/xul/io/bmf_integer_encoding.hpp:34-93 | for every 64-bit value and any trailing bytes, the code decodes to the value and the trailing bytes are left |
| BmfInteger.EncodedIsShortest | include/xul/io/bmf_integer_encoding.hpp:34-93 | no shorter byte string decodes to the value |
| BmfInteger.CodeInClass | include/xul/io/bmf_integer_encoding.hpp:65-93 | a code of n bytes never stands for a magnitude above the class of n |
| BmfFormat.ClassStarts | include/xul/io/bmf_integer_encoding.hpp:34-64 | the codes of 0, 2^6, 2^13, 2^20 and 2^27, each the first of its length, as literal bytes |
| BmfFormat.LongClassStarts | include/xul/io/bmf_integer_encoding.hpp:34-64 | the same for 2^34, 2^40, 2^48 and 2^56 |
| BmfFormat.ClassEnds | include/xul/io/bmf_integer_encoding.hpp:34-64 | the codes of 2^6 - 1, 2^13 - 1 and 2^20 - 1, each the last of its length, and of two negative numbers |
| BmfFormat.MiddleClassEnds | include/xul/io/bmf_integer_encoding.hpp:34-64 | the same for 2^27 - 1, 2^34 - 1 and 2^40 - 1 |
| BmfFormat.LongClassEnds | include/xul/io/bmf_integer_encoding.hpp:34-64 | the same for 2^48 - 1, and for 2^56 - 1 with either sign |
| Bmf.ReadWritten | include/xul/io/bmf_writer.hpp:42-94 | a written tree of integers, strings within the limit, lists and dictionaries is read back, and exactly its bytes are consumed, whatever follows |
| BmfFormat.IntegerForm | include/xul/io/bmf_writer.hpp:42-46 | an integer is written as the byte 1 and its code, and those bytes are read as that integer, whatever follows |
| BmfFormat.TextForm | include/xul/io/bmf_writer.hpp:48-62 | a string is the byte 7, the code of its length and its bytes, and is read from them |
| BmfFormat.ListForm | include/xul/io/bmf_writer.hpp:78-94 | a list is the byte 10, the bytes of its items and the byte 17, and is read as the items in order, each as what it was written from |
| BmfFormat.ListBytesAppend | include/xul/io/bmf_writer.hpp:78-94 | the bytes of the items of a list stand one after the other |
| BmfFormat.DictForm | include/xul/io/bmf_writer.hpp:78-94 | a dictionary is the byte 13, the bytes of its entries and the byte 17, and is read as the map from each key to the value of its first entry |
| BmfFormat.DictBytesAppend | include/xul/io/bmf_writer.hpp:78-94 | the bytes of the entries of a dictionary stand one after the other |
| BmfFormat.DictBytesOne | include/xul/io/bmf_writer.hpp:48-62 | an entry is the byte 7, the code of the length of the key, the key and the bytes of the value |
| BmfFormat.CutInput | include/xul/io/bmf_reader.hpp:36-139 | no input, one tag alone, and a list or dictionary without its end tag all give nothing and leave nothing |
| BmfFormat.CutList | include/xul/io/bmf_reader.hpp:107-120 | the bytes of any items without an end tag behind them give nothing, whatever was read before |
| BmfFormat.CutDict | include/xul/io/bmf_reader.hpp:121-139 | the same for the entries of a dictionary |
| BmfFormat.OtherTag | include/xul/io/bmf_reader.hpp:66-80 | a tag other than 1, 7, 10 and 13 gives nothing and takes only itself; in a list it leaves an empty place, and the tag 17 ends the list |
| BmfFormat.KeyTag | include/xul/io/bmf_reader.hpp:121-139 | a dictionary ends at the tag 17, and comes to nothing at any tag but 17 and that of a key |
| BmfFormat.BadLength | include/xul/io/bmf_reader.hpp:95-106 | a string with a length above 128 KiB or beyond the input gives nothing and takes only its tag and length; a negative length throws |
| Bmf.FirstKeyWins | include/xul/io/bmf_reader.hpp:121-139 | for all entries, the dictionary read back has just the written keys, each with the value of the first entry that has it |
| Bmf.DistinctKeys | include/xul/io/bmf_reader.hpp:121-139 | so when the keys differ, every entry is found under its key |
| Bmf.StringLimit | include/xul/io/bmf_reader.hpp:95-106 | a string is read back exactly when it has at most 128 KiB |
| Bmf.ReadBackExactly | include/xul/io/bmf_reader.hpp:36-139 | a tree with distinct keys is read back exactly when none of its strings and keys is above the limit |
| Bmf.WriteTree | include/xul/io/bmf_writer.hpp:42-94 | the writer's calls for a tree, with strings of less than 2^31 bytes, append its written form |
| Bmf.BmfReader.ReadNext | include/xul/io/bmf_reader.hpp:36-42 | on every byte string the reader ends with the outcome that the bytes have, within the bytes there are; a negative string length is an exception |
| Bmf.BmfReader.ReadItems | include/xul/io/bmf_reader.hpp:107-120 | the loop over the items of a list ends, and gives the items up to the end tag |
| Bmf.BmfReader.ReadEntries | include/xul/io/bmf_reader.hpp:121-139 | the loop over the entries of a dictionary ends, and gives the entries up to the end tag |
| Bmf.BmfReader.TryReadString | include/xul/io/bmf_reader.hpp:95-106 | the text, a failure for what is too long or cut off, or the exception for a negative length |
| Bmf.NegativeLengthThrows | include/xul/io/bmf_reader.hpp:95-106 | a string tag and the code of -1 raise the exception |
| Bmf.WriteThenRead | include/xul/io/bmf_reader.hpp:36-139 | a tree written to one stream and read from it again is equal, and the trailing bytes remain |
| LineSplit.SplitAppend | include/xul/io/codec/line_message_decoder.hpp:26-41 | splitting more bytes continues from the rest of the split so far |
| LineSplit.SplitConcat | include/xul/io/codec/line_message_decoder.hpp:26-41 | the messages and the rest make up the stream |
| LineSplit.SplitMessages | include/xul/io/codec/line_message_decoder.hpp:26-41 | every message ends with its only delimiter, and the rest has none |
| LineSplit.SplitUnique | include/xul/io/codec/line_message_decoder.hpp:26-41 | no other division of the stream has these properties |
| LineDecoding.LineDecoder.DoDecode | include/xul/io/codec/line_message_decoder.hpp:26-41 | delivers the bytes up to the leftmost delimiter, or nothing where there is none |
| LineDecoding.LineDecoder.DecodeBuffer | include/xul/io/codec/buffered_message_decoder.hpp:112-137 | delivers all complete messages in order until the listener aborts, and reports the bytes they take |
| LineDecoding.LineDecoder.Feed | include/xul/io/codec/buffered_message_decoder.hpp:37-77 | the new state is that of the specification, with the overflow error against the maximum as an unsigned size, and the bytes kept |
| LineDecoding.LineDecoder.Reset | include/xul/io/codec/buffered_message_decoder.hpp:79-85 | the buffer is empty and decoding starts afresh |
| LineDecoding.LineDecoder.Abort | include/xul/io/codec/buffered_message_decoder.hpp:87-91 | the buffer is empty and decoding is off |
| LineDecoding.ChunksDoNotMatter | include/xul/io/codec/buffered_message_decoder.hpp:37-147 | for every cut of a stream within the limit the messages delivered are those of one leftmost split of the whole, up to the one at which the listener aborts |
| LineDecoding.ChunksFrom | include/xul/io/codec/buffered_message_decoder.hpp:37-147 | the same from every state in which nothing waits and decoding is on: the messages come behind those delivered before |
| LineDecoding.ResetStartsAfresh | include/xul/io/codec/buffered_message_decoder.hpp:79-85 | from every state, aborted or not, a reset followed by any feeds within the limit delivers the messages of the split of those feeds |
| LineDecoding.DeliverExactly | include/xul/io/codec/buffered_message_decoder.hpp:112-137 | the listener gets the messages in order, all of them or up to the first at which it aborts |
| LineDecoding.ListenerAborts | include/xul/io/codec/buffered_message_decoder.hpp:37-77 | a listener that aborts is no error; the bytes behind its last message are kept when nothing waited before the feed, and dropped otherwise |
| LineDecoding.BytesConserved | include/xul/io/codec/buffered_message_decoder.hpp:37-147 | the bytes delivered and the bytes waiting make up the bytes fed |
| LineDecoding.ErrorsAreOverflows | include/xul/io/codec/buffered_message_decoder.hpp:57-62 | an error is reported exactly when some feed goes over the limit |
| LineDecoding.OverflowIsError | include/xul/io/codec/buffered_message_decoder.hpp:57-62 | in every state a feed counts one error exactly when bytes wait and the sum is above the limit, and then nothing is delivered or kept and decoding is off |
| LineDecoding.OverflowEnds | include/xul/io/codec/buffered_message_decoder.hpp:55-62 | from the first chunk that goes over the limit on, what has been delivered is what the stream before that chunk gives, whatever follows |
| LineDecoding.EntryAssertion | include/xul/io/codec/buffered_message_decoder.hpp:37-77 | in every state, aborted or not: the assertion at the start of the next feed holds exactly when bytes were waiting before this feed, or when it keeps no more than the maximum of its own |
| LineDecoding.EntryAssertionOnStream | include/xul/io/codec/buffered_message_decoder.hpp:37-77 | on a stream within the limit that nothing aborts: exactly when there was a rest before the last feed, or that feed alone leaves no longer one than the maximum |
| LineDecoding.EntryAssertionFails | include/xul/io/codec/buffered_message_decoder.hpp:40-53 | a first feed of two bytes with a maximum of one breaks it |
| LineDecoding.AbortedEntryAssertionFails | include/xul/io/codec/buffered_message_decoder.hpp:40-53 | after an abort, a feed of a whole message of two bytes with a maximum of one breaks it too |
| LineDecoding.AbortedStaysSilent | include/xul/io/codec/buffered_message_decoder.hpp:79-137 | after an abort nothing more is delivered, whatever is fed, until a reset |
| BitConverter.DwordRoundTrip | include/xul/data/bit_converter.hpp:101-185 | a 32-bit number stored and loaded in either byte order is the same |
| BitConverter.DwordInverse | include/xul/data/bit_converter.hpp:101-185 | four bytes loaded and stored in either byte order are the same |
| BitConverter.FromDwordIsBigEndian | include/xul/data/bit_converter.hpp:168-185 | a stored number is its four bytes, the highest first, or the same in reverse |
| BitConverter.DwordOfBytes | include/xul/data/bit_converter.hpp:101-115 | the bytes 1 2 3 4 are 0x01020304 or 0x04030201 |
| PacketStream.ParseAppend | include/xul/io/codec/message_packet_pipe.hpp:33-60 | the parse of more bytes continues from the rest of the parse so far |
| PacketStream.ParseConserves | include/xul/io/codec/message_packet_pipe.hpp:39-60 | the frames of the payloads and the rest are the stream |
| PacketStream.ShortFrame | include/xul/io/codec/message_packet_pipe.hpp:39-60 | a frame of fewer than 256 bytes is three zeros and its length, in the chosen order, and the payload; alone in a stream it parses into that payload and nothing is left |
| PacketStream.ParsePrefix | include/xul/io/codec/message_packet_pipe.hpp:39-60 | any beginning of frames of any lengths parses into the payloads whose frames are complete, up to the first length that is not allowed |
| PacketStream.ParseFrames | include/xul/io/codec/message_packet_pipe.hpp:44-54 | a stream of frames gives all payloads exactly when every length is between 1 and the limit, and otherwise those before the first other one |
| PacketStream.BlockedExactly | include/xul/io/codec/message_packet_pipe.hpp:44-54 | once the next length has come in, no further bytes can add a payload exactly when that length is 0 or above the limit |
| PacketPipes.FetchExactly | include/xul/io/codec/message_packet_pipe.hpp:39-60 | one read is what the frames ask for exactly when the sum of position and length does not wrap into the buffer; if it does, the size is negative and the position moves by it |
| PacketPipes.SafeExactly | include/xul/io/codec/message_packet_pipe.hpp:17-60 | for a maximum as a C++ int, the bytes are conserved on all runs exactly when the maximum is not negative, or is the least int |
| PacketPipes.MinusOneRewinds | include/xul/io/codec/message_packet_pipe.hpp:44-59 | with a maximum of -1, five bytes give a size of -4 and the position stays |
| PacketPipes.PacketPipe.Feed | include/xul/io/codec/message_packet_pipe.hpp:33-37 | the bytes waiting grow by those fed, and nothing read before comes back |
| PacketPipes.PacketPipe.Read | include/xul/io/codec/message_packet_pipe.hpp:39-60 | packet, reported size and new position for every maximum, with the sum taken in 32 bits |
| PacketPipes.RunParses | include/xul/io/codec/message_packet_pipe.hpp:33-84 | on every run with a safe maximum, whatever the lengths in the stream, the parse of all bytes fed is what was returned and the parse of the bytes waiting |
| PacketPipes.BytesConserved | include/xul/io/codec/message_packet_pipe.hpp:33-84 | the frames of the payloads returned and the bytes waiting make up the bytes fed |
| PacketPipes.InOrderOnceComplete | include/xul/io/codec/message_packet_pipe.hpp:33-84 | on every interleaving of feeds and reads the payloads come back once each, in the order of the parse of all bytes fed, and the next read gives the next one exactly when there is one |
| PacketPipes.FramesReturned | include/xul/io/codec/message_packet_pipe.hpp:33-84 | for frames of any lengths, fed in any pieces: the payloads before the first length that is not allowed come back, each as soon as its frame is complete, and nothing else |
| PacketPipes.AllReturnedExactly | include/xul/io/codec/message_packet_pipe.hpp:33-84 | when all has been read, every payload has come back exactly when every length was between 1 and the limit |
| PacketPipes.EmptyFrameBlocks | include/xul/io/codec/message_packet_pipe.hpp:50-54 | of an empty frame with one of a byte behind it nothing is parsed, and a read finds nothing and does not move |
| PacketPipes.BadLengthBlocks | include/xul/io/codec/message_packet_pipe.hpp:44-54 | once a length of 0 or above the limit has been fed behind good frames, nothing but those frames is ever returned |
| PacketPipes.RunPipe | include/xul/io/codec/message_packet_pipe.hpp:33-84 | the pipe, driven by feeds and reads, has the state of the specification, with these properties |
| FlowMeters.FlowMeter.Add | include/xul/util/flow_meter.hpp:53-62 | the running second grows by the bytes and one packet, and every sum with it |
| FlowMeters.FlowMeter.Update | include/xul/util/flow_meter.hpp:65-77 | the running second joins the history, the oldest one leaves the sum, and no sum is ever negative |
| FlowMeters.FlowMeter.Clear | include/xul/util/flow_meter.hpp:109-121 | the history is empty again |
| FlowMeters.SlotHolds | include/xul/util/flow_meter.hpp:68-74 | each of the last N seconds is still in its slot of the ring |
| FlowMeters.LastStep | include/xul/util/flow_meter.hpp:71-74 | the sum of the last N seconds changes by the one that comes in and the one that goes out |
| FlowMeters.FlowMeter.RecentIsWindow | include/xul/util/flow_meter.hpp:53-77 | the reported sum is that of the running second and the last N completed ones |
| FlowMeters.EmptiedRing | include/xul/util/flow_meter.hpp:220-237 | emptying the slots on the way to a new position, going round, moves the ring on by that many seconds |
| FlowMeters.SimpleFlowMeter.StepNext | include/xul/util/flow_meter.hpp:220-237 | the ring moves on to the new position, and the running sum stays the sum of the slots and not negative |
| FlowMeters.SimpleFlowMeter.Update | include/xul/util/flow_meter.hpp:166-175 | the ring moves on by the seconds since the last call, modulo its length |
| FlowMeters.SimpleFlowMeter.Add | include/xul/util/flow_meter.hpp:147-163 | the same, and then the bytes and one packet are added to the current second and to the totals |
| FlowMeters.SimpleFlowMeter.Clear | include/xul/util/flow_meter.hpp:203-217 | every slot is empty, the totals are 0 and the clock starts again |
| FlowMeters.SimpleFlowMeter.RecentIsRing | include/xul/util/flow_meter.hpp:147-175 | the running sum is always the sum of the slots, and not negative |
| FlowRuns.Run | include/xul/util/flow_meter.hpp:140-237 | on every run of calls the meter's sum is that of the ring which the run leads to, and its totals are all that was added |
| FlowRuns.SecondsRoundedUp | include/xul/util/flow_meter.hpp:147-153 | the milliseconds elapsed are rounded up to seconds, and every count is kept |
| FlowRuns.EverythingIsTotal | include/xul/util/flow_meter.hpp:147-163 | the totals count every addition of the run |
| FlowRuns.RingIsWindow | include/xul/util/flow_meter.hpp:147-237 | slot by slot, the ring is the window of the run with its gaps reduced modulo N |
| FlowRuns.SumIsRetimedWindow | include/xul/util/flow_meter.hpp:147-237 | the reported sum is what was added in the last N seconds of that run |
| FlowRuns.ExactIff | include/xul/util/flow_meter.hpp:147-237 | for every run, the sum is exact just when no addition at least N seconds old looks younger through the shortened gaps |
| FlowRuns.FrequentCallsExact | include/xul/util/flow_meter.hpp:147-237 | the sum is exact when calls are fewer than N seconds apart |
| FlowRuns.LateCallKeepsOldBytes | include/xul/util/flow_meter.hpp:166-175 | five slots, an addition at once and a call five seconds later: the old bytes are still reported |
| JsonWriting.JsonWriter.StartScalar | include/xul/text/json_writer.hpp:18-36 | the comma, line, indentation and name that the context asks for |
| JsonWriting.JsonWriter.WriteElementStart | include/xul/text/json_writer.hpp:41-78 | the start of an element, with the outer brace at the root, and the new context on the stack |
| JsonWriting.JsonWriter.WriteElementEnd | include/xul/text/json_writer.hpp:79-103 | the end of the innermost element, with the outer brace after the root |
| JsonWriting.JsonWriter.EndDict | include/xul/text/structured_text_writer.hpp:152-162 | ends the innermost element, and does nothing where none is open |
| JsonWriting.JsonWriter.SetIndentation | include/xul/text/structured_text_writer.hpp:118-122 | the unit is kept between 0 and 256 |
| JsonText.IndentationFollowsDepth | include/xul/text/structured_text_writer.hpp:138-211 | after any events, well nested or not, the indentation is one unit more than the open elements inside a document, and 0 outside |
| JsonText.TreeRendered | include/xul/text/json_writer.hpp:18-103 | the events of any tree, in any context, append exactly its recursive rendering and restore the stack and the indentation |
| JsonText.AllRendered | include/xul/text/json_writer.hpp:18-103 | the events of several items append their renderings, joined by commas |
| JsonText.DocumentRendered | include/xul/text/json_writer.hpp:18-103 | from a new writer the events of a tree give the whole document |
| JsonReader.ValueReadBack | include/xul/text/json_writer.hpp:18-130 | the text of any value, in every layout with blank line feeds and at every depth, is read back as that value, whatever follows it |
| JsonReader.DocumentReadBack | include/xul/text/json_writer.hpp:41-130 | the document of a dictionary or list is read back as a dictionary with that element under its name as its only entry, and nothing is left |
| JsonReader.ScalarReadBack | include/xul/text/json_writer.hpp:18-40 | the document of a scalar is read back as its name and value |
| JsonReader.ScalarText | include/xul/text/json_writer.hpp:18-130 | the text of a named value, a named string and a null string: the name in quotes, a spaced colon, and the value or the string in quotes |
| JsonReader.CompressedText | include/xul/text/json_writer.hpp:18-130 | the whole text of a dictionary of two and of a list of two without line breaks |
| JsonReader.IndentedText | include/xul/text/json_writer.hpp:18-130 | the whole text of the same with line breaks and two spaces for each level |
| JsonText.LineWidth | include/xul/text/structured_text_writer.hpp:188-211 | a line starts with the line feed and as many spaces as the unit times the depth, and with nothing when compressed |
| JsonText.EndsInnermost | include/xul/text/structured_text_writer.hpp:152-182 | either end event ends the innermost element with the mark of its kind, and does nothing where none is open |
| JsonWriting.WriteTree | include/xul/text/json_writer.hpp:18-103 | the writer, driven by the events of a tree, appends its rendering |
| JsonWriting.Render | include/xul/text/json_writer.hpp:10-103 | the text of a document for either mode and every indentation asked for |
| SendQueue.TcpSocket.SendN | include/xul/libs/asio/asio_tcp_socket.hpp:242-259 | refuses exactly when the queue is full; otherwise the buffer joins the queue, and is written at once when it is alone |
| SendQueue.TcpSocket.ProcessSendingQueue | include/xul/libs/asio/asio_tcp_socket.hpp:398-412 | starts the write of the front buffer, or drops the queue of a closed socket |
| SendQueue.TcpSocket.OnSend | include/xul/libs/asio/asio_tcp_socket.hpp:339-375 | a completion takes the front buffer off and starts the next write; a failure drops the queue |
| SendQueue.TcpSocket.Close | include/xul/libs/asio/asio_tcp_socket.hpp:198-212 | the socket is closed and the queue kept |
| SendProtocol.RunKeeps | include/xul/libs/asio/asio_tcp_socket.hpp:198-412 | on every orderly run at most one write is outstanding, that of the front buffer, exactly while the queue is not empty, and every accepted buffer is accounted for in order |
| SendProtocol.OrderlyIsNeeded | include/xul/libs/asio/asio_tcp_socket.hpp:314-396 | a step keeps that property exactly when it is no failed receive or completed connect during a write |
| SendProtocol.ClosedStartsNothing | include/xul/libs/asio/asio_tcp_socket.hpp:398-412 | no step, orderly or not, starts a write on a closed socket, and none but a connect opens it |
| SendProtocol.ClosedSendDropped | include/xul/libs/asio/asio_tcp_socket.hpp:398-412 | a buffer sent on a closed and idle socket is accepted, dropped and settled as not written |
| SendProtocol.ClosedRun | include/xul/libs/asio/asio_tcp_socket.hpp:198-412 | on an orderly run, while the socket stays closed, nothing is started, only the outstanding write may still complete, and once it is gone the queue is empty and all that was accepted is settled |
| SendProtocol.CloseEndsWrites | include/xul/libs/asio/asio_tcp_socket.hpp:198-212 | on an orderly run, from a close to the next connect, no write starts, and at most the outstanding one completes |
| SendProtocol.Connections | include/xul/libs/asio/asio_tcp_socket.hpp:198-396 | close, connect and failures end the connection; failures and completed connects settle the whole queue as not written; a maximum of 0 changes nothing |
| SendProtocol.SixteenWait | include/xul/libs/asio/asio_tcp_socket.hpp:242-259 | of buffers sent without any completion, the first sixteen are accepted and only the first is started |
| SendProtocol.SecondWrite | include/xul/libs/asio/asio_tcp_socket.hpp:321-333 | after a receive failed during a write, the next buffer starts a second write |
| SendProtocol.QueueBounded | include/xul/libs/asio/asio_tcp_socket.hpp:242-249 | the queue is never longer than the largest maximum it has had |
| SendProtocol.WritesArePrefix | include/xul/libs/asio/asio_tcp_socket.hpp:242-412 | until the first close or failed write, the writes are a prefix of the accepted buffers, in order and once each, and nothing waits without a write |
| SendProtocol.LifeOfQueue | include/xul/libs/asio/asio_tcp_socket.hpp:198-412 | these results for the whole life of a connected socket, with the maximum of 16 |
| SendQueue.RunSocket | include/xul/libs/asio/asio_tcp_socket.hpp:198-412 | the socket, driven by the steps of an orderly run, has the state of the machine |
| Base64Text.EncodedLength | include/xul/text/base64_encoding.hpp:228-239 | the text has four characters for every three bytes begun, and fits in what is reserved |
| Base64Text.LettersAreAlphabet | include/xul/text/base64_encoding.hpp:65-71 | the letters of the 64 values are those of the table, in order |
| Base64Text.TestVectors | include/xul/text/base64_encoding.hpp:134-187 | the texts of nothing, "f", "fo", "foo" and "foobar" are those of section 10 of RFC 4648 |
| Base64Text.GroupRoundTrip | include/xul/text/base64_encoding.hpp:198-216 | the four characters of one to three bytes decode to them, whatever follows; pads are not taken |
| Base64Text.RoundTrip | include/xul/text/base64_encoding.hpp:134-225 | decoding the text of any bytes gives them back |
| Base64Text.BrokenRoundTrip | include/xul/text/base64_encoding.hpp:189-225 | with line breaks anywhere between the groups this still holds exactly when no break follows a padded group |
| Base64Text.LineFeedBehindPads | include/xul/text/base64_encoding.hpp:189-225 | the text of the byte 65 and a line feed behind it decode to that byte and three zeros |
| Base64Text.DecodedFits | include/xul/text/base64_encoding.hpp:241-244 | where the text is not read beyond its end, the decoder writes no more bytes than it has, which is what is reserved |
| Base64Text.ReadWithin | include/xul/text/base64_encoding.hpp:196-223 | for every text of characters in the table, with any pads and line breaks: it is read within its end exactly when its groups are whole, or when the last one starts with at least three characters left |
| Base64Text.WholeGroups | include/xul/text/base64_encoding.hpp:196-216 | without line breaks the groups are whole exactly when the length is a multiple of four, wherever there are pads |
| Base64Text.ReadWithinUnpadded | include/xul/text/base64_encoding.hpp:196-223 | without pads and line breaks, exactly the lengths 0 and 3 modulo 4 are read within the text |
| Base64Text.OneLetterReadBeyond | include/xul/text/base64_encoding.hpp:200-204 | the text of one letter is read beyond its end |
| Base64Text.UrlSafeDecoded | include/xul/text/base64_encoding.hpp:79-103 | every text decodes the same with the letters of the other alphabet |
| Base64.DoEncode | include/xul/text/base64_encoding.hpp:134-187 | fills the start of a large enough buffer with the text, and returns its length |
| Base64.DoDecode | include/xul/text/base64_encoding.hpp:189-225 | fills the start of the buffer with the decoded bytes, or finds that the text is read beyond its end, which for characters in the table happens exactly when the last group starts with one or two characters left |
| Base64.Encode | include/xul/text/base64_encoding.hpp:30-41 | the text of the data, from which the data is decoded |

## Left out

- Sha1Transform.FiveRounds: the eighty unrolled macro calls are sixteen times five with the same roles, since the roles repeat after five.
- Sha1Stream.Context.Update: where the sum of waiting bytes and length reaches 2^32, the model stops instead of writing outside the buffer.
- Sha1Stream.HashChunks: from 2^61 bytes on, the length in the padding is the length modulo 2^64 bits, which the standard does not define.
- BmfInteger.Encode: the negation of the least 64-bit value, undefined in C++, wraps.
- BmfInteger.DecodeFrom: shifts and negation of the 64-bit result wrap in two's complement.
- Bmf.WriteTree: the writer passes the length of a string to its stream as a C++ int, so strings of 2^31 bytes and more are not written as the model says.
- Bmf.BmfWriter.WriteString: the same, for one string.
- Bmf.ReadBackExactly: speaks only of strings below 2^63 bytes, and of dictionaries whose keys differ.
- LineDecoding.LineDecoder.OnMessage: a listener's only effect on the decoder is to abort, by a function of the messages delivered so far; a decoder whose `do_decode` fails, and listeners that feed or reset from within, are not part of this model.
- PacketPipes.PacketPipe.Read: buffers of 2^31 bytes and more, where the C++ int of the position would overflow, are outside the theorems about runs.
- PacketPipes.InOrderOnceComplete: speaks of the safe maxima only, since for the others the source does not keep the bytes.
- LineDecoding.LineDecoder.Feed: the assertion at its start does not stop the model; when it holds is a theorem. At 2^31 bytes in the buffer, which only a negative maximum lets it reach by many feeds, the C++ ints of position and length would overflow.
- FlowMeters.FlowMeter.Add: the widths of the counters are not modelled, so a sum that overflows a C++ int is not either.
- FlowRuns.Run: the clock is a parameter of every call and does not run backwards; a slot number beyond the C++ int is not modelled.
- JsonWriting.JsonWriter.WriteSimpleValue: numbers arrive as text, since the standard library formats them; strings are not escaped, as in the source.
- JsonReader.ValueReadBack: speaks of names and strings without quotes, which the writer does not escape, and of plain values that hold no blank, comma or closing mark and start with no opening one; null strings and names in lists leave no trace in the text.
- JsonReader.ScalarReadBack: the same.
- JsonReader.DocumentReadBack: the same.
- JsonText.TreeRendered: the indentation unit and the line feed stay the same while a document is open.
- SendProtocol.RunKeeps: listener callbacks are later steps of the run; a call by a listener from within a completion handler comes after the handler has finished with the queue, as in the source.
- Base64Text.Decoded: one zero stands behind the text, as behind a C++ string; reading beyond it, or a table entry for a character above 127, is undefined and ends the decoding.
- Base64.DoEncode: the line delimiter is empty, as by default; the branch for another one, which does not advance the output, is left out.
- Rates in bytes per second of the meters: they read a second clock, and divide.
- The other operators of the big numbers (bitwise and, or, xor, conversions): they are one-line loops or call the operators proved here.
- AMF, the tokenizer, URI handling, threads, timers, files, logging, the Lua bindings and the rest of the library: foreign calls, or easy members.
