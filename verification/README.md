# Verified model of the media plugin's byte-level code

The Stream Deck media plugin talks to its host over WebSockets and ships the code that does so:
websocketpp for framing, UTF-8 and URIs, asio for buffers. It adds a title that scrolls over a
button and a search for its own folder on Windows. This project models that code in Dafny and
proves what it is relied on for.

| module | models |
|---|---|
| `Bytes`, `MachineWord`, `WordValues` | bytes, and machine words as octets in either byte order, tied to integer arithmetic |
| `Masking` | payload masking of section 5.3 of RFC 6455, fast and slow |
| `FrameHeader` | frame headers of section 5.2 of RFC 6455 |
| `Rfc3629`, `Utf8Table`, `Utf8` | the grammar of section 4 of RFC 3629, the table-driven decoder and the validator |
| `Buffers`, `BufferCopy`, `BuffersIterator`, `Linearise` | scatter/gather buffers in one memory, copying between them and iterating over them |
| `StreamBuf` | the stream buffer, a byte queue in one array |
| `Text`, `WindowsPaths` | path handling and the search for the plugin folder |
| `Decimals`, `Uris` | URI parsing and printing |
| `ScrollingTitle` | the scrolling title and the thread that ticks it |

Code that updates its state in place is a class or an array method, proved against a function of
the old state; the results about runs, round trips and refinement are lemmas about those functions.
`dafny verify dfyconfig.toml` checks everything.

Where the code and its comments differ, the model follows the code:

- `word_mask_circ` is documented to rewrite the trailing bytes of the last whole word with their old
  values (frame.hpp:743-758). The code writes exactly `length` bytes, and so does the model.
- `validator::decode` and `consume` are documented to return whether there was a validation error
  (utf8_validator.hpp:89, 102). They return true when there was none; `decode` also returns true on an
  empty range after an earlier rejection.
- `prepare` promises only to throw when the size would exceed the maximum (basic_streambuf.hpp:214-219),
  but the input can be changed by then: `reserve` moves it before it throws. `FailedReserve` says exactly when.
- `uri::str` does not put back the brackets of an IPv6 address (uri.hpp:274-285). `ParseRoundTripIff`
  says exactly which URIs survive.
- A refresh of the title is meant to stay set until a draw happens (MediaStreamDeckPlugin.cpp:88-92),
  but one that is set between the check and the clearing is lost. `RefreshRestartsIff` says exactly when.

How the model reads the code:

- Bytes are integers below 256, with xor and or defined bit by bit. Words are sequences of octets; a
  platform is a byte order and a word size of 4 or 8.
- Memory shared by buffers is one array, a buffer is an address and a size, and the regions given to
  `buffer_copy` do not overlap, as its documentation demands.
- An exception is a boolean result, `false`. After it the state is what the code leaves behind.
- `atoi` clamps a value that does not fit an `int`, as the Microsoft C library documents; the C standard
  leaves that case open. A URI that does not parse has no promised fields.
- Masking routines take the place in the array at which their pointers point. Input and output start
  at the same place of two arrays, which may be one.
- In the thread model of the title, every access to the shared flags and the title is one step, and any
  other change may happen between two steps. An exception ends the thread.

## Model

| member | source | states |
|---|---|---|
| `Masking.StreamingRefinesByteMask` | Sources/Vendor/websocketpp/websocketpp/frame.hpp:768-789 | however a message is cut into chunks, whichever of the two circular routines masks each, on either byte order and word size: the concatenated output is the whole message masked byte by byte from offset 0 |
| `Masking.MaskChunksRefine` | Sources/Vendor/websocketpp/websocketpp/frame.hpp:830-841 | the same from any phase of the key, and the key the last call returns fits the bytes that come next |
| `Masking.MaskChunkRefines` | Sources/Vendor/websocketpp/websocketpp/frame.hpp:612-623 | one chunk: the output is the section 5.3 mask at the current phase, and the rotated key stands for the phase after the chunk |
| `Masking.UnmaskingRecovers` | Sources/Vendor/websocketpp/websocketpp/frame.hpp:751-753 | a peer with another byte order and word size that receives the masked stream in other pieces recovers the message |
| `Masking.MaskInPieces` | Sources/Vendor/websocketpp/websocketpp/frame.hpp:768-859 | an array masked in place piece by piece by either circular routine, in any mixture, each call fed the key the last one returned, ends up masked as one message |
| `Masking.MaskPiece` | Sources/Vendor/websocketpp/websocketpp/frame.hpp:768-859 | one piece of an array is masked at its phase, the bytes around it stay, and the returned key is prepared for what follows |
| `Masking.RepeatTwice` | Sources/Vendor/websocketpp/websocketpp/frame.hpp:768-789 | masking twice with the same prepared word is the identity |
| `Masking.MaskTwice` | Sources/Vendor/websocketpp/websocketpp/frame.hpp:626-634 | masking twice with the same key and offset is the identity |
| `Masking.MaskConcat` | Sources/Vendor/websocketpp/websocketpp/frame.hpp:641-643 | a message masked in two parts, the second at the offset where the first ends, is masked as a whole |
| `Masking.ByteMask` | Sources/Vendor/websocketpp/websocketpp/frame.hpp:644-679 | the byte loop, in place or not, writes the section 5.3 mask at the given offset and nothing after it |
| `Bytes.ByteSums` | Sources/Vendor/websocketpp/websocketpp/frame.hpp:649-652 | what the xor of the mask computes: the xor of two bytes and twice their and add up to their sum, and so do their or and their and |
| `Bytes.BitsAt` | Sources/Vendor/websocketpp/websocketpp/frame.hpp:649-652 | place by place: xor has a one exactly where the digits differ, or where one is one, and where both are |
| `Masking.PreparedKey` | Sources/Vendor/websocketpp/websocketpp/frame.hpp:595-604 | the memory image of the prepared word is the key repeated, on either byte order and word size |
| `Masking.PreparedShift` | Sources/Vendor/websocketpp/websocketpp/frame.hpp:612-623 | circularly shifting a prepared key by the bytes already masked gives the key prepared for the next phase |
| `Masking.WordMaskExact` | Sources/Vendor/websocketpp/websocketpp/frame.hpp:702-735 | whole words and a byte-wise remainder write exactly the section 5.3 mask at offset 0; bytes from length on stay |
| `Masking.MaskWords` | Sources/Vendor/websocketpp/websocketpp/frame.hpp:707-712 | the word loop masks exactly the whole words, byte by byte equal to the repeated memory image of the key |
| `Masking.WordMaskCirc` | Sources/Vendor/websocketpp/websocketpp/frame.hpp:768-807 | exactly length bytes are masked with the repeated memory image, and the key is returned shifted by the length modulo the word size |
| `Masking.ByteMaskCirc` | Sources/Vendor/websocketpp/websocketpp/frame.hpp:830-859 | exactly length bytes are masked with the low 32 bits of the prepared key, and the key is returned shifted |
| `MachineWord.CircshiftRotatesMemory` | Sources/Vendor/websocketpp/websocketpp/frame.hpp:612-623 | two shifts and an or, whose directions depend on the byte order, rotate the memory image of the word on both |
| `WordValues.BitwiseValues` | Sources/Vendor/websocketpp/websocketpp/frame.hpp:600-602 | xor and or on octets are bitwise xor and or of the machine integers |
| `WordValues.ShiftRightValue` | Sources/Vendor/websocketpp/websocketpp/frame.hpp:617-621 | dropping low octets is the right shift of the integer: quotient by a power of 256, with the lost remainder named |
| `WordValues.ShiftLeftValue` | Sources/Vendor/websocketpp/websocketpp/frame.hpp:617-621 | moving octets up is the left shift modulo the word: product by a power of 256, with the part that leaves the word named |
| `WordValues.ValueIdentifies` | Sources/Vendor/websocketpp/websocketpp/frame.hpp:55-70 | words of one size with equal integer values have equal octets |
| `FrameHeader.HeaderRoundTrip` | Sources/Vendor/websocketpp/websocketpp/frame.hpp:489-529 | for every flags, 4-bit opcode, 64-bit size and optional key, what one machine encodes any other decodes to the same contents, and the header length computed from the first bytes is the length of the string |
| `FrameHeader.WireFormat` | Sources/Vendor/websocketpp/websocketpp/frame.hpp:489-502 | the bytes of the header for every size and optional key in numbers: two fixed bytes, nothing, two bytes or eight bytes of the size with the highest first, and the key |
| `FrameHeader.FixedBytes` | Sources/Vendor/websocketpp/websocketpp/frame.hpp:173-228 | both fixed bytes in numbers: flags at 128, 64, 32 and 16 over the opcode, the mask bit at 128 over the size, 126 or 127 |
| `FrameHeader.HeaderLengths` | Sources/Vendor/websocketpp/websocketpp/frame.hpp:445-477 | the length in numbers: two bytes, two more at 126 or eight at 127, and four for the key |
| `FrameHeader.ReadFixedBytes` | Sources/Vendor/websocketpp/websocketpp/frame.hpp:321-433 | the flags and the opcode that are read add up to the first byte by their weights; the mask bit and the size code are the second byte divided by 128 |
| `FrameHeader.ReadSize` | Sources/Vendor/websocketpp/websocketpp/frame.hpp:540-585 | the size is the seven bits, or at 126 the next two and at 127 the next eight bytes with the highest first, on either byte order |
| `FrameHeader.ReadKey` | Sources/Vendor/websocketpp/websocketpp/frame.hpp:516-529 | the key is the four bytes behind the size, and zeros without the mask bit |
| `FrameHeader.MemoryValues` | Sources/Vendor/websocketpp/websocketpp/frame.hpp:55-70 | what an integer in memory is worth on either byte order |
| `FrameHeader.HeadersPrefixFree` | Sources/Vendor/websocketpp/websocketpp/frame.hpp:445-477 | no encoded header is a proper prefix of another: the first two bytes fix the length |
| `FrameHeader.EncodingIsShortest` | Sources/Vendor/websocketpp/websocketpp/frame.hpp:216-228 | no complete header with the same contents is shorter than the encoded one, and one is as short exactly when its size is in the shortest form of section 5.2 of RFC 6455 |
| `FrameHeader.ReencodeIffMinimal` | Sources/Vendor/websocketpp/websocketpp/frame.hpp:573-585 | decoding any complete header and encoding the result gives the same bytes exactly for headers in shortest form |
| `FrameHeader.SizeFieldBytes` | Sources/Vendor/websocketpp/websocketpp/frame.hpp:260-274 | the copied tail of the byte-swapped 64-bit size is the big-endian size in 0, 2 or 8 bytes, on either byte order |
| `FrameHeader.SizeDecoded` | Sources/Vendor/websocketpp/websocketpp/frame.hpp:540-585 | the size read back from the second byte and the extended bytes is the size that was written, on either byte order |
| `FrameHeader.OctetsOfValue` | Sources/Vendor/websocketpp/websocketpp/frame.hpp:67-70 | octets put together to an integer and taken apart again are the same octets |
| `FrameHeader.OctetsValue` | Sources/Vendor/websocketpp/websocketpp/frame.hpp:67-70 | an integer that fits, taken apart into octets and put together again, is the same integer |
| `FrameHeader.FieldsAreDisjoint` | Sources/Vendor/websocketpp/websocketpp/frame.hpp:198-210 | or-ing the flags and the opcode into the first byte adds their weights: the fields share no bits |
| `FrameHeader.BitsOfByte` | Sources/Vendor/websocketpp/websocketpp/frame.hpp:321-433 | the masks of the getters cut out exactly the flags by weight, the opcode, the mask bit and the seven bits of the size |
| `FrameHeader.FlagsRoundTrip` | Sources/Vendor/websocketpp/websocketpp/frame.hpp:321-395 | each flag and the opcode are read from the first byte as they were set |
| `FrameHeader.FirstByteOfFlags` | Sources/Vendor/websocketpp/websocketpp/frame.hpp:173-178 | the five fields use all bits of the first byte: setting what was read restores it |
| `FrameHeader.BasicHeader.constructor` | Sources/Vendor/websocketpp/websocketpp/frame.hpp:194-228 | both fixed bytes, from the flags, the low four bits of the opcode, the mask bit and the size |
| `FrameHeader.ExtendedHeader.constructor` | Sources/Vendor/websocketpp/websocketpp/frame.hpp:240-244 | the size field followed by zeros |
| `FrameHeader.ExtendedHeader.WithKey` | Sources/Vendor/websocketpp/websocketpp/frame.hpp:246-256 | the size field, the key behind it, and zeros |
| `FrameHeader.ExtendedHeader.CopyPayload` | Sources/Vendor/websocketpp/websocketpp/frame.hpp:260-274 | writes the size field at the start, returns its length and leaves the other bytes |
| `Utf8.AcceptedIffWellFormed` | Sources/Vendor/websocketpp/websocketpp/utf8_validator.hpp:45-78 | the automaton ends in accept exactly on concatenations of the well-formed sequences of section 4 of RFC 3629: no overlong forms, no surrogates, nothing above U+10FFFF |
| `Rfc3629.WellFormedIffEncoded` | Sources/Vendor/websocketpp/websocketpp/utf8_validator.hpp:45-60 | the strings of that grammar are exactly the encodings of lists of scalar values |
| `Utf8.NextCodeBits` | Sources/Vendor/websocketpp/websocketpp/utf8_validator.hpp:72-74 | the code point in shifts, masks and an or on 32-bit integers is the one the results are about |
| `Utf8.Validate` | Sources/Vendor/websocketpp/websocketpp/utf8_validator.hpp:143-149 | true exactly for those strings |
| `Utf8.ChunkedVerdict` | Sources/Vendor/websocketpp/websocketpp/utf8_validator.hpp:104-126 | a message validated chunk by chunk, wherever it is cut, gets the verdict of the whole |
| `Utf8.FeedRuns` | Sources/Vendor/websocketpp/websocketpp/utf8_validator.hpp:105-118 | after any chunks the state is that of one run over their concatenation, and all calls returned true exactly when it is not the reject state |
| `Utf8.RejectAbsorbs` | Sources/Vendor/websocketpp/websocketpp/utf8_validator.hpp:56 | no bytes lead out of the reject state |
| `Utf8.RunChar` | Sources/Vendor/websocketpp/websocketpp/utf8_validator.hpp:69-78 | over one well-formed sequence the state is accept at the last byte and neither accept nor reject before it |
| `Utf8.CodeOfScalar` | Sources/Vendor/websocketpp/websocketpp/utf8_validator.hpp:69-78 | from accept, the bytes of a scalar value leave exactly that value in the code point, whatever was there before |
| `Utf8.DecodeEncode` | Sources/Vendor/websocketpp/websocketpp/utf8_validator.hpp:69-78 | decoding the encoding of a list of scalar values gives back the list |
| `Utf8.EncodeDecode` | Sources/Vendor/websocketpp/websocketpp/utf8_validator.hpp:69-78 | encoding what was decoded from an accepted string gives back the string |
| `Utf8Table.TableIsDelta` | Sources/Vendor/websocketpp/websocketpp/utf8_validator.hpp:45-60 | every entry a byte can reach: each byte has its class, and each transition from each state is the one the byte ranges call for |
| `Utf8.Decode` | Sources/Vendor/websocketpp/websocketpp/utf8_validator.hpp:69-78 | one step through both pointers: the next state and the new 32-bit code point |
| `Utf8.Validator.Consume` | Sources/Vendor/websocketpp/websocketpp/utf8_validator.hpp:91-96 | one step of the validator, false exactly when it rejects |
| `Utf8.Validator.DecodeRange` | Sources/Vendor/websocketpp/websocketpp/utf8_validator.hpp:105-118 | the state of the run over the whole range although it stops at a rejection; true exactly when the range is empty or not rejected |
| `Utf8.Validator.IsComplete` | Sources/Vendor/websocketpp/websocketpp/utf8_validator.hpp:124-126 | whether the state is accept |
| `Utf8.Validator.Reset` | Sources/Vendor/websocketpp/websocketpp/utf8_validator.hpp:129-132 | the state and the code point of a new validator |
| `Utf8.Validator.constructor` | Sources/Vendor/websocketpp/websocketpp/utf8_validator.hpp:84 | a new validator is in the accept state |
| `Buffers.BufferSize` | Sources/Vendor/asio/include/asio/buffer.hpp:508-521 | the number of bytes of the flattened sequence |
| `Buffers.FlatAt` | Sources/Vendor/asio/include/asio/buffer.hpp:599-614 | a buffer offset by some bytes is a stretch of the flattened sequence |
| `Buffers.PlusAndLimited` | Sources/Vendor/asio/include/asio/buffer.hpp:599-614 | offsetting a buffer drops its first bytes, limiting it its last, and neither more than there are |
| `BufferCopy.BufferCopy1` | Sources/Vendor/asio/include/asio/buffer.hpp:1880-1890 | copies the smaller size, into nothing but the first bytes of the target, and nothing at all for a size of zero |
| `BufferCopy.CopyOneOne` | Sources/Vendor/asio/include/asio/buffer.hpp:1892-1908 | as the next row, for one target and one source buffer, with and without a limit |
| `BufferCopy.CopyManyManyLimited` | Sources/Vendor/asio/include/asio/buffer.hpp:2000-2046 | terminates with empty buffers anywhere, returns the least of both totals and the limit, writes exactly that prefix of the flattened source to the flattened target and changes no other byte |
| `BufferCopy.CopyManyMany` | Sources/Vendor/asio/include/asio/buffer.hpp:1956-1998 | the same without a limit |
| `BufferCopy.CopyOneMany` | Sources/Vendor/asio/include/asio/buffer.hpp:1910-1931 | the same for one target buffer |
| `BufferCopy.CopyManyOne` | Sources/Vendor/asio/include/asio/buffer.hpp:1933-1954 | the same for one source buffer |
| `Linearise.LineariseAndRead` | Sources/Vendor/asio/include/asio/buffer.hpp:755-763 | copying into one buffer of the total size puts there the bytes that an iterator reads from the sequence, in order |
| `BuffersIterator.Iterator.Begin` | Sources/Vendor/asio/include/asio/buffers_iterator.hpp:167-184 | the canonical place of position 0: the first non-empty buffer, or the end |
| `BuffersIterator.Iterator.End` | Sources/Vendor/asio/include/asio/buffers_iterator.hpp:187-203 | position is the total size, at the canonical place of the end |
| `BuffersIterator.Iterator.Dereference` | Sources/Vendor/asio/include/asio/buffers_iterator.hpp:341-345 | the byte of the flattened sequence at the position |
| `BuffersIterator.Iterator.Increment` | Sources/Vendor/asio/include/asio/buffers_iterator.hpp:354-374 | the canonical place of the next position, past any empty buffers |
| `BuffersIterator.Iterator.Decrement` | Sources/Vendor/asio/include/asio/buffers_iterator.hpp:377-404 | the canonical place of the position before, past any empty buffers, also from the end |
| `BuffersIterator.Iterator.Advance` | Sources/Vendor/asio/include/asio/buffers_iterator.hpp:407-485 | terminates for both signs and moves to the canonical place of the position n further |
| `BuffersIterator.Iterator.AdvanceForward` | Sources/Vendor/asio/include/asio/buffers_iterator.hpp:409-441 | the forward loop |
| `BuffersIterator.Iterator.AdvanceBack` | Sources/Vendor/asio/include/asio/buffers_iterator.hpp:442-484 | the backward loop |
| `BuffersIterator.Iterator.FindPrevious` | Sources/Vendor/asio/include/asio/buffers_iterator.hpp:468-482 | the end of the last non-empty buffer before the current one, at the same position |
| `BuffersIterator.Iterator.FindNonEmpty` | Sources/Vendor/asio/include/asio/buffers_iterator.hpp:365-373 | the next non-empty buffer, or the end, at the same position |
| `BuffersIterator.CanonicalUnique` | Sources/Vendor/asio/include/asio/buffers_iterator.hpp:347-351 | a position has one canonical place, so iterators compared by position compare by place |
| `BuffersIterator.LocateCanonical` | Sources/Vendor/asio/include/asio/buffers_iterator.hpp:167-203 | every position up to the total size has a canonical place |
| `BuffersIterator.CanonicalByte` | Sources/Vendor/asio/include/asio/buffers_iterator.hpp:341-345 | the current buffer at the current offset is the flattened sequence at the position |
| `BuffersIterator.MovesCompose` | Sources/Vendor/asio/include/asio/buffers_iterator.hpp:407-485 | moving by m and then by n is moving by m + n, for both signs |
| `BuffersIterator.MoveUndone` | Sources/Vendor/asio/include/asio/buffers_iterator.hpp:407-485 | moving by n and back by n returns to the same place |
| `BuffersIterator.MoveIsSteps` | Sources/Vendor/asio/include/asio/buffers_iterator.hpp:407-485 | moving by a distance of either sign is that many single increments or decrements |
| `BuffersIterator.BeginToEnd` | Sources/Vendor/asio/include/asio/buffers_iterator.hpp:167-203 | moving the begin iterator by the total size gives the end iterator |
| `Linearise.ReadAll` | Sources/Vendor/asio/include/asio/buffers_iterator.hpp:340-374 | reading from begin to end gives the contents of the flattened sequence |
| `StreamBuf.RunIsFifo` | Sources/Vendor/asio/include/asio/basic_streambuf.hpp:214-306 | over any run of operations up to the first that throws: bytes taken, then bytes left, are the bytes that were there, then bytes added; the pointers stay in order within max_size |
| `StreamBuf.StepResult` | Sources/Vendor/asio/include/asio/basic_streambuf.hpp:214-306 | every operation, also one that throws, keeps the state valid; one that does not throw takes from the front and appends at the end only |
| `StreamBuf.ReserveResult` | Sources/Vendor/asio/include/asio/basic_streambuf.hpp:308-346 | reserve throws exactly when size plus n exceeds max_size; otherwise compaction and growth keep the input and make room for n bytes |
| `StreamBuf.ReserveRoom` | Sources/Vendor/asio/include/asio/basic_streambuf.hpp:308-346 | enough room is left as it is; else there is what the array has behind the moved input, or exactly what is asked for |
| `StreamBuf.NewServesMaximum` | Sources/Vendor/asio/include/asio/basic_streambuf.hpp:131-141 | a new streambuf grants a request exactly up to the maximum it was made with |
| `StreamBuf.StepSucceedsIff` | Sources/Vendor/asio/include/asio/basic_streambuf.hpp:214-306 | an operation is refused exactly for want of room, each in its own terms |
| `StreamBuf.RegrownResult` | Sources/Vendor/asio/include/asio/basic_streambuf.hpp:328-346 | after the bytes are moved: the pointers start over at the start of the array, and the array keeps its size if the bytes fit and otherwise gets the size they need |
| `StreamBuf.FailedReserve` | Sources/Vendor/asio/include/asio/basic_streambuf.hpp:321-340 | after a reserve that throws, the input is what it was exactly when the get pointer is at the start or the input repeats with the period of the consumed bytes |
| `StreamBuf.FailedReserveExample` | Sources/Vendor/asio/include/asio/basic_streambuf.hpp:321-340 | an input of two bytes that a throwing reserve changes |
| `StreamBuf.PrepareWriteCommit` | Sources/Vendor/asio/include/asio/basic_streambuf.hpp:214-238 | what is prepared, written and committed arrives at the end of the input |
| `StreamBuf.CommitResult` | Sources/Vendor/asio/include/asio/basic_streambuf.hpp:233-238 | the input gains exactly the first n bytes of the output sequence, or all of them, which the output loses, and all of it can be got |
| `StreamBuf.ConsumeResult` | Sources/Vendor/asio/include/asio/basic_streambuf.hpp:247-254 | the input loses its first n bytes, or all; the output stays |
| `StreamBuf.UnderflowResult` | Sources/Vendor/asio/include/asio/basic_streambuf.hpp:263-274 | the first input byte, or end of file exactly when there is none; the get area is not empty afterwards if there was one |
| `StreamBuf.OverflowResult` | Sources/Vendor/asio/include/asio/basic_streambuf.hpp:283-306 | a character is appended, or refused exactly when the put area is full and size equals max_size, which changes nothing |
| `StreamBuf.OverflowMakesRoom` | Sources/Vendor/asio/include/asio/basic_streambuf.hpp:283-303 | on a full put area a character first gets room for 128, or for as many as max_size leaves |
| `StreamBuf.ConstructResult` | Sources/Vendor/asio/include/asio/basic_streambuf.hpp:131-141 | an empty input, the given maximum, and room for 128 bytes or the maximum if that is less |
| `StreamBuf.BasicStreambuf.constructor` | Sources/Vendor/asio/include/asio/basic_streambuf.hpp:131-141 | the maximum is the given one, and the array with its pointers is the state of the row before |
| `StreamBuf.BasicStreambuf.GetSize` | Sources/Vendor/asio/include/asio/basic_streambuf.hpp:158-161 | the length of the input sequence |
| `StreamBuf.BasicStreambuf.Data` | Sources/Vendor/asio/include/asio/basic_streambuf.hpp:192-196 | the input sequence |
| `StreamBuf.BasicStreambuf.Prepare` | Sources/Vendor/asio/include/asio/basic_streambuf.hpp:214-219 | throws exactly when size plus n exceeds max_size, else keeps the input and makes room |
| `StreamBuf.BasicStreambuf.DoCommit` | Sources/Vendor/asio/include/asio/basic_streambuf.hpp:233-238 | appends exactly the first bytes of the put area to the input, in the same array |
| `StreamBuf.BasicStreambuf.DoConsume` | Sources/Vendor/asio/include/asio/basic_streambuf.hpp:247-254 | drops the first n bytes of the input, or all |
| `StreamBuf.BasicStreambuf.DoUnderflow` | Sources/Vendor/asio/include/asio/basic_streambuf.hpp:263-274 | extends the get area to the put pointer and returns the first byte, or end of file |
| `StreamBuf.BasicStreambuf.DoOverflow` | Sources/Vendor/asio/include/asio/basic_streambuf.hpp:283-306 | refuses a character exactly when size equals max_size on a full put area, and appends it otherwise |
| `StreamBuf.BasicStreambuf.ReserveSpace` | Sources/Vendor/asio/include/asio/basic_streambuf.hpp:308-346 | the array code of reserve does to the state what its specification says |
| `StreamBuf.BasicStreambuf.Regrow` | Sources/Vendor/asio/include/asio/basic_streambuf.hpp:328-346 | the array code of the second half of reserve does what its specification says |
| `StreamBuf.BasicStreambuf.RoomForOne` | Sources/Vendor/asio/include/asio/basic_streambuf.hpp:287-298 | reserves 128 bytes, or what is left up to max_size, for a full put area |
| `WindowsPaths.GetPluginPath` | Sources/Common/ESDUtilitiesWindows.cpp:244-269 | terminates for every start; returns the nearest path in the chain of folders whose file name ends in .sdPlugin, and nothing exactly when no path of the chain has such a name |
| `WindowsPaths.PluginIff` | Sources/Common/ESDUtilitiesWindows.cpp:253-258 | the extension of a path is .sdPlugin exactly when its file name ends so |
| `WindowsPaths.FolderPathShape` | Sources/Common/ESDUtilitiesWindows.cpp:165-231 | the folder of a path is the path itself, or shorter, or for a drive without delimiter the path with a slash, which is its own folder |
| `WindowsPaths.WalkDescends` | Sources/Common/ESDUtilitiesWindows.cpp:260-268 | a measure that decreases at every step of the walk, as the length does not |
| `WindowsPaths.StopsAtRoots` | Sources/Common/ESDUtilitiesWindows.cpp:246-251 | the paths at which the walk stops early are their own folders and no plugins |
| `WindowsPaths.NoPluginAbove` | Sources/Common/ESDUtilitiesWindows.cpp:261-268 | where a folder is itself, giving up misses no plugin further up |
| `WindowsPaths.FileNameOfJoined` | Sources/Common/ESDUtilitiesWindows.cpp:62-163 | the file name of a joined path is the joined name, for every folder and every non-empty name without delimiters |
| `WindowsPaths.JoinSplit` | Sources/Common/ESDUtilitiesWindows.cpp:62-231 | for a non-empty folder that does not start with two delimiters and ends in neither a delimiter nor a colon, splitting a join gives back the name and the folder with backslashes |
| `WindowsPaths.FolderPathOfJoined` | Sources/Common/ESDUtilitiesWindows.cpp:137-231 | for every non-empty folder: splitting a join gives back the folder with backslashes exactly when that is a drive root or ends in neither a delimiter nor a colon, and is not two backslashes and at most a server |
| `WindowsPaths.JoinedRootIff` | Sources/Common/ESDUtilitiesWindows.cpp:38-60 | a join is taken for a network root exactly when the folder is two backslashes and at most a server |
| `WindowsPaths.NetworkEntryIff` | Sources/Common/ESDUtilitiesWindows.cpp:38-60 | the same for either delimiter and any path made of a folder closed by it and a name |
| `WindowsPaths.JoinedSeam` | Sources/Common/ESDUtilitiesWindows.cpp:137-163 | one delimiter stands at the seam in place of one at the end of the path and one at the start of the component, all else is kept, and no slash is left |
| `WindowsPaths.FolderPathOfName` | Sources/Common/ESDUtilitiesWindows.cpp:226-230 | a name without delimiters has no folder unless it is a drive, whose folder is its root |
| `WindowsPaths.SlashPathParts` | Sources/Common/ESDUtilitiesWindows.cpp:170-224 | a path with slashes only is split at its last slash: the name is what follows, and the folder is, in this order, the path itself under two slashes and at most a server, / in the root, the drive with a backslash, or what precedes the slash without its trailing slashes |
| `WindowsPaths.NetworkRoots` | Sources/Common/ESDUtilitiesWindows.cpp:38-60 | a share on a server is its own folder, and the folder of what it holds |
| `WindowsPaths.ExtensionOfJoined` | Sources/Common/ESDUtilitiesWindows.cpp:123-135 | the extension of a joined path is what follows the last dot of the joined name, with the dot |
| `WindowsPaths.NoExtension` | Sources/Common/ESDUtilitiesWindows.cpp:123-135 | a name without a dot, or with its last dot at the end, has no extension |
| `WindowsPaths.FolderPathValue` | Sources/Common/ESDUtilitiesWindows.cpp:198-224 | the folder of every join, also where it is not the folder that was joined |
| `WindowsPaths.TrailingDelimiters` | Sources/Common/ESDUtilitiesWindows.cpp:62-231 | any number of delimiters behind a join changes neither its file name nor when its folder is the joined one, except one behind a colon or behind a lone server |
| `WindowsPaths.TrailingSlashes` | Sources/Common/ESDUtilitiesWindows.cpp:62-231 | the same for paths with slashes only, with the folder given in every case |
| `WindowsPaths.NameWithTail` | Sources/Common/ESDUtilitiesWindows.cpp:62-231 | a name with delimiters behind it and nothing before it has no folder, or its root if it is a drive |
| `WindowsPaths.RootFileNames` | Sources/Common/ESDUtilitiesWindows.cpp:84-106 | the file name of a drive root is the root, and of delimiters only a single one |
| `WindowsPaths.Affixes` | Sources/Common/ESDUtilitiesWindows.cpp:21-29 | a text has the prefix it was given at the front and the suffix it was given at the end, unless that is empty |
| `WindowsPaths.GetFolderPath` | Sources/Common/ESDUtilitiesWindows.cpp:165-231 | the loops compute the folder the lemmas are about |
| `WindowsPaths.GetFileName` | Sources/Common/ESDUtilitiesWindows.cpp:62-121 | the loop computes the file name the lemmas are about |
| `WindowsPaths.GetExtension` | Sources/Common/ESDUtilitiesWindows.cpp:123-135 | the last dot of the file name and what follows it, nothing if the dot is last |
| `WindowsPaths.AddPathComponent` | Sources/Common/ESDUtilitiesWindows.cpp:137-163 | the branches and the loop over the characters compute the join the lemmas are about |
| `WindowsPaths.TrimmedIff` | Sources/Common/ESDUtilitiesWindows.cpp:92-98 | what trimming leaves, and nothing else: all that is cut off is delimiters, none is left at the end, and a lone first one stays |
| `WindowsPaths.TrimDelimiters` | Sources/Common/ESDUtilitiesWindows.cpp:192-196 | the trimming loop computes what the row before describes |
| `Uris.ParseRoundTripIff` | Sources/Vendor/websocketpp/websocketpp/uri.hpp:51-168 | for every text that parses, parsing its printed form gives the same URI exactly when the host has no colon and no slash and does not start with a bracket |
| `Uris.RoundTripIff` | Sources/Vendor/websocketpp/websocketpp/uri.hpp:274-285 | the same for every URI value with a known scheme, a port from 1 to 65535 and an absolute resource |
| `Uris.ParseIff` | Sources/Vendor/websocketpp/websocketpp/uri.hpp:51-168 | a text parses to a URI exactly when it is written from it: one of four schemes, a host, perhaps in brackets, an optional port from 1 to 65535 with defaults 443 and 80, and an optional resource |
| `Uris.SchemeOfIff` | Sources/Vendor/websocketpp/websocketpp/uri.hpp:60-78 | a text has a scheme exactly when it starts with wss, ws, http or https and two slashes, with at least one character behind |
| `Uris.StrForm` | Sources/Vendor/websocketpp/websocketpp/uri.hpp:274-285 | the default port is not printed, any other is printed in digits without leading zeros, then the resource |
| `Uris.BracketsAreLost` | Sources/Vendor/websocketpp/websocketpp/uri.hpp:103-105 | an IPv6 address that parses and does not survive printing |
| `Uris.SplitIff` | Sources/Vendor/websocketpp/websocketpp/uri.hpp:84-154 | what follows the scheme is read as host, port and resource exactly when it is written as one of: a bracketed host without a closing bracket in it, or a plain host; then an optional port; then an optional resource |
| `Uris.PortAcceptedIff` | Sources/Vendor/websocketpp/websocketpp/uri.hpp:321-341 | a port text is accepted exactly when it is empty (the default port) or its leading numeral is from 1 to 65535; clamping and the unsigned conversion let nothing else through |
| `Uris.ParseIsParsed` | Sources/Vendor/websocketpp/websocketpp/uri.hpp:60-78 | every parsed URI has one of four schemes with its secure flag, a port from 1 to 65535 and an absolute resource |
| `Uris.SchemeOfPrefix` | Sources/Vendor/websocketpp/websocketpp/uri.hpp:60-78 | a scheme followed by anything non-empty is recognised as itself and not as another |
| `Uris.Uri.constructor` | Sources/Vendor/websocketpp/websocketpp/uri.hpp:51-168 | valid exactly when the text parses, and then with the parsed scheme, secure flag, host, port and resource |
| `Uris.Uri.ReadScheme` | Sources/Vendor/websocketpp/websocketpp/uri.hpp:60-78 | the scheme, its secure flag and the place behind it, or none |
| `Uris.Uri.ReadAuthority` | Sources/Vendor/websocketpp/websocketpp/uri.hpp:84-154 | the three loops split the rest of the text as the grammar does, or fail exactly when it does |
| `Uris.Uri.ReadBracketed` | Sources/Vendor/websocketpp/websocketpp/uri.hpp:84-119 | the bracketed branch |
| `Uris.Uri.FindClosing` | Sources/Vendor/websocketpp/websocketpp/uri.hpp:92-98 | the first closing bracket, or the end |
| `Uris.Uri.ReadHost` | Sources/Vendor/websocketpp/websocketpp/uri.hpp:120-137 | the plain branch, up to the first colon or slash |
| `Uris.Uri.ReadPort` | Sources/Vendor/websocketpp/websocketpp/uri.hpp:139-154 | the port up to the first slash |
| `Decimals.NumeralOfDecimal` | Sources/Vendor/websocketpp/websocketpp/uri.hpp:330 | a printed number is read back as itself |
| `Decimals.NumeralWritten` | Sources/Vendor/websocketpp/websocketpp/uri.hpp:330 | what is read of a port: blanks are skipped, a sign is taken, and the digits up to the next other character have their place value |
| `Decimals.DigitsOfDecimal` | Sources/Vendor/websocketpp/websocketpp/uri.hpp:279-281 | reading a printed number digit by digit, whatever follows it, continues with that number |
| `ScrollingTitle.EveryDrawIsWindow` | Sources/MediaStreamDeckPlugin.cpp:218-234 | in every state, whatever title, width or refresh changed meanwhile, a non-empty drawing has exactly the width and shows, column by column, a window within the padded title |
| `ScrollingTitle.DrawIsWindow` | Sources/MediaStreamDeckPlugin.cpp:219-231 | the same for one call at any tick |
| `ScrollingTitle.ScrollIsCyclic` | Sources/MediaStreamDeckPlugin.cpp:79-95 | undisturbed from a turn that draws at offset 0, turn k after it draws the window at k modulo title length plus width plus one |
| `ScrollingTitle.ShownPerCycle` | Sources/MediaStreamDeckPlugin.cpp:219-231 | in every such cycle, wherever it starts, each character of the title is in exactly as many frames as the title is wide |
| `ScrollingTitle.PendingUntilDrawn` | Sources/MediaStreamDeckPlugin.cpp:81-92 | over any interleaving with other threads in which nobody takes it back, a refresh set while the loop is about to check it stays set until something is drawn, at tick 0 |
| `ScrollingTitle.RefreshRestartsIff` | Sources/MediaStreamDeckPlugin.cpp:83-92 | a refresh that is set at any point of the loop restarts the next drawing exactly when the check is still to come or that drawing starts over anyway; either way it is then cleared |
| `ScrollingTitle.RefreshLostExample` | Sources/MediaStreamDeckPlugin.cpp:88-92 | a run from the start of the thread in which a refresh is set between a drawing and its clearing: the scroll goes on |
| `ScrollingTitle.TurnMoves` | Sources/MediaStreamDeckPlugin.cpp:79-95 | one undisturbed turn over a title: the offset it draws at, the drawing, and the next tick |
| `ScrollingTitle.TurnClears` | Sources/MediaStreamDeckPlugin.cpp:232-235 | without a title the empty text is drawn, the refresh is done and the tick runs on |
| `ScrollingTitle.TurnIdles` | Sources/MediaStreamDeckPlugin.cpp:237 | without a connection or a width nothing is drawn, the tick is 0 and a refresh stays set |
| `ScrollingTitle.ShowingIff` | Sources/MediaStreamDeckPlugin.cpp:204-231 | a turn draws a text exactly with a connection, a title and a positive width |
| `ScrollingTitle.HandleButton` | Sources/MediaStreamDeckPlugin.cpp:198-238 | the next tick and the drawn text; nothing is drawn and the tick is 0 without a connection or a width; a title at a negative width throws |
| `ScrollingTitle.ButtonHandler.LoopBody` | Sources/MediaStreamDeckPlugin.cpp:79-95 | the loop body is one turn of the thread with nothing in between, also where an exception leaves it |
| `ScrollingTitle.FailsIff` | Sources/MediaStreamDeckPlugin.cpp:219-222 | a turn is left by an exception exactly when a title is to be drawn at a negative width |
| `ScrollingTitle.ButtonHandler.constructor` | Sources/MediaStreamDeckPlugin.cpp:33 | a new handler has no width, no refresh and tick 0 |

## Left out

- Sockets, timers, the connection and endpoint state machines, and the executors: they forward to code that is not part of this model.
- Close codes, error categories, JSON access and localisation: short branch-by-branch code that would add only easy members.
- The header setters such as `set_fin`, and the opcode predicates: single-bit updates beside the encoding and decoding that are modelled.
- `buffer_copy` of one buffer to one without a limit is the limited one with a limit of at least the source size.
- `dynamic_string_buffer`, `dynamic_vector_buffer`, `read_size_helper` and the capacity of a streambuf.
- `distance_to` and the comparisons of buffer iterators: they subtract and compare the position, which is modelled.
- Pointer alignment, `size_t` overflow of total lengths, the `int` casts of `pbump` and `gbump`, and buffer debug checks: lengths are taken within range.
- `uri` constructors from parts, `get_authority`, `get_host_port` and `get_query`: they concatenate or cut the modelled fields.
- Path functions of the Mac, the file system, the module file name and the cached result of the first search: the start of the search is an arbitrary path.
- Media sessions, thumbnails, the image sent with a refresh, UTF-8 conversion of the title, thread start and stop, and the map of handlers. The order in which the two arguments of a draw are read does not matter without the image.
- ScrollingTitle.HandleButton: does not model an overflow of the `int` tick, which an empty title would reach after 2^31 turns without a refresh, nor a width so large that padding exhausts memory.
