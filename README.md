# Base64Stream in Dafny

A model of `Base64Stream` from Adafruit's CircuitPython Base64 Stream library.
`Base64Stream` is a read-only, file-like wrapper around a binary file handle.
Its `read(size)` returns the next piece of the handle's contents in base64
(RFC 4648, section 4: the standard alphabet with `=` padding and no line
breaks), and never returns more than `size` octets. Base64 encodes whole groups
of three raw bytes. The stream therefore asks the handle for three quarters of
what `size` leaves after the bytes it already carries. It encodes the whole groups and keeps up to two leftover bytes in a
read buffer (the *carry*). Those bytes go in front of the next request. Reading
until an empty chunk yields `binascii.b2a_base64(data).strip()`. The stream
also offers `readinto`, a `seek` limited to the start and the end, and a `tell`
that reports `4 * ceil(pos / 3)`.

The project has five modules:

- `Base64` (`Base64.dfy`) is the encoder that `binascii.b2a_base64(...).strip()`
  computes.
  - `Encode`: 3 octets become 4 symbols, with `=`/`==` padding.
  - `Decode`: the inverse, used only as a partner for round-trip proofs.
  - Python's `bytes.strip()` and `B2aBase64`.
  - Proved: round trip, concatenation at a group boundary, where padding
    occurs, and that `strip` removes exactly the newline.
- `ByteSource` (`ByteSource.dfy`) is the wrapped handle. It is a class with a
  fixed byte sequence and a position, offering `read(n)`, `seek(0, whence)`
  and `tell()` as a regular file does.
- `StreamModel` (`StreamModel.dfy`) is the stream as a pure state machine.
  - A state is a `Cursor`: the carry and the handle's position.
  - `Read`, `Seek` and `EncodedPosition` describe one call each. `ReadLoop`
    is a loop of reads up to the first empty chunk.
  - The lemmas state what callers may rely on: the size bound, the carry
    accounting, no padding mid-stream, the end-of-stream condition, that
    `read(-1)` can take two calls, and that any loop of reads yields the
    encoding of the input whatever the size.
- `Base64Streams` (`Base64Stream.dfy`) is the class itself. It has the
  handle, a `readBuffer` field and the methods `Seek`, `Tell`, `Read` and
  `ReadInto`. Each keeps the branches of the Python code and is proved to
  perform the corresponding `StreamModel` transition.
- `ReadLoops` (`ReadLoops.dfy`) holds the client loops of the test suite. It
  proves that reading or `readinto`-ing until empty gives
  `b2a_base64(data).strip()` for every accepted size or buffer length, and that
  `tell()` after `seek(0, 2)` is the length of that encoding.

Two deliberate points about the model:

- Python's `None` size is written as `-1` (`ReadAll`). The code treats the two
  alike. The defaults are written out: `read()` is `Read(ReadAll)` and
  `seek(t)` is `Seek(t, 0)` (adafruit_base64_stream.py:41 and :65).
- The docstring of `read` (adafruit_base64_stream.py:67) says that any
  negative size reads until the end. The code accepts only -1 and `None`:
  every other size below 4, -2 and below included, raises `ValueError`
  (adafruit_base64_stream.py:74-80). The model follows the code
  (`StreamModel.Read`).
- `seek` to anything other than `(0, 0)` or `(0, 2)` raises `ValueError`
  (adafruit_base64_stream.py:52), which tests/test_read.py:142-144 expects.

`read(-1)` draws everything left in the handle. It still keeps the last
`len % 3` bytes in the carry when more than three bytes are in hand, so a
second `read(-1)` is needed for the final padded group. `ReadAllTakesTwoCalls`
states this behaviour.

## Model

| member | source | states |
|---|---|---|
| Base64.Symbol | adafruit_base64_stream.py:108 | every 6-bit value is mapped to one of the 64 symbols of the standard alphabet |
| Base64.SymbolValue | adafruit_base64_stream.py:108 | the alphabet lookup has an inverse: the value of a symbol maps back to that symbol |
| Base64.SymbolValueOfSymbol | adafruit_base64_stream.py:108 | looking up a symbol's value undoes the encoding of every 6-bit value |
| Base64.Encode | adafruit_base64_stream.py:108 | the encoding of n octets is 4 * ceil(n / 3) symbols long |
| Base64.DecodeEncode | adafruit_base64_stream.py:108 | decoding the encoding gives back the input octets (no information is lost) |
| Base64.EncodeAppend | adafruit_base64_stream.py:99-108 | encoding a whole number of groups and then the rest is the same as encoding everything at once |
| Base64.EncodeSymbols | adafruit_base64_stream.py:108 | every output octet is an alphabet symbol, except the last two when the input is not whole groups |
| Base64.EncodeTail | adafruit_base64_stream.py:108 | a final group of one or two octets becomes two or three symbols and then `==` or `=`: symbols at 0 and 1, at 2 too for two octets, `=` at 3, and `=` at 2 exactly for one octet |
| Base64.EncodeEnding | adafruit_base64_stream.py:108 | when the input is not whole groups, the output ends in `=`, ends in `==` exactly when one octet is left over, and has a symbol before the padding |
| Base64.PadIffPartialGroup | adafruit_base64_stream.py:108 | `=` occurs in the output if and only if the input length is not a multiple of 3 |
| Base64.StripLeft | adafruit_base64_stream.py:108 | `strip()` drops a whitespace prefix: the result is a suffix of the input that does not start with whitespace, and every octet dropped is whitespace |
| Base64.StripRight | adafruit_base64_stream.py:108 | `strip()` drops a whitespace suffix: the result is a prefix of the input that does not end with whitespace, and every octet dropped is whitespace |
| Base64.StripLine | adafruit_base64_stream.py:108 | a line that starts with a symbol and ends with a symbol or `=` loses exactly its newline when stripped |
| Base64.StripB2aBase64 | adafruit_base64_stream.py:108 | `b2a_base64(data).strip()` is exactly the base64 encoding of `data` |
| ByteSource.Draw | adafruit_base64_stream.py:85 | the handle's `read(n)` returns the next n bytes, or all that remain when fewer remain or n is negative |
| ByteSource.FileHandle.Read | adafruit_base64_stream.py:85 | `read(n)` returns the bytes at the current position and advances the position by their number |
| ByteSource.FileHandle.Seek | adafruit_base64_stream.py:54 | `seek(0, 0)` moves to the start and `seek(0, 2)` to the end, and the new position is returned |
| ByteSource.FileHandle.Tell | adafruit_base64_stream.py:59 | `tell()` returns the current raw position, which is within the data |
| StreamModel.RawRequest | adafruit_base64_stream.py:74-82 | the raw request is -1 for `read(-1)`, and otherwise floor(3 * (size - carry) / 4), at least 1 and enough to complete a group with the carry |
| StreamModel.Kept | adafruit_base64_stream.py:92-106 | at most 3 bytes in hand are all encoded; otherwise fewer than 3 are kept and what is encoded is whole groups |
| StreamModel.Read | adafruit_base64_stream.py:65-110 | `read(0)` returns nothing and changes nothing; any other size below 4 except -1 raises the ValueError with the library's message; every accepted size keeps the carry below 3 bytes and never moves the handle backwards |
| StreamModel.ReadDraws | adafruit_base64_stream.py:82-85 | a read advances the handle by exactly the request, or to the end; `read(-1)` always reaches the end |
| StreamModel.ReadPending | adafruit_base64_stream.py:84-108 | what is pending before a read is the carry, then the drawn bytes, then the rest of the handle; afterwards the new carry comes before the rest; the chunk encodes the part cut off |
| StreamModel.ReadSplitsPending | adafruit_base64_stream.py:84-108 | old carry + drawn bytes = bytes encoded + new carry, and the bytes encoded are whole groups unless nothing stays pending |
| StreamModel.ReadShortMeansEnd | adafruit_base64_stream.py:95-97 | when fewer than 3 bytes are in hand after drawing, the handle is exhausted |
| StreamModel.ReadCases | adafruit_base64_stream.py:92-106 | branch by branch: no new data, at most 3 bytes, or whole groups means everything in hand is encoded; otherwise the last len % 3 bytes are kept |
| StreamModel.ReadWithinSize | adafruit_base64_stream.py:82-108 | a chunk is never longer than the size asked for |
| StreamModel.ReadEmptyIffExhausted | adafruit_base64_stream.py:88-90 | an accepted read returns an empty chunk exactly when the carry is empty and the handle is at its end |
| StreamModel.NoPaddingMidStream | adafruit_base64_stream.py:99-108 | a chunk after which bytes remain pending contains no `=` |
| StreamModel.ReadAllEmptiesHandle | adafruit_base64_stream.py:74-75 | `read(-1)` moves the handle to its end, keeps the bytes past the last whole group when more than 3 are in hand, and encodes the rest |
| StreamModel.ReadAllFlushesCarry | adafruit_base64_stream.py:92-94 | at the end of the handle, `read(-1)` encodes the carry with its padding and leaves nothing pending |
| StreamModel.ReadAllTakesTwoCalls | adafruit_base64_stream.py:74-108 | two calls of `read(-1)` together return the whole encoding of what was pending and leave nothing pending |
| StreamModel.ReadPrefixesEncoding | adafruit_base64_stream.py:99-108 | a chunk followed by the encoding of what stays pending is the encoding of what was pending |
| StreamModel.ReadAdvances | adafruit_base64_stream.py:88-108 | an empty chunk means nothing was pending; a non-empty chunk strictly shrinks what is pending |
| StreamModel.ReadLoopStep | tests/test_read.py:56-61 | one more read in front of a loop that encodes what is pending still encodes what is pending |
| StreamModel.ReadLoopEncodesPending | tests/test_read.py:56-63 | reading until an empty chunk yields the encoding of everything pending, whatever the accepted size |
| StreamModel.ReadLoopEncodesInput | tests/test_read.py:43-63 | on a fresh stream, reading until an empty chunk yields the encoding of the whole input |
| StreamModel.ReadLoopSizeIndependent | tests/test_read.py:12-42 | the concatenated output is the same for every accepted size, including -1 |
| StreamModel.Seek | adafruit_base64_stream.py:41-54 | only `(0, 0)` and `(0, 2)` succeed, and anything else raises the ValueError with the library's message; `(0, 0)` clears the carry and rewinds; `(0, 2)` keeps the carry and moves to the end; the result is the new raw position |
| StreamModel.SeekStartRestarts | tests/test_read.py:130-136 | after `seek(0, 0)`, reading until empty reproduces the whole encoding from the first byte, whatever was carried |
| StreamModel.EncodedPosition | adafruit_base64_stream.py:56-63 | the reported position is a multiple of 4 and is the smallest one at or beyond 4/3 of the raw position |
| StreamModel.EncodedPositionIsEncodedLength | tests/test_read.py:155-162 | the reported position is the length of the encoding of the bytes before it; at the end it is the length of the whole encoding |
| StreamModel.TellCountsCarry | adafruit_base64_stream.py:56-63 | while bytes are carried, `tell()` is 4 past the length of everything `read` has returned, because it does not see the carry |
| Base64Streams.FloatModFour | adafruit_base64_stream.py:61-62 | Python's float `% 4` lies in [0, 4) and leaves a multiple of 4 |
| Base64Streams.RoundUpThirds | adafruit_base64_stream.py:60-63 | raw * 4 / 3, rounded up to a multiple of 4 when it is not one and then truncated, is 4 * ceil(raw / 3) |
| Base64Streams.Base64Stream.constructor | adafruit_base64_stream.py:37-39 | a new stream has an empty read buffer and leaves the handle where it is |
| Base64Streams.Base64Stream.Seek | adafruit_base64_stream.py:41-54 | the method performs the `StreamModel.Seek` transition; on error it changes nothing |
| Base64Streams.Base64Stream.Tell | adafruit_base64_stream.py:56-63 | the float computation returns 4 * ceil(pos / 3), the length of the encoding of the bytes before the handle's position |
| Base64Streams.Base64Stream.Read | adafruit_base64_stream.py:65-110 | the method returns the chunk and reaches the state of the `StreamModel.Read` transition; on ValueError the state is unchanged |
| Base64Streams.Base64Stream.EncodeWholeGroups | adafruit_base64_stream.py:84-108 | the branches on len_data encode everything in hand up to the last whole group (or all of it when at most 3 or no new bytes) and keep the rest as the read buffer |
| Base64Streams.Base64Stream.ReadInto | adafruit_base64_stream.py:112-118 | it reads with the buffer's length, writes the chunk to buffer[0..n], leaves buffer[n..] unchanged and returns n (with n <= the buffer's length); on ValueError neither the buffer nor the state changes |
| ReadLoops.ChunkExtends | tests/test_read.py:57-61 | the loop invariant of the test loop: output so far + encoding of what is pending = encoding of what was pending at the start, kept by one more chunk |
| ReadLoops.LoopEnds | tests/test_read.py:59-60 | when the loop stops, nothing is pending and the output so far is the whole encoding |
| ReadLoops.ReadUntilEmpty | tests/test_read.py:56-61 | the test's `read` loop returns the encoding of what was pending and leaves nothing pending |
| ReadLoops.ReadIntoUntilEmpty | tests/test_read.py:119-125 | the test's `readinto` loop returns the encoding of what was pending and leaves nothing pending |
| ReadLoops.EncodeThroughRead | tests/test_read.py:43-63 | a fresh stream read until empty, with any accepted size, gives `b2a_base64(data).strip()` |
| ReadLoops.EncodeThroughReadInto | tests/test_read.py:106-127 | the same through `readinto` with any buffer of at least 4 bytes |
| ReadLoops.TellAfterSeekToEnd | tests/test_read.py:155-162 | after `seek(0, 2)`, `tell()` is the length of `b2a_base64(data).strip()` |

## Left out

- I/O: the wrapped handle is a fixed byte sequence with a position, as a regular file is. It has no short reads, no errors and no handle that changes under the stream.
- ByteSource.FileHandle.Seek: only `seek(0, 0)` and `seek(0, 2)` are modelled, the only calls the stream makes. Seeking past the end is not modelled.
- Base64Streams.Base64Stream.Tell: the float arithmetic of `tell()` is modelled with exact reals. Python's `int / int` division is correctly rounded and float `%` is exact, so the float steps give exactly 4 * ceil(pos / 3) while `pos * 4 / 3` stays below 2^54, that is for raw positions below about 3 * 2^52. Beyond that rounding can differ, and that is not modelled.
- Base64Streams.Base64Stream.Read: `int((size - len(buffer)) * 3 / 4)` is modelled as integer division. The product `(size - len(buffer)) * 3` is an exact integer; the two agree whenever the quotient by 4 is exact as a float, which holds whenever 3 * (size - len(buffer)) < 2^53.
- Base64Streams.Base64Stream.Read: sizes are integers, and `None` is written as -1. Non-integer arguments and the exceptions Python would raise for them are not modelled.
- Base64Streams.Base64Stream.ReadInto: the buffer is a Dafny array of octets. Python's other writable buffer types (`memoryview` and the like) are not modelled.
- `binascii.b2a_base64` is not part of this model. Its standard encoding is restated in `Base64.Encode`. Its `newline` parameter is not modelled, since the stream never passes it.
- The example script `base64_stream_simpletest.py` prints chunks to the console and is not modelled.
- Concurrency: a stream shared between threads is not modelled.
