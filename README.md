# zinx-asio frame codec (`DataPack`) in Dafny

This project models `DataPack`, the length-prefixed frame codec of the
zinx-asio TCP server framework (`src/data_pack.cpp`). A frame has an 8-byte
header followed by the payload:

- bytes 0..3 hold the payload length;
- bytes 4..7 hold the message id;
- bytes 8 onward hold the payload.

Both header fields are 32-bit unsigned values written most significant byte
first. Each unpack decodes a header and refuses it when its length exceeds
the configured maximum package size. A maximum of 0 means no limit. The
default maximum is 512.

Files:

- `wire.dfy` (module `Wire`): the pure part. It holds the byte encodings,
  the header and frame layout, the size guard, the span unpack
  (`DecodeHeader`), and the round-trip and guard lemmas.
- `buffers.dfy` (module `Buffers`): the buffers the codec works on, reduced
  to byte sequences. `ByteVector` stands for `std::vector<char>` and
  `std::string`. `StreamBuffer` stands for `boost::asio::streambuf`: writes
  append and reads consume from the front. `TcpMessage` has a length, an id,
  its data and the read cursor used by `bufferRef().read`.
- `codec.dfy` (module `Codec`): the `DataPack` class and one method per
  `pack`/`unpack` overload. The class holds the maximum, and the unpacks
  are its methods. The packs use no state of the class and are module-level
  methods. Each header-and-payload pack is proved to produce
  `Wire.EncodeFrame` of its inputs. The two raw packs copy their bytes
  unchanged. Each unpack is proved to return `Wire.DecodeHeader` of the
  bytes it consumes, with the object's `maxPackageSize`.

Integers are unbounded in Dafny. The model uses subset types `uint8`,
`uint32` and `uint64` (for `std::size_t`). The shift-and-mask
`(x >> k) & 255` is written as `(x / 2^k) % 256`, which is the same for
unsigned values. The source's exceptions (`std::logic_error`) become `Err`
or `Fail` values. The span unpack `DataPack.UnpackSpan` returns the
function `Wire.DecodeHeader` of the span's bytes, with the object's maximum
as its argument. It therefore cannot change the span, and decoding the same
span twice with the same maximum gives the same result.

The code is inconsistent about byte order. Some overloads read or write
the header fields in native order, by `memcpy`, stream write or stream
read (lines 40-41, 50-54, 65-68, 117-120, 135-137, 165-167, 180-182).
The message unpacks read the two fields as raw `uint32_t` values from
the message's buffer (lines 151 and 193), in whatever order `TCPMessage`
uses. The remaining overloads use explicit big-endian shifts (lines 78-88,
97-107). The model uses big-endian everywhere, so that every pack and
every unpack agree on one wire format.
The setter takes a `std::size_t`, so the maximum is modelled as a 64-bit
value, not a 32-bit one.

## Model

| member | source | states |
|---|---|---|
| `Wire.GetHeadLen` | src/data_pack.cpp:21-23 | the header width is the constant 8 |
| `Wire.EncodeU32BE` | src/data_pack.cpp:78-81 | a 32-bit field is always written as exactly four bytes |
| `Wire.U32RoundTrip` | src/data_pack.cpp:78-81 | reading back the four big-endian bytes of `x` gives `x` |
| `Wire.U32BytesRoundTrip` | src/data_pack.cpp:78-81 | every four bytes are the big-endian encoding of the value they decode to, so decoding is the exact inverse of encoding |
| `Wire.BigEndianValue` | src/data_pack.cpp:78-81 | reference reading of big-endian order, the bytes as one base-256 number with the first byte most significant; `n` bytes always hold a value below `256^n` |
| `Wire.DecodeU32BE` | src/data_pack.cpp:116-120 | a 32-bit header field is read from four bytes as their big-endian value |
| `Wire.EncodeU32IsBigEndian` | src/data_pack.cpp:78-81 | the four bytes written for `x` are the big-endian digits of `x` |
| `Wire.U32Injective` | src/data_pack.cpp:78-81 | two different values never produce the same four bytes |
| `Wire.EncodeHeader` | src/data_pack.cpp:97-107 | the header is always `GetHeadLen()` = 8 bytes, whatever the length and id (`getHeadLen`, lines 21-23) |
| `Wire.HeaderLayout` | src/data_pack.cpp:78-88 | the length is in bytes 0..3 and the id in bytes 4..7 of the header, each big-endian |
| `Wire.ByteOrderExample` | src/data_pack.cpp:78-88 | length 300 and id 7 give the header bytes `00 00 01 2C 00 00 00 07` |
| `Wire.EncodeFrame` | src/data_pack.cpp:37-43 | a frame is `8 + payload length` bytes long and holds the payload from offset 8 |
| `Wire.FrameLayout` | src/data_pack.cpp:37-43 | a frame holds the length bytes at 0..3, the id bytes at 4..7 and payload byte `k` at `8 + k`, in that order |
| `Wire.RawHeader` | src/data_pack.cpp:116-120 | the length is bytes 0..3 and the id bytes 4..7 of the span, each read as a big-endian value |
| `Wire.Guard` | src/data_pack.cpp:122-125 | the size check shared by every unpack (also lines 139-142, 152-155, 169-172, 184-187, 194-197): accepts exactly when `max == 0 \|\| len <= max`, so a maximum of 0 means no limit; a refusal carries `PackageTooLarge(len, max)` |
| `Wire.DecodeHeader` | src/data_pack.cpp:114-127 | a success holds the length and id read from the span's first 8 bytes and satisfies `max == 0 \|\| len <= max`; `PackageTooLarge` carries a limit `max > 0` and a length above it; a span of fewer than 8 bytes is refused with `Truncated`, and only such a span |
| `Wire.HeaderRoundTrip` | src/data_pack.cpp:114-127 | unpacking a packed header, whatever follows it, gives back `(len, id)` when `max == 0 \|\| len <= max` and `PackageTooLarge(len, max)` otherwise |
| `Wire.FrameRoundTrip` | src/data_pack.cpp:37-43 | a packed frame whose length passes the guard unpacks to its own length and id |
| `Wire.HeaderBytesRoundTrip` | src/data_pack.cpp:114-120 | any 8 bytes re-encode, from the length and id they decode to, to those same 8 bytes |
| `Wire.GuardExact` | src/data_pack.cpp:122-125 | unpack of a packed header fails exactly when `max > 0 && len > max` |
| `Wire.UnlimitedAcceptsAll` | src/data_pack.cpp:122-125 | with maximum 0 every header of 8 or more bytes is accepted, length `0xFFFF_FFFF` included |
| `Wire.DecodeHeaderPrefix` | src/data_pack.cpp:114-120 | unpack depends only on the first 8 bytes of the span |
| `Codec.DefaultGuardBoundary` | src/data_pack.cpp:122-125 | with the default maximum 512, lengths 0 and 512 are accepted and 513 is refused with `PackageTooLarge(513, 512)` |
| `Codec.DataPack.constructor` | src/data_pack.cpp:11 | the maximum package size starts at 512 |
| `Codec.DataPack.SetMaxPackageSize` | src/data_pack.cpp:16-18 | the maximum becomes the given value, with no validation |
| `Codec.ConfiguredLimitScenario` | src/data_pack.cpp:11-18 | a fresh `DataPack` refuses a streamed header of length 513 and accepts the next one of length 512; after `SetMaxPackageSize(0)` a message header of length 513 is accepted and its length stored on the message |
| `Codec.CopyInto` | src/data_pack.cpp:27 | the bytes land at the given offset and every other element of the buffer is unchanged |
| `Codec.PackRaw` | src/data_pack.cpp:26-28 | the buffer starts with the source bytes and the rest is unchanged; a buffer too short fails with `InsufficientCapacity` and is left untouched |
| `Codec.PackAppend` | src/data_pack.cpp:30-35 | the vector becomes its old contents followed by exactly the source bytes |
| `Codec.PackFrame` | src/data_pack.cpp:37-43 | the buffer starts with `EncodeFrame(len, id, payload)` and the rest is unchanged; a buffer of fewer than `8 + payload length` bytes fails with `InsufficientCapacity` and is left untouched |
| `Codec.PackMessage` | src/data_pack.cpp:46-58 | the buffer starts with the message's header and the next `msgLen` bytes at its cursor; the cursor moves by `msgLen`; a short buffer or short message fails and changes nothing |
| `Codec.PackMessageToStream` | src/data_pack.cpp:61-71 | the stream gains the length bytes, the id bytes and the message content, in that order |
| `Codec.PackMessageAppend` | src/data_pack.cpp:73-111 | the string or vector gains the message's big-endian header and then its content |
| `Codec.DataPack.UnpackSpan` | src/data_pack.cpp:114-127 | the result is `DecodeHeader` of the span's bytes with the object's maximum; the span is only read |
| `Codec.DataPack.UnpackSpanInto` | src/data_pack.cpp:163-173 | the out-parameters hold the decoded length and id even when the guard fails; the outcome succeeds exactly when `DecodeHeader` does and otherwise carries its error |
| `Codec.DataPack.UnpackStream` | src/data_pack.cpp:130-144 | the result is `DecodeHeader` of the stream's bytes; exactly the first 8 bytes (or all, if fewer) are consumed, whether or not the guard passes |
| `Codec.DataPack.UnpackStreamInto` | src/data_pack.cpp:177-188 | as `UnpackStream`, with the decoded length and id in out-parameters even when the guard fails |
| `Codec.DataPack.UnpackMessage` | src/data_pack.cpp:148-159 | the result is `DecodeHeader` of the message's unread bytes; the cursor moves past the bytes read; on success the message's length and id become the decoded ones, on failure they keep their old values |
| `Codec.DataPack.UnpackMessageInto` | src/data_pack.cpp:192-200 | as `UnpackMessage`, with the decoded length and id in out-parameters |

## Left out

- Native-order header fields, by `memcpy`, stream write or stream read (lines 40-41, 50-54, 65-68, 117-120, 135-137, 165-167, 180-182), and the raw `uint32_t` reads from a message's buffer (lines 151 and 193), whose order depends on `TCPMessage`: platform-dependent; every header field is big-endian in the model.
- `std::ostream`/`std::iostream` over `boost::asio::streambuf`: the stream buffer is a byte sequence that writes append to and reads consume from the front.
- `TCPMessage` internals: `bufferRef().read` is a read cursor over the message's data that stops at the end of the data, and `contentToString()` is the whole data, read without moving the cursor. The class `TcpMessage` models only a message's length, id, data and read cursor.
- The `(const char*, size)` arguments of `pack(source, dest, size)`, `pack(source, vector, size)` and `pack(len, id, source, dest, size)` are modelled as the sequence of the `size` bytes.
- `Codec.PackMessageAppend`: the string and vector overloads `reserve` and then assign `dataBuf[0..7]`, which writes past `size()` and is undefined behaviour. The model appends the header and then the content, which is the evident intent. On a destination that already holds 8 or more bytes the literal code would overwrite its first 8 bytes instead.
- `Codec.PackRaw`, `Codec.PackFrame`, `Codec.PackMessage`: the source copies into the buffer without any bound (undefined behaviour on overflow). The model checks capacity first and reports `InsufficientCapacity`.
- `Codec.PackMessage`: a message with fewer than `msgLen` unread bytes is reported as `Truncated` before anything is written. The source would write the header and then copy whatever the message's buffer read gives.
- Reading a header from fewer than 8 bytes is undefined behaviour for a span and a short read for a stream or message. The model reports `Truncated`, and the stream and message variants consume the bytes that were there.
- `Codec.DataPack.UnpackSpanInto`, `Codec.DataPack.UnpackStreamInto`, `Codec.DataPack.UnpackMessageInto`: say nothing about the out-parameters when fewer than 8 bytes are available, where the source leaves them undefined or partly written.
- `std::logic_error`: modelled as an `Err`/`Fail` value returned to the caller.
- The process-wide static `maxPackageSize_` and the absence of synchronisation around it: the maximum is a field of a `DataPack` object, and each unpack reads it from the object it is called on. `GlobalObject::maxPackageSize()` (read by every unpack) and `DataPack::maxPackageSize_` (written by the setter) are treated as one value; `GlobalObject` is not part of this model.
- No pack checks the length against the maximum. The source has no such check, and the model adds none.
