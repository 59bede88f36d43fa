# Frame codec of a 9P-style protocol, in Dafny

This project models the framing layer of the `qp` package (`container.go`):
how a stream of bytes is cut into frames and how one message is written as a
frame. A frame is a 5-byte header, then a body:

```
offset 0..4  size : uint32, little-endian, counts header and body
offset 4     type : MessageType (one byte)
offset 5..   body : the message's own binary encoding
```

Modules:

- `LittleEndian` (`little_endian.dfy`): the `byte` and `uint32` types, Go's
  modulo-2^32 conversion (`Wrap`), and `binary.LittleEndian.Uint32` /
  `PutUint32` with the proof that they are inverse bijections.
- `Streams` (`streams.dfy`): an `io.Reader` as a class holding its bytes, a
  position and the error it reports once exhausted, with `io.ReadFull`
  copying into a caller's array; an `io.Writer` as a class that appends what
  it accepts to `out`, may accept fewer bytes per call than it is given
  (`limit`), and fails with `fault` once its transport has taken `room`
  bytes.
- `Framing` (`framing.dfy`): the `write` loop, `DecodeHdr`, `Codec.Decode`
  and `Codec.Encode` as imperative methods. `Codec.Decode` and
  `Codec.Encode` are proved against pure functions (`DecodeFrame`,
  `EncodeFrame`, built on `Header` and `ParseHeader`); `WriteAll` states the
  bytes it hands over in terms of its slice and the writer's room, and
  `RunWriteLoop` ties the same loop, run against a writer that writes short,
  to the pure functions `Counter` and `Sent`. Lemmas about the pure functions
  give the header and frame round trips, every outcome of a decode, and the
  behaviour of the `write` loop against a writer that writes short.

Messages are abstract: a protocol supplies a `Codec` (the registry `m2mt`,
`mt2m`) and a `Binary` (the messages' `MarshalBinary` and `UnmarshalBinary`)
as total functions that return a value or an error. The frame round trip
holds for a message whose type the registry re-creates and whose
unmarshalling undoes its marshalling (`Invertible`).

Two behaviours of the code are modelled as written:

- `Codec.Decode` computes the body length as `size - 5` in `uint32`
  arithmetic (container.go:94); the code has no check that `size >= 5`. A
  header declaring a size below 5 is therefore not rejected. The model reads
  a body of nearly 2^32 bytes, which swallows the rest of any shorter stream
  and ends in the `io.ReadFull` error (`DecodeUndersizedFrame`). There is no
  "invalid frame" error.
- `write` promises in its doc comment to "write all the provided data"
  (container.go:36), but it assigns each call's count to its counter instead
  of adding it (container.go:44). It therefore finishes only when the writer
  takes the whole slice in one call. Against a writer that writes short it
  never finishes and hands the writer parts of the slice again
  (`RunWriteLoop`, `ShortWriterNeverFinishes`, `ShortWriterResends`,
  `ShortWriterExample`). `WriteAll` and `Encode` require a writer that takes
  each slice whole unless it fails, which is what Go's `io.Writer` contract
  demands.

The round trip needs only `len(body) < 2^32`, not `len(body) + 5 < 2^32`:
when the header's size wraps, the wrapped subtraction in `Decode` undoes
it. Bodies of 2^32 bytes or more are cut to their length modulo 2^32
(`OversizedBodyTruncated`).

## Model

| member | source | states |
|---|---|---|
| `LittleEndian.Wrap` | container.go:131 | the conversion `uint32(x)` yields the value congruent to x modulo 2^32, and x itself when x fits |
| `LittleEndian.PutUint32` | container.go:131 | the size is packed into four bytes whose little-endian value is the size |
| `LittleEndian.Uint32` | container.go:68 | reference definition of `binary.LittleEndian.Uint32`, without a contract of its own; its properties are stated by `PutUint32` (packing then unpacking is the identity) and `UnpackPack` (the converse) |
| `LittleEndian.UnpackPack` | container.go:68 | unpacking four bytes and packing the result gives the same bytes, so pack and unpack are inverse bijections |
| `Streams.ShortRead` | container.go:64-67 | a short `io.ReadFull` on a stream that ends reports io.EOF when no byte was read and io.ErrUnexpectedEOF when some were; any other stream error is passed through |
| `Streams.Reader.ReadFull` | container.go:97 | `io.ReadFull` fills the buffer's prefix with the next bytes, advances by exactly that many, leaves the rest of the buffer alone, and errs exactly when the buffer is not full |
| `Streams.Writer.Write` | container.go:44 | one `Write` call appends the bytes it accepts to the output and reports the transport's error only when it ran out of room |
| `Framing.ParseHeader` | container.go:68-69 | reference definition of the size and type DecodeHdr reads off a complete header, without a contract of its own; `Header` and `HeaderOfParse` state that it inverts the header Encode builds, and `DecodeHdr` that the method returns it |
| `Framing.Header` | container.go:130-132 | the header built by Encode is 5 bytes from which DecodeHdr reads back the same size and type |
| `Framing.HeaderOfParse` | container.go:68-69 | every 5-byte header is the one Encode builds for the size and type read off it |
| `Framing.BodyLength` | container.go:94 | `size -= HeaderSize` gives the length that adds back to size modulo 2^32; it is `size - 5` exactly when size >= 5, and at least 2^32 - 5 otherwise |
| `Framing.DecodeHdr` | container.go:55-71 | with 5 bytes left: size is the little-endian value of bytes 0-3, type is byte 4, no error, reader advanced by 5; otherwise (0, 0, the io.ReadFull error) and the partial header consumed |
| `Framing.DecodeFrame` | container.go:84-114 | decode never consumes more than the stream holds; on success it consumed a count equal to the header's size modulo 2^32 and returned the unmarshalling of exactly those body bytes into the message the registry made for the type byte |
| `Framing.Decode` | container.go:84-114 | Codec.Decode returns what DecodeFrame says and advances the reader by the count DecodeFrame says; the "short read" branch is proved unreachable |
| `Framing.PutHeader` | container.go:130-132 | the header buffer is filled with the little-endian size and the type byte |
| `Framing.WriteAll` | container.go:37-51 | against a writer that takes the slice whole unless it fails, `write` hands over all of b and returns nil when the transport has room, and otherwise the prefix that fits and the transport's error |
| `Framing.WriteFrame` | container.go:134-142 | header then body: the writer receives the prefix of header ++ body that fits, and an error exactly when the whole frame did not fit |
| `Framing.Encode` | container.go:118-143 | a registry or marshalling error is returned with nothing written; otherwise the writer receives exactly the frame (or its prefix that fits, with the transport's error) |
| `Framing.EncodeFrame` | container.go:118-141 | reference definition of the bytes Codec.Encode emits, or the error that stops it, without a contract of its own; `EncodeFrameLayout` states its layout and error order, `Encode` that the method writes it, `FrameRoundTrip` that decoding undoes it |
| `Framing.EncodeFrameLayout` | container.go:118-132 | the frame exists exactly when neither m2mt nor marshal fails, otherwise the first error is returned; the frame is 5 + len(body) bytes, bytes 0-3 hold (len(body) + 5) mod 2^32, byte 4 the type, then the body |
| `Framing.EmptyBodyFrame` | container.go:130-132 | a type-1 message with an empty body is encoded as 05 00 00 00 01 |
| `Framing.DecodeShortHeader` | container.go:90-92 | fewer than 5 bytes left: no message, io.EOF for an empty stream and io.ErrUnexpectedEOF for a partial header, and the partial header consumed |
| `Framing.DecodeShortBody` | container.go:96-100 | a complete header but fewer body bytes than declared: no message, the io.ReadFull error, the whole stream consumed |
| `Framing.DecodeUnknownType` | container.go:105-108 | a complete frame with a type the registry rejects: the registry's error, after the whole frame has been consumed |
| `Framing.DecodeCompleteFrame` | container.go:105-113 | a complete frame whose type the registry knows: the result is the unmarshalling of exactly the declared body bytes into the registry's fresh message, success or error, and the whole frame is consumed |
| `Framing.DecodeUndersizedFrame` | container.go:94-100 | a declared size below 5 is not rejected: decode consumes the whole (shorter than 4 GiB) stream and fails with the io.ReadFull error |
| `Framing.FrameRoundTrip` | container.go:84-143 | decoding the bytes Encode emits for an invertible message with a body under 2^32 bytes returns the message and stops exactly at the end of the frame, whatever follows |
| `Framing.OversizedBodyTruncated` | container.go:131 | a body of 2^32 bytes or more is declared modulo 2^32, and decode consumes only that many body bytes |
| `Framing.Counter` | container.go:43-48 | the `write` loop's counter after any number of calls stays within len(b) |
| `Framing.Sent` | container.go:44 | reference definition of the bytes the `write` loop hands a short-writing writer in k calls, without a contract of its own; `WholeWriterFinishes`, `ShortWriterResends`, `ShortWriterExample` and `RunWriteLoop` state its properties |
| `Framing.RunWriteLoop` | container.go:43-48 | the `write` loop run against a Writer taking at most `chunk` bytes per call, for up to `calls` calls: its counter is `Counter` and the writer has received `Sent` after each call, and it stops early only when the counter reaches len(b) |
| `Framing.WholeWriterFinishes` | container.go:43-48 | a writer that takes the slice whole ends the loop after at most one call (none for an empty b), having received exactly b |
| `Framing.ShortWriterNeverFinishes` | container.go:43-48 | against a writer that takes fewer than len(b) bytes per call, the counter stays below len(b) forever, so the loop never ends |
| `Framing.ShortWriterResends` | container.go:44 | such a writer receives at least one byte per call, so after len(b) + 1 calls it has received more bytes than b holds |
| `Framing.ShortWriterExample` | container.go:44 | b = 01 02 03 against a 2-byte writer: four calls deliver 01 02 03 02 03 03 and the counter is back at 1 |

## Left out

- `Default`, `NineP2000` and the free `Decode`/`Encode` functions (container.go:14, 145-155) only delegate to a protocol value that is not part of this model.
- The `Protocol` and `Message` interfaces are signatures only; `GetTag` is not modelled, since the framing layer never calls it.
- The concrete message catalog and the bodies of `MarshalBinary`, `UnmarshalBinary`, `M2MT` and `MT2M` are foreign code; they are the abstract functions of `Codec` and `Binary`.
- Error identity beyond io.EOF and io.ErrUnexpectedEOF: every other error is an opaque `Failure` value passed through unchanged. `ErrPayloadTooShort` is never used by this file.
- A reader's own chunking is not modelled, since `io.ReadFull`'s result does not depend on it; a reader's error is reported once its bytes are exhausted.
- Allocation failure or a panic from `make([]byte, size)` with a wrapped size of nearly 2^32 bytes: only the requested length is modelled.
- Blocking, timeouts and concurrent use of one stream are the transport's and the caller's concern.
- WriteAll: proved only for a writer that takes each slice whole unless its transport fails, because against a short-writing writer the loop does not terminate; that case is covered by the pure `Counter` and `Sent` functions and their lemmas instead.
- Encode: requires the same writer as `WriteAll`, for the same reason.
- RunWriteLoop: stops after `calls` calls, because a terminating method cannot run the loop forever, and its writer has room for every call; that a short-writing writer keeps the loop going for ever is stated by `ShortWriterNeverFinishes` about `Counter`.
