# aio-websocket evio test server: frame decoder and handshake dispatch

The project models the core of the WebSocket test server in
`test/evio_server`. It has two parts. The first is the resumable frame
decoder `frameReader.Decode` (base framing and client-to-server masking of
RFC 6455, sections 5.2 and 5.3). The second is the opening-handshake
validator `Upgrade` (RFC 6455, sections 4.2.1 and 4.2.2) and the
`events.Data` callback that routes each delivery of bytes.

The modules:

- `FrameFormat` (frame_format.dfy): the wire format as pure functions.
  - `ParseFrame` reads one frame off the front of a byte sequence.
  - `ParseAll` reads every complete frame and returns what is left.
  - `EncodeFrame` is an encoder that serves as an independent reference.
  - Lemmas relate these: chunking invariance, invariance under extension, the encode/decode round trip, and that unmasking is an involution.
- `FrameReader` (frame_reader.dfy): the Go `frameReader` as a class.
  - Fields: the accumulation buffer `buf`, `status` (the four `frameDecStatus` states) and the partly filled `header`.
  - Each `status` case of `Decode` is its own method.
  - Each header-field loop of the source is a loop method with its invariants.
  - `Decode` is proved against `ParseFrame` applied to the stream: the bytes of the current frame already consumed, the buffered bytes, and the new chunk.
- `Handshake` (handshake.dfy): `Upgrade` as a function of an abstract request (GET or not, plus a header map that reads missing names as empty). A small HTTP head reader is the partner of the 101 response that `Upgrade` builds.
- `Server` (server.dfy): `connContext` as the class `Session`, and `events.Data` as its method `Data`.
  - `DecodeFrames` is the drive loop: first `Decode(in)`, then `Decode(nil)` until `ErrUnexpectedEOF`.
  - `DecodeDeliveries` runs the drive loop on successive deliveries. It is proved against `FeedChunks`, and through `ChunkingInvariance` against one delivery of all the bytes.
  - The frames it returns stand for the payload slice taken at frame.go:163 (and printed at frame.go:172), one per completed frame.

Quirks of the code that the model keeps as written:

- The 8-byte extended length clears the reserved top bit of its first byte and keeps going. It does not reject it.
- The payload of a completed frame is the local slice read at frame.go:163. It is returned in `Decoded(payload)`.
- A successful upgrade returns at evio_server.go:99, so bytes that follow the request in the same delivery are never decoded.
- A fasthttp parse that ends in `io.ErrUnexpectedEOF` leaves `ctx.req` set and sends the delivery on to the frame decoder. With `ctx.req` set, no later delivery is parsed as HTTP, so that connection never upgrades.

## Model

| member | source | states |
|---|---|---|
| FrameFormat.ExtLenFields | test/evio_server/frame.go:101-112 | the second byte's low seven bits select no extension bytes (at most 125), two (126) or eight (127) |
| FrameFormat.ExtendedLength | test/evio_server/frame.go:122-133 | the extended length is the big-endian value of its bytes with the first of eight bytes' top bit cleared; below 2^16 for two bytes and below 2^63 for eight |
| FrameFormat.ParseFrame | test/evio_server/frame.go:65-176 | a complete frame takes at least the two header bytes and no more bytes than are there |
| FrameFormat.ParseFrameShape | test/evio_server/frame.go:101-163 | a complete frame's payload has the declared length and directly follows the header; the key is four bytes exactly when MASK is set; the length fits the field it came from |
| FrameFormat.ParseAll | test/evio_server/evio_server.go:107-119 | draining frames leaves a suffix of the input that holds no complete frame, and every frame takes at least two bytes |
| FrameFormat.MaskedInvolutive | test/evio_server/frame.go:41-49 | XOR with a four-byte key applied twice gives the message back |
| FrameFormat.UnmaskInvolutive | test/evio_server/frame.go:41-49 | Read's unmasking applied twice gives the message back, whatever the key |
| FrameFormat.ParseFrameExtend | test/evio_server/frame.go:66-70 | a complete frame at the front of the buffer is the same frame whatever bytes are appended after it |
| FrameFormat.ParseAllAppend | test/evio_server/frame.go:66-70 | the frames of s + t are the frames of s followed by the frames of what s leaves, with t appended |
| FrameFormat.ChunkingInvariance | test/evio_server/frame.go:65-176 | delivering the bytes in any chunks and draining after each one gives the same frames, in the same order, and the same leftover as one delivery of them all |
| FrameFormat.ExtendedLengthBytesDecode | test/evio_server/frame.go:122-133 | the shortest big-endian encoding of a length above 125 decodes back to that length |
| FrameFormat.EncodeThenParse | test/evio_server/frame.go:88-163 | every field and the payload of an encoded frame are read back, and exactly the encoded bytes are consumed, whatever follows |
| FrameFormat.TwoFramesInOneChunk | test/evio_server/evio_server.go:107-119 | two frames back to back in one delivery are both found, in order, with nothing left |
| FrameReader.DecodeOutcomeSplit | test/evio_server/frame.go:65-176 | one Decode is one step of ParseAll: ErrUnexpectedEOF when the stream holds no complete frame, otherwise its first frame, leaving a strictly shorter stream of the frames after it |
| FrameReader.DecodedFrame | test/evio_server/frame.go:140-173 | a nil return has taken exactly the header, extension, key and Length payload bytes off the stream and is back in frameDecHeader; with MASK set the key has four bytes and the payload is the raw bytes XORed with it, and without MASK the key is empty and the payload is the raw bytes |
| FrameReader.StallOutcome | test/evio_server/frame.go:79-160 | a call that stops short of a section keeps every byte, and the decoder stays valid for resumption |
| FrameReader.PayloadOutcome | test/evio_server/frame.go:156-173 | reading the payload completes the front frame and leaves a decoder at the next frame boundary |
| FrameReader.FrameOutcome | test/evio_server/frame.go:173-175 | after a completed frame the decoder is in frameDecHeader with the following bytes buffered |
| FrameReader.AtExtend | test/evio_server/frame.go:66-70 | appending the new chunk to the buffer keeps the decoder's consumed sections and header in step with the stream |
| FrameReader.HeaderShort | test/evio_server/frame.go:79-81 | fewer than two buffered bytes in the header state means the front frame is incomplete |
| FrameReader.HeaderRead | test/evio_server/frame.go:83-113 | the fields read from the first two bytes are those the length state expects, and those two bytes are consumed |
| FrameReader.LengthShort | test/evio_server/frame.go:118-121 | fewer buffered bytes than lengthFields means the frame is incomplete and stalls in the length state |
| FrameReader.LengthSkip | test/evio_server/frame.go:116-136 | with no extension bytes the length state passes to the mask-key state without consuming anything |
| FrameReader.LengthRead | test/evio_server/frame.go:122-135 | the extension bytes read are the stream's, and the length they form is the stream's payload length |
| FrameReader.MaskShort | test/evio_server/frame.go:140-143 | with MASK set, fewer than four buffered bytes means the frame is incomplete and stalls in the mask-key state |
| FrameReader.MaskSkip | test/evio_server/frame.go:138-154 | without MASK the mask-key state passes to the payload state without consuming anything |
| FrameReader.MaskRead | test/evio_server/frame.go:145-153 | the four key bytes read are the stream's masking key |
| FrameReader.PayloadShort | test/evio_server/frame.go:158-160 | fewer buffered bytes than Length means the frame is incomplete and stalls in the payload state |
| FrameReader.PayloadRead | test/evio_server/frame.go:156-171 | with Length bytes buffered the stream holds a complete frame: the header read so far and the unmasked payload |
| FrameReader.ReadFirstByte | test/evio_server/frame.go:88-93 | Fin is bit 7 of byte 0, Rsv[i] is bit 6-i and OpCode is the low nibble; nothing else changes |
| FrameReader.ReadSecondByte | test/evio_server/frame.go:101-112 | MaskFlag is bit 7 of byte 1, the key is emptied, lengthFields is 0, 2 or 8, and Length is the base length only when no extension follows |
| FrameReader.ReadLength | test/evio_server/frame.go:122-133 | the loop forms ExtendedLength of the first lengthFields buffered bytes and consumes exactly those |
| FrameReader.ReadMaskKey | test/evio_server/frame.go:145-151 | the loop appends the next four buffered bytes to the key and consumes exactly those |
| FrameReader.BufferRead | test/evio_server/frame.go:164-170 | a buffer read copies as many bytes as fit into the slice, leaves the rest of the slice alone and removes exactly the copied bytes |
| FrameReader.FrameReader.constructor | test/evio_server/frame.go:33-39 | the zero frameReader is valid, in frameDecHeader, with nothing buffered |
| FrameReader.FrameReader.Read | test/evio_server/frame.go:41-49 | with a four-byte key every byte is XORed in place with key[i mod 4] and the length is returned; otherwise msg is untouched and 0 is returned |
| FrameReader.FrameReader.DecodeHeader | test/evio_server/frame.go:77-114 | with fewer than two bytes buffered it stops and changes nothing; otherwise it consumes the two header bytes and moves to frameDecLength |
| FrameReader.FrameReader.DecodeLength | test/evio_server/frame.go:116-136 | with fewer than lengthFields bytes buffered it stops and changes nothing; otherwise it consumes them, sets Length and moves to frameDecMaskKey |
| FrameReader.FrameReader.DecodeMaskKey | test/evio_server/frame.go:138-154 | with MASK set and fewer than four bytes buffered it stops and changes nothing; otherwise it consumes the key and moves to frameDecPayload |
| FrameReader.FrameReader.DecodePayload | test/evio_server/frame.go:156-173 | with fewer than Length bytes buffered it stops and changes nothing; otherwise it returns the unmasked payload of the front frame and is back in frameDecHeader; the ErrShortBuffer branch cannot be taken |
| FrameReader.FrameReader.Decode | test/evio_server/frame.go:65-176 | appends the chunk to what is buffered and, measured against ParseFrame of that stream, returns ErrUnexpectedEOF keeping every byte and stopped in the first section of the front frame that is not fully buffered, or exactly the front frame's payload keeping its header and buffering what follows |
| Handshake.Upgrade | test/evio_server/evio_server.go:162-191 | badHandshake unless the method is GET, Connection contains "Upgrade", Upgrade contains "Websocket", Sec-Websocket-Version contains "13" and Sec-Websocket-Key is not empty (if and only if); on success the response is the fixed 101 text, the accept key and two CRLFs |
| Handshake.ResponsePrefixLines | test/evio_server/evio_server.go:185 | the fixed response text is the status line, the Upgrade and Connection header lines, each ended by CRLF, and then the Sec-WebSocket-Accept name |
| Handshake.UpgradeResponseHead | test/evio_server/evio_server.go:184-190 | read back line by line, a successful response is exactly the 101 status line, "Upgrade: websocket", "Connection: Upgrade" and the Sec-WebSocket-Accept line, then the empty line and no body |
| Server.DecodeStep | test/evio_server/evio_server.go:107-119 | a turn of the drive loop that completes a frame keeps the frames reported so far plus the frames still to come equal to the frames of the whole delivery |
| Server.DecodeFrames | test/evio_server/evio_server.go:107-119 | the drive loop terminates; it reports exactly ParseAll of the buffered bytes followed by the delivery, and the decoder keeps what is left and is stopped in the section where that stream stalls |
| Server.FeedStep | test/evio_server/evio_server.go:103-119 | one delivery's drive loop reports the frames of its chunk on top of the buffered bytes, and the frames still to come are those the remaining deliveries find |
| Server.DecodeDeliveries | test/evio_server/evio_server.go:103-119 | however the bytes are cut into successive deliveries, the drive loops report exactly the frames of all the bytes delivered at once, in order, and leave the decoder holding the same bytes |
| Server.Session.constructor | test/evio_server/evio_server.go:58 | a new connection is in ESTAB with no request and an empty, valid decoder in frameDecHeader |
| Server.Session.Data | test/evio_server/evio_server.go:74-122 | while handshaking, a parse error or a rejected upgrade closes with no output and clears the request, and an accepted upgrade answers with Upgrade's bytes, moves to READY and decodes nothing; otherwise (and after a request cut short, which stays acquired) the delivery is decoded into exactly ParseAll's frames and the decoder is left stopped where its stream stalls; an empty delivery, a close and an accepted upgrade leave the decoder untouched; an empty delivery changes nothing else either; status only moves from ESTAB to READY |

## Left out

- Logging and `fmt.Printf` tracing (frame.go:75-172, evio_server.go:84-118): output only. The frames `Session.Data` returns stand for the payload slices of frame.go:163, which frame.go:172 prints.
- `frame.payload` (frame.go:38, 161-163): after `Reset` and `Grow` its logical length is 0, so evio_server.go:118 logs an empty slice. The model returns the slice taken at frame.go:163 instead, as a fresh array.
- `bytes.Buffer` mechanics: capacity, `Grow`, and the aliasing of `bytes.NewBuffer(msg)` with the caller's input slice. The buffer is a `seq` that `Decode` reassigns.
- The `ReadByte` and `Read` error returns inside Decode: each one sits behind a length guard and cannot happen. So `Decode` returns only nil or `ErrUnexpectedEOF`, and the drive loop's other-error branch (evio_server.go:112-115) cannot be reached and is not modelled.
- `Length` as an int64: the model uses an unbounded integer. Every length the decoder forms is below 2^63, so no wrap-around can happen.
- fasthttp (`AcquireRequest`, `Request.Read`, `ReleaseRequest`, `Header.IsGet`, `Header.Peek`, header-name canonicalisation): a foreign library. The parse of a delivery is a parameter of `Session.Data` that returns a request, `ErrUnexpectedEOF` or another error. A request is whether it is a GET plus a header map.
- `tokenContainsValue` and `computeAcceptKeyBytes` (SHA-1 plus base64) are not in the modelled files. They are function parameters of `Upgrade`.
- `Handshake.UpgradeResponseHead`: it requires the accept key to contain no CR, as a base64 string never does, because `computeAcceptKeyBytes` is not modelled.
- `main`, flag parsing, `events.Serving`, `evio.Serve`, and the connection registry of `events.Opened`, `events.Closed` and `events.Tick` with its mutex: process setup and concurrency. A `Session` is created with the id that `events.Opened` would assign.
- The `uint64` connection id is a `nat`, and the unused `toWrite` field of `connContext` is not modelled.
- `PayloadType`, `HeaderReader` and `TrailerReader` (frame.go:51-63): trivial accessors, and `header.data` is never assigned.
- The order of `Upgrade`'s checks: every failure returns the same `badHandshake`, so their order cannot be observed.
