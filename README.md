# tinyrpc codec layer, modelled in Dafny

This project models the wire protocol of `tinyrpc`, a small RPC framework layered on Go's `net/rpc`. It covers five parts:

- **The binary headers** (`header/header.go`). `RequestHeader` and `ResponseHeader` are classes whose `Marshall` fills a preallocated buffer through an index cursor. `Unmarshall` overwrites the fields in layout order and stops at the first out-of-range slice. A pure byte-level definition stands behind both (`RequestBytes`, `DecodeRequest`, and their response twins). Go's `encoding/binary` helpers are in `binary.dfy`:
  - `PutUint16` and `PutUint32`, little-endian;
  - `PutUvarint` and `Uvarint` (unsigned LEB128);
  - `ReadUvarint`.
- **Length-prefixed frames** (`codec/io.go`). The connection is a `Writer` that accumulates the bytes it accepts and a `Reader` that hands out the bytes of a stream. The `Writer`'s failures are one-shot; the `bufio.Writer` the codecs write through keeps its first error, which is modelled separately (`BufferedWrite`, see Findings). A connection whose `Read` fails the same way on every call (a read deadline that has passed) is also modelled separately (`RecurringRead`, see Findings).
  - What the network does to each call is a *fault schedule*: a sequence of call outcomes, one consumed per `Write` or `Read`. The schedule is finite: once it is exhausted, the calls behave ordinarily, so it describes transient failures only.
  - `write` and `read` are `while` loops proved against recursive functions (`WriteLoop`, `ReadLoop`). Those functions spell out the retry rule: a `net.Error` is retried after counting its bytes, and anything else ends the loop.
- **The compressor registry** (`compressor/compressor.go`): the four tags and the map literal that nothing ever writes to.
- **The client and server codecs** (`codec/client.go`, `codec/server.go`). Each is a class with a `pending` map; the server also has a `uint64` request counter. Each of their methods is specified by a function of the unread stream and the fault schedule, or by the message it writes.
- **A whole call** (`exchange.dfy`). What one codec writes, the other reads back. This holds for:
  - the header fields, the arguments and the reply;
  - the client's own sequence number echoed in the response;
  - an error response, which the client drains.

  The conditions are that read failures are transient, the compressed body is shorter than 2^32 bytes, and the serializer and the compressor round-trip the value.

The serializer, each compressor's `Compress`/`Decompress`, and CRC-32/IEEE are opaque functions passed in as `Rpc.Plugins`. Their round trips are hypotheses of the lemmas that need them, never assumptions of the model.

The model follows the code where a reader might expect otherwise:
- Only the header is framed. The body follows the header frame raw, with no length prefix of its own, and its length is known only from `RequestLen`/`ResponseLen`. So a message is not two frames.
- Not every truncated header is rejected. `binary.Uvarint` reports an incomplete varint as `(0, 0)`, and `Unmarshall` never checks that size. So the first 12 bytes of the encoding of `{0, "", 2^63, 0, 0}` decode without error (`Header.TruncatedRequestAccepted`). Input shorter than the tag, or a slice that runs past the end, is rejected with `UnmarshalError`.
- `uint32(len(compressedBody))` silently truncates the length of a body of 2^32 bytes or more. The model keeps the truncation (`Binary.Truncate32`), and the end-to-end lemmas require shorter bodies.

## Model

| member | source | states |
|---|---|---|
| Compressor.Lookup | tinyrpc/compressor/compressor.go:17-22 | a tag is registered exactly when it is Raw, Gzip, Snappy or Zlib, and the compressor found is the one registered under that tag |
| Compressor.RegistryIsFixed | tinyrpc/compressor/compressor.go:5-22 | the registry's keys are exactly {0, 1, 2, 3}, and looking up an algorithm's own tag finds it |
| Binary.LE16RoundTrip | tinyrpc/header/header.go:40 | a uint16 written little-endian reads back unchanged, whatever follows it (so any CompressType survives the 2-byte field) |
| Binary.LE32RoundTrip | tinyrpc/header/header.go:45 | a uint32 written little-endian reads back unchanged, whatever follows it |
| Binary.PutUint16 | tinyrpc/header/header.go:40 | the two little-endian bytes of v land at off; the rest of the buffer is unchanged |
| Binary.PutUint32 | tinyrpc/header/header.go:45 | the four little-endian bytes of v land at off; the rest of the buffer is unchanged |
| Binary.Copy | tinyrpc/header/header.go:184 | copy() moves min(len(src), room) bytes to off, returns that count and touches nothing else |
| Binary.UvarintLength | tinyrpc/header/header.go:43 | the uvarint encoding is the shortest one: 128^(n-1) <= x < 128^n for an n-byte encoding |
| Binary.UvarintFits | tinyrpc/header/header.go:11 | every uint64 encodes in at most 10 bytes, the width MaxHeaderSize reserves per varint |
| Binary.PutUvarint | tinyrpc/header/header.go:43 | writes exactly the encoding of x at off, returns its length and leaves the rest of the buffer unchanged |
| Binary.Uvarint | tinyrpc/header/header.go:69-74 | the value is below 2^64, the size is between -11 and len(buf), and a non-positive size comes with value 0 |
| Binary.UvarintRoundTrip | tinyrpc/header/header.go:69-74 | binary.Uvarint of PutUvarint(v) followed by anything returns v and the encoding's length |
| Binary.UvarintIncomplete | tinyrpc/header/header.go:69-74 | up to ten bytes that all carry the continuation bit decode as (0, 0): incomplete, not an error |
| Binary.UvarintOverflow | tinyrpc/header/header.go:69-70 | ten continuation bytes overflow whatever follows: binary.Uvarint returns (0, -11) |
| Binary.ReadUvarint | tinyrpc/codec/io.go:33 | takes at most 10 bytes and no more than the stream holds; on success the value is below 2^64 and at least one byte was taken |
| Binary.ReadUvarintAgrees | tinyrpc/codec/io.go:33 | wherever binary.Uvarint finds a complete encoding, binary.ReadUvarint reads the same value and the same number of bytes |
| Binary.ReadUvarintRoundTrip | tinyrpc/codec/io.go:33 | ReadUvarint reads back what PutUvarint wrote and stops right after it |
| Binary.Truncate32Small | tinyrpc/header/header.go:73 | the uint32 conversion changes nothing below 2^32 |
| Header.ReadString | tinyrpc/header/header.go:188-194 | a string read stays within the input and is no longer than the bytes it took; an out-of-range slice is None |
| Header.ReadStringRoundTrip | tinyrpc/header/header.go:179-194 | readString(writeString(s) ++ rest) returns s and the byte count writeString returned |
| Header.WriteString | tinyrpc/header/header.go:179-186 | writes the uvarint length and as much of the string as fits, returns the count, and writes it all when the buffer has room |
| Header.VectorFields | tinyrpc/header/header_test.go:82-92 | the field encodings of the test vectors: 00 00, a7 61, 05 "error", 8a 02, 6d a7 31 e5 |
| Header.RequestBytesFit | tinyrpc/header/header.go:39 | the request encoding fits the MaxHeaderSize + len(Method) buffer Marshall allocates |
| Header.DecodeRequestFields | tinyrpc/header/header.go:62-77 | where each field decodes at its cursor, Unmarshall yields exactly those fields, the length truncated to 32 bits, and no error |
| Header.DecodeRequestWire | tinyrpc/header/header.go:72-73 | decoding the layout of any fields restores them all, with RequestLen truncated to 32 bits |
| Header.RequestRoundTrip | tinyrpc/header/header.go:35-78 | Unmarshall(Marshall(h)) succeeds and restores every field of h, whatever the header held before |
| Header.RequestVectorBytes | tinyrpc/header/header_test.go:10-21 | {0, "Add", 12455, 266, 3845236589} marshals to 00 00 03 41 64 64 a7 61 8a 02 6d a7 31 e5 |
| Header.RequestVectorDecode | tinyrpc/header/header_test.go:33-44 | those 14 bytes unmarshal to {0, "Add", 12455, 266, 3845236589} with no error |
| Header.DecodeRequestShortInput | tinyrpc/header/header_test.go:45-57 | any input shorter than the 2-byte tag (the tests use nil and [0x0]) gives UnmarshalError and leaves every field as it was |
| Header.DecodeRequest | tinyrpc/header/header.go:51-78 | every failure, the empty input and every recovered panic, is reported as UnmarshalError |
| Header.RequestIDOverflow | tinyrpc/header/header.go:57-73 | an overflowing ID moves the cursor before the data; the next slice panics, giving UnmarshalError with ID 0 and the earlier fields kept |
| Header.TruncatedRequestPrefix | tinyrpc/header/header.go:35-48 | the 12-byte prefix of the encoding of {0, "", 2^63, 0, 0} |
| Header.TruncatedRequestAccepted | tinyrpc/header/header.go:69-77 | that truncated prefix unmarshals without error, to ID 0 and a checksum taken from the ID's bytes |
| Header.RequestHeader.constructor | tinyrpc/header/header.go:26-33 | a new header has every field at its zero value |
| Header.RequestHeader.Marshall | tinyrpc/header/header.go:35-48 | returns exactly the tag, length-prefixed method, ID, RequestLen and checksum in layout order, within MaxHeaderSize + len(Method) bytes |
| Header.RequestHeader.Unmarshall | tinyrpc/header/header.go:51-78 | the fields and the error are DecodeRequest of the old fields and the input, keeping fields assigned before a failure |
| Header.RequestHeader.GetCompressType | tinyrpc/header/header.go:80-84 | returns the tag field |
| Header.RequestHeader.ResetHeader | tinyrpc/header/header.go:86-94 | afterwards the header equals a new one |
| Header.ResponseBytesFit | tinyrpc/header/header.go:116 | the response encoding fits the MaxHeaderSize + len(Error) buffer Marshall allocates |
| Header.DecodeResponseFields | tinyrpc/header/header.go:143-158 | where each field decodes at its cursor, Unmarshall yields exactly those fields, the length truncated to 32 bits, and no error |
| Header.DecodeResponseWire | tinyrpc/header/header.go:153-154 | decoding the layout of any fields restores them all, with ResponseLen truncated to 32 bits |
| Header.ResponseRoundTrip | tinyrpc/header/header.go:112-159 | Unmarshall(Marshall(h)) succeeds and restores every field of h, the ID decoded before the error text |
| Header.ResponseVectorBytes | tinyrpc/header/header_test.go:82-92 | {0, "error", 12455, 266, 3845236589} marshals to 00 00 a7 61 05 65 72 72 6f 72 8a 02 6d a7 31 e5 |
| Header.ResponseVectorDecode | tinyrpc/header/header_test.go:104-118 | those 16 bytes unmarshal to {0, "error", 12455, 266, 3845236589} with no error |
| Header.DecodeResponseShortInput | tinyrpc/header/header_test.go:120-135 | any input shorter than the 2-byte tag (the tests use nil and [0x0]) gives UnmarshalError and leaves every field as it was |
| Header.DecodeResponse | tinyrpc/header/header.go:132-159 | every failure, the empty input and every recovered panic, is reported as UnmarshalError |
| Header.ResponseIDOverflow | tinyrpc/header/header.go:138-151 | 00 00, then ten ff bytes, then 02: the ID overflows, the error-text slice panics, and Unmarshall gives UnmarshalError with tag 0 and ID 0 |
| Header.ResponseHeader.constructor | tinyrpc/header/header.go:103-110 | a new header has every field at its zero value |
| Header.ResponseHeader.Marshall | tinyrpc/header/header.go:112-130 | returns exactly the tag, ID, length-prefixed error, ResponseLen and checksum in layout order, within MaxHeaderSize + len(Error) bytes |
| Header.ResponseHeader.Unmarshall | tinyrpc/header/header.go:132-159 | the fields and the error are DecodeResponse of the old fields and the input, keeping fields assigned before a failure |
| Header.ResponseHeader.GetCompressType | tinyrpc/header/header.go:161-166 | returns the tag field |
| Header.ResponseHeader.ResetHeader | tinyrpc/header/header.go:168-177 | afterwards the header equals a new one |
| FrameIO.WriteCall | tinyrpc/codec/io.go:51 | one Write call accepts at most the bytes offered, fails exactly while the schedule lasts, and accepts all of them when it returns nil |
| FrameIO.ReadCall | tinyrpc/codec/io.go:62 | one Read call delivers at most the room and the bytes left; an ordinary call errs exactly when it delivers nothing (io.EOF) |
| FrameIO.Writer.Write | tinyrpc/codec/io.go:51 | the accepted prefix of p is appended to the stream and one call is used |
| FrameIO.Reader.Read | tinyrpc/codec/io.go:62 | the bytes delivered are the next ones of the stream, stored at off; the rest of the buffer is unchanged |
| FrameIO.Reader.ReadUvarint | tinyrpc/codec/io.go:33 | takes exactly the bytes binary.ReadUvarint reads off the unread stream |
| FrameIO.WriteLoop | tinyrpc/codec/io.go:49-58 | write sends at most the whole buffer and all of it when it returns nil; a returned error is never a net.Error |
| FrameIO.WriteAll | tinyrpc/codec/io.go:49-58 | the stream grows by the prefix of data WriteLoop says was accepted, and the error is WriteLoop's |
| FrameIO.WriteRecovers | tinyrpc/codec/io.go:49-58 | when every failure is a net.Error, write delivers the whole buffer and returns nil |
| FrameIO.WriteStopsOnFatal | tinyrpc/codec/io.go:52-54 | a failure that is not a net.Error ends write at once, with that call's bytes counted |
| FrameIO.ReadLoop | tinyrpc/codec/io.go:60-71 | read takes at most the buffer's length and what the stream holds, fills the buffer when it returns nil, and never returns a net.Error |
| FrameIO.ReadFull | tinyrpc/codec/io.go:60-71 | the buffer's front holds the next bytes of the stream, as many as ReadLoop says, and the error is ReadLoop's |
| FrameIO.ReadRecovers | tinyrpc/codec/io.go:60-71 | when the stream holds enough bytes and every failure is transient, read fills the buffer and returns nil |
| FrameIO.ReadShortStream | tinyrpc/codec/io.go:62-67 | a stream that ends early makes read return io.EOF after taking every byte left |
| FrameIO.ReadBody | tinyrpc/codec/client.go:113-117 | reading a body of known length takes what ReadLoop says, and on success the body is the next len bytes of the stream |
| FrameIO.SendLoop | tinyrpc/codec/io.go:10-30 | sendFrame sends at most the frame and all of it when it returns nil; a returned error is never a net.Error |
| FrameIO.SendFrame | tinyrpc/codec/io.go:10-30 | the stream grows by the prefix of uvarint(len) ++ data that SendLoop says was accepted |
| FrameIO.EmptyFrameBytes | tinyrpc/codec/io.go:13-19 | the frame of an empty payload is the single byte 0x00 |
| FrameIO.SendRecovers | tinyrpc/codec/io.go:21-29 | when every write failure is transient, sendFrame returns nil |
| FrameIO.ReceiveLoop | tinyrpc/codec/io.go:32-44 | receiveFrame takes no more than the stream holds, returns nil data with any error, and a payload shorter than what it took |
| FrameIO.ReceiveFrame | tinyrpc/codec/io.go:32-44 | returns the data and error of ReceiveLoop on the unread stream and takes exactly the bytes it used |
| FrameIO.FrameRoundTrip | tinyrpc/codec/io.go:10-44 | receiveFrame returns the payload sendFrame framed, takes exactly the frame and leaves later bytes unread |
| FrameIO.EmptyFrame | tinyrpc/codec/io.go:37-43 | a size of 0 gives an empty payload and no error, with no Read call |
| FrameIO.TruncatedFrame | tinyrpc/codec/io.go:37-41 | a stream that ends inside the payload gives io.EOF and nil data after taking every byte there was |
| FrameIO.MessageLoop | tinyrpc/codec/client.go:66-72 | a message goes out as its header frame then its raw body; all of it when the error is nil, never with a net.Error |
| FrameIO.MessageRecovers | tinyrpc/codec/client.go:66-72 | when every write failure is transient, the whole message goes out |
| FrameIO.SendMessage | tinyrpc/codec/server.go:138-144 | the stream grows by the prefix of the header frame ++ raw body that MessageLoop says was accepted |
| FrameIO.MessageFrame | tinyrpc/codec/server.go:44 | receiving a message's header frame returns the header and leaves exactly the body and what follows unread |
| BufferedWrite.BufWrite | tinyrpc/codec/client.go:29 | a bufio.Writer returns a kept error again with no bytes accepted and no call on the connection; otherwise it passes the connection's outcome through and keeps its error |
| BufferedWrite.WriteIteration | tinyrpc/codec/io.go:50-56 | one pass of write's loop: index == len returns nil, a Write error that is not a net.Error (nil included) returns it, a net.Error moves index on by its bytes |
| BufferedWrite.KeptNetErrorSpins | tinyrpc/codec/io.go:49-58 | once the bufio.Writer has kept a net.Error, every number of iterations leaves write exactly where it was |
| BufferedWrite.TimeoutNeverReturns | tinyrpc/codec/io.go:49-58 | a Write that reaches a connection which times out having accepted nothing (the 4096-byte buffer is full, or a Flush is under way): write has not returned after any number of iterations |
| RecurringRead.ReadIteration | tinyrpc/codec/io.go:61-68 | one pass of read's loop: index == len returns nil, a Read error that is not a net.Error returns it, otherwise index moves on by the bytes delivered, at most what is left |
| RecurringRead.RecurringNetErrorSpins | tinyrpc/codec/io.go:60-71 | when every Read from some call on delivers nothing and fails with a net.Error, k iterations leave read at the same index, k calls further on |
| RecurringRead.DeadlinePassedNeverReturns | tinyrpc/codec/io.go:60-71 | a connection whose every Read times out (a passed read deadline): read of one byte has not returned after any number of iterations |
| Rpc.EncodeBody | tinyrpc/codec/client.go:43-53 | an unregistered tag fails with NotFoundCompressorError before anything is marshalled |
| Rpc.DecodeBody | tinyrpc/codec/client.go:121-128 | a body decodes only under a registered tag, and only when the checksum is 0 or equals the body's CRC |
| Rpc.BodyRoundTrip | tinyrpc/codec/server.go:83-91 | a value encoded under a registered tag decodes back unchanged with its checksum, given serializer and compressor round trips |
| Rpc.ZeroChecksumSkips | tinyrpc/codec/server.go:83-85 | a checksum of 0 decodes the body exactly as its true CRC would |
| Client.ReceiveResponseHeader | tinyrpc/codec/client.go:82-91 | the header read takes no more than the stream holds |
| Client.DecodeReply | tinyrpc/codec/client.go:118-128 | a foreign tag gives CompressorTypeMismatchError before the checksum is looked at; then a wrong non-zero checksum gives UnexpectedChecksumError; a reply needs a matching or zero checksum |
| Client.ReceiveReply | tinyrpc/codec/client.go:103-129 | a failed read returns its error; once the read succeeds exactly ResponseLen bytes are taken, whatever DecodeReply then decides, and the reply or error is DecodeReply's when one is wanted, none otherwise |
| Client.ClientCodec.constructor | tinyrpc/codec/client.go:26-35 | a new codec has no pending calls and a zero response header |
| Client.ClientCodec.WriteRequest | tinyrpc/codec/client.go:38-79 | the method is recorded under Seq whatever happens; an encoding error writes nothing; otherwise the stream grows by the message's accepted prefix |
| Client.ClientCodec.ReadResponseHeader | tinyrpc/codec/client.go:82-100 | on success the response carries ID, pending[ID] or "", and Error, and only ID leaves the map; on failure the response and the map are unchanged |
| Client.ClientCodec.ReadResponseBody | tinyrpc/codec/client.go:103-129 | reply, error and bytes taken are ReceiveReply of the current header and the unread stream |
| Client.ClientCodec.DecodeResponseBody | tinyrpc/codec/client.go:118-128 | the checks after the read return DecodeReply's value or error |
| Server.NextSeq | tinyrpc/codec/server.go:53 | the counter goes up by exactly 1, and from 2^64-1 wraps to 0 |
| Server.SeqAfterCounts | tinyrpc/codec/server.go:53-59 | on a new codec the n-th accepted request is numbered n mod 2^64 |
| Server.SeqDistinct | tinyrpc/codec/server.go:53-59 | the first 2^64-1 requests get distinct, non-zero numbers |
| Server.ReceiveRequestHeader | tinyrpc/codec/server.go:42-51 | the header read takes no more than the stream holds |
| Server.DecodeArgs | tinyrpc/codec/server.go:80-91 | an unregistered tag gives NotFoundCompressorError before the checksum is looked at; then a wrong non-zero checksum gives UnexpectedChecksumError; arguments need a matching or zero checksum |
| Server.ReceiveArgs | tinyrpc/codec/server.go:65-92 | a failed read returns its error; once the read succeeds exactly RequestLen bytes are taken, whatever DecodeArgs then decides, and the arguments or error are DecodeArgs's when wanted, none otherwise |
| Server.ErrorResponseHasNoValue | tinyrpc/codec/server.go:105-121 | an error response drops the value, and its body is the compressor's output for empty input |
| Server.ServerCodec.constructor | tinyrpc/codec/server.go:31-39 | a new codec has counter 0, no pending requests and a zero request header |
| Server.ServerCodec.ReadRequestHeader | tinyrpc/codec/server.go:42-62 | on success the counter steps once, (ID, tag) is stored under it, and the request reports the counter and Method; on failure counter, map and request are unchanged |
| Server.ServerCodec.ReadRequestBody | tinyrpc/codec/server.go:65-92 | arguments, error and bytes taken are ReceiveArgs of the current header and the unread stream |
| Server.ServerCodec.DecodeRequestBody | tinyrpc/codec/server.go:80-91 | the checks after the read return DecodeArgs's value or error |
| Server.ServerCodec.WriteResponse | tinyrpc/codec/server.go:95-150 | an unknown Seq gives InvalidSequenceError and changes nothing; a known one leaves the map first; the response goes out under the client's ID and tag |
| Exchange.RequestHeaderDelivered | tinyrpc/codec/client.go:55-72 | the server reads back exactly the header fields the client filled in, with the body next on the stream |
| Exchange.ArgumentsDelivered | tinyrpc/codec/server.go:75-91 | the server decodes the client's arguments from the body, taking exactly its bytes |
| Exchange.RequestDelivered | tinyrpc/codec/client.go:60-72 | a whole request arrives: Seq, method, tag, the body's length and CRC, then the arguments, with exactly the message taken |
| Exchange.ResponseHeaderDelivered | tinyrpc/codec/server.go:126-144 | the client reads back exactly the header fields the server filled in, with the body next on the stream |
| Exchange.ReplyDelivered | tinyrpc/codec/client.go:113-128 | the client decodes the reply from a response sent with its own compressor |
| Exchange.ErrorResponseDelivered | tinyrpc/codec/client.go:104-111 | an error response arrives with its text and the client's ID, and ReadResponseBody(nil) takes exactly its body |
| Exchange.CallRoundTrip | tinyrpc/codec/server.go:132-135 | the response carries the client's own Seq, under which the client finds the method it recorded, and the reply decodes |

## Left out

- Locking (`sync.Mutex`, the headers' `RWMutex`): the model has one sequential caller per codec.
- `header.RequestPool` / `ResponsePool`: each `WriteRequest` / `WriteResponse` uses a new header object, which equals a reset pooled one (both constructors and `ResetHeader` give the zero header).
- `bufio` buffering and `Flush`: the writer records bytes as they are accepted. An error from `Flush` is covered only as a Write fault, not separately.
- FrameIO.WriteRecovers, FrameIO.SendRecovers, FrameIO.MessageRecovers: these hold for a writer whose failures are one-shot. A raw connection whose write deadline has passed fails on every Write, and the finite fault schedule cannot express that. They also do not hold behind the codecs' `bufio.Writer`, which keeps its first error, so one `net.Error` there makes `write` spin (see Findings).
- `Close` on either codec: it only closes the connection.
- FrameIO.Reader.ReadUvarint: the frame's length prefix is read without consulting the fault schedule, so it fails only at the end of the stream or on overflow. In Go, `bufio.Reader.ReadByte` with an empty buffer calls the connection's Read and returns its error, a `net.Error` included, and `receiveFrame` returns that error at once without retrying (`codec/io.go:33-35`). The model does not capture that error path. The Exchange lemmas' "read failures are transient" hypothesis covers only the payload and body reads.
- FrameIO.WriteCall: a Write that returns nil after accepting fewer bytes than offered breaks the io.Writer contract. It is excluded, although `write` would then return nil early.
- FrameIO.ReadLoop, FrameIO.ReadFull, FrameIO.ReadRecovers: the finite fault schedule cannot express a `net.Error` that recurs on every Read, such as a read deadline that has passed. The codecs' `bufio.Reader` hands such an error out once and clears it, so every Read reaches the connection again, and `read` then spins without returning. That case is modelled by `RecurringRead` (see Findings); ReadLoop's termination and ReadRecovers hold only for transient failures.
- FrameIO.ReadCall: an ordinary Read never returns (0, nil) when it has room. Such a reader would make `read` spin, and the loop is proved terminating on this assumption.
- `make([]byte, size)` for a huge announced size: the model allocates any size. Go would panic for sizes beyond memory.
- Compressor internals (gzip, zlib, snappy), the serializer and CRC-32: these are opaque functions in `Rpc.Plugins`. Malformed compressed input is not assumed to fail.
- `NilCompressorPanic`: the client decompressing under an unregistered configured tag panics in Go. The model returns it as an error value.
- The `net/rpc` wrappers (`tinyrpc/client.go`, `tinyrpc/server.go`) and `redis-tools` are not part of this model.
- Exchange.RequestDelivered, Exchange.ReplyDelivered, Exchange.CallRoundTrip: these hold only for compressed bodies shorter than 2^32 bytes, because the header truncates the length to a uint32.

## Findings

| source | as written | input that shows it | evidently intended | confidence | as-written member | corrected member |
|---|---|---|---|---|---|---|
| tinyrpc/codec/io.go:49-58 | `write` retries every `net.Error`, but the codecs pass it a `bufio.Writer` (`codec/client.go:29`, `codec/server.go:34`). That writer keeps its first error and returns it from every later Write with 0 bytes accepted. So after one `net.Error`, `write` loops forever without progress. This also happens on the next `WriteRequest` after a `Flush` timed out. | the bufio.Writer's 4096-byte buffer is full and a 1-byte write arrives; the connection's Write times out with 0 bytes accepted, and from then on every iteration gets (0, the same timeout). Equally: a `Flush` times out, then the next `WriteRequest` | a transient `net.Error` is retried until the buffer is delivered | high; not executed | BufferedWrite.TimeoutNeverReturns | FrameIO.WriteRecovers |
| tinyrpc/codec/io.go:60-71 | `read` retries every `net.Error` and adds the bytes delivered, possibly none. A connection whose read deadline has passed fails every Read with a timeout, a `net.Error`, having delivered nothing. The codecs' `bufio.Reader` returns that error once and clears it, so the next Read asks the connection again. `read` then loops forever without progress. | every Read returns (0, a deadline-exceeded timeout) and `read` is asked for 1 byte: every iteration leaves the index at 0 | a transient `net.Error` is retried until the buffer is filled | high; not executed | RecurringRead.DeadlinePassedNeverReturns | FrameIO.ReadRecovers |
