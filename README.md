# mcr: a verified model of a Minecraft RCON client

This project models the client in `mcr.go`, a Minecraft remote-console (Source RCON) client. Every packet is little-endian:

```
[Length int32][RequestID int32][Type int32][Body bytes][0x00 0x00]
```

Length is `len(Body) + 10`. The client keeps a request-id counter. The counter starts at `ResetID = 1`, goes up by one after each completed exchange, and starts again at 1 once it passes 100. The client sends an authentication packet (type 3) and then command packets (type 2). A server that rejects the password echoes request id `-1` (`FailureType`).

The model has five modules:

- `Errors`: the error kinds, plus `Result` and `Outcome`. These stand in for Go's `(T, error)` and `error` returns.
- `LittleEndian`: `byte` and `int32` as subset types. It has little-endian encoding, decoding and two's complement. `Wrap32` is Go's `int32(n)` conversion, which keeps only the low 32 bits.
- `Codec`:
  - the packet constants;
  - `CreatePacket`, a pure function of `(requestID, packetType, body)`;
  - the 8-byte response header;
  - `ReadResponse`, which specifies the reads that `send` performs.
- `Transport`: the class `Conn`, an abstract `net.Conn`. It holds a log of the bytes written, the bytes the peer will send, an open flag, and whether the peer still accepts writes.
- `Session`:
  - `NextID`, the counter rule, and `Advance`, which applies it k times, with their lemmas;
  - the class `Client`, with fields `server` and `requestID`, whose methods mirror `createPacket`, `incrementRequestID`, `send`, `authenticate`, `Command`, `Connect` and `Close`.

Each `Client` method's `ensures` ties its result and the new client and connection state to the specification functions `SendResult`, `SentOn`, `AuthOutcome` and `NextID`. The lemmas beside those functions state what the client promises.

## Behaviour of mcr.go worth knowing

- The response header that `send` reads is `{size, requestID}`, which is 8 bytes with no type field (mcr.go:43-46). `send` then reads `size - 8` bytes as the body. For a well-formed reply, the bytes handed back are the 4-byte type field followed by the first `len(body) - 2` bytes of the reply body, for bodies of two or more bytes. For shorter bodies they are a prefix of the type field. The last two body bytes and the two padding bytes are never returned: those 4 bytes stay unread in the stream. `Codec.ReadWellFormedReply` and `Codec.ReplyBodyIsNotStripped` prove this. Only the header fields make the round trip. The test at mcr_test.go:99-104 expects the command's response to equal the text the server sent, which this code does not deliver.
- The request id is incremented only after the write and both reads have succeeded (mcr.go:142). A write whose reply cannot be read does not use up an id.
- `int32(len(body) + 10)` truncates silently (mcr.go:181). `Codec.LengthFieldTruncates` exhibits a body whose length field becomes 0. The overflow error that mcr_test.go:363-369 expects from `createPacket` does not exist in this code.
- `send`, `authenticate`, `Command` and `Close` dereference `server`, so the model requires `server != null`. The not-connected error that mcr_test.go:53-59 expects does not exist in this code.
- The cap of 100 is a literal in the code (mcr.go:208). The configurable cap that mcr_test.go:262-270 uses (`WithCap`) does not exist in this code.
- `Connect` always dials, and it does not close a connection that was attached earlier.

## Model

| member | source | states |
|---|---|---|
| `LittleEndian.FromLEOfToLE` | mcr.go:181-189 | decoding the k-byte little-endian encoding of any number below 256^k gives that number back |
| `LittleEndian.ToLEOfFromLE` | mcr.go:131 | re-encoding the value of any byte sequence in as many bytes gives the same bytes back |
| `LittleEndian.Wrap32` | mcr.go:181 | `int32(n)` keeps n modulo 2^32 as two's complement and leaves every n already in int32 range unchanged |
| `LittleEndian.DecodeEncodeInt32` | mcr.go:181-189 | every int32, negative ones such as FailureType included, is recovered from its 4 little-endian bytes |
| `LittleEndian.EncodeInt32` | mcr.go:181-189 | the 4 bytes written for an int32 have, read as an unsigned little-endian number, the value of its two's complement bit pattern |
| `LittleEndian.DecodeInt32` | mcr.go:131 | the int32 read from 4 bytes re-encodes to those same bytes, so decoding inverts encoding on every input and the encoding is a bijection |
| `LittleEndian.EncodeInt32Examples` | mcr.go:27 | -1 is written as `FF FF FF FF`, and 14 as `0E 00 00 00` |
| `Codec.CreatePacket` | mcr.go:171-202 | the packet is `len(body)+14` bytes: a length field decoding to `int32(len(body)+10)`, the request id, the type, the body verbatim, then `00 00` |
| `Codec.LengthFieldCountsRest` | mcr.go:172 | without overflow, the length field equals the number of bytes that follow it |
| `Codec.LengthFieldTruncates` | mcr.go:181 | with no overflow check, a body of 2^32-10 bytes gets a length field of 0 |
| `Codec.ListCommandPacket` | mcr.go:172-197 | command `list` with request id 1 is `0E 00 00 00 01 00 00 00 02 00 00 00 6C 69 73 74 00 00` |
| `Codec.ReadHeaders` | mcr.go:43-46 | the 8 header bytes are exactly the encodings of the size and the request id it returns |
| `Codec.ReadHeadersOfPacket` | mcr.go:130-131 | the header read from a packet's first 8 bytes recovers its length field and request id |
| `Codec.PayloadLength` | mcr.go:136 | `res.size - 8` in int32 arithmetic: `size - 8`, wrapped by 2^32 for the 8 smallest sizes |
| `Codec.ReadResponse` | mcr.go:130-147 | the reads succeed iff 8 header bytes and then a non-negative `size-8` payload bytes are available; the response is the header's request id and exactly those payload bytes, and the stream splits into header, payload and the unread rest |
| `Codec.ReadWellFormedReply` | mcr.go:130-147 | for a reply shaped like `CreatePacket(id, t, body)`, the response carries id and the first `len(body)+2` bytes after the header, and 4 bytes of the reply remain unread |
| `Codec.ReplyBodyIsNotStripped` | mcr.go:136-147 | for such a reply with a body of 2 or more bytes, the returned body is the type field plus the body minus its last two bytes, never the body itself |
| `Session.NextID` | mcr.go:206-211 | adds 1 below 100, gives ResetID from 100 up to MaxInt32-1, wraps MaxInt32 to MinInt32, and keeps [1,100] closed |
| `Session.AdvanceCycles` | mcr.go:204-211 | from an id in [1,100], k increments give `(id - 1 + k) % 100 + 1` |
| `Session.WrapsToResetID` | mcr_test.go:247-254 | from any id in [1,100], `100 - id + 1` increments reach ResetID, and one increment from 100 gives ResetID |
| `Session.FullCycleFromResetID` | mcr.go:204-211 | from ResetID, 99 increments reach 100 and the 100th brings the counter back to 1 |
| `Session.SendResult` | mcr.go:124-148 | `send` succeeds iff the connection is open, accepts the write, and the reads succeed; a closed connection gives ConnClosed, a refused write gives WriteFailed, and otherwise the result is exactly that of the reads |
| `Session.AuthOutcome` | mcr.go:158-167 | authentication passes iff `send` succeeded and the echoed id is not FailureType; a send error is passed on unchanged, and an echoed FailureType gives AuthenticationFailed |
| `Session.AuthAcceptsUnlessFailureID` | mcr.go:163-165 | against a well-formed reply, authentication passes iff the reply's request id is not -1, and otherwise fails with AuthenticationFailed |
| `Session.Client.ValidIDsNeverOverflow` | mcr.go:204-211 | while the invariant holds, the outgoing id is never FailureType, `requestID++` cannot overflow, and the next id is one more or ResetID |
| `Session.Client.NewClient` | mcr.go:73-79 | a new client has no connection, request id ResetID, the given address, and satisfies `ResetID <= requestID <= 100` |
| `Session.Client.CreatePacket` | mcr.go:171-202 | returns the packet stamped with the current request id and changes neither the request id nor the connection |
| `Session.Client.IncrementRequestID` | mcr.go:206-211 | the request id becomes `NextID` of its old value |
| `Session.Client.Send` | mcr.go:124-148 | returns `SendResult` of the old connection state; logs the packet and consumes the response only when the write succeeds; increments the request id exactly once on success and leaves it unchanged on any error; keeps the counter invariant |
| `Session.Client.Authenticate` | mcr.go:152-168 | sends an authentication packet with the password, reports `AuthOutcome` of the send, and increments the id whenever the send succeeded, even on a rejected password |
| `Session.Client.Command` | mcr.go:101-113 | sends a command packet; on success returns the response body, otherwise `""` with the send's error |
| `Session.Client.Connect` | mcr.go:83-97 | a dial error is returned with nothing changed; otherwise the dialed connection is attached and the outcome is that of authenticating on it |
| `Session.Client.Close` | mcr.go:117-120 | always resets the request id to ResetID, closes the connection, and fails only when it was already closed |
| `Session.RejectedLogin` | mcr.go:152-168 | against a server that echoes -1, Connect fails with AuthenticationFailed, the connection stays open, and the request id has advanced to 2 |
| `Transport.Conn.Write` | mcr.go:125-128 | a write logs all the bytes, or fails on a closed or broken connection without logging any |
| `Transport.Conn.ReadFull` | mcr.go:131-140 | a read returns exactly the next n bytes, or fails after consuming the short remainder; a read of 0 bytes always succeeds |
| `Transport.Conn.Close` | mcr.go:119 | closing marks the connection closed and fails if it already was |

## Left out

- TCP dialing and the 10-second timeout (`net.DialTimeout`, `Protocol`, `Timeout`) are I/O. `Connect` takes the dial's result as its `dialed` parameter.
- `option.go` is not part of this model. It is configuration plumbing that does not fit the client type.
- `mcr_test.go` exercises a newer API that `mcr.go` does not have: `WithConnection`, `WithCap`, `SetRequestID`, `CommandNoResponse`, integer-overflow and not-connected errors. None of it is modelled. Its request-id reset test corresponds to `Session.WrapsToResetID`.
- `binary.Read` into a struct with unexported fields is a library behaviour. It is modelled as reading two little-endian int32 values.
- Responses longer than 4096 bytes are not modelled separately. The code does nothing special for them.
- `Session.Client.Send`: a header size in [MinInt32+8, 7], for which the int32 `size-8` is negative, makes Go's `make` panic. The model returns the error `NegativePayload` instead of modelling a crash.
- `Session.Client.Send`: the only write failures modelled are "connection closed" and "peer gone". Partial writes and the distinction between `io.EOF` and `io.ErrUnexpectedEOF` are merged into `WriteFailed` and `ShortRead`.
- The `error` results of `binary.Write` into a `bytes.Buffer` inside `createPacket` are never returned for fixed-size values. `Codec.CreatePacket` therefore returns the packet without an error branch.
- Strings (command, password, response body) are modelled as byte sequences, which is what Go's `[]byte(s)` and `string(b)` conversions carry.
- Concurrency is not modelled. The client is meant for strictly sequential use.
