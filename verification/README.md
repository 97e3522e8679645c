# chat: a WebSocket chat server, modelled in Dafny

The system is a small WebSocket server written in Rust on top of the `mio`
event loop. This project models its three core files:

- **`src/frame.rs`, the frame codec** (module `Frame`, file `frame.dfy`).
  - `byte_to_opcode` and `opcode_to_byte` map opcodes to and from the low nibble of byte 0.
  - `len_to_vec` writes the length field. It uses one byte up to 0xfd, `126` plus a big-endian `u16` up to 0xffff, `127` plus a big-endian `u64` up to 2^63 - 1, and gives `Err("Too long")` above that.
  - `parse_frame` decodes a frame from a byte buffer.
  - `pack_message` builds a FIN+Text frame, masked with a key or not.
- **`src/client.rs`, one connection** (module `Client`, file `client.dfy`).
  - The `HttpParser` callbacks fill a header table shared with the client. The HTTP tokenizer that makes those callbacks is a parameter: it maps each chunk to the callbacks it makes.
  - `WebSocketClient` moves from AwaitingHandshake to HandshakeResponse to Connected.
  - `read` drains the socket: it feeds the HTTP parser until the request is an upgrade, or decodes one frame once connected.
  - `write` sends the `101 Switching Protocols` response and switches the client to Connected.
- **`src/server.rs`, the registry** (module `Server`, file `server.dfy`).
  - `WebSocketServer` hands out tokens from a counter and keeps the clients in a map keyed by token.
  - `ready` accepts connections on the listener token.
  - It also routes readable and writable events to a client's `read` and `write`, re-registering the client with the interest it then has.

Bytes are integers in `[0, 256)`. Bit operations are written out as arithmetic:
`(b >> k) & 1`, `b & 0x0f`, `b & 0x7f`, `b | 0x80` and `^`.

`usize` lengths are bounded by 2^64. The frame buffer is a `seq`.

Objects whose fields the source updates in place are classes:
- `HeaderTable` is the `Rc<RefCell<HashMap>>` that the parser and the client share.
- `HttpParser`, `WebSocketClient` and `WebSocketServer` are classes too.
- `EventLoop` records the `register_opt` and `reregister` calls it receives.

A socket is the sequence of results that `try_read` or `accept` will give. An `unwrap` or `panic!` on a path the source takes becomes a `requires` of the member that reaches it, such as a slice past the end of the buffer or a missing header.

The model follows the code, not RFC 6455:

- `parse_frame` has no "incomplete" result. A buffer shorter than the header claims makes it panic (`Frame.Parsable` is the precondition), and it never reports a missing payload as an error.
- The one-byte length field reaches up to 0xfd, not 125. Lengths 126 and 127 are therefore written as bare markers.
- `parse_frame` always skips four key bytes, and two more for a 16-bit length. It drops the payload of an unmasked frame.
- As a result, a packed frame does not round-trip through the decoder (`Frame.PackedNeverParses`).
- There is no outbound queue, echo, close handling or teardown. `read` decodes one frame and discards the rest of the chunk.
- The handshake response keeps the literal's stray line break. Line 126 of `src/client.rs` lacks the trailing backslash, so the text holds `"\r\n\n"` followed by the next line's 49 spaces of indentation.

## Model

| member | source | states |
|---|---|---|
| Frame.ByteToOpcode | src/frame.rs:18-30 | The opcode is canonical (reserved non-control codes 3-7, reserved control codes 11-15), and it is a control opcode exactly when bit 3 of the byte is set. That only the low nibble matters follows from `Frame.OpcodeRoundTrip` and `Frame.OpcodeByteRoundTrip`. |
| Frame.OpcodeByteRoundTrip | src/frame.rs:32-43 | Every canonical opcode maps to a nibble at most 0x0f that `byte_to_opcode` maps back to the same opcode. |
| Frame.OpcodeRoundTrip | src/frame.rs:18-43 | For every byte, `opcode_to_byte(byte_to_opcode(b))` is `b & 0x0f`. |
| Frame.XorTwice | src/frame.rs:109 | XOR with the same key byte twice gives the byte back. |
| Frame.WriteU16 | src/frame.rs:51 | `write_u16` produces two bytes. |
| Frame.WriteU64 | src/frame.rs:59 | `write_u64` produces eight bytes. |
| Frame.ReadU16 | src/frame.rs:84 | `read_u16` gives a value below 2^16. |
| Frame.ReadU64 | src/frame.rs:85 | `read_u64` gives a value below 2^64. |
| Frame.BeValueOfBytes | src/frame.rs:59 | The `n` big-endian bytes written for a value below 256^n read back as that value. |
| Frame.BeBytesOfValue | src/frame.rs:85 | The value read from `n` bytes, written back on `n` bytes, gives the same bytes. |
| Frame.WriteReadU16 | src/frame.rs:51 | `read_u16(write_u16(x)) == x` for every `x` below 2^16. |
| Frame.WriteReadU64 | src/frame.rs:59 | `read_u64(write_u64(x)) == x` for every `x` below 2^64. |
| Frame.ReadWriteU16 | src/frame.rs:84 | Writing back the `u16` read from a buffer gives its first two bytes. |
| Frame.ReadWriteU64 | src/frame.rs:85 | Writing back the `u64` read from a buffer gives its first eight bytes. |
| Frame.LenFieldShape | src/frame.rs:45-68 | The length field is `Ok` exactly when `len <= 2^63 - 1`, and otherwise is `Err("Too long")`. Up to 0xfd it is the single byte `len`. Up to 0xffff it is `126` followed by two bytes that read back as `len`. Above that it is `127` followed by eight bytes that read back as `len`. |
| Frame.LenToVec | src/frame.rs:45-68 | The pushes of `len_to_vec` build exactly the length field that `LenField` describes, including the error case. |
| Frame.LenFieldSmallExamples | src/frame.rs:48 | Lengths 0, 125, 126 and 0xfd are written as one byte. |
| Frame.LenField16Examples | src/frame.rs:49-56 | Lengths 0xfe and 0xffff are written as `126` followed by their two big-endian bytes. |
| Frame.LenField64Example | src/frame.rs:57-64 | 0x10000 is written as `127` followed by its eight big-endian bytes. |
| Frame.MaskInvolution | src/frame.rs:105-111 | Masking with the same 4-byte key twice gives back any payload, the empty one included. |
| Frame.Extend | src/frame.rs:61-63 | The push loop appends the bytes in order. |
| Frame.ExtendMasked | src/frame.rs:125-127 | The masking push loop appends byte `i` XOR key byte `i % 4`. |
| Frame.ReadMaskingKey | src/frame.rs:91-97 | The key loop copies the four bytes at the key offset. |
| Frame.ParseFrame | src/frame.rs:70-113 | When the buffer has the bytes it indexes, `parse_frame` returns the decoding given by `Decode`. |
| Frame.DecodeErrors | src/frame.rs:88-104 | Decoding succeeds exactly when RSV1-3 are clear and the length is at most 2^63 - 1. A too-long length gives `Err("")`; otherwise a set reserved bit gives `Err("Unknown ext format")`. |
| Frame.DecodeSuccess | src/frame.rs:77-112 | A decoded frame has the opcode of byte 0's low nibble. An unmasked payload decodes to empty. A masked payload has the announced length, and its byte `i` is the byte at key offset + 4 + `i` XOR key byte `i % 4`. |
| Frame.LengthRoundTrip | src/frame.rs:82-87 | A length field written for `len <= 125` or `len >= 0xfe` reads back as `len`, whatever the mask bit is. |
| Frame.LengthCollision | src/frame.rs:48 | A one-byte field for 128..0xfd reads back as a masked frame of length `len - 128`. |
| Frame.LengthMarkerCollision | src/frame.rs:82-85 | A one-byte field for 126 or 127 makes the next bytes read as a 16- or 64-bit length, with the key at offset 6 or 10. |
| Frame.PackMessage | src/frame.rs:115-137 | `pack_message` returns `Ok` of the frame that `Packed` describes, for every message and key. |
| Frame.PackedHeader | src/frame.rs:115-121 | A packed frame starts with 0x81 (FIN set, no reserved bit, opcode Text) and holds the header, the length field and exactly `len` payload bytes. No key is written. |
| Frame.PackedLengthField | src/frame.rs:119-124 | The length field follows byte 0. Setting the mask bit leaves its low seven bits unchanged. |
| Frame.PackedMaskedPayload | src/frame.rs:123-128 | With a key, the mask bit is set and payload byte `i` is `msg[i]` XOR `m[i % 4]`. |
| Frame.PackedPlainPayload | src/frame.rs:129-134 | Without a key, the length field and the message are copied unchanged. |
| Frame.PackedNeverParses | src/frame.rs:92-105 | `parse_frame` cannot be applied to a frame packed with length at most 125 or at least 0xfe, because it skips key bytes that were never written. |
| Frame.MidLengthPackParses | src/frame.rs:48 | An unmasked packed frame of length 128..0xfd decodes as Text, using the first four message bytes as the key and `len - 128` further bytes as the payload. |
| Frame.UnmaskedHelloPanics | src/frame.rs:105 | The unmasked frame `81 05 "Hello"` is too short for the slice that `parse_frame` takes. |
| Frame.MaskedHello | src/frame.rs:70-113 | A masked "Hello" with any key decodes to Text "Hello". |
| Frame.PackHi | src/frame.rs:115-137 | Unmasked "Hi" packs as `81 02 48 69`. |
| Frame.ReservedBitRejected | src/frame.rs:100-104 | A frame with RSV1 set is rejected as an unknown extension. |
| Client.HeaderTable.constructor | src/client.rs:69 | The shared header map starts empty. |
| Client.HttpParser.constructor | src/client.rs:73-76 | The parser starts with no current key and shares the given header table. |
| Client.HttpParser.OnHeaderField | src/client.rs:35-38 | The field name becomes the current key, and parsing continues. |
| Client.HttpParser.OnHeaderValue | src/client.rs:40-44 | The value is stored under the current key in the shared table, with no other entry changed, and parsing continues. |
| Client.HttpParser.OnHeadersComplete | src/client.rs:46-48 | Parsing stops at the end of the headers. |
| Client.HttpParser.Dispatch | src/client.rs:96 | `parse` makes the tokenizer's callbacks in order and stops at the first one that returns false. The parser and the shared table end as `Callbacks` gives them. |
| Client.CallbacksKeepOthers | src/client.rs:35-44 | The callbacks write only under the field names they announce and the key they start from. Every other header keeps its value. |
| Client.CallbacksStorePair | src/client.rs:35-44 | A field name followed by its value stores that value under that name. The value is still there when the callbacks end, unless a value follows directly or the name is announced again. |
| Client.WebSocketClient.constructor | src/client.rs:68-80 | A new client awaits the handshake, is interested in reading, and holds an empty header table shared with its parser. |
| Client.ReadSpecStates | src/client.rs:94-115 | `read` either keeps the state or moves it from AwaitingHandshake to HandshakeResponse. |
| Client.ReadSpecLater | src/client.rs:104-114 | After the handshake, `read` consumes at most one result, and neither the state nor the parser input changes. |
| Client.ReadSpecPrefix | src/client.rs:83-118 | `read` consumes a non-empty prefix of a non-empty socket. While awaiting the handshake, the parser receives exactly the chunks of that prefix. In a later state, nothing reaches the parser. |
| Client.ReadSpecNoEarlyUpgrade | src/client.rs:95-103 | While awaiting the handshake, every result consumed before the last is a chunk after which the request was not yet an upgrade. |
| Client.ReadSpecLastResult | src/client.rs:95-103 | `read` moves to HandshakeResponse exactly when its last result was a chunk that completed an upgrade. If it is still awaiting after a chunk, the socket is drained. |
| Client.ReadHeadersLater | src/client.rs:104-114 | After the handshake, `read` leaves the header table and the current key unchanged. |
| Client.ReadHeadersFeed | src/client.rs:95-103 | While awaiting the handshake, the headers `read` leaves are what the callbacks build from exactly the chunks it consumes, each tokenized after the bytes before it. |
| Client.WebSocketClient.Read | src/client.rs:82-119 | The read loop leaves state, parsed bytes and socket as `ReadSpec` gives them, and the parser's key and the shared header table as `ReadHeaders` gives them. It sets the interest to writable exactly when the handshake is pending, and in Connected it decodes a frame without panicking. |
| Client.ResponseLayout | src/client.rs:124-128 | The response has the status line first, then the accept key at a fixed offset, and ends with an empty line. It has `"\r\n\n"` at offsets 83-86, followed by 49 spaces. |
| Client.WebSocketClient.Write | src/client.rs:121-133 | `write` sends the response built from `gen_key` of the client's Sec-WebSocket-Key, moves the client to Connected, and swaps writable for readable interest. The socket input and the parsed bytes are unchanged. |
| Client.Handshake | src/client.rs:82-133 | On a new client, a chunk whose callbacks give the Sec-WebSocket-Key and complete an upgrade leads `read` to HandshakeResponse. `write` then finds the key, sends the response for it, and ends Connected. |
| Server.EventLoop.Register | src/server.rs:46-48 | Registering a token records that token with its interest. |
| Server.EventLoop.Reregister | src/server.rs:53-54 | Re-registering a token records that token with its new interest. |
| Server.NextTokenFresh | src/server.rs:43-44 | When all issued tokens lie in `[2, counter]`, the next token is neither in use nor the listener's token 0. |
| Server.WebSocketServer.constructor | src/server.rs:17-23 | A new server has no clients and its counter at 1, and the registry invariant holds. |
| Server.WebSocketServer.AcceptClient | src/server.rs:35-48 | An accept error changes nothing but the listener. An accepted socket gets token `counter + 1`, unused until then, and a fresh client awaiting the handshake that is registered readable. The new client has a fresh, empty header table, a fresh parser with no current key, and nothing parsed or sent. Other clients are untouched. |
| Server.WebSocketServer.ReadClient | src/server.rs:50-55 | The client's `read` runs as `ReadSpec` and `ReadHeaders` say, and the client is re-registered with its new interest. |
| Server.WebSocketServer.WriteClient | src/server.rs:58-63 | The client's `write` runs, and the client is re-registered readable. |
| Server.WebSocketServer.Ready | src/server.rs:30-64 | `ready` keeps the registry invariant. On the listener token, it accepts as `AcceptClient` says, and after an accept error it does nothing more. An accepted client starts with an empty header table of its own. On a client token, it reads and then writes that client, with the write's Sec-WebSocket-Key looked up in the table the read left. The re-registrations are recorded in order. |

## Left out

- UTF-8 decoding. The `from_utf8(..).unwrap()` calls in the parser callbacks and in `read` are not modelled. Header names and values are given as strings, and a non-UTF-8 header or Text payload, which would panic, is not excluded.
- Logging. Every `println!` is left out, including the printing of a decoded frame in `read`. `read` decodes the frame and drops the result, as the source does apart from printing it.
- `gen_key`. The SHA-1 digest and the base64 encoding are not modelled. `gen_key` is a function parameter of `write`.
- The `http_muncher` parser. Its tokenizer is not part of this model. It is a function parameter of `read` that gives the callbacks made on each chunk, given the bytes fed before it. `is_upgrade` is a function parameter of the bytes fed so far. Nothing ties the two together or to HTTP syntax.
- Client.WebSocketClient.Write does not model a short or failed `try_write`. The whole response is appended to what was sent, and the `unwrap` panic on a write error is not represented.
- Server.EventLoop.Register and Server.EventLoop.Reregister do not model failures. The `unwrap` on a failed registration is not represented, and the `PollOpt::edge() | PollOpt::oneshot()` options are not recorded.
- Server.WebSocketServer.AcceptClient uses an unbounded counter. The `usize` overflow of `token_counter += 1` after 2^64 - 2 accepts is not modelled.
- Event kinds other than readable and writable, such as hang-up and error, are not modelled. `ready` ignores them.
- Client.WebSocketClient.Read works on a finite socket. A closed peer makes `try_read` return `Ok(Some(0))` forever, so the AwaitingHandshake loop would spin without end. The model ends at the end of the sequence instead.
- The TCP sockets themselves are not modelled, nor is their identity in the registrations. A registration records the token only.
- `src/main.rs` is not part of this model. It binds the listener and runs the event loop.
- `src/handler.rs` is not part of this model. It is an abandoned copy of `src/server.rs` that imports a type, `WebSocktServer`, which does not exist.
