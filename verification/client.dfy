/**
 * The per-connection state machine of src/client.rs: the header-collecting
 * callbacks of the HTTP parser, and `WebSocketClient` with its handshake
 * states, its interest set and its `read` and `write` handlers.
 *
 * The socket is a sequence of read results that `read` consumes from the
 * front; an exhausted sequence reads as "would block". The HTTP tokenizer is
 * outside the model: it is a function from each chunk (and the bytes before
 * it) to the header callbacks it makes, the bytes handed to it are recorded,
 * and whether they form an upgrade request is an oracle over all bytes
 * handed to it so far.
 * `gen_key` (SHA-1 and base64) is a function parameter of `write`.
 */
module Client {
  import opened Wrappers
  import opened Frame

  /** The header map shared by the parser handler and the client (`Rc<RefCell<HashMap<String, String>>>`). */
  class HeaderTable {
    var entries: map<string, string>

    constructor()
      ensures entries == map[]
    {
      entries := map[];
    }
  }

  /**
   * A callback the HTTP tokenizer makes while it parses: a header field name,
   * a header value, or the end of the headers.
   */
  datatype HeaderEvent = Field(name: string) | Value(text: string) | HeadersComplete

  /**
   * The HTTP tokenizer, which is not part of this model: given the bytes it was
   * handed before and a new chunk, the callbacks it makes on that chunk.
   */
  type Tokenizer = (seq<Byte>, seq<Byte>) -> seq<HeaderEvent>

  /** What the header callbacks have built: the last field name and the header map. */
  datatype HeaderState = HeaderState(currentKey: Option<string>, entries: map<string, string>)

  /**
   * The callbacks of one `parse` call applied in order. The tokenizer stops at
   * `HeadersComplete`, whose callback returns false; a value with no field
   * name before it makes `on_header_value` panic, which gives `None`.
   */
  function Callbacks(h: HeaderState, events: seq<HeaderEvent>): Option<HeaderState>
    decreases |events|
  {
    if events == [] then Some(h)
    else match events[0]
      case Field(name) => Callbacks(HeaderState(Some(name), h.entries), events[1..])
      case Value(text) =>
        if h.currentKey.None? then None
        else Callbacks(HeaderState(h.currentKey, h.entries[h.currentKey.value := text]), events[1..])
      case HeadersComplete => Some(h)
  }

  /** The field names the callbacks in `events` announce. */
  function FieldNames(events: seq<HeaderEvent>): set<string>
  {
    set i | 0 <= i < |events| && events[i].Field? :: events[i].name
  }

  /**
   * The callbacks only write under the field names they announce and the
   * current key they start from: every other header is kept.
   */
  lemma {:induction false} CallbacksKeepOthers(h: HeaderState, events: seq<HeaderEvent>, key: string)
    requires Callbacks(h, events).Some?
    requires key in h.entries && key !in FieldNames(events) && h.currentKey != Some(key)
    ensures key in Callbacks(h, events).value.entries
    ensures Callbacks(h, events).value.entries[key] == h.entries[key]
    decreases |events|
  {
    if events != [] && !events[0].HeadersComplete? {
      assert FieldNames(events[1..]) <= FieldNames(events) by {
        forall n | n in FieldNames(events[1..]) ensures n in FieldNames(events) {
          var i :| 0 <= i < |events[1..]| && events[1..][i].Field? && events[1..][i].name == n;
          assert events[i + 1] == events[1..][i];
        }
      }
      match events[0]
      case Field(name) =>
        assert name in FieldNames(events) by { assert events[0].Field?; }
        CallbacksKeepOthers(HeaderState(Some(name), h.entries), events[1..], key);
      case Value(text) =>
        CallbacksKeepOthers(HeaderState(h.currentKey, h.entries[h.currentKey.value := text]), events[1..], key);
    }
  }

  /**
   * A value stored right after its field name is still there when the
   * callbacks end, as long as no further value follows it directly and the
   * name is not announced again.
   */
  lemma CallbacksStorePair(h: HeaderState, name: string, text: string, rest: seq<HeaderEvent>)
    requires name !in FieldNames(rest) && (rest == [] || !rest[0].Value?)
    requires Callbacks(HeaderState(Some(name), h.entries[name := text]), rest).Some?
    ensures Callbacks(h, [Field(name), Value(text)] + rest).Some?
    ensures var out := Callbacks(h, [Field(name), Value(text)] + rest).value;
      name in out.entries && out.entries[name] == text
  {
    var events := [Field(name), Value(text)] + rest;
    assert events[1..] == [Value(text)] + rest;
    assert events[1..][1..] == rest;
    var mid := HeaderState(Some(name), h.entries[name := text]);
    assert Callbacks(h, events) == Callbacks(mid, rest);
    if rest != [] && rest[0].Field? {
      var other := rest[0].name;
      assert other != name by { assert other in FieldNames(rest); }
      assert FieldNames(rest[1..]) <= FieldNames(rest) by {
        forall n | n in FieldNames(rest[1..]) ensures n in FieldNames(rest) {
          var i :| 0 <= i < |rest[1..]| && rest[1..][i].Field? && rest[1..][i].name == n;
          assert rest[i + 1] == rest[1..][i];
        }
      }
      CallbacksKeepOthers(HeaderState(Some(other), mid.entries), rest[1..], name);
    }
  }

  /** The `ParserHandler` that collects header fields and values. */
  class HttpParser {
    var currentKey: Option<string>
    const headers: HeaderTable

    constructor(headers: HeaderTable)
      ensures currentKey == None && this.headers == headers
    {
      currentKey := None;
      this.headers := headers;
    }

    /** The last field name and the shared header map. */
    function Current(): HeaderState
      reads this, headers
    {
      HeaderState(currentKey, headers.entries)
    }

    /** `on_header_field`: remembers the field name and asks the parser to go on. */
    method OnHeaderField(s: string) returns (cont: bool)
      modifies this
      ensures currentKey == Some(s)
      ensures cont
    {
      currentKey := Some(s);
      cont := true;
    }

    /**
     * `on_header_value`: stores the value under the last field name, replacing
     * any earlier value and leaving the other entries alone. Without a field
     * name the `unwrap` panics.
     */
    method OnHeaderValue(s: string) returns (cont: bool)
      requires currentKey.Some?
      modifies headers
      ensures headers.entries == old(headers.entries)[currentKey.value := s]
      ensures cont
    {
      headers.entries := headers.entries[currentKey.value := s];
      cont := true;
    }

    /** `on_headers_complete`: asks the parser to stop after the headers. */
    method OnHeadersComplete() returns (cont: bool)
      ensures !cont
    {
      cont := false;
    }

    /**
     * The tokenizer's side of `parse`: it makes the callbacks in order and
     * stops as soon as one returns false.
     */
    method Dispatch(events: seq<HeaderEvent>)
      requires Callbacks(Current(), events).Some?
      modifies this, headers
      ensures Some(Current()) == Callbacks(old(Current()), events)
    {
      var i := 0;
      while i < |events|
        invariant 0 <= i <= |events|
        invariant Callbacks(Current(), events[i..]) == Callbacks(old(Current()), events)
      {
        var cont: bool;
        match events[i] {
          case Field(name) =>
            cont := OnHeaderField(name);
          case Value(text) =>
            cont := OnHeaderValue(text);
          case HeadersComplete =>
            cont := OnHeadersComplete();
        }
        if !cont {
          break;
        }
        assert events[i + 1..] == events[i..][1..];
        i := i + 1;
      }
    }
  }

  datatype ClientState = AwaitingHandshake | HandshakeResponse | Connected

  /** The two readiness events of an `EventSet` the program uses. */
  datatype Interest = Readable | Writable

  /** What `try_read` into the 2048-byte buffer can give. */
  datatype ReadResult =
    | Error
    | WouldBlock
    | Chunk(data: ChunkData)

  /** The bytes of one successful read: at most the 2048 bytes of the buffer. */
  type ChunkData = s: seq<Byte> | |s| <= 2048

  /** The interest a client holds in each state: it waits to write only while the handshake response is due. */
  function InterestFor(state: ClientState): set<Interest>
  {
    if state == HandshakeResponse then {Writable} else {Readable}
  }

  /** The bytes of the chunks in `rs`, in order; errors and would-block give none. */
  function Fed(rs: seq<ReadResult>): seq<Byte>
  {
    if rs == [] then []
    else (if rs[0].Chunk? then rs[0].data else []) + Fed(rs[1..])
  }

  /** The state, the bytes handed to the HTTP parser, and the unread socket after `read`. */
  datatype ReadOutcome = ReadOutcome(state: ClientState, parsed: seq<Byte>, rest: seq<ReadResult>)

  /**
   * What `read` does to a client, as a function: it stops at an error or at
   * would-block; while awaiting the handshake it feeds each chunk to the HTTP
   * parser and stops once the parser reports an upgrade; in the later states
   * it handles one chunk and stops.
   */
  function ReadSpec(state: ClientState, parsed: seq<Byte>, socket: seq<ReadResult>,
                    isUpgrade: seq<Byte> -> bool): ReadOutcome
    decreases |socket|
  {
    if socket == [] then ReadOutcome(state, parsed, [])
    else match socket[0]
      case Error => ReadOutcome(state, parsed, socket[1..])
      case WouldBlock => ReadOutcome(state, parsed, socket[1..])
      case Chunk(data) =>
        if state == AwaitingHandshake then
          if isUpgrade(parsed + data) then ReadOutcome(HandshakeResponse, parsed + data, socket[1..])
          else ReadSpec(state, parsed + data, socket[1..], isUpgrade)
        else ReadOutcome(state, parsed, socket[1..])
  }

  /**
   * `read` never moves a client back: the state either stays or goes from
   * AwaitingHandshake to HandshakeResponse.
   */
  lemma {:induction false} ReadSpecStates(state: ClientState, parsed: seq<Byte>, socket: seq<ReadResult>,
                                          isUpgrade: seq<Byte> -> bool)
    ensures var out := ReadSpec(state, parsed, socket, isUpgrade);
      out.state == state || (state == AwaitingHandshake && out.state == HandshakeResponse)
    decreases |socket|
  {
    if socket != [] && socket[0].Chunk? && state == AwaitingHandshake
       && !isUpgrade(parsed + socket[0].data) {
      ReadSpecStates(state, parsed + socket[0].data, socket[1..], isUpgrade);
    }
  }

  /**
   * After the handshake, `read` consumes at most one result and changes
   * neither the state nor what the HTTP parser was given.
   */
  lemma ReadSpecLater(state: ClientState, parsed: seq<Byte>, socket: seq<ReadResult>,
                      isUpgrade: seq<Byte> -> bool)
    requires state != AwaitingHandshake
    ensures ReadSpec(state, parsed, socket, isUpgrade)
      == ReadOutcome(state, parsed, if socket == [] then [] else socket[1..])
  {
  }

  /** Splitting off the first result of a sequence. */
  lemma FedCons(rs: seq<ReadResult>, j: nat)
    requires rs != [] && j < |rs|
    ensures Fed(rs[..j + 1]) == (if rs[0].Chunk? then rs[0].data else []) + Fed(rs[1..][..j])
  {
    assert rs[..j + 1][1..] == rs[1..][..j];
  }

  /**
   * `read` consumes a prefix of the socket, non-empty unless the socket is
   * empty, and hands the parser the bytes of the chunks in it if it was
   * awaiting the handshake, none otherwise.
   */
  lemma {:induction false} ReadSpecPrefix(state: ClientState, parsed: seq<Byte>, socket: seq<ReadResult>,
                                          isUpgrade: seq<Byte> -> bool)
    ensures var out := ReadSpec(state, parsed, socket, isUpgrade);
      var k := |socket| - |out.rest|;
      && |out.rest| <= |socket|
      && out.rest == socket[k..]
      && (k == 0 <==> socket == [])
      && out.parsed == if state == AwaitingHandshake then parsed + Fed(socket[..k]) else parsed
    decreases |socket|
  {
    if socket != [] {
      var out := ReadSpec(state, parsed, socket, isUpgrade);
      var tail := socket[1..];
      FedCons(socket, 0);
      if socket[0].Chunk? && state == AwaitingHandshake && !isUpgrade(parsed + socket[0].data) {
        var data := socket[0].data;
        ReadSpecPrefix(state, parsed + data, tail, isUpgrade);
        var k, k' := |socket| - |out.rest|, |tail| - |out.rest|;
        assert tail[k'..] == socket[k..];
        FedCons(socket, k');
        assert socket[..k] == socket[..k' + 1];
        assert out.parsed == parsed + Fed(socket[..k]);
      } else {
        assert out.rest == tail;
      }
    }
  }

  /**
   * While awaiting the handshake, every result `read` consumes before the last
   * one is a chunk after which the parser saw no upgrade.
   */
  lemma {:induction false} ReadSpecNoEarlyUpgrade(parsed: seq<Byte>, socket: seq<ReadResult>,
                                                  isUpgrade: seq<Byte> -> bool)
    ensures var out := ReadSpec(AwaitingHandshake, parsed, socket, isUpgrade);
      var k := |socket| - |out.rest|;
      forall j :: 0 <= j < k - 1 ==> socket[j].Chunk? && !isUpgrade(parsed + Fed(socket[..j + 1]))
    decreases |socket|
  {
    var out := ReadSpec(AwaitingHandshake, parsed, socket, isUpgrade);
    ReadSpecPrefix(AwaitingHandshake, parsed, socket, isUpgrade);
    if socket != [] && socket[0].Chunk? && !isUpgrade(parsed + socket[0].data) {
      var data, tail := socket[0].data, socket[1..];
      ReadSpecNoEarlyUpgrade(parsed + data, tail, isUpgrade);
      assert out == ReadSpec(AwaitingHandshake, parsed + data, tail, isUpgrade);
      var k := |socket| - |out.rest|;
      forall j | 0 <= j < k - 1
        ensures socket[j].Chunk? && !isUpgrade(parsed + Fed(socket[..j + 1]))
      {
        FedCons(socket, j);
        if j > 0 {
          assert 0 <= j - 1 < (|tail| - |out.rest|) - 1;
          assert tail[j - 1] == socket[j];
          assert tail[..j] == tail[..(j - 1) + 1];
          assert tail[j - 1].Chunk? && !isUpgrade((parsed + data) + Fed(tail[..(j - 1) + 1]));
          assert parsed + Fed(socket[..j + 1]) == (parsed + data) + Fed(tail[..(j - 1) + 1]);
        } else {
          assert Fed(tail[..0]) == [];
          assert parsed + Fed(socket[..1]) == parsed + data;
        }
      }
    }
  }

  /**
   * While awaiting the handshake, `read` ends in HandshakeResponse exactly when
   * the last result it consumed was a chunk after which the parser saw an
   * upgrade; when it ends still awaiting after a chunk, it has read the socket
   * to its end.
   */
  lemma {:induction false} ReadSpecLastResult(parsed: seq<Byte>, socket: seq<ReadResult>,
                                              isUpgrade: seq<Byte> -> bool)
    ensures var out := ReadSpec(AwaitingHandshake, parsed, socket, isUpgrade);
      var k := |socket| - |out.rest|;
      && (out.state == HandshakeResponse <==> k > 0 && socket[k - 1].Chunk? && isUpgrade(out.parsed))
      && (out.state == AwaitingHandshake && k > 0 && socket[k - 1].Chunk? ==> out.rest == [])
    decreases |socket|
  {
    var out := ReadSpec(AwaitingHandshake, parsed, socket, isUpgrade);
    ReadSpecPrefix(AwaitingHandshake, parsed, socket, isUpgrade);
    ReadSpecStates(AwaitingHandshake, parsed, socket, isUpgrade);
    if socket != [] && socket[0].Chunk? && !isUpgrade(parsed + socket[0].data) {
      var data, tail := socket[0].data, socket[1..];
      ReadSpecLastResult(parsed + data, tail, isUpgrade);
      ReadSpecPrefix(AwaitingHandshake, parsed + data, tail, isUpgrade);
      var k, k' := |socket| - |out.rest|, |tail| - |out.rest|;
      if k' > 0 {
        assert socket[k - 1] == tail[k' - 1];
      }
    }
  }

  /**
   * What `read` does to the header callbacks' state: while awaiting the
   * handshake, each chunk is handed to the tokenizer, whose callbacks update
   * the state, until the request is an upgrade; in the later states nothing
   * reaches the parser. `None` when a callback panics.
   */
  function ReadHeaders(h: HeaderState, state: ClientState, parsed: seq<Byte>, socket: seq<ReadResult>,
                       isUpgrade: seq<Byte> -> bool, tokenize: Tokenizer): Option<HeaderState>
    decreases |socket|
  {
    if socket == [] || !socket[0].Chunk? || state != AwaitingHandshake then Some(h)
    else
      var data := socket[0].data;
      match Callbacks(h, tokenize(parsed, data))
      case None => None
      case Some(h') =>
        if isUpgrade(parsed + data) then Some(h')
        else ReadHeaders(h', state, parsed + data, socket[1..], isUpgrade, tokenize)
  }

  /** The callbacks of every chunk in `rs`, in order, each tokenized after the bytes before it. */
  function FeedHeaders(h: HeaderState, before: seq<Byte>, rs: seq<ReadResult>, tokenize: Tokenizer): Option<HeaderState>
    decreases |rs|
  {
    if rs == [] then Some(h)
    else if !rs[0].Chunk? then FeedHeaders(h, before, rs[1..], tokenize)
    else match Callbacks(h, tokenize(before, rs[0].data))
      case None => None
      case Some(h') => FeedHeaders(h', before + rs[0].data, rs[1..], tokenize)
  }

  /** After the handshake, `read` leaves the header table and the current key alone. */
  lemma ReadHeadersLater(h: HeaderState, state: ClientState, parsed: seq<Byte>, socket: seq<ReadResult>,
                         isUpgrade: seq<Byte> -> bool, tokenize: Tokenizer)
    requires state != AwaitingHandshake
    ensures ReadHeaders(h, state, parsed, socket, isUpgrade, tokenize) == Some(h)
  {
  }

  /**
   * While awaiting the handshake, the headers `read` leaves are those the
   * tokenizer's callbacks build from exactly the chunks `read` consumes.
   */
  lemma {:induction false} ReadHeadersFeed(h: HeaderState, parsed: seq<Byte>, socket: seq<ReadResult>,
                                           isUpgrade: seq<Byte> -> bool, tokenize: Tokenizer)
    ensures var k := |socket| - |ReadSpec(AwaitingHandshake, parsed, socket, isUpgrade).rest|;
      0 <= k <= |socket|
      && ReadHeaders(h, AwaitingHandshake, parsed, socket, isUpgrade, tokenize)
         == FeedHeaders(h, parsed, socket[..k], tokenize)
    decreases |socket|
  {
    ReadSpecPrefix(AwaitingHandshake, parsed, socket, isUpgrade);
    if socket != [] {
      var out := ReadSpec(AwaitingHandshake, parsed, socket, isUpgrade);
      var k := |socket| - |out.rest|;
      var tail := socket[1..];
      assert socket[..k][0] == socket[0];
      if !socket[0].Chunk? {
        assert k == 1 && socket[..k][1..] == [];
      } else {
        var data := socket[0].data;
        match Callbacks(h, tokenize(parsed, data))
        case None =>
        case Some(h') =>
          if isUpgrade(parsed + data) {
            assert k == 1 && socket[..k][1..] == [];
          } else {
            ReadHeadersFeed(h', parsed + data, tail, isUpgrade, tokenize);
            assert out == ReadSpec(AwaitingHandshake, parsed + data, tail, isUpgrade);
            var k' := |tail| - |out.rest|;
            assert socket[..k][1..] == tail[..k'];
          }
      }
    }
  }

  /** `n` spaces. */
  function Spaces(n: nat): (s: string)
    ensures |s| == n && forall i :: 0 <= i < n ==> s[i] == ' '
  {
    if n == 0 then "" else " " + Spaces(n - 1)
  }

  const StatusLine: string := "HTTP/1.1 101 Switching Protocols\r\n"

  /**
   * The head of the literal `write` sends: the source line ending the protocol
   * header lacks its `\` continuation, so a line feed and the 49 spaces that
   * indent the next source line are part of the string.
   */
  const StatusAndHeaders: string :=
    StatusLine + "Connection: Upgrade\r\nSec-WebSocket-Protocol: chat\r\n\n"
    + Spaces(49) + "Sec-WebSocket-Accept: "

  const ResponseTail: string := "\r\nUpgrade: websocket\r\n\r\n"

  /** The handshake response `write` formats around the accept key. */
  function Response(acceptKey: string): string
  {
    StatusAndHeaders + acceptKey + ResponseTail
  }

  /** The accept key read back from a response, between the fixed head and tail. */
  function AcceptKeyOf(response: string): string
    requires |response| >= |StatusAndHeaders| + |ResponseTail|
  {
    response[|StatusAndHeaders| .. |response| - |ResponseTail|]
  }

  /**
   * The shape of the response: the 101 status line first, the key between a
   * fixed head and tail (so it reads back, and different keys give different
   * responses), the blank line at the end, and a bare line feed followed by 49
   * spaces where the protocol header line ends.
   */
  lemma ResponseLayout(acceptKey: string)
    ensures var r := Response(acceptKey);
      && |r| == |StatusAndHeaders| + |acceptKey| + |ResponseTail|
      && r[..|StatusLine|] == StatusLine
      && AcceptKeyOf(r) == acceptKey
      && r[|r| - 4 ..] == "\r\n\r\n"
      && r[83 .. 86] == "\r\n\n"
      && r[86 .. 135] == Spaces(49)
  {
    var r := Response(acceptKey);
    assert |StatusAndHeaders| == 157;
    assert r[..34] == StatusAndHeaders[..34] == StatusLine;
    assert r[83 .. 86] == StatusAndHeaders[83 .. 86];
    assert r[86 .. 135] == StatusAndHeaders[86 .. 135];
    assert r[|r| - 4 ..] == ResponseTail[|ResponseTail| - 4 ..];
    assert r[|StatusAndHeaders| .. |r| - |ResponseTail|] == acceptKey;
  }

  /** The key `write` looks up in the request headers. */
  const KeyHeader: string := "Sec-WebSocket-Key"

  class WebSocketClient {
    /** The read results the socket has yet to give. */
    var socket: seq<ReadResult>
    /** Everything written to the socket. */
    var sent: string
    /** The bytes handed to the HTTP parser so far. */
    var parsed: seq<Byte>
    const handler: HttpParser
    const headers: HeaderTable
    var interest: set<Interest>
    var state: ClientState

    /** The interest matches the state, and the handler fills this client's header table. */
    predicate Valid()
      reads this
    {
      && handler.headers == headers
      && interest == InterestFor(state)
    }

    /** `new`: a fresh header table shared with a fresh handler; awaiting the handshake, readable. */
    constructor(socket: seq<ReadResult>)
      ensures Valid()
      ensures this.socket == socket && sent == [] && parsed == []
      ensures state == AwaitingHandshake && interest == {Readable}
      ensures fresh(headers) && fresh(handler)
      ensures headers.entries == map[] && handler.currentKey == None
    {
      var h := new HeaderTable();
      headers := h;
      handler := new HttpParser(h);
      this.socket := socket;
      sent := [];
      parsed := [];
      interest := {Readable};
      state := AwaitingHandshake;
    }

    /** In Connected, `read` unwraps `parse_frame` of the next chunk: that chunk must decode. */
    predicate ReadSafe()
      reads this
    {
      state == Connected && socket != [] && socket[0].Chunk? ==>
        Parsable(socket[0].data) && Decode(socket[0].data).Ok?
    }

    /**
     * `read`: drains the socket until an error or would-block, handing chunks
     * to the HTTP parser while awaiting the handshake and switching the
     * interest from readable to writable on an upgrade; in Connected it decodes
     * one frame and stops. The parser's callbacks fill the shared header table.
     */
    method Read(isUpgrade: seq<Byte> -> bool, tokenize: Tokenizer)
      requires Valid() && ReadSafe()
      requires ReadHeaders(handler.Current(), state, parsed, socket, isUpgrade, tokenize).Some?
      modifies this, handler, headers
      ensures Valid()
      ensures ReadOutcome(state, parsed, socket) == ReadSpec(old(state), old(parsed), old(socket), isUpgrade)
      ensures Some(handler.Current())
        == ReadHeaders(old(handler.Current()), old(state), old(parsed), old(socket), isUpgrade, tokenize)
      ensures interest == if state == old(state) then old(interest)
                          else old(interest) - {Readable} + {Writable}
      ensures sent == old(sent)
    {
      while true
        invariant Valid() && ReadSafe()
        invariant ReadSpec(state, parsed, socket, isUpgrade) == ReadSpec(old(state), old(parsed), old(socket), isUpgrade)
        invariant ReadHeaders(handler.Current(), state, parsed, socket, isUpgrade, tokenize)
          == ReadHeaders(old(handler.Current()), old(state), old(parsed), old(socket), isUpgrade, tokenize)
        invariant state == old(state) && interest == old(interest) && sent == old(sent)
        decreases |socket|
      {
        if socket == [] {
          break;
        }
        var r := socket[0];
        socket := socket[1..];
        match r {
          case Error =>
            return;
          case WouldBlock =>
            break;
          case Chunk(data) =>
            match state {
              case AwaitingHandshake =>
                handler.Dispatch(tokenize(parsed, data));
                parsed := parsed + data;
                if isUpgrade(parsed) {
                  state := HandshakeResponse;
                  interest := interest - {Readable};
                  interest := interest + {Writable};
                  break;
                }
              case Connected =>
                var frame := ParseFrame(data);
                assert frame.Ok?;
                break;
              case HandshakeResponse =>
                break;
            }
        }
      }
    }

    /**
     * `write`: sends the handshake response built from the client's
     * Sec-WebSocket-Key, then is Connected and readable again.
     */
    method Write(genKey: string -> string)
      requires KeyHeader in headers.entries
      modifies this
      ensures sent == old(sent) + Response(genKey(headers.entries[KeyHeader]))
      ensures state == Connected
      ensures interest == old(interest) - {Writable} + {Readable}
      ensures socket == old(socket) && parsed == old(parsed)
      ensures old(Valid()) ==> Valid()
    {
      var responseKey := genKey(headers.entries[KeyHeader]);
      var response := Response(responseKey);
      sent := sent + response;
      state := Connected;
      interest := interest - {Writable};
      interest := interest + {Readable};
    }
  }

  /**
   * A whole handshake on a new client: one chunk whose callbacks name the
   * Sec-WebSocket-Key and complete an upgrade request, then `write`, which
   * finds the key and sends the response for it.
   */
  method Handshake(request: ChunkData, key: string, genKey: string -> string)
    returns (state: ClientState, response: string)
    ensures state == Connected
    ensures response == Response(genKey(key))
  {
    var tokenize: Tokenizer := (before, chunk) => [Field(KeyHeader), Value(key), HeadersComplete];
    var client := new WebSocketClient([Chunk(request)]);
    assert client.handler.Current() == HeaderState(None, map[]);
    var events := [Field(KeyHeader), Value(key), HeadersComplete];
    assert events[1..] == [Value(key), HeadersComplete] && events[1..][1..] == [HeadersComplete];
    assert Callbacks(HeaderState(None, map[]), events)
      == Callbacks(HeaderState(Some(KeyHeader), map[]), events[1..])
      == Callbacks(HeaderState(Some(KeyHeader), map[KeyHeader := key]), events[1..][1..])
      == Some(HeaderState(Some(KeyHeader), map[KeyHeader := key]));
    client.Read(_ => true, tokenize);
    assert client.state == HandshakeResponse && client.interest == {Writable};
    client.Write(genKey);
    state, response := client.state, client.sent;
  }
}
