/**
 * The connection registry of src/server.rs: `WebSocketServer` keeps its
 * clients in a map keyed by token and hands out tokens from a counter; `ready`
 * accepts connections on the listener token and routes readable and writable
 * events on a client token to that client's `read` and `write`.
 *
 * The listening socket is a sequence of accept results that `ready` consumes
 * from the front. The event loop records the registrations it is asked for.
 */
module Server {
  import opened Wrappers
  import opened Frame
  import opened Client

  /** `SEVER_TOKEN`: the listening socket's token. */
  const ServerToken: nat := 0

  /** What `accept` on the listening socket can give. */
  datatype AcceptResult =
    | AcceptError
    | NoPending
    | Accepted(socket: seq<ReadResult>)

  /** A call `ready` makes on the event loop. */
  datatype LoopCall =
    | Register(token: nat, interest: set<Interest>)
    | Reregister(token: nat, interest: set<Interest>)

  /** The event loop, as the sequence of registrations asked of it. */
  class EventLoop {
    var calls: seq<LoopCall>

    constructor()
      ensures calls == []
    {
      calls := [];
    }

    /** `register_opt`: watch `token` for `interest`. */
    method Register(token: nat, interest: set<Interest>)
      modifies this
      ensures calls == old(calls) + [LoopCall.Register(token, interest)]
    {
      calls := calls + [LoopCall.Register(token, interest)];
    }

    /** `reregister`: watch `token` again, now for `interest`. */
    method Reregister(token: nat, interest: set<Interest>)
      modifies this
      ensures calls == old(calls) + [LoopCall.Reregister(token, interest)]
    {
      calls := calls + [LoopCall.Reregister(token, interest)];
    }
  }

  /**
   * The token invariant: the listener token is 0 and every issued token lies
   * in `[2, counter]`, so the next one, `counter + 1`, is neither in use nor
   * the listener's.
   */
  lemma NextTokenFresh(tokens: set<nat>, counter: nat)
    requires forall t :: t in tokens ==> 2 <= t <= counter
    requires counter >= 1
    ensures counter + 1 !in tokens && counter + 1 != ServerToken
  {
  }

  class WebSocketServer {
    /** The accept results the listening socket has yet to give. */
    var listener: seq<AcceptResult>
    var clients: map<nat, WebSocketClient>
    var tokenCounter: nat

    /**
     * Every token in use lies in `[2, tokenCounter]`, each token has its own
     * client object, parser and header table, and every client's interest
     * matches its state.
     */
    predicate Valid()
      reads this, clients.Values
    {
      && tokenCounter >= 1
      && (forall t :: t in clients ==> 2 <= t <= tokenCounter)
      && (forall t, u :: t in clients && u in clients && t != u ==>
            && clients[t] != clients[u]
            && clients[t].handler != clients[u].handler
            && clients[t].headers != clients[u].headers)
      && (forall t :: t in clients ==> clients[t].Valid())
    }

    /** `new`: no clients, and the counter at 1 so the first token issued is 2. */
    constructor(listener: seq<AcceptResult>)
      ensures Valid()
      ensures this.listener == listener && tokenCounter == 1 && clients == map[]
    {
      this.listener := listener;
      tokenCounter := 1;
      clients := map[];
    }

    /**
     * What `ready` demands so that no `unwrap` or `panic!` fires: an accept
     * does not come back empty; a client token is in the map; a read in
     * Connected gets a frame that decodes, and the header callbacks of a read
     * never meet a value without a field name; a write finds the client's
     * Sec-WebSocket-Key in the table as the read of the same event left it. A
     * writable event on the listener token is reached only when an accept
     * error returns first.
     */
    predicate ReadyAllowed(token: nat, events: set<Interest>, isUpgrade: seq<Byte> -> bool, tokenize: Tokenizer)
      reads this, clients.Values
      reads set c | c in clients.Values :: c.handler, set c | c in clients.Values :: c.handler.headers
    {
      && (Readable in events && token == ServerToken ==>
            listener != [] && !listener[0].NoPending?)
      && (Readable in events && token != ServerToken ==>
            && token in clients && clients[token].ReadSafe()
            && ReadHeaders(clients[token].handler.Current(), clients[token].state, clients[token].parsed,
                           clients[token].socket, isUpgrade, tokenize).Some?)
      && (Writable in events ==>
            || (&& token in clients
                && var c := clients[token];
                   var after := if Readable in events
                                then ReadHeaders(c.handler.Current(), c.state, c.parsed, c.socket, isUpgrade, tokenize)
                                else Some(c.handler.Current());
                   after.Some? && KeyHeader in after.value.entries)
            || (token == ServerToken && Readable in events && listener != [] && listener[0].AcceptError?))
    }

    /**
     * The listener branch of `ready`: an accept error returns; an accepted
     * socket gets the next token and a fresh client under it, registered
     * readable.
     */
    method AcceptClient(loop: EventLoop)
      requires Valid() && listener != [] && !listener[0].NoPending?
      modifies this, loop
      ensures Valid()
      ensures listener == old(listener)[1..]
      ensures old(listener)[0].AcceptError? ==>
        tokenCounter == old(tokenCounter) && clients == old(clients) && loop.calls == old(loop.calls)
      ensures old(listener)[0].Accepted? ==>
        && tokenCounter == old(tokenCounter) + 1
        && tokenCounter !in old(clients)
        && tokenCounter in clients
        && clients == old(clients)[tokenCounter := clients[tokenCounter]]
        && fresh(clients[tokenCounter])
        && clients[tokenCounter].socket == old(listener)[0].socket
        && clients[tokenCounter].state == AwaitingHandshake
        && clients[tokenCounter].interest == {Readable}
        && clients[tokenCounter].parsed == [] && clients[tokenCounter].sent == []
        && fresh(clients[tokenCounter].handler) && fresh(clients[tokenCounter].headers)
        && clients[tokenCounter].headers.entries == map[]
        && clients[tokenCounter].handler.currentKey == None
        && loop.calls == old(loop.calls) + [LoopCall.Register(tokenCounter, {Readable})]
    {
      var accepted := listener[0];
      listener := listener[1..];
      match accepted {
        case AcceptError =>
          return;
        case Accepted(socket) =>
          NextTokenFresh(clients.Keys, tokenCounter);
          tokenCounter := tokenCounter + 1;
          var newToken := tokenCounter;
          var client := new WebSocketClient(socket);
          clients := clients[newToken := client];
          loop.Register(newToken, {Readable});
      }
    }

    /** The readable branch of `ready` on a client token: `read`, then re-register with the client's interest. */
    method ReadClient(loop: EventLoop, token: nat, isUpgrade: seq<Byte> -> bool, tokenize: Tokenizer)
      requires Valid() && token in clients && clients[token].ReadSafe()
      requires var c := clients[token];
        ReadHeaders(c.handler.Current(), c.state, c.parsed, c.socket, isUpgrade, tokenize).Some?
      modifies loop, clients[token], clients[token].handler, clients[token].headers
      ensures Valid()
      ensures var c := clients[token];
        && ReadOutcome(c.state, c.parsed, c.socket) == ReadSpec(old(c.state), old(c.parsed), old(c.socket), isUpgrade)
        && Some(c.handler.Current())
           == ReadHeaders(old(c.handler.Current()), old(c.state), old(c.parsed), old(c.socket), isUpgrade, tokenize)
        && c.interest == InterestFor(c.state)
        && c.sent == old(c.sent)
        && loop.calls == old(loop.calls) + [LoopCall.Reregister(token, c.interest)]
    {
      var client := clients[token];
      client.Read(isUpgrade, tokenize);
      loop.Reregister(token, client.interest);
    }

    /** The writable branch of `ready`: `write`, then re-register with the client's interest, readable. */
    method WriteClient(loop: EventLoop, token: nat, genKey: string -> string)
      requires Valid() && token in clients && KeyHeader in clients[token].headers.entries
      modifies loop, clients[token]
      ensures Valid()
      ensures var c := clients[token];
        && c.state == Connected && c.interest == {Readable}
        && c.sent == old(c.sent) + Response(genKey(c.headers.entries[KeyHeader]))
        && c.socket == old(c.socket) && c.parsed == old(c.parsed)
        && loop.calls == old(loop.calls) + [LoopCall.Reregister(token, {Readable})]
    {
      var client := clients[token];
      client.Write(genKey);
      loop.Reregister(token, client.interest);
    }

    /**
     * `ready`: on the listener token, accept a connection, issue the next token,
     * insert a new client under it and register it readable; on a client token,
     * `read` and/or `write` that client and re-register it with the interest it
     * then has.
     */
    method Ready(loop: EventLoop, token: nat, events: set<Interest>,
                 isUpgrade: seq<Byte> -> bool, tokenize: Tokenizer, genKey: string -> string)
      requires Valid() && ReadyAllowed(token, events, isUpgrade, tokenize)
      modifies this, loop
      modifies if token in clients then {clients[token], clients[token].handler, clients[token].headers} else {}
      ensures Valid()
      ensures listener == if Readable in events && token == ServerToken then old(listener)[1..] else old(listener)
      // An accepted connection gets the next token, a fresh client and a readable registration.
      ensures Readable in events && token == ServerToken && old(listener)[0].Accepted? ==>
        && tokenCounter == old(tokenCounter) + 1
        && tokenCounter !in old(clients)
        && tokenCounter in clients
        && clients == old(clients)[tokenCounter := clients[tokenCounter]]
        && fresh(clients[tokenCounter])
        && clients[tokenCounter].socket == old(listener)[0].socket
        && clients[tokenCounter].state == AwaitingHandshake
        && clients[tokenCounter].interest == {Readable}
        && clients[tokenCounter].parsed == [] && clients[tokenCounter].sent == []
        && fresh(clients[tokenCounter].handler) && fresh(clients[tokenCounter].headers)
        && clients[tokenCounter].headers.entries == map[]
        && clients[tokenCounter].handler.currentKey == None
        && loop.calls == old(loop.calls) + [LoopCall.Register(tokenCounter, {Readable})]
      ensures !(Readable in events && token == ServerToken && old(listener)[0].Accepted?) ==>
        tokenCounter == old(tokenCounter) && clients == old(clients)
      // An accept error returns before anything else.
      ensures Readable in events && token == ServerToken && old(listener)[0].AcceptError? ==>
        loop.calls == old(loop.calls)
      // A client token: read, then write, each followed by a re-registration.
      ensures token != ServerToken && token in old(clients) ==>
        var c := clients[token];
        var afterRead := if Readable in events then ReadSpec(old(c.state), old(c.parsed), old(c.socket), isUpgrade)
                         else ReadOutcome(old(c.state), old(c.parsed), old(c.socket));
        && Some(c.handler.Current())
           == (if Readable in events
               then ReadHeaders(old(c.handler.Current()), old(c.state), old(c.parsed), old(c.socket), isUpgrade, tokenize)
               else Some(old(c.handler.Current())))
        && c.parsed == afterRead.parsed
        && c.socket == afterRead.rest
        && c.state == (if Writable in events then Connected else afterRead.state)
        && c.interest == InterestFor(c.state)
        && c.sent == old(c.sent) + (if Writable in events then Response(genKey(c.headers.entries[KeyHeader])) else [])
        && loop.calls == old(loop.calls)
             + (if Readable in events then [LoopCall.Reregister(token, InterestFor(afterRead.state))] else [])
             + (if Writable in events then [LoopCall.Reregister(token, {Readable})] else [])
    {
      if Readable in events {
        if token == ServerToken {
          var accepted := listener[0];
          AcceptClient(loop);
          if accepted.AcceptError? {
            return;
          }
        } else {
          ReadClient(loop, token, isUpgrade, tokenize);
        }
      }
      if Writable in events {
        WriteClient(loop, token, genKey);
      }
    }
  }
}
