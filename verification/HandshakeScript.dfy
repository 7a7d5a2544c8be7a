/**
  The conversation of a TLS 1.0-1.2 handshake (section 7.3 of RFC 5246), full or resumed, as the
  sequence of what either side sends, and one side's buffers as it works through it.
 */
module HandshakeScript {
  import opened Words

  datatype Kx = RSA | ECDHE | PSK | ECDHE_PSK

  /** What the two sides have negotiated or configured; every combination is allowed. */
  datatype Params = Params(
    resumed: bool,          // the server resumes the session the client offered
    kx: Kx,
    pskHint: bool,          // the server has a PSK identity hint
    status: bool,           // certificate_status_expected
    verifyPeer: bool,       // the server wants to see a client certificate
    clientCert: bool,       // the client has one
    npn: bool,              // next_proto_neg_seen
    channelId: bool,        // tlsext_channel_id_valid
    ticket: bool,           // ticket_expected
    falseStart: bool        // the client may write before the server's Finished
  )
  {
    /** ssl_cipher_uses_certificate_auth */
    predicate CertAuth() { kx == RSA || kx == ECDHE }
    /** ssl_cipher_requires_server_key_exchange */
    predicate RequiresSke() { kx == ECDHE || kx == ECDHE_PSK }
    /** Whether the server sends a ServerKeyExchange: required, or for its PSK identity hint. */
    predicate Ske() { RequiresSke() || (kx == PSK && pskHint) }
    /** Whether the server asks for a client certificate. */
    predicate CertRequested() { verifyPeer && CertAuth() && !resumed }
  }

  datatype Side = Client | Server

  datatype Kind = ClientHello | ServerHello | Certificate | CertificateStatus | ServerKeyExchange | CertificateRequest
                | ServerHelloDone | ClientKeyExchange | CertificateVerify | NextProto | ChannelId | NewSessionTicket | Finished

  datatype What = Ccs | Message(kind: Kind)

  /** One thing said, by whom, and under which keys: epoch 0 in the clear, 1 encrypted. */
  datatype Token = Token(from: Side, epoch: nat, what: What)

  /** Message contents, as far as the other side looks at them. A Finished protects the messages before it. */
  datatype Body = Opaque | Chain(nonempty: bool) | Mac(transcript: seq<Kind>)

  datatype Item = Item(token: Token, body: Body)

  // ---------------------------------------------------------------- the script

  function Said(from: Side, kind: Kind): Token { Token(from, 0, Message(kind)) }
  function Secret(from: Side, kind: Kind): Token { Token(from, 1, Message(kind)) }
  function Opt(b: bool, t: Token): seq<Token> { if b then [t] else [] }

  const CLIENT_CCS := Token(Client, 0, Ccs)
  const SERVER_CCS := Token(Server, 0, Ccs)

  /** The client's last words, from its ChangeCipherSpec on. */
  function ClientEnd(p: Params): seq<Token> { [CLIENT_CCS] + ClientSecrets(p) }
  function ClientSecrets(p: Params): seq<Token> { Opt(p.npn, Secret(Client, NextProto)) + ClientIdPart(p) }
  function ClientIdPart(p: Params): seq<Token> { Opt(p.channelId, Secret(Client, ChannelId)) + [Secret(Client, Finished)] }
  /** The server's last words, with its ticket. */
  function ServerEnd(p: Params): seq<Token> { Opt(p.ticket, Said(Server, NewSessionTicket)) + ServerSecrets() }
  function ServerSecrets(): seq<Token> { [SERVER_CCS] + [Secret(Server, Finished)] }

  /** In a full handshake the client ends first, in a resumed one the server does. */
  function AfterClient(p: Params): seq<Token> { if p.resumed then [] else ServerEnd(p) }
  function AfterServer(p: Params): seq<Token> { if p.resumed then ClientEnd(p) else [] }
  function FromClientEnd(p: Params): seq<Token> { ClientEnd(p) + AfterClient(p) }
  function FromServerEnd(p: Params): seq<Token> { ServerEnd(p) + AfterServer(p) }

  /** What is left of a full handshake at its messages, in reverse order. */
  function FromVerify(p: Params): seq<Token> { Opt(p.CertRequested() && p.clientCert, Said(Client, CertificateVerify)) + FromClientEnd(p) }
  function FromKeyExchange(p: Params): seq<Token> { [Said(Client, ClientKeyExchange)] + FromVerify(p) }
  function FromClientCert(p: Params): seq<Token> { Opt(p.CertRequested(), Said(Client, Certificate)) + FromKeyExchange(p) }
  function FromHelloDone(p: Params): seq<Token> { [Said(Server, ServerHelloDone)] + FromClientCert(p) }
  function FromRequest(p: Params): seq<Token> { Opt(p.CertRequested(), Said(Server, CertificateRequest)) + FromHelloDone(p) }
  function FromServerKey(p: Params): seq<Token> { Opt(p.Ske(), Said(Server, ServerKeyExchange)) + FromRequest(p) }
  function FromStatus(p: Params): seq<Token> { Opt(p.CertAuth() && p.status, Said(Server, CertificateStatus)) + FromServerKey(p) }
  function FromServerCert(p: Params): seq<Token> { Opt(p.CertAuth(), Said(Server, Certificate)) + FromStatus(p) }
  function FromServerHello(p: Params): seq<Token>
  {
    [Said(Server, ServerHello)] + if p.resumed then FromServerEnd(p) else FromServerCert(p)
  }

  /** The whole conversation. */
  function Script(p: Params): seq<Token> { [Said(Client, ClientHello)] + FromServerHello(p) }

  /** The messages among what was said: the handshake transcript. */
  function Kinds(ts: seq<Token>): seq<Kind>
  {
    if ts == [] then []
    else Kinds(ts[..|ts| - 1]) + if ts[|ts| - 1].what.Message? then [ts[|ts| - 1].what.kind] else []
  }

  /** What a side's Finished has to protect: everything said before it. */
  function Transcript(p: Params, side: Side): seq<Kind>
  {
    var after := if side == Client then AfterClient(p) else AfterServer(p);
    if |after| < |Script(p)| then Kinds(Script(p)[..|Script(p)| - |after| - 1]) else []
  }

  function Written(p: Params, t: Token): Item
  {
    Item(t, match t.what
            case Message(Finished) => Mac(Transcript(p, t.from))
            case Message(Certificate) => Chain(if t.from == Client then p.clientCert else true)
            case _ => Opaque)
  }

  /** What one side says in a conversation, as it looks on the wire. */
  function Of(p: Params, side: Side, ts: seq<Token>): seq<Item>
  {
    if ts == [] then [] else (if ts[0].from == side then [Written(p, ts[0])] else []) + Of(p, side, ts[1..])
  }

  function Other(side: Side): Side { if side == Client then Server else Client }

  // ---------------------------------------------------------------- one side

  datatype Wait = Ok | Error | Flush | ReadMessage | ReadCcs | Retry | EarlyReturn

  /**
    One side of the handshake. `inbox` is hs_buf, `pending` the pending flight; `log` is what this side has
    said and taken in so far, and its messages are the transcript it has hashed.
   */
  datatype Peer<S> = Peer(state: S, wait: Wait, inbox: seq<Item>, pending: seq<Item>, log: seq<Token>,
                          readEpoch: nat, writeEpoch: nat, certRequest: bool, peerCert: bool)

  function Say<S>(me: Peer<S>, from: Side, what: What, body: Body): Peer<S>
  {
    var t := Token(from, me.writeEpoch, what);
    me.(pending := me.pending + [Item(t, body)], log := me.log + [t])
  }

  /** Hashing a message and going past it. */
  function Take<S>(me: Peer<S>): Peer<S>
    requires me.inbox != []
  {
    me.(inbox := me.inbox[1..], log := me.log + [me.inbox[0].token])
  }

  function Goto<S>(me: Peer<S>, state: S, wait: Wait): Peer<S> { me.(state := state, wait := wait) }

  predicate Sees<S>(me: Peer<S>, kind: Kind) { me.inbox != [] && me.inbox[0].token.what == Message(kind) }

  /** Reading a message that has to come now. */
  function Expect<S>(me: Peer<S>, kind: Kind, next: S): Peer<S>
  {
    if me.inbox == [] then me.(wait := ReadMessage)
    else if !Sees(me, kind) then me.(wait := Error)
    else Goto(Take(me), next, Ok)
  }

  /** ssl_get_finished */
  function ExpectFinished<S>(me: Peer<S>, next: S): Peer<S>
  {
    if Sees(me, Finished) && me.inbox[0].body != Mac(Kinds(me.log)) then me.(wait := Error) else Expect(me, Finished, next)
  }

  /** ssl_send_finished */
  function SayFinished<S>(me: Peer<S>, from: Side): Peer<S> { Say(me, from, Message(Finished), Mac(Kinds(me.log))) }

  // ---------------------------------------------------------------- a side and the rest of the conversation

  /** What this side still has to put on the wire. */
  function Outstanding<S>(p: Params, side: Side, me: Peer<S>, rest: seq<Token>): seq<Item> { me.pending + Of(p, side, rest) }

  /** What has arrived is the beginning of what is to come. */
  predicate Arrived<S>(p: Params, side: Side, me: Peer<S>, rest: seq<Token>) { me.inbox <= Of(p, Other(side), rest) }

  function ToCome<S>(p: Params, side: Side, me: Peer<S>, rest: seq<Token>): seq<Item>
    requires Arrived(p, side, me, rest)
  {
    Of(p, Other(side), rest)[|me.inbox|..]
  }

  /** From me, with this much to go, to me', with that much: the conversation is the same. */
  predicate Onward<S>(p: Params, side: Side, me: Peer<S>, rest: seq<Token>, me': Peer<S>, rest': seq<Token>)
    requires Arrived(p, side, me, rest)
  {
    && me'.log + rest' == me.log + rest
    && Outstanding(p, side, me', rest') == Outstanding(p, side, me, rest)
    && Arrived(p, side, me', rest') && ToCome(p, side, me', rest') == ToCome(p, side, me, rest)
  }

  lemma {:induction false} OfCons(p: Params, side: Side, t: Token, ts: seq<Token>)
    ensures Of(p, side, [t] + ts) == (if t.from == side then [Written(p, t)] else []) + Of(p, side, ts)
  {
    assert ([t] + ts)[1..] == ts;
  }

  /** Saying the next thing that is this side's to say. */
  lemma {:induction false} SayOnward<S>(p: Params, side: Side, me: Peer<S>, what: What, body: Body, rest: seq<Token>)
    requires var t := Token(side, me.writeEpoch, what); Arrived(p, side, me, [t] + rest) && Written(p, t).body == body
    ensures var t := Token(side, me.writeEpoch, what); Onward(p, side, me, [t] + rest, Say(me, side, what, body), rest)
  {
    hide Of, Written;
    var t := Token(side, me.writeEpoch, what);
    WrittenToken(p, t);
    OfCons(p, side, t, rest); OfCons(p, Other(side), t, rest);
    assert me.log + [t] + rest == me.log + ([t] + rest);
    assert me.pending + [Written(p, t)] + Of(p, side, rest) == me.pending + ([Written(p, t)] + Of(p, side, rest));
    assert [] + Of(p, Other(side), rest) == Of(p, Other(side), rest);
  }

  lemma {:induction false} WrittenToken(p: Params, t: Token)
    ensures Written(p, t).token == t
  {}

  /** Taking in the next thing, which is the other side's. */
  lemma {:induction false} TakeOnward<S>(p: Params, side: Side, me: Peer<S>, t: Token, rest: seq<Token>)
    requires Arrived(p, side, me, [t] + rest) && t.from == Other(side) && me.inbox != []
    ensures me.inbox[0] == Written(p, t) && me.inbox[0].token == t
    ensures Onward(p, side, me, [t] + rest, Take(me), rest)
  {
    hide Of, Written;
    WrittenToken(p, t);
    OfCons(p, side, t, rest); OfCons(p, Other(side), t, rest);
    assert me.log + [t] + rest == me.log + ([t] + rest);
    assert [] + Of(p, side, rest) == Of(p, side, rest);
    var coming := Of(p, Other(side), [t] + rest);
    assert coming[1..] == Of(p, Other(side), rest);
    assert me.inbox[1..] == coming[1..][..|me.inbox| - 1];
  }

  /** A Finished said or checked with this much to go protects the right transcript. */
  lemma {:induction false} RightTranscript(p: Params, side: Side, log: seq<Token>)
    requires log + ([Secret(side, Finished)] + if side == Client then AfterClient(p) else AfterServer(p)) == Script(p)
    ensures Transcript(p, side) == Kinds(log) && Written(p, Secret(side, Finished)).body == Mac(Kinds(log))
  {
    hide Script, AfterClient, AfterServer, Kinds;
    var after := if side == Client then AfterClient(p) else AfterServer(p);
    assert |Script(p)| == |log| + 1 + |after|;
    assert Script(p)[..|log|] == log;
  }

  /** Changing state says and takes nothing. */
  lemma {:induction false} GotoOnward<S>(p: Params, side: Side, me: Peer<S>, rest: seq<Token>, me': Peer<S>, rest': seq<Token>, state: S, wait: Wait)
    requires Arrived(p, side, me, rest) && Onward(p, side, me, rest, me', rest')
    ensures Onward(p, side, me, rest, Goto(me', state, wait), rest') && Arrived(p, side, Goto(me', state, wait), rest')
    ensures Goto(me', state, wait).log + rest' == me.log + rest
  {
    hide Of;
  }

  lemma {:induction false} WaitOnward<S>(p: Params, side: Side, me: Peer<S>, rest: seq<Token>, wait: Wait)
    requires Arrived(p, side, me, rest)
    ensures Onward(p, side, me, rest, me, rest)
    ensures Onward(p, side, me, rest, me.(wait := wait), rest) && Arrived(p, side, me.(wait := wait), rest)
  {
    hide Of;
  }

  predicate OnlyMessages(items: seq<Item>) { forall i :: 0 <= i < |items| ==> items[i].token.what.Message? }

  lemma {:induction false} OptCases(b: bool, t: Token, rest: seq<Token>)
    ensures Opt(b, t) + rest == if b then [t] + rest else rest
  {}

  lemma {:induction false} NothingMore<S>(p: Params, side: Side, me: Peer<S>, t: Token, rest: seq<Token>)
    requires Arrived(p, side, me, [t] + rest) && t.from == Other(side) && t.what == Ccs && OnlyMessages(me.inbox)
    ensures me.inbox == []
  {
    if me.inbox != [] { TakeOnward(p, side, me, t, rest); }
  }

  /** The head of what is to come, if something has come. */
  lemma {:induction false} Head<S>(p: Params, side: Side, me: Peer<S>, rest: seq<Token>)
    requires Arrived(p, side, me, rest) && rest != [] && rest[0].from == Other(side) && me.inbox != []
    ensures me.inbox[0] == Written(p, rest[0]) && me.inbox[0].token == rest[0]
    ensures Onward(p, side, me, rest, Take(me), rest[1..])
  {
    hide Of, Written;
    assert rest == [rest[0]] + rest[1..];
    TakeOnward(p, side, me, rest[0], rest[1..]);
  }

  lemma {:induction false} Regroup(a: seq<Token>, b: seq<Token>, c: seq<Token>)
    ensures (a + b) + c == a + (b + c)
  {}

  lemma {:induction false} ServerEnds(p: Params)
    ensures var r := [SERVER_CCS] + ([Secret(Server, Finished)] + AfterServer(p));
            FromServerEnd(p) == if p.ticket then [Said(Server, NewSessionTicket)] + r else r
    ensures p.resumed ==> FromClientEnd(p) == AfterServer(p)
    ensures !p.resumed ==> FromServerEnd(p) == AfterClient(p) && AfterServer(p) == []
    ensures p.resumed ==> AfterClient(p) == []
  {
    hide ClientEnd;
    var t, r := AfterServer(p), [SERVER_CCS] + ([Secret(Server, Finished)] + AfterServer(p));
    Regroup(Opt(p.ticket, Said(Server, NewSessionTicket)), ServerSecrets(), t);
    Regroup([SERVER_CCS], [Secret(Server, Finished)], t);
    OptCases(p.ticket, Said(Server, NewSessionTicket), r);
    assert ClientEnd(p) + [] == ClientEnd(p) && ServerEnd(p) + [] == ServerEnd(p);
  }

  lemma {:induction false} PlainBodies(p: Params)
    ensures Written(p, Said(Client, ClientHello)).body == Opaque
    ensures Written(p, Said(Client, Certificate)).body == Chain(p.clientCert)
    ensures Written(p, Said(Client, ClientKeyExchange)).body == Opaque
    ensures Written(p, Said(Client, CertificateVerify)).body == Opaque
    ensures Written(p, Said(Server, Certificate)).body == Chain(true)
  {}

  lemma {:induction false} ScriptStarts(p: Params)
    ensures Script(p) == [Said(Client, ClientHello)] + FromServerHello(p)
  {}

  lemma {:induction false} OnwardTransitive<S>(p: Params, side: Side, a: Peer<S>, x: seq<Token>, b: Peer<S>, y: seq<Token>, c: Peer<S>, z: seq<Token>)
    requires Arrived(p, side, a, x) && Arrived(p, side, b, y) && Onward(p, side, a, x, b, y) && Onward(p, side, b, y, c, z)
    ensures Onward(p, side, a, x, c, z)
  {}
}
