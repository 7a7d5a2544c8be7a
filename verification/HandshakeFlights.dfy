/**
  The flights of section 7.3 of RFC 5246 written out, for each kind of cipher and with every option at
  its place, and what follows from them about who has seen what.
 */
module HandshakeFlights {
  import opened Words
  import opened HandshakeScript
  import opened HandshakeSoundness
  import opened HandshakePair
  import C = HandshakeClient
  import S = HandshakeServer

  function Maybe(b: bool, t: Token): seq<Token> { if b then [t] else [] }

  /** The server's first flight: ServerHello to ServerHelloDone. */
  function ServerFlight(p: Params): seq<Token>
  {
    match p.kx
    case RSA =>
      [Token(Server, 0, Message(ServerHello)), Token(Server, 0, Message(Certificate))]
      + Maybe(p.status, Token(Server, 0, Message(CertificateStatus)))
      + Maybe(p.verifyPeer, Token(Server, 0, Message(CertificateRequest)))
      + [Token(Server, 0, Message(ServerHelloDone))]
    case ECDHE =>
      [Token(Server, 0, Message(ServerHello)), Token(Server, 0, Message(Certificate))]
      + Maybe(p.status, Token(Server, 0, Message(CertificateStatus)))
      + [Token(Server, 0, Message(ServerKeyExchange))]
      + Maybe(p.verifyPeer, Token(Server, 0, Message(CertificateRequest)))
      + [Token(Server, 0, Message(ServerHelloDone))]
    case PSK =>
      [Token(Server, 0, Message(ServerHello))]
      + Maybe(p.pskHint, Token(Server, 0, Message(ServerKeyExchange)))
      + [Token(Server, 0, Message(ServerHelloDone))]
    case ECDHE_PSK =>
      [Token(Server, 0, Message(ServerHello)), Token(Server, 0, Message(ServerKeyExchange)), Token(Server, 0, Message(ServerHelloDone))]
  }

  /** The client's answer, up to its ChangeCipherSpec. */
  function ClientFlight(p: Params): seq<Token>
  {
    match p.kx
    case RSA => CertificateFlight(p)
    case ECDHE => CertificateFlight(p)
    case PSK => [Token(Client, 0, Message(ClientKeyExchange))]
    case ECDHE_PSK => [Token(Client, 0, Message(ClientKeyExchange))]
  }

  /** A client that was asked sends a certificate, which may be empty, and signs if it has one. */
  function CertificateFlight(p: Params): seq<Token>
  {
    Maybe(p.verifyPeer, Token(Client, 0, Message(Certificate)))
    + [Token(Client, 0, Message(ClientKeyExchange))]
    + Maybe(p.verifyPeer && p.clientCert, Token(Client, 0, Message(CertificateVerify)))
  }

  function ClientCloses(p: Params): seq<Token>
  {
    [Token(Client, 0, Ccs)]
    + Maybe(p.npn, Token(Client, 1, Message(NextProto)))
    + Maybe(p.channelId, Token(Client, 1, Message(ChannelId)))
    + [Token(Client, 1, Message(Finished))]
  }

  function ServerCloses(p: Params): seq<Token>
  {
    Maybe(p.ticket, Token(Server, 0, Message(NewSessionTicket)))
    + [Token(Server, 0, Ccs), Token(Server, 1, Message(Finished))]
  }

  /** Figures 1 and 2 of the standard: a full handshake, and one that resumes a session. */
  function Conversation(p: Params): seq<Token>
  {
    if p.resumed
    then [Token(Client, 0, Message(ClientHello)), Token(Server, 0, Message(ServerHello))] + ServerCloses(p) + ClientCloses(p)
    else [Token(Client, 0, Message(ClientHello))] + ServerFlight(p) + ClientFlight(p) + ClientCloses(p) + ServerCloses(p)
  }

  lemma {:induction false} Endings(p: Params)
    ensures ClientEnd(p) == ClientCloses(p) && ServerEnd(p) == ServerCloses(p)
  {}

  lemma {:induction false} ThreeParts(a: seq<Token>, b: seq<Token>, c: seq<Token>, x: seq<Token>)
    ensures (a + b + c) + x == a + (b + (c + x))
  {}

  lemma {:induction false} FiveParts(a: seq<Token>, b: seq<Token>, c: seq<Token>, d: seq<Token>, e: seq<Token>, x: seq<Token>)
    ensures (a + b + c + d + e) + x == a + (b + (c + (d + (e + x))))
  {}

  lemma {:induction false} ClientParts(p: Params)
    requires !p.resumed
    ensures FromClientCert(p) == ClientFlight(p) + FromClientEnd(p)
  {
    hide FromClientEnd;
    ThreeParts(Opt(p.CertRequested(), Said(Client, Certificate)), [Said(Client, ClientKeyExchange)],
               Opt(p.CertRequested() && p.clientCert, Said(Client, CertificateVerify)), FromClientEnd(p));
    assert ClientFlight(p) == Opt(p.CertRequested(), Said(Client, Certificate)) + [Said(Client, ClientKeyExchange)]
                              + Opt(p.CertRequested() && p.clientCert, Said(Client, CertificateVerify));
  }

  lemma {:induction false} ServerParts(p: Params)
    requires !p.resumed
    ensures FromServerHello(p) == ServerFlight(p) + FromClientCert(p)
  {
    hide FromClientCert;
    var hello, cert := [Said(Server, ServerHello)], Opt(p.CertAuth(), Said(Server, Certificate));
    var status, key := Opt(p.CertAuth() && p.status, Said(Server, CertificateStatus)), Opt(p.Ske(), Said(Server, ServerKeyExchange));
    var request, done := Opt(p.CertRequested(), Said(Server, CertificateRequest)), [Said(Server, ServerHelloDone)];
    FiveParts(cert, status, key, request, done, FromClientCert(p));
    assert ServerFlight(p) == hello + (cert + status + key + request + done);
    Regroup(hello, cert + status + key + request + done, FromClientCert(p));
  }

  /** The script of the two machines is the conversation of the standard. */
  lemma {:induction false} ScriptIsConversation(p: Params)
    ensures Script(p) == Conversation(p)
  {
    hide ClientCloses, ServerCloses, ClientEnd, ServerEnd, ServerFlight, ClientFlight, FromClientCert, FromServerCert;
    Endings(p);
    if p.resumed {
      assert FromServerHello(p) == [Token(Server, 0, Message(ServerHello))] + (ServerCloses(p) + ClientCloses(p));
    } else {
      ClientParts(p);
      ServerParts(p);
      Regroup(ClientFlight(p), ClientCloses(p), ServerCloses(p));
      assert Script(p) == [Token(Client, 0, Message(ClientHello))] + FromServerHello(p);
    }
  }

  // ---------------------------------------------------------------- what that means for the two sides

  /** When both are done, both have been through this conversation. */
  lemma {:induction false} PairConversation(p: Params, moves: seq<Move>)
    requires BothDone(Run(p, HandshakePair.START, moves))
    ensures Run(p, HandshakePair.START, moves).c.log == Conversation(p) && Run(p, HandshakePair.START, moves).s.log == Conversation(p)
  {
    hide Run, Script, Conversation, Count;
    Agreement(p, moves);
    ScriptIsConversation(p);
  }

  /** Agreed on everything that is not the other side's to decide in the course of the handshake. */
  predicate SameOffer(p: Params, q: Params)
  {
    && q.resumed == p.resumed && q.kx == p.kx && q.npn == p.npn && q.channelId == p.channelId && q.ticket == p.ticket
  }

  /**
    A client that is done, against any peer, has been through a whole conversation of its kind: with a certificate
    cipher it has seen the server's certificate, with an ephemeral one the key exchange, and always the Finished.
   */
  lemma {:induction false} ClientConversation(p: Params, inputs: seq<Input>)
    requires p.status ==> p.kx == RSA || p.kx == ECDHE
    requires RunClient(p, C.START, inputs).wait != Error && RunClient(p, C.START, inputs).state == C.Done
    ensures var log := RunClient(p, C.START, inputs).log;
            && (exists q :: SameOffer(p, q) && q.clientCert == p.clientCert && (q.status ==> p.status) && log == Conversation(q))
            && Token(Server, 1, Message(Finished)) in log
            && (!p.resumed && (p.kx == RSA || p.kx == ECDHE) ==> Token(Server, 0, Message(Certificate)) in log)
            && (!p.resumed && (p.kx == ECDHE || p.kx == ECDHE_PSK) ==> Token(Server, 0, Message(ServerKeyExchange)) in log)
  {
    hide RunClient, Script, Conversation;
    ClientSound(p, inputs);
    var c := RunClient(p, C.START, inputs);
    var q :| ServerMay(p, q) && c.log <= Script(q) && (c.state == C.Done ==> c.log == Script(q));
    ScriptIsConversation(q);
    assert SameOffer(p, q);
    InConversation(q);
  }

  lemma {:induction false} InConversation(q: Params)
    ensures Token(Server, 1, Message(Finished)) in Conversation(q) && Token(Client, 1, Message(Finished)) in Conversation(q)
    ensures !q.resumed ==> Token(Client, 0, Message(ClientKeyExchange)) in Conversation(q)
    ensures !q.resumed && (q.kx == RSA || q.kx == ECDHE) ==> Token(Server, 0, Message(Certificate)) in Conversation(q)
    ensures !q.resumed && (q.kx == ECDHE || q.kx == ECDHE_PSK) ==> Token(Server, 0, Message(ServerKeyExchange)) in Conversation(q)
    ensures !q.resumed && (q.kx == RSA || q.kx == ECDHE) && q.verifyPeer ==> Token(Client, 0, Message(Certificate)) in Conversation(q)
  {
    hide ServerFlight, ClientFlight, ClientCloses, ServerCloses;
    InFlights(q);
    assert Token(Server, 1, Message(Finished)) in ServerCloses(q) && Token(Client, 1, Message(Finished)) in ClientCloses(q);
    if !q.resumed { assert forall t :: t in ServerFlight(q) || t in ClientFlight(q) ==> t in Conversation(q); }
  }

  lemma {:induction false} InFlights(q: Params)
    ensures Token(Server, 1, Message(Finished)) in ServerCloses(q) && Token(Client, 1, Message(Finished)) in ClientCloses(q)
    ensures Token(Client, 0, Message(ClientKeyExchange)) in ClientFlight(q)
    ensures q.kx == RSA || q.kx == ECDHE ==> Token(Server, 0, Message(Certificate)) in ServerFlight(q)
    ensures q.kx == ECDHE || q.kx == ECDHE_PSK ==> Token(Server, 0, Message(ServerKeyExchange)) in ServerFlight(q)
    ensures (q.kx == RSA || q.kx == ECDHE) && q.verifyPeer ==> Token(Client, 0, Message(Certificate)) in ClientFlight(q)
  {
    var closes := ServerCloses(q);
    assert closes[|closes| - 1] == Token(Server, 1, Message(Finished));
    var last := ClientCloses(q);
    assert last[|last| - 1] == Token(Client, 1, Message(Finished));
    var flight := ServerFlight(q);
    if q.kx == RSA || q.kx == ECDHE { assert flight[1] == Token(Server, 0, Message(Certificate)); }
    if q.kx == ECDHE_PSK { assert flight[1] == Token(Server, 0, Message(ServerKeyExchange)); }
    var answer := ClientFlight(q);
    assert answer[if (q.kx == RSA || q.kx == ECDHE) && q.verifyPeer then 1 else 0] == Token(Client, 0, Message(ClientKeyExchange));
    if (q.kx == RSA || q.kx == ECDHE) && q.verifyPeer { assert answer[0] == Token(Client, 0, Message(Certificate)); }
  }

  /** The same for a server that is done: the client's key exchange and Finished, and its certificate message if it was asked. */
  lemma {:induction false} ServerConversation(p: Params, inputs: seq<Input>)
    requires RunServer(p, S.START, inputs).wait != Error && RunServer(p, S.START, inputs).state == S.Done
    ensures var log := RunServer(p, S.START, inputs).log;
            && (exists clientCert :: log == Conversation(p.(clientCert := clientCert)))
            && Token(Client, 1, Message(Finished)) in log
            && (!p.resumed ==> Token(Client, 0, Message(ClientKeyExchange)) in log)
            && (!p.resumed && (p.kx == RSA || p.kx == ECDHE) && p.verifyPeer ==> Token(Client, 0, Message(Certificate)) in log)
  {
    hide RunServer, Script, Conversation;
    ServerSound(p, inputs);
    var s := RunServer(p, S.START, inputs);
    var q :| ClientMay(p, q) && s.log <= Script(q) && (s.state == S.Done ==> s.log == Script(q));
    ScriptIsConversation(q);
    assert q == p.(clientCert := q.clientCert);
    InConversation(q);
  }

  // ---------------------------------------------------------------- false start

  /** A turn ends with an early return in one place only, and there exactly if it was agreed on. */
  lemma {:induction false} ReturnsEarly(p: Params, c: C.Me, retry: bool)
    requires c.wait == Ok
    ensures C.Work(p, c, retry).wait == EarlyReturn <==> c.state == C.FinishFlight && p.falseStart && !p.resumed
  {
    hide Sees, Kinds, Transcript;
  }

  lemma {:induction false} AtFinishFlight(p: Params, c: C.Me, retry: bool)
    requires c.wait == Ok
    ensures c.state == C.FinishFlight ==> C.Work(p, c, retry) == c.(state := C.Work(p, c, retry).state, wait := C.Work(p, c, retry).wait)
    ensures c.state == C.FinishFlight && !p.resumed ==> C.Work(p, c, retry).state == C.ReadSessionTicket
  {}

  lemma {:induction false} ToFinishFlight(p: Params, c: C.Me, retry: bool)
    ensures c.state != C.SendClientFinished && c.state != C.FinishFlight ==> C.Work(p, c, retry).state != C.FinishFlight
    ensures c.state == C.SendClientFinished && C.Work(p, c, retry).state == C.FinishFlight ==> C.Work(p, c, retry).wait == Flush
  {
    hide C.DoSendClientFinished, Sees, Kinds, Transcript, Script, Say;
    if c.state == C.SendClientFinished { C.FinishedFields(p, c); }
  }

  predicate EarlyOnly(p: Params, c: C.Me)
  {
    && (c.state == C.FinishFlight && c.wait != Flush ==> c.pending == [])
    && (c.wait == EarlyReturn ==> c.state == C.ReadSessionTicket && p.falseStart && !p.resumed && c.pending == [])
  }

  lemma {:induction false} EarlyKept(p: Params, c: C.Me, i: Input)
    requires EarlyOnly(p, c)
    ensures EarlyOnly(p, React(c, C.Work(p, c, Retrying(i)), Server, i))
  {
    hide C.Work;
    var d := C.Work(p, c, Retrying(i));
    if c.wait == Ok {
      ReturnsEarly(p, c, Retrying(i));
      AtFinishFlight(p, c, Retrying(i));
      ToFinishFlight(p, c, Retrying(i));
    }
  }

  lemma {:induction false} EarlyRuns(p: Params, inputs: seq<Input>)
    ensures EarlyOnly(p, RunClient(p, C.START, inputs))
    decreases |inputs|
  {
    hide C.Work, React;
    if inputs != [] {
      hide EarlyOnly;
      EarlyRuns(p, inputs[..|inputs| - 1]);
      EarlyKept(p, RunClient(p, C.START, inputs[..|inputs| - 1]), inputs[|inputs| - 1]);
    }
  }

  /**
    A client that returns early, against any peer, was to do so and has sent all of its own messages; what is left of
    the conversation is the server's last flight.
   */
  lemma {:induction false} FalseStart(p: Params, inputs: seq<Input>)
    requires p.status ==> p.kx == RSA || p.kx == ECDHE
    requires RunClient(p, C.START, inputs).wait == EarlyReturn
    ensures p.falseStart && !p.resumed && RunClient(p, C.START, inputs).pending == []
    ensures exists q :: SameOffer(p, q) && RunClient(p, C.START, inputs).log + ServerCloses(q) == Conversation(q)
  {
    hide RunClient, Script, Conversation, ServerCloses, ServerEnd;
    EarlyRuns(p, inputs);
    var q := ClientRuns(p, inputs);
    ScriptIsConversation(q);
    Endings(q);
    var c := RunClient(p, C.START, inputs);
    assert FromServerEnd(q) == ServerCloses(q) + [] == ServerCloses(q);
    assert SameOffer(p, q) && c.log + ServerCloses(q) == Conversation(q);
  }

  // ---------------------------------------------------------------- operations that can wait

  lemma {:induction false} NoAskingHere(p: Params, c: C.Me, retry: bool)
    requires c.wait == Ok
    requires c.state != C.SendClientFinished && c.state != C.SendClientCertificate && c.state != C.VerifyServerCertificate
    ensures C.Work(p, c, retry).wait == Retry <==> c.state == C.SendClientCertificateVerify && retry && c.certRequest && p.clientCert
  {
    hide Kinds, Sees, Say, SayFinished, Take, C.DoSendClientFinished;
  }

  /** Where the client may have to ask again: verifying a chain, choosing a certificate, signing, and the Channel ID key. */
  lemma {:induction false} ClientAsksAgain(p: Params, c: C.Me, retry: bool)
    requires c.wait == Ok
    ensures C.Work(p, c, retry).wait == Retry <==>
            && retry
            && ((c.state == C.VerifyServerCertificate && (p.kx == RSA || p.kx == ECDHE)) || (c.state == C.SendClientCertificate && c.certRequest)
                || (c.state == C.SendClientCertificateVerify && c.certRequest && p.clientCert) || (c.state == C.SendClientFinished && p.channelId))
  {
    hide Kinds, Sees, Say, SayFinished, Take;
    match c.state
    case SendClientFinished =>
    case SendClientCertificate =>
    case VerifyServerCertificate =>
    case _ => NoAskingHere(p, c, retry);
  }

  lemma {:induction false} ServerAsksNot(p: Params, s: S.Me, retry: bool)
    requires s.wait == Ok
    requires s.state !in {S.ReadClientHello, S.SelectCertificate, S.SelectParameters, S.SendServerKeyExchange, S.VerifyClientCertificate, S.ReadClientKeyExchange}
    ensures S.Work(p, s, retry).wait != Retry
  {
    hide Kinds, Say, SayFinished, Take, Sees;
  }

  /** Where the server may: its callbacks, verifying a chain, signing with the certificate's key and decrypting with an RSA key. */
  lemma {:induction false} ServerAsksAgain(p: Params, s: S.Me, retry: bool)
    requires s.wait == Ok
    ensures S.Work(p, s, retry).wait == Retry <==>
            && retry
            && ((s.state == S.ReadClientHello && Sees(s, ClientHello)) || (s.state in {S.SelectCertificate, S.SelectParameters} && s.inbox != [])
                || (s.state == S.SendServerKeyExchange && p.kx == ECDHE) || (s.state == S.VerifyClientCertificate && s.peerCert)
                || (s.state == S.ReadClientKeyExchange && p.kx == RSA && Sees(s, ClientKeyExchange)))
  {
    hide Kinds, Say, SayFinished, Take;
    match s.state
    case ReadClientHello =>
    case SelectCertificate =>
    case SelectParameters =>
    case SendServerKeyExchange =>
    case VerifyClientCertificate =>
    case ReadClientKeyExchange =>
    case _ => ServerAsksNot(p, s, retry);
  }

  /** Asking again starts from what there was: nothing has been said or taken. */
  lemma {:induction false} NothingLostByAsking(p: Params, c: C.Me, s: S.Me, retry: bool)
    ensures c.wait == Ok && C.Work(p, c, retry).wait == Retry ==> C.Work(p, c, retry) == c.(wait := Retry)
    ensures s.wait == Ok && S.Work(p, s, retry).wait == Retry ==> S.Work(p, s, retry) == s.(wait := Retry)
  {
    hide Kinds, Say, SayFinished, Take, C.Work, S.Work;
    if c.wait == Ok { ClientAsksAgain(p, c, retry); ClientAsks(p, c); }
    if s.wait == Ok { ServerAsksAgain(p, s, retry); ServerAsks(p, s); }
  }

  lemma {:induction false} ClientAsks(p: Params, c: C.Me)
    ensures (c.state == C.VerifyServerCertificate && p.CertAuth()) || (c.state == C.SendClientCertificate && c.certRequest)
            || (c.state == C.SendClientCertificateVerify && c.certRequest && p.clientCert) || (c.state == C.SendClientFinished && p.channelId)
            ==> C.Work(p, c, true) == c.(wait := Retry)
  {
    hide Kinds, Say, SayFinished, Take;
  }

  lemma {:induction false} ServerAsks(p: Params, s: S.Me)
    ensures (s.state == S.ReadClientHello && Sees(s, ClientHello)) || (s.state in {S.SelectCertificate, S.SelectParameters} && s.inbox != [])
            || (s.state == S.SendServerKeyExchange && p.kx == ECDHE) || (s.state == S.VerifyClientCertificate && s.peerCert)
            || (s.state == S.ReadClientKeyExchange && p.kx == RSA && Sees(s, ClientKeyExchange))
            ==> S.Work(p, s, true) == s.(wait := Retry)
  {
    hide Kinds, Say, SayFinished, Take;
  }

  // ---------------------------------------------------------------- what is looked at in the messages

  /** The messages that were said, in order. */
  function Messages(ts: seq<Token>): seq<Kind>
  {
    if ts == [] then []
    else (match ts[0].what case Message(kind) => [kind] case Ccs => []) + Messages(ts[1..])
  }

  lemma {:induction false} KindsAreMessages(ts: seq<Token>)
    ensures Kinds(ts) == Messages(ts)
  {
    if ts != [] {
      var n := |ts| - 1;
      KindsAreMessages(ts[..n]);
      MessagesConcat(ts[..n], [ts[n]]);
      assert ts[..n] + [ts[n]] == ts && [ts[n]][1..] == [];
    }
  }

  lemma {:induction false} MessagesConcat(ts: seq<Token>, us: seq<Token>)
    ensures Messages(ts + us) == Messages(ts) + Messages(us)
  {
    if ts == [] {
      assert ts + us == us;
    } else {
      MessagesConcat(ts[1..], us);
      assert (ts + us)[0] == ts[0] && (ts + us)[1..] == ts[1..] + us;
    }
  }

  /** A Finished is taken exactly if it protects all the messages so far. */
  lemma {:induction false} ClientChecksFinished(p: Params, c: C.Me, retry: bool, from: Side, epoch: nat, body: Body)
    requires c.state == C.ReadServerFinished && c.wait == Ok && c.inbox != [] && c.inbox[0] == Item(Token(from, epoch, Message(Finished)), body)
    ensures var d := C.Work(p, c, retry);
            if body == Mac(Messages(c.log)) then d.wait == Ok && d.log == c.log + [Token(from, epoch, Message(Finished))] else d.wait == Error
  {
    KindsAreMessages(c.log);
  }

  lemma {:induction false} ServerChecksFinished(p: Params, s: S.Me, retry: bool, from: Side, epoch: nat, body: Body)
    requires s.state == S.ReadClientFinished && s.wait == Ok && s.inbox != [] && s.inbox[0] == Item(Token(from, epoch, Message(Finished)), body)
    ensures var d := S.Work(p, s, retry);
            if body == Mac(Messages(s.log)) then d.wait == Ok && d.log == s.log + [Token(from, epoch, Message(Finished))] else d.wait == Error
  {
    KindsAreMessages(s.log);
  }

  /** A server with a certificate cipher has to have a certificate. */
  lemma {:induction false} ClientWantsCertificate(p: Params, c: C.Me, retry: bool)
    requires c.state == C.ReadServerCertificate && (p.kx == RSA || p.kx == ECDHE) && c.inbox != []
    requires c.inbox[0].token.what != Message(Certificate) || c.inbox[0].body != Chain(true)
    ensures C.Work(p, c, retry).wait == Error
  {}

  /** A client that sends a certificate has to sign with it, and one without cannot. */
  lemma {:induction false} CertificateMustSign(p: Params, s: S.Me, t: S.Me, retry: bool)
    requires s.state == S.ReadClientCertificate && s.wait == Ok && s.certRequest && s.inbox != [] && s.inbox[0].token.what == Message(Certificate)
    requires t.state == S.ReadClientCertificateVerify && t.wait == Ok && t.inbox != [] && t.peerCert == S.Work(p, s, retry).peerCert
    ensures S.Work(p, s, retry).wait == Ok && S.Work(p, s, retry).state == S.VerifyClientCertificate
    ensures s.inbox[0].body == Chain(true) && t.inbox[0].token.what != Message(CertificateVerify) ==> S.Work(p, t, retry).wait == Error
    ensures s.inbox[0].body != Chain(true) ==> S.Work(p, t, retry) == t.(state := S.ReadChangeCipherSpec)
  {}

  /** The record of one thing said: on a reliable channel a side reads it just as it would read it from anybody. */
  lemma {:induction false} PullIsFeed<T>(me: Peer<T>, item: Item)
    requires me.wait == ReadMessage || me.wait == ReadCcs
    ensures DoPull(me, item) == Feed(me, item.token.from, match item.token.what
                                                           case Ccs => CcsRecord(item.token.epoch)
                                                           case Message(kind) => Record.Messages(item.token.epoch, [(kind, item.body)]))
  {
    if item.token.what.Message? {
      assert Arriving(item.token.from, Record.Messages(item.token.epoch, [(item.token.what.kind, item.body)])) == [item];
    }
  }
}
