/**
  One side against a peer that says whatever it likes: records of any kind, with any messages, at any
  time. A side that gets to the end has been through a legal conversation, and at no time has it accepted
  anything else.
 */
module HandshakeSoundness {
  import opened Words
  import opened HandshakeScript
  import C = HandshakeClient
  import S = HandshakeServer

  /** A record from the peer: a ChangeCipherSpec, or any number of messages, under the keys of an epoch. */
  datatype Record = CcsRecord(epoch: nat) | Messages(epoch: nat, content: seq<(Kind, Body)>)

  datatype Input = Turn(retry: bool) | Flushed | Got(r: Record) | Again

  function Arriving(from: Side, r: Record): seq<Item>
    requires r.Messages?
  {
    seq(|r.content|, i requires 0 <= i < |r.content| => Item(Token(from, r.epoch, Message(r.content[i].0)), r.content[i].1))
  }

  /** ssl3_open_handshake and ssl3_open_change_cipher_spec: a record under the right keys, of the kind waited for. */
  function Feed<T>(me: Peer<T>, from: Side, r: Record): Peer<T>
  {
    if r.epoch != me.readEpoch then me.(wait := Error)
    else match (me.wait, r)
         case (ReadMessage, Messages(_, _)) => me.(inbox := me.inbox + Arriving(from, r), wait := Ok)
         case (ReadCcs, CcsRecord(_)) => me.(log := me.log + [Token(from, r.epoch, Ccs)], wait := Ok)
         case (ReadMessage, CcsRecord(_)) => me.(wait := Error)
         case (ReadCcs, Messages(_, _)) => me.(wait := Error)
         case (_, _) => me
  }

  /** What one input does; `work` is the side's next turn. */
  function React<T>(me: Peer<T>, work: Peer<T>, from: Side, i: Input): Peer<T>
  {
    match i
    case Turn(_) => if me.wait == Ok then work else me
    case Flushed => if me.wait == Flush then me.(pending := [], wait := Ok) else me
    case Got(r) => if me.wait == ReadMessage || me.wait == ReadCcs then Feed(me, from, r) else me
    case Again => if me.wait == Retry || me.wait == EarlyReturn then me.(wait := Ok) else me
  }

  function Retrying(i: Input): bool { i.Turn? && i.retry }

  /** Messages of the peer under the keys in use. */
  predicate Proper(items: seq<Item>, from: Side, epoch: nat)
  {
    forall i :: 0 <= i < |items| ==> items[i].token.from == from && items[i].token.epoch == epoch && items[i].token.what.Message?
  }

  // ---------------------------------------------------------------- the client

  /** What the server decides as it goes along: a stapled response, a hint, a certificate request. */
  predicate ServerMay(p: Params, q: Params)
  {
    && q.resumed == p.resumed && q.kx == p.kx && q.clientCert == p.clientCert && q.npn == p.npn && q.channelId == p.channelId
    && q.ticket == p.ticket && q.falseStart == p.falseStart && (q.status ==> p.status)
  }

  /** The client has done a beginning of the conversation q. */
  predicate ClientOn(p: Params, q: Params, c: C.Me)
  {
    && ServerMay(p, q) && c.wait != Error && c.log + C.Rest(q, c.state, c.wait) == Script(q)
    && c.writeEpoch == C.WriteEpoch(p, c.state) && c.readEpoch == C.ReadEpoch(p, c.state)
    && C.Flags(q, c) && (C.FullOnly(c.state) ==> !p.resumed) && Proper(c.inbox, Server, c.readEpoch)
    && (c.state == C.ProcessChangeCipherSpec ==> c.wait == ReadCcs || c.wait == Ok)
    && (c.wait == ReadCcs ==> c.state == C.ProcessChangeCipherSpec)
  }

  /** What has been said when the server's certificate is through. */
  function ToStatus(q: Params): seq<Token> { [Said(Client, ClientHello)] + ([Said(Server, ServerHello)] + Opt(q.CertAuth(), Said(Server, Certificate))) }
  function ToKey(q: Params): seq<Token> { ToStatus(q) + Opt(q.CertAuth() && q.status, Said(Server, CertificateStatus)) }
  function ToRequest(q: Params): seq<Token> { ToKey(q) + Opt(q.Ske(), Said(Server, ServerKeyExchange)) }

  lemma {:induction false} ScriptSplits(q: Params)
    requires !q.resumed
    ensures Script(q) == ToStatus(q) + FromStatus(q) == ToKey(q) + FromServerKey(q) == ToRequest(q) + FromRequest(q)
  {
    hide FromStatus, FromServerKey, FromRequest;
    var cert := Opt(q.CertAuth(), Said(Server, Certificate));
    Regroup([Said(Server, ServerHello)], cert, FromStatus(q));
    Regroup([Said(Client, ClientHello)], [Said(Server, ServerHello)] + cert, FromStatus(q));
    assert FromStatus(q) == Opt(q.CertAuth() && q.status, Said(Server, CertificateStatus)) + FromServerKey(q) by { StatusParts(q); }
    Regroup(ToStatus(q), Opt(q.CertAuth() && q.status, Said(Server, CertificateStatus)), FromServerKey(q));
    assert FromServerKey(q) == Opt(q.Ske(), Said(Server, ServerKeyExchange)) + FromRequest(q) by { StatusParts(q); }
    Regroup(ToKey(q), Opt(q.Ske(), Said(Server, ServerKeyExchange)), FromRequest(q));
  }

  lemma {:induction false} StatusParts(q: Params)
    ensures FromStatus(q) == Opt(q.CertAuth() && q.status, Said(Server, CertificateStatus)) + FromServerKey(q)
    ensures FromServerKey(q) == Opt(q.Ske(), Said(Server, ServerKeyExchange)) + FromRequest(q)
  {}

  lemma {:induction false} Cancel(a: seq<Token>, b: seq<Token>, x: seq<Token>)
    requires a + x == b + x
    ensures a == b
  {
    assert a == (a + x)[..|a|] && b == (b + x)[..|b|];
  }

  /** What the server decides after its certificate does not change what was said before. */
  lemma {:induction false} RerouteStatus(q: Params, q': Params, log: seq<Token>)
    requires !q.resumed && !q'.resumed && q.kx == q'.kx
    requires log + FromStatus(q) == Script(q)
    ensures log + FromStatus(q') == Script(q')
  {
    hide Script, FromStatus, FromServerKey, FromRequest, ToStatus, ToKey, ToRequest;
    ScriptSplits(q);
    ScriptSplits(q');
    Cancel(log, ToStatus(q), FromStatus(q));
    SameToStatus(q, q');
  }

  lemma {:induction false} RerouteKey(q: Params, q': Params, log: seq<Token>)
    requires !q.resumed && !q'.resumed && q.kx == q'.kx && q.status == q'.status
    requires log + FromServerKey(q) == Script(q)
    ensures log + FromServerKey(q') == Script(q')
  {
    hide Script, FromStatus, FromServerKey, FromRequest, ToStatus, ToKey, ToRequest;
    ScriptSplits(q);
    ScriptSplits(q');
    Cancel(log, ToKey(q), FromServerKey(q));
    SameToKey(q, q');
  }

  lemma {:induction false} RerouteRequest(q: Params, q': Params, log: seq<Token>)
    requires !q.resumed && !q'.resumed && q.kx == q'.kx && q.status == q'.status && q.pskHint == q'.pskHint
    requires log + FromRequest(q) == Script(q)
    ensures log + FromRequest(q') == Script(q')
  {
    hide Script, FromStatus, FromServerKey, FromRequest, ToStatus, ToKey, ToRequest;
    ScriptSplits(q);
    ScriptSplits(q');
    Cancel(log, ToRequest(q), FromRequest(q));
    SameToRequest(q, q');
  }

  lemma {:induction false} SameToStatus(q: Params, q': Params)
    requires q.kx == q'.kx
    ensures ToStatus(q) == ToStatus(q')
  {}

  lemma {:induction false} SameToKey(q: Params, q': Params)
    requires q.kx == q'.kx && q.status == q'.status
    ensures ToKey(q) == ToKey(q')
  {
    hide ToStatus;
    SameToStatus(q, q');
  }

  lemma {:induction false} SameToRequest(q: Params, q': Params)
    requires q.kx == q'.kx && q.status == q'.status && q.pskHint == q'.pskHint
    ensures ToRequest(q) == ToRequest(q')
  {
    hide ToKey;
    SameToKey(q, q');
  }

  /** The conversation, once the message at hand has settled what the server had to decide. */
  function Settle(p: Params, q: Params, c: C.Me): Params
  {
    if c.inbox == [] then q
    else if c.state == C.ReadCertificateStatus && p.status then q.(status := Sees(c, CertificateStatus))
    else if c.state == C.ReadServerKeyExchange && p.kx == PSK then q.(pskHint := Sees(c, ServerKeyExchange))
    else if c.state == C.ReadCertificateRequest then q.(verifyPeer := !Sees(c, ServerHelloDone))
    else q
  }

  /** What follows the state in a conversation in which the server decides differently. */
  lemma {:induction false} Rejoin(p: Params, q: Params, q': Params, c: C.Me)
    requires ClientOn(p, q, c) && ServerMay(p, q') && C.Flags(q', c) && c.log + C.Rest(q', c.state, c.wait) == Script(q')
    ensures ClientOn(p, q', c)
  {
    hide C.Rest, C.Flags, Script, Proper, ServerMay, C.WriteEpoch, C.ReadEpoch;
  }

  lemma {:induction false} AtStatus(p: Params, q: Params, c: C.Me)
    requires ClientOn(p, q, c) && c.state == C.ReadCertificateStatus
    ensures !q.resumed && c.log + FromStatus(q) == Script(q) && !c.certRequest && ServerMay(p, q)
  {
    hide Script, Kinds, Proper, FromStatus, FromServerCert, FromRequest, FromHelloDone, FromClientCert, FromKeyExchange, FromVerify, ClientEnd, ClientSecrets, ClientIdPart, ServerEnd, FromServerHello, FromServerKey, AfterServer, AfterClient, FromServerEnd, FromClientEnd;
  }

  lemma {:induction false} AtKey(p: Params, q: Params, c: C.Me)
    requires ClientOn(p, q, c) && c.state == C.ReadServerKeyExchange
    ensures !q.resumed && c.log + FromServerKey(q) == Script(q) && !c.certRequest && ServerMay(p, q)
  {
    hide Script, Kinds, Proper, FromStatus, FromServerCert, FromRequest, FromHelloDone, FromClientCert, FromKeyExchange, FromVerify, ClientEnd, ClientSecrets, ClientIdPart, ServerEnd, FromServerHello, FromServerKey, AfterServer, AfterClient, FromServerEnd, FromClientEnd;
  }

  lemma {:induction false} AtRequest(p: Params, q: Params, c: C.Me)
    requires ClientOn(p, q, c) && c.state == C.ReadCertificateRequest
    ensures !q.resumed && c.log + FromRequest(q) == Script(q) && !c.certRequest && ServerMay(p, q)
  {
    hide Script, Kinds, Proper, FromStatus, FromServerCert, FromRequest, FromHelloDone, FromClientCert, FromKeyExchange, FromVerify, ClientEnd, ClientSecrets, ClientIdPart, ServerEnd, FromServerHello, FromServerKey, AfterServer, AfterClient, FromServerEnd, FromClientEnd;
  }

  lemma {:induction false} RestThere(q: Params, c: C.Me)
    ensures c.state == C.ReadCertificateStatus ==> C.Rest(q, c.state, c.wait) == FromStatus(q) && (!c.certRequest ==> C.Flags(q, c))
    ensures c.state == C.ReadServerKeyExchange ==> C.Rest(q, c.state, c.wait) == FromServerKey(q) && (!c.certRequest ==> C.Flags(q, c))
    ensures c.state == C.ReadCertificateRequest ==> C.Rest(q, c.state, c.wait) == FromRequest(q) && (!c.certRequest ==> C.Flags(q, c))
  {
    hide FromStatus, FromServerKey, FromRequest;
  }

  /** Only what the message at hand decides is changed. */
  lemma {:induction false} SettleMay(p: Params, q: Params, c: C.Me)
    requires ServerMay(p, q)
    ensures var q' := Settle(p, q, c);
            && ServerMay(p, q') && q'.resumed == q.resumed && q'.kx == q.kx
            && (c.state != C.ReadCertificateStatus ==> q'.status == q.status)
            && (c.state == C.ReadCertificateRequest ==> q'.pskHint == q.pskHint)
  {
    MayDecide(p, q, Sees(c, CertificateStatus), Sees(c, ServerKeyExchange), !Sees(c, ServerHelloDone));
    hide ServerMay, Sees;
  }

  lemma {:induction false} MayDecide(p: Params, q: Params, status: bool, pskHint: bool, verifyPeer: bool)
    requires ServerMay(p, q)
    ensures p.status ==> ServerMay(p, q.(status := status))
    ensures ServerMay(p, q.(pskHint := pskHint)) && ServerMay(p, q.(verifyPeer := verifyPeer))
  {}

  lemma {:induction false} SettleStatus(p: Params, q: Params, c: C.Me)
    requires ClientOn(p, q, c) && c.wait == Ok && c.state == C.ReadCertificateStatus
    ensures ClientOn(p, Settle(p, q, c), c)
  {
    hide *;
    AtStatus(p, q, c);
    SettleMay(p, q, c);
    RestThere(Settle(p, q, c), c);
    RerouteStatus(q, Settle(p, q, c), c.log);
    Rejoin(p, q, Settle(p, q, c), c);
  }

  lemma {:induction false} SettleKey(p: Params, q: Params, c: C.Me)
    requires ClientOn(p, q, c) && c.wait == Ok && c.state == C.ReadServerKeyExchange
    ensures ClientOn(p, Settle(p, q, c), c)
  {
    hide *;
    AtKey(p, q, c);
    SettleMay(p, q, c);
    RestThere(Settle(p, q, c), c);
    RerouteKey(q, Settle(p, q, c), c.log);
    Rejoin(p, q, Settle(p, q, c), c);
  }

  lemma {:induction false} SettleRequest(p: Params, q: Params, c: C.Me)
    requires ClientOn(p, q, c) && c.wait == Ok && c.state == C.ReadCertificateRequest
    ensures ClientOn(p, Settle(p, q, c), c)
  {
    hide *;
    AtRequest(p, q, c);
    SettleMay(p, q, c);
    RestThere(Settle(p, q, c), c);
    RerouteRequest(q, Settle(p, q, c), c.log);
    Rejoin(p, q, Settle(p, q, c), c);
  }

  lemma {:induction false} SettleOn(p: Params, q: Params, c: C.Me)
    requires ClientOn(p, q, c) && c.wait == Ok
    ensures ClientOn(p, Settle(p, q, c), c)
  {
    hide ClientOn;
    match c.state
    case ReadCertificateStatus => SettleStatus(p, q, c);
    case ReadServerKeyExchange => SettleKey(p, q, c);
    case ReadCertificateRequest => SettleRequest(p, q, c);
    case _ =>
  }

  lemma {:induction false} SeenToken(items: seq<Item>, from: Side, epoch: nat, kind: Kind)
    requires Proper(items, from, epoch) && items != [] && items[0].token.what == Message(kind)
    ensures items[0].token == Token(from, epoch, Message(kind)) && Proper(items[1..], from, epoch)
  {}

  lemma {:induction false} Longer(log: seq<Token>, t: Token, rest: seq<Token>)
    ensures (log + [t]) + rest == log + ([t] + rest)
  {}

  /** The message at hand agrees with the conversation. */
  predicate Settled(p: Params, q: Params, c: C.Me)
  {
    c.inbox != [] ==>
      && (c.state == C.ReadCertificateStatus && p.status ==> q.status == Sees(c, CertificateStatus))
      && (c.state == C.ReadServerKeyExchange && p.kx == PSK ==> q.pskHint == Sees(c, ServerKeyExchange))
      && (c.state == C.ReadCertificateRequest ==> q.verifyPeer == !Sees(c, ServerHelloDone))
  }

  predicate ClientStays(p: Params, q: Params, c: C.Me, retry: bool)
  {
    C.Work(p, c, retry).wait == Error || ClientOn(p, q, C.Work(p, c, retry))
  }

  lemma {:induction false} OnHello(p: Params, q: Params, c: C.Me, retry: bool)
    requires ClientOn(p, q, c) && c.wait == Ok && Settled(p, q, c) && c.state == C.ReadServerHello
    ensures ClientStays(p, q, c, retry)
  {
    hide Script, Kinds, Proper, FromStatus, FromServerCert, FromRequest, FromHelloDone, FromClientCert, FromKeyExchange, FromVerify, ClientEnd, ClientSecrets, ClientIdPart, ServerEnd, FromServerKey, AfterServer, AfterClient, FromServerEnd, FromClientEnd;
    if Sees(c, ServerHello) {
      SeenToken(c.inbox, Server, c.readEpoch, ServerHello);
      Longer(c.log, c.inbox[0].token, if q.resumed then FromServerEnd(q) else FromServerCert(q));
    }
  }

  lemma {:induction false} OnCertificate(p: Params, q: Params, c: C.Me, retry: bool)
    requires ClientOn(p, q, c) && c.wait == Ok && Settled(p, q, c) && c.state == C.ReadServerCertificate
    ensures ClientStays(p, q, c, retry)
  {
    hide Script, Kinds, Proper, FromStatus, FromRequest, FromHelloDone, FromClientCert, FromKeyExchange, FromVerify, ClientEnd, ClientSecrets, ClientIdPart, ServerEnd, FromServerHello, FromServerKey, AfterServer, AfterClient, FromServerEnd, FromClientEnd;
    OptCases(q.CertAuth(), Said(Server, Certificate), FromStatus(q));
    if Sees(c, Certificate) {
      SeenToken(c.inbox, Server, c.readEpoch, Certificate);
      Longer(c.log, c.inbox[0].token, FromStatus(q));
    }
  }

  lemma {:induction false} OnStatus(p: Params, q: Params, c: C.Me, retry: bool)
    requires ClientOn(p, q, c) && c.wait == Ok && Settled(p, q, c) && c.state == C.ReadCertificateStatus && (p.status ==> p.CertAuth())
    ensures ClientStays(p, q, c, retry)
  {
    hide Script, Kinds, Proper, FromServerCert, FromRequest, FromHelloDone, FromClientCert, FromKeyExchange, FromVerify, ClientEnd, ClientSecrets, ClientIdPart, ServerEnd, FromServerHello, FromServerKey, AfterServer, AfterClient, FromServerEnd, FromClientEnd;
    OptCases(q.CertAuth() && q.status, Said(Server, CertificateStatus), FromServerKey(q));
    if Sees(c, CertificateStatus) {
      SeenToken(c.inbox, Server, c.readEpoch, CertificateStatus);
      Longer(c.log, c.inbox[0].token, FromServerKey(q));
    }
  }

  lemma {:induction false} OnKeyExchange(p: Params, q: Params, c: C.Me, retry: bool)
    requires ClientOn(p, q, c) && c.wait == Ok && Settled(p, q, c) && c.state == C.ReadServerKeyExchange
    ensures ClientStays(p, q, c, retry)
  {
    hide Script, Kinds, Proper, FromStatus, FromServerCert, FromRequest, FromHelloDone, FromClientCert, FromKeyExchange, FromVerify, ClientEnd, ClientSecrets, ClientIdPart, ServerEnd, FromServerHello, AfterServer, AfterClient, FromServerEnd, FromClientEnd;
    OptCases(q.Ske(), Said(Server, ServerKeyExchange), FromRequest(q));
    if Sees(c, ServerKeyExchange) {
      SeenToken(c.inbox, Server, c.readEpoch, ServerKeyExchange);
      Longer(c.log, c.inbox[0].token, FromRequest(q));
    }
  }

  lemma {:induction false} OnRequest(p: Params, q: Params, c: C.Me, retry: bool)
    requires ClientOn(p, q, c) && c.wait == Ok && Settled(p, q, c) && c.state == C.ReadCertificateRequest
    ensures ClientStays(p, q, c, retry)
  {
    hide Script, Kinds, Proper, FromStatus, FromServerCert, FromHelloDone, FromClientCert, FromKeyExchange, FromVerify, ClientEnd, ClientSecrets, ClientIdPart, ServerEnd, FromServerHello, FromServerKey, AfterServer, AfterClient, FromServerEnd, FromClientEnd;
    OptCases(q.CertRequested(), Said(Server, CertificateRequest), FromHelloDone(q));
    if Sees(c, CertificateRequest) {
      SeenToken(c.inbox, Server, c.readEpoch, CertificateRequest);
      Longer(c.log, c.inbox[0].token, FromHelloDone(q));
    }
  }

  lemma {:induction false} OnHelloDone(p: Params, q: Params, c: C.Me, retry: bool)
    requires ClientOn(p, q, c) && c.wait == Ok && Settled(p, q, c) && c.state == C.ReadServerHelloDone
    ensures ClientStays(p, q, c, retry)
  {
    hide Script, Kinds, Proper, FromStatus, FromServerCert, FromRequest, FromClientCert, FromKeyExchange, FromVerify, ClientEnd, ClientSecrets, ClientIdPart, ServerEnd, FromServerHello, FromServerKey, AfterServer, AfterClient, FromServerEnd, FromClientEnd;
    if Sees(c, ServerHelloDone) {
      SeenToken(c.inbox, Server, c.readEpoch, ServerHelloDone);
      Longer(c.log, c.inbox[0].token, FromClientCert(q));
    }
  }

  lemma {:induction false} OnTicket(p: Params, q: Params, c: C.Me, retry: bool)
    requires ClientOn(p, q, c) && c.wait == Ok && Settled(p, q, c) && c.state == C.ReadSessionTicket
    ensures ClientStays(p, q, c, retry)
  {
    hide Script, Kinds, Proper, FromStatus, FromServerCert, FromRequest, FromHelloDone, FromClientCert, FromKeyExchange, FromVerify, ClientEnd, ClientSecrets, ClientIdPart, ServerEnd, FromServerHello, FromServerKey, AfterServer, AfterClient, FromServerEnd, FromClientEnd;
    ServerEnds(q);
    var r := [SERVER_CCS] + ([Secret(Server, Finished)] + AfterServer(q));
    if Sees(c, NewSessionTicket) {
      SeenToken(c.inbox, Server, c.readEpoch, NewSessionTicket);
      Longer(c.log, c.inbox[0].token, r);
    }
  }

  lemma {:induction false} OnFinished(p: Params, q: Params, c: C.Me, retry: bool)
    requires ClientOn(p, q, c) && c.wait == Ok && Settled(p, q, c) && c.state == C.ReadServerFinished
    ensures ClientStays(p, q, c, retry)
  {
    hide Script, Kinds, Proper, FromStatus, FromServerCert, FromRequest, FromHelloDone, FromClientCert, FromKeyExchange, FromVerify, ClientEnd, ClientSecrets, ClientIdPart, ServerEnd, FromServerHello, FromServerKey, AfterServer, AfterClient, FromServerEnd, FromClientEnd;
    ServerEnds(q);
    if Sees(c, Finished) {
      SeenToken(c.inbox, Server, c.readEpoch, Finished);
      Longer(c.log, c.inbox[0].token, AfterServer(q));
    }
  }

  lemma {:induction false} OnStart(p: Params, q: Params, c: C.Me, retry: bool)
    requires ClientOn(p, q, c) && c.wait == Ok && Settled(p, q, c) && c.state == C.StartConnect
    ensures ClientStays(p, q, c, retry)
  {
    hide Script, Kinds, Proper, FromStatus, FromServerCert, FromRequest, FromHelloDone, FromClientCert, FromKeyExchange, FromVerify, ClientEnd, ClientSecrets, ClientIdPart, ServerEnd, FromServerHello, FromServerKey, AfterServer, AfterClient, FromServerEnd, FromClientEnd;
    ScriptStarts(q);
    Longer(c.log, Said(Client, ClientHello), FromServerHello(q));
  }

  lemma {:induction false} OnSendCertificate(p: Params, q: Params, c: C.Me, retry: bool)
    requires ClientOn(p, q, c) && c.wait == Ok && Settled(p, q, c) && c.state == C.SendClientCertificate
    ensures ClientStays(p, q, c, retry)
  {
    hide Script, Kinds, Proper, FromStatus, FromServerCert, FromRequest, FromHelloDone, FromKeyExchange, FromVerify, ClientEnd, ClientSecrets, ClientIdPart, ServerEnd, FromServerHello, FromServerKey, AfterServer, AfterClient, FromServerEnd, FromClientEnd;
    OptCases(q.CertRequested(), Said(Client, Certificate), FromKeyExchange(q));
    Longer(c.log, Said(Client, Certificate), FromKeyExchange(q));
  }

  lemma {:induction false} OnSendKeyExchange(p: Params, q: Params, c: C.Me, retry: bool)
    requires ClientOn(p, q, c) && c.wait == Ok && Settled(p, q, c) && c.state == C.SendClientKeyExchange
    ensures ClientStays(p, q, c, retry)
  {
    hide Script, Kinds, Proper, FromStatus, FromServerCert, FromRequest, FromHelloDone, FromClientCert, FromVerify, ClientEnd, ClientSecrets, ClientIdPart, ServerEnd, FromServerHello, FromServerKey, AfterServer, AfterClient, FromServerEnd, FromClientEnd;
    Longer(c.log, Said(Client, ClientKeyExchange), FromVerify(q));
  }

  lemma {:induction false} OnSendVerify(p: Params, q: Params, c: C.Me, retry: bool)
    requires ClientOn(p, q, c) && c.wait == Ok && Settled(p, q, c) && c.state == C.SendClientCertificateVerify
    ensures ClientStays(p, q, c, retry)
  {
    hide Script, Kinds, Proper, FromStatus, FromServerCert, FromRequest, FromHelloDone, FromClientCert, FromKeyExchange, ClientEnd, ClientSecrets, ClientIdPart, ServerEnd, FromServerHello, FromServerKey, AfterServer, AfterClient, FromServerEnd, FromClientEnd;
    OptCases(q.CertRequested() && q.clientCert, Said(Client, CertificateVerify), FromClientEnd(q));
    Longer(c.log, Said(Client, CertificateVerify), FromClientEnd(q));
  }

  /** The client's last words extend its log by its end of the conversation. */
  lemma {:induction false} ClientEndsLog(q: Params, c: C.Me)
    requires c.writeEpoch == 0
    ensures C.DoSendClientFinished(q, c).log + AfterClient(q) == c.log + FromClientEnd(q)
  {
    hide AfterClient, Kinds;
    var end := [Secret(Client, Finished)] + AfterClient(q);
    var r2 := Opt(q.channelId, Secret(Client, ChannelId)) + end;
    var r1 := Opt(q.npn, Secret(Client, NextProto)) + r2;
    S.ClientEnds(q);
    OptCases(q.channelId, Secret(Client, ChannelId), end);
    OptCases(q.npn, Secret(Client, NextProto), r2);
    var l1 := c.log + [CLIENT_CCS];
    var l2 := if q.npn then l1 + [Secret(Client, NextProto)] else l1;
    var l3 := if q.channelId then l2 + [Secret(Client, ChannelId)] else l2;
    Longer(c.log, CLIENT_CCS, r1);
    Longer(l1, Secret(Client, NextProto), r2);
    Longer(l2, Secret(Client, ChannelId), end);
    Longer(l3, Secret(Client, Finished), AfterClient(q));
    assert C.DoSendClientFinished(q, c).log == l3 + [Secret(Client, Finished)];
  }

  lemma {:induction false} SameFinish(p: Params, q: Params, c: C.Me)
    requires ServerMay(p, q)
    ensures C.DoSendClientFinished(p, c) == C.DoSendClientFinished(q, c)
  {}

  lemma {:induction false} OnSendFinished(p: Params, q: Params, c: C.Me, retry: bool)
    requires ClientOn(p, q, c) && c.wait == Ok && Settled(p, q, c) && c.state == C.SendClientFinished
    ensures ClientStays(p, q, c, retry)
  {
    hide C.DoSendClientFinished, Script, Kinds, Proper, FromStatus, FromServerCert, FromRequest, FromHelloDone, FromClientCert, FromKeyExchange, FromVerify, ClientEnd, ClientSecrets, ClientIdPart, ServerEnd, FromServerHello, FromServerKey, AfterServer, AfterClient, FromServerEnd, FromClientEnd;
    ServerEnds(q);
    ClientEndsLog(q, c);
    C.FinishedFields(p, c);
    SameFinish(p, q, c);
  }

  lemma {:induction false} OnMove(p: Params, q: Params, c: C.Me, retry: bool)
    requires ClientOn(p, q, c) && c.wait == Ok && Settled(p, q, c) && (c.state == C.EnterEarlyData || c.state == C.VerifyServerCertificate || c.state == C.FinishClientHandshake || c.state == C.Done)
    ensures ClientStays(p, q, c, retry)
  {
    hide Script, Kinds, Proper, FromStatus, FromServerCert, FromRequest, FromHelloDone, FromClientCert, FromKeyExchange, FromVerify, ClientEnd, ClientSecrets, ClientIdPart, ServerEnd, FromServerHello, FromServerKey, AfterServer, AfterClient, FromServerEnd, FromClientEnd;
  }

  lemma {:induction false} OnFlightFinished(p: Params, q: Params, c: C.Me, retry: bool)
    requires ClientOn(p, q, c) && c.wait == Ok && Settled(p, q, c) && c.state == C.FinishFlight
    ensures ClientStays(p, q, c, retry)
  {
    hide Script, Kinds, Proper, FromStatus, FromServerCert, FromRequest, FromHelloDone, FromClientCert, FromKeyExchange, FromVerify, ClientEnd, ClientSecrets, ClientIdPart, ServerEnd, FromServerHello, FromServerKey, AfterServer, AfterClient, FromServerEnd, FromClientEnd;
    ServerEnds(q);
  }

  lemma {:induction false} OnCipherChange(p: Params, q: Params, c: C.Me, retry: bool)
    requires ClientOn(p, q, c) && c.wait == Ok && Settled(p, q, c) && c.state == C.ProcessChangeCipherSpec
    ensures ClientStays(p, q, c, retry)
  {
    hide Script, Kinds, Proper, FromStatus, FromServerCert, FromRequest, FromHelloDone, FromClientCert, FromKeyExchange, FromVerify, ClientEnd, ClientSecrets, ClientIdPart, ServerEnd, FromServerHello, FromServerKey, AfterServer, AfterClient, FromServerEnd, FromClientEnd;
    if c.inbox == [] { NoneProper(Server, 1); }
    assert C.Rest(q, c.state, Ok) == [Secret(Server, Finished)] + AfterServer(q);
  }

  lemma {:induction false} NoneProper(from: Side, epoch: nat)
    ensures Proper([], from, epoch)
  {}

  lemma {:induction false} SettleSettles(p: Params, q: Params, c: C.Me)
    ensures Settled(p, Settle(p, q, c), c)
  {
    hide Sees;
  }

  /** Whatever has arrived, a turn of the client stays on a legal conversation or fails. */
  lemma {:induction false} ClientTurn(p: Params, q: Params, c: C.Me, retry: bool)
    requires ClientOn(p, q, c) && c.wait == Ok && (p.status ==> p.CertAuth())
    ensures ClientStays(p, Settle(p, q, c), c, retry)
  {
    hide ClientStays, C.Work, ClientOn, Settle, Settled;
    SettleOn(p, q, c);
    var q' := Settle(p, q, c);
    SettleSettles(p, q, c);
    match c.state
    case ReadServerHello => OnHello(p, q', c, retry);
    case ReadServerCertificate => OnCertificate(p, q', c, retry);
    case ReadCertificateStatus => OnStatus(p, q', c, retry);
    case ReadServerKeyExchange => OnKeyExchange(p, q', c, retry);
    case ReadCertificateRequest => OnRequest(p, q', c, retry);
    case ReadServerHelloDone => OnHelloDone(p, q', c, retry);
    case ReadSessionTicket => OnTicket(p, q', c, retry);
    case ReadServerFinished => OnFinished(p, q', c, retry);
    case StartConnect => OnStart(p, q', c, retry);
    case SendClientCertificate => OnSendCertificate(p, q', c, retry);
    case SendClientKeyExchange => OnSendKeyExchange(p, q', c, retry);
    case SendClientCertificateVerify => OnSendVerify(p, q', c, retry);
    case SendClientFinished => OnSendFinished(p, q', c, retry);
    case FinishFlight => OnFlightFinished(p, q', c, retry);
    case ProcessChangeCipherSpec => OnCipherChange(p, q', c, retry);
    case _ => OnMove(p, q', c, retry);
  }

  /** Records that come while the client waits, and waits that end. */
  lemma {:induction false} ClientReads(p: Params, q: Params, c: C.Me, r: Record)
    requires ClientOn(p, q, c) && c.wait == ReadMessage
    ensures Feed(c, Server, r).wait == Error || ClientOn(p, q, Feed(c, Server, r))
  {
    hide Script, C.WriteEpoch, FromServerHello, FromServerCert, FromStatus, FromServerKey, FromRequest, FromHelloDone, FromClientCert,
         FromKeyExchange, FromVerify, FromClientEnd, FromServerEnd, AfterClient, AfterServer;
  }

  lemma {:induction false} ClientReadsCcs(p: Params, q: Params, c: C.Me, r: Record)
    requires ClientOn(p, q, c) && c.wait == ReadCcs
    ensures Feed(c, Server, r).wait == Error || ClientOn(p, q, Feed(c, Server, r))
  {
    hide Script, C.WriteEpoch, FromServerHello, FromServerCert, FromStatus, FromServerKey, FromRequest, FromHelloDone, FromClientCert,
         FromKeyExchange, FromVerify, FromClientEnd, FromServerEnd, AfterClient, AfterServer;
    Longer(c.log, SERVER_CCS, [Secret(Server, Finished)] + AfterServer(q));
    assert C.Rest(q, c.state, ReadCcs) == [SERVER_CCS] + ([Secret(Server, Finished)] + AfterServer(q)) && C.Rest(q, c.state, Ok) == [Secret(Server, Finished)] + AfterServer(q);
  }

  lemma {:induction false} ClientGets(p: Params, q: Params, c: C.Me, i: Input)
    requires ClientOn(p, q, c) && !i.Turn?
    ensures var d := React(c, c, Server, i); d.wait == Error || ClientOn(p, q, d)
  {
    hide Feed, Script, C.WriteEpoch, FromServerHello, FromServerCert, FromStatus, FromServerKey, FromRequest, FromHelloDone, FromClientCert,
         FromKeyExchange, FromVerify, FromClientEnd, FromServerEnd, AfterClient, AfterServer;
    if i.Got? && c.wait == ReadMessage { ClientReads(p, q, c, i.r); }
    if i.Got? && c.wait == ReadCcs { ClientReadsCcs(p, q, c, i.r); }
  }

  function RunClient(p: Params, c: C.Me, inputs: seq<Input>): C.Me
  {
    if inputs == [] then c
    else
      var d := RunClient(p, c, inputs[..|inputs| - 1]);
      var i := inputs[|inputs| - 1];
      React(d, C.Work(p, d, Retrying(i)), Server, i)
  }

  lemma {:induction false} ClientRuns(p: Params, inputs: seq<Input>) returns (q: Params)
    requires p.status ==> p.CertAuth()
    ensures var c := RunClient(p, C.START, inputs); c.wait == Error || ClientOn(p, q, c)
    decreases |inputs|
  {
    hide ClientOn, C.Work, Feed;
    if inputs == [] {
      q := p;
      ClientStarts(p);
    } else {
      q := ClientRuns(p, inputs[..|inputs| - 1]);
      var d, i := RunClient(p, C.START, inputs[..|inputs| - 1]), inputs[|inputs| - 1];
      if d.wait != Error {
        if !i.Turn? {
          ClientGets(p, q, d, i);
        } else if d.wait == Ok {
          ClientTurn(p, q, d, i.retry);
          q := Settle(p, q, d);
        }
      }
    }
  }

  lemma {:induction false} ClientStarts(p: Params)
    ensures ClientOn(p, p, C.START)
  {
    hide Script;
    assert [] + Script(p) == Script(p);
  }

  /**
    Whatever the server sends, a client that has not failed has been through a beginning of a legal
    conversation, and one that is done has been through all of one, with the server's Finished verified.
   */
  lemma {:induction false} ClientSound(p: Params, inputs: seq<Input>)
    requires p.status ==> p.CertAuth()
    ensures var c := RunClient(p, C.START, inputs);
            c.wait == Error || exists q :: ServerMay(p, q) && c.log <= Script(q) && (c.state == C.Done ==> c.log == Script(q))
  {
    hide Script, RunClient;
    var q := ClientRuns(p, inputs);
    var c := RunClient(p, C.START, inputs);
    if c.wait != Error {
      var rest := C.Rest(q, c.state, c.wait);
      assert c.log == Script(q)[..|c.log|] by { assert (c.log + rest)[..|c.log|] == c.log; }
      assert c.state == C.Done ==> c.log + [] == c.log;
    }
  }

  // ---------------------------------------------------------------- the server

  /** What the client decides: whether it has a certificate. */
  predicate ClientMay(p: Params, q: Params) { q == p.(clientCert := q.clientCert) }

  /** The server has done a beginning of the conversation q. */
  predicate ServerOn(p: Params, q: Params, s: S.Me)
  {
    && ClientMay(p, q) && s.wait != Error && s.log + S.Rest(q, s.state, s.wait) == Script(q)
    && s.writeEpoch == S.WriteEpoch(p, s.state) && s.readEpoch == S.ReadEpoch(p, s.state)
    && S.Flags(q, s) && (S.FullOnly(p, s.state) ==> !p.resumed) && Proper(s.inbox, Client, s.readEpoch)
    && (s.state == S.ProcessChangeCipherSpec ==> s.wait == ReadCcs || s.wait == Ok)
    && (s.wait == ReadCcs ==> s.state == S.ProcessChangeCipherSpec)
    && (s.state == S.SelectCertificate || s.state == S.SelectParameters ==> Sees(s, ClientHello))
  }

  /** What has been said before the client's certificate. */
  function ToClientCert(q: Params): seq<Token>
  {
    ToRequest(q) + (Opt(q.CertRequested(), Said(Server, CertificateRequest)) + [Said(Server, ServerHelloDone)])
  }

  lemma {:induction false} ClientCertSplits(q: Params)
    requires !q.resumed
    ensures Script(q) == ToClientCert(q) + FromClientCert(q)
  {
    hide Script, FromClientCert, ToRequest, FromServerKey, FromStatus;
    ScriptSplits(q);
    var req := Opt(q.CertRequested(), Said(Server, CertificateRequest));
    assert FromRequest(q) == req + ([Said(Server, ServerHelloDone)] + FromClientCert(q)) by { RequestParts(q); }
    Regroup(req, [Said(Server, ServerHelloDone)], FromClientCert(q));
    Regroup(ToRequest(q), req + [Said(Server, ServerHelloDone)], FromClientCert(q));
  }

  lemma {:induction false} RequestParts(q: Params)
    ensures FromRequest(q) == Opt(q.CertRequested(), Said(Server, CertificateRequest)) + ([Said(Server, ServerHelloDone)] + FromClientCert(q))
  {}

  /** The conversation, once the client's certificate message has shown whether it has one. */
  function Present(q: Params, s: S.Me): Params
  {
    if s.state == S.ReadClientCertificate && Sees(s, Certificate) then q.(clientCert := s.inbox[0].body == Chain(true)) else q
  }

  lemma {:induction false} PresentOn(p: Params, q: Params, s: S.Me)
    requires ServerOn(p, q, s) && s.wait == Ok
    ensures ServerOn(p, Present(q, s), s)
  {
    hide Script, Proper, ToClientCert, FromClientCert;
    var q' := Present(q, s);
    if q' != q {
      ClientCertSplits(q);
      ClientCertSplits(q');
      Cancel(s.log, ToClientCert(q), FromClientCert(q));
      SameToClientCert(q, q');
    }
  }

  lemma {:induction false} SameToClientCert(q: Params, q': Params)
    requires ClientMay(q, q')
    ensures ToClientCert(q) == ToClientCert(q')
  {}

  predicate ServerStays(p: Params, q: Params, s: S.Me, retry: bool)
  {
    S.Work(p, s, retry).wait == Error || ServerOn(p, q, S.Work(p, s, retry))
  }

  lemma {:induction false} ServerHellos(p: Params, q: Params, s: S.Me, retry: bool)
    requires ServerOn(p, q, s) && s.wait == Ok && Present(q, s) == q && (s.state == S.ReadClientHello || s.state == S.SelectCertificate)
    ensures ServerStays(p, q, s, retry)
  {
    hide Script, Kinds, Proper, FromStatus, FromServerCert, FromRequest, FromHelloDone, FromClientCert, FromKeyExchange, FromVerify, ClientEnd, ClientSecrets, ClientIdPart, ServerEnd, FromServerHello, FromServerKey, AfterServer, AfterClient, FromServerEnd, FromClientEnd;
  }

  lemma {:induction false} ServerParameters(p: Params, q: Params, s: S.Me, retry: bool)
    requires ServerOn(p, q, s) && s.wait == Ok && Present(q, s) == q && s.state == S.SelectParameters
    ensures ServerStays(p, q, s, retry)
  {
    hide Script, Kinds, Proper, FromStatus, FromServerCert, FromRequest, FromHelloDone, FromClientCert, FromKeyExchange, FromVerify, ClientEnd, ClientSecrets, ClientIdPart, ServerEnd, FromServerHello, FromServerKey, AfterServer, AfterClient, FromServerEnd, FromClientEnd;
    ScriptStarts(q);
    if s.inbox != [] && Sees(s, ClientHello) {
      SeenToken(s.inbox, Client, s.readEpoch, ClientHello);
      Longer(s.log, s.inbox[0].token, FromServerHello(q));
    }
  }

  lemma {:induction false} ServerSaysHello(p: Params, q: Params, s: S.Me, retry: bool)
    requires ServerOn(p, q, s) && s.wait == Ok && Present(q, s) == q && s.state == S.SendServerHello
    ensures ServerStays(p, q, s, retry)
  {
    hide Script, Kinds, Proper, FromStatus, FromServerCert, FromRequest, FromHelloDone, FromClientCert, FromKeyExchange, FromVerify, ClientEnd, ClientSecrets, ClientIdPart, ServerEnd, FromServerKey, AfterServer, AfterClient, FromServerEnd, FromClientEnd;
    Longer(s.log, Said(Server, ServerHello), if q.resumed then FromServerEnd(q) else FromServerCert(q));
  }

  lemma {:induction false} ServerSaysCertificate(p: Params, q: Params, s: S.Me, retry: bool)
    requires ServerOn(p, q, s) && s.wait == Ok && Present(q, s) == q && s.state == S.SendServerCertificate
    ensures ServerStays(p, q, s, retry)
  {
    hide Script, Kinds, Proper, FromRequest, FromHelloDone, FromClientCert, FromKeyExchange, FromVerify, ClientEnd, ClientSecrets, ClientIdPart, ServerEnd, FromServerHello, FromServerKey, AfterServer, AfterClient, FromServerEnd, FromClientEnd;
    OptCases(q.CertAuth(), Said(Server, Certificate), FromStatus(q));
    OptCases(q.CertAuth() && q.status, Said(Server, CertificateStatus), FromServerKey(q));
    Longer(s.log, Said(Server, Certificate), FromStatus(q));
    Longer(s.log + [Said(Server, Certificate)], Said(Server, CertificateStatus), FromServerKey(q));
  }

  lemma {:induction false} ServerSaysKey(p: Params, q: Params, s: S.Me, retry: bool)
    requires ServerOn(p, q, s) && s.wait == Ok && Present(q, s) == q && s.state == S.SendServerKeyExchange
    ensures ServerStays(p, q, s, retry)
  {
    hide Script, Kinds, Proper, FromStatus, FromServerCert, FromRequest, FromHelloDone, FromClientCert, FromKeyExchange, FromVerify, ClientEnd, ClientSecrets, ClientIdPart, ServerEnd, FromServerHello, AfterServer, AfterClient, FromServerEnd, FromClientEnd;
    OptCases(q.Ske(), Said(Server, ServerKeyExchange), FromRequest(q));
    Longer(s.log, Said(Server, ServerKeyExchange), FromRequest(q));
  }

  lemma {:induction false} ServerSaysDone(p: Params, q: Params, s: S.Me, retry: bool)
    requires ServerOn(p, q, s) && s.wait == Ok && Present(q, s) == q && s.state == S.SendServerHelloDone
    ensures ServerStays(p, q, s, retry)
  {
    hide Script, Kinds, Proper, FromStatus, FromServerCert, FromClientCert, FromKeyExchange, FromVerify, ClientEnd, ClientSecrets, ClientIdPart, ServerEnd, FromServerHello, FromServerKey, AfterServer, AfterClient, FromServerEnd, FromClientEnd;
    OptCases(q.CertRequested(), Said(Server, CertificateRequest), FromHelloDone(q));
    Longer(s.log, Said(Server, CertificateRequest), FromHelloDone(q));
    var l := if q.CertRequested() then s.log + [Said(Server, CertificateRequest)] else s.log;
    Longer(l, Said(Server, ServerHelloDone), FromClientCert(q));
  }

  lemma {:induction false} OnClientCertificate(p: Params, q: Params, s: S.Me, retry: bool)
    requires ServerOn(p, q, s) && s.wait == Ok && Present(q, s) == q && s.state == S.ReadClientCertificate
    ensures ServerStays(p, q, s, retry)
  {
    hide Script, Kinds, Proper, FromStatus, FromServerCert, FromRequest, FromHelloDone, FromKeyExchange, FromVerify, ClientEnd, ClientSecrets, ClientIdPart, ServerEnd, FromServerHello, FromServerKey, AfterServer, AfterClient, FromServerEnd, FromClientEnd;
    OptCases(q.CertRequested(), Said(Client, Certificate), FromKeyExchange(q));
    if Sees(s, Certificate) {
      SeenToken(s.inbox, Client, s.readEpoch, Certificate);
      Longer(s.log, s.inbox[0].token, FromKeyExchange(q));
    }
  }

  lemma {:induction false} OnClientKey(p: Params, q: Params, s: S.Me, retry: bool)
    requires ServerOn(p, q, s) && s.wait == Ok && Present(q, s) == q && s.state == S.ReadClientKeyExchange
    ensures ServerStays(p, q, s, retry)
  {
    hide Script, Kinds, Proper, FromStatus, FromServerCert, FromRequest, FromHelloDone, FromClientCert, FromVerify, ClientEnd, ClientSecrets, ClientIdPart, ServerEnd, FromServerHello, FromServerKey, AfterServer, AfterClient, FromServerEnd, FromClientEnd;
    if Sees(s, ClientKeyExchange) {
      SeenToken(s.inbox, Client, s.readEpoch, ClientKeyExchange);
      Longer(s.log, s.inbox[0].token, FromVerify(q));
    }
  }

  lemma {:induction false} OnClientVerify(p: Params, q: Params, s: S.Me, retry: bool)
    requires ServerOn(p, q, s) && s.wait == Ok && Present(q, s) == q && s.state == S.ReadClientCertificateVerify
    ensures ServerStays(p, q, s, retry)
  {
    hide Script, Kinds, Proper, FromStatus, FromServerCert, FromRequest, FromHelloDone, FromClientCert, FromKeyExchange, ClientEnd, ClientSecrets, ClientIdPart, ServerEnd, FromServerHello, FromServerKey, AfterServer, AfterClient, FromServerEnd, FromClientEnd;
    OptCases(q.CertRequested() && q.clientCert, Said(Client, CertificateVerify), FromClientEnd(q));
    if Sees(s, CertificateVerify) {
      SeenToken(s.inbox, Client, s.readEpoch, CertificateVerify);
      Longer(s.log, s.inbox[0].token, FromClientEnd(q));
    }
  }

  lemma {:induction false} OnReadCcs(p: Params, q: Params, s: S.Me, retry: bool)
    requires ServerOn(p, q, s) && s.wait == Ok && Present(q, s) == q && s.state == S.ReadChangeCipherSpec
    ensures ServerStays(p, q, s, retry)
  {
    hide S.FromSecrets, S.FromChannelId, Script, Kinds, Proper, FromStatus, FromServerCert, FromRequest, FromHelloDone, FromClientCert, FromKeyExchange, FromVerify, ClientEnd, ClientSecrets, ClientIdPart, ServerEnd, FromServerHello, FromServerKey, AfterServer, AfterClient, FromServerEnd, FromClientEnd;
    S.ClientEnds(q);
  }

  lemma {:induction false} OnProcessCcs(p: Params, q: Params, s: S.Me, retry: bool)
    requires ServerOn(p, q, s) && s.wait == Ok && Present(q, s) == q && s.state == S.ProcessChangeCipherSpec
    ensures ServerStays(p, q, s, retry)
  {
    hide S.FromSecrets, S.FromChannelId, Script, Kinds, Proper, FromStatus, FromServerCert, FromRequest, FromHelloDone, FromClientCert, FromKeyExchange, FromVerify, ClientEnd, ClientSecrets, ClientIdPart, ServerEnd, FromServerHello, FromServerKey, AfterServer, AfterClient, FromServerEnd, FromClientEnd;
    NoneProper(Client, 1);
    assert S.Rest(q, s.state, Ok) == S.FromSecrets(q);
  }

  lemma {:induction false} OnNextProto(p: Params, q: Params, s: S.Me, retry: bool)
    requires ServerOn(p, q, s) && s.wait == Ok && Present(q, s) == q && s.state == S.ReadNextProto
    ensures ServerStays(p, q, s, retry)
  {
    hide S.FromSecrets, S.FromChannelId, Script, Kinds, Proper, FromStatus, FromServerCert, FromRequest, FromHelloDone, FromClientCert, FromKeyExchange, FromVerify, ClientEnd, ClientSecrets, ClientIdPart, ServerEnd, FromServerHello, FromServerKey, AfterServer, AfterClient, FromServerEnd, FromClientEnd;
    S.ClientEnds(q);
    if Sees(s, NextProto) {
      SeenToken(s.inbox, Client, s.readEpoch, NextProto);
      Longer(s.log, s.inbox[0].token, S.FromChannelId(q));
    }
  }

  lemma {:induction false} OnChannelId(p: Params, q: Params, s: S.Me, retry: bool)
    requires ServerOn(p, q, s) && s.wait == Ok && Present(q, s) == q && s.state == S.ReadChannelId
    ensures ServerStays(p, q, s, retry)
  {
    hide S.FromSecrets, S.FromChannelId, Script, Kinds, Proper, FromStatus, FromServerCert, FromRequest, FromHelloDone, FromClientCert, FromKeyExchange, FromVerify, ClientEnd, ClientSecrets, ClientIdPart, ServerEnd, FromServerHello, FromServerKey, AfterServer, AfterClient, FromServerEnd, FromClientEnd;
    S.ClientEnds(q);
    if Sees(s, ChannelId) {
      SeenToken(s.inbox, Client, s.readEpoch, ChannelId);
      Longer(s.log, s.inbox[0].token, [Secret(Client, Finished)] + AfterClient(q));
    }
  }

  lemma {:induction false} OnClientFinished(p: Params, q: Params, s: S.Me, retry: bool)
    requires ServerOn(p, q, s) && s.wait == Ok && Present(q, s) == q && s.state == S.ReadClientFinished
    ensures ServerStays(p, q, s, retry)
  {
    hide S.FromSecrets, S.FromChannelId, Script, Kinds, Proper, FromStatus, FromServerCert, FromRequest, FromHelloDone, FromClientCert, FromKeyExchange, FromVerify, ClientEnd, ClientSecrets, ClientIdPart, ServerEnd, FromServerHello, FromServerKey, AfterServer, AfterClient, FromServerEnd, FromClientEnd;
    ServerEnds(q);
    if Sees(s, Finished) {
      SeenToken(s.inbox, Client, s.readEpoch, Finished);
      Longer(s.log, s.inbox[0].token, AfterClient(q));
    }
  }

  /** The server's last words extend its log by its end of the conversation. */
  lemma {:induction false} ServerEndsLog(q: Params, s: S.Me)
    requires s.writeEpoch == 0
    ensures S.DoSendServerFinished(q, s).log + AfterServer(q) == s.log + FromServerEnd(q)
  {
    hide AfterServer, FromServerEnd, Kinds;
    ServerEnds(q);
    var end := [Secret(Server, Finished)] + AfterServer(q);
    var l1 := if q.ticket then s.log + [Said(Server, NewSessionTicket)] else s.log;
    Longer(s.log, Said(Server, NewSessionTicket), [SERVER_CCS] + end);
    Longer(l1, SERVER_CCS, end);
    Longer(l1 + [SERVER_CCS], Secret(Server, Finished), AfterServer(q));
    assert S.DoSendServerFinished(q, s).log == l1 + [SERVER_CCS] + [Secret(Server, Finished)];
  }

  lemma {:induction false} SameServerFinish(p: Params, q: Params, s: S.Me)
    requires ClientMay(p, q)
    ensures S.DoSendServerFinished(p, s) == S.DoSendServerFinished(q, s)
  {}

  lemma {:induction false} ServerSaysFinished(p: Params, q: Params, s: S.Me, retry: bool)
    requires ServerOn(p, q, s) && s.wait == Ok && Present(q, s) == q && s.state == S.SendServerFinished
    ensures ServerStays(p, q, s, retry)
  {
    hide S.DoSendServerFinished, S.FromSecrets, S.FromChannelId, Script, Kinds, Proper, FromStatus, FromServerCert, FromRequest, FromHelloDone, FromClientCert, FromKeyExchange, FromVerify, ClientEnd, ClientSecrets, ClientIdPart, ServerEnd, FromServerHello, FromServerKey, AfterServer, AfterClient, FromServerEnd, FromClientEnd;
    ServerEnds(q);
    ServerEndsLog(q, s);
    S.FinishedFields(p, s);
    SameServerFinish(p, q, s);
  }

  lemma {:induction false} ServerMoves(p: Params, q: Params, s: S.Me, retry: bool)
    requires ServerOn(p, q, s) && s.wait == Ok && Present(q, s) == q && (s.state == S.StartAccept || s.state == S.VerifyClientCertificate || s.state == S.FinishServerHandshake || s.state == S.Done)
    ensures ServerStays(p, q, s, retry)
  {
    hide Script, Kinds, Proper, FromStatus, FromServerCert, FromRequest, FromHelloDone, FromClientCert, FromKeyExchange, FromVerify, ClientEnd, ClientSecrets, ClientIdPart, ServerEnd, FromServerHello, FromServerKey, AfterServer, AfterClient, FromServerEnd, FromClientEnd;
  }

  /** Whatever has arrived, a turn of the server stays on a legal conversation or fails. */
  lemma {:induction false} ServerTurn(p: Params, q: Params, s: S.Me, retry: bool)
    requires ServerOn(p, q, s) && s.wait == Ok
    ensures ServerStays(p, Present(q, s), s, retry)
  {
    hide ServerStays, S.Work, ServerOn;
    PresentOn(p, q, s);
    var q' := Present(q, s);
    assert Present(q', s) == q';
    match s.state
    case ReadClientHello => ServerHellos(p, q', s, retry);
    case SelectCertificate => ServerHellos(p, q', s, retry);
    case SelectParameters => ServerParameters(p, q', s, retry);
    case SendServerHello => ServerSaysHello(p, q', s, retry);
    case SendServerCertificate => ServerSaysCertificate(p, q', s, retry);
    case SendServerKeyExchange => ServerSaysKey(p, q', s, retry);
    case SendServerHelloDone => ServerSaysDone(p, q', s, retry);
    case ReadClientCertificate => OnClientCertificate(p, q', s, retry);
    case ReadClientKeyExchange => OnClientKey(p, q', s, retry);
    case ReadClientCertificateVerify => OnClientVerify(p, q', s, retry);
    case ReadChangeCipherSpec => OnReadCcs(p, q', s, retry);
    case ProcessChangeCipherSpec => OnProcessCcs(p, q', s, retry);
    case ReadNextProto => OnNextProto(p, q', s, retry);
    case ReadChannelId => OnChannelId(p, q', s, retry);
    case ReadClientFinished => OnClientFinished(p, q', s, retry);
    case SendServerFinished => ServerSaysFinished(p, q', s, retry);
    case _ => ServerMoves(p, q', s, retry);
  }

  lemma {:induction false} ServerReads(p: Params, q: Params, s: S.Me, r: Record)
    requires ServerOn(p, q, s) && s.wait == ReadMessage
    ensures Feed(s, Client, r).wait == Error || ServerOn(p, q, Feed(s, Client, r))
  {
    hide S.FromSecrets, S.FromChannelId, Script, S.WriteEpoch, FromServerHello, FromServerCert, FromStatus, FromServerKey, FromRequest, FromHelloDone, FromClientCert,
         FromKeyExchange, FromVerify, FromClientEnd, FromServerEnd, AfterClient, AfterServer;
  }

  lemma {:induction false} ServerReadsCcs(p: Params, q: Params, s: S.Me, r: Record)
    requires ServerOn(p, q, s) && s.wait == ReadCcs
    ensures Feed(s, Client, r).wait == Error || ServerOn(p, q, Feed(s, Client, r))
  {
    hide S.FromSecrets, S.FromChannelId, Script, S.WriteEpoch, FromServerHello, FromServerCert, FromStatus, FromServerKey, FromRequest, FromHelloDone, FromClientCert,
         FromKeyExchange, FromVerify, FromClientEnd, FromServerEnd, AfterClient, AfterServer;
    Longer(s.log, CLIENT_CCS, S.FromSecrets(q));
    assert S.Rest(q, s.state, ReadCcs) == [CLIENT_CCS] + S.FromSecrets(q) && S.Rest(q, s.state, Ok) == S.FromSecrets(q);
  }

  lemma {:induction false} ServerGets(p: Params, q: Params, s: S.Me, i: Input)
    requires ServerOn(p, q, s) && !i.Turn?
    ensures var d := React(s, s, Client, i); d.wait == Error || ServerOn(p, q, d)
  {
    hide Feed, S.FromSecrets, S.FromChannelId, Script, S.WriteEpoch, FromServerHello, FromServerCert, FromStatus, FromServerKey, FromRequest, FromHelloDone, FromClientCert,
         FromKeyExchange, FromVerify, FromClientEnd, FromServerEnd, AfterClient, AfterServer;
    if i.Got? && s.wait == ReadMessage { ServerReads(p, q, s, i.r); }
    if i.Got? && s.wait == ReadCcs { ServerReadsCcs(p, q, s, i.r); }
  }

  function RunServer(p: Params, s: S.Me, inputs: seq<Input>): S.Me
  {
    if inputs == [] then s
    else
      var d := RunServer(p, s, inputs[..|inputs| - 1]);
      var i := inputs[|inputs| - 1];
      React(d, S.Work(p, d, Retrying(i)), Client, i)
  }

  lemma {:induction false} ServerRuns(p: Params, inputs: seq<Input>) returns (q: Params)
    ensures var s := RunServer(p, S.START, inputs); s.wait == Error || ServerOn(p, q, s)
    decreases |inputs|
  {
    hide ServerOn, S.Work, Feed;
    if inputs == [] {
      q := p;
      ServerStarts(p);
    } else {
      q := ServerRuns(p, inputs[..|inputs| - 1]);
      var d, i := RunServer(p, S.START, inputs[..|inputs| - 1]), inputs[|inputs| - 1];
      if d.wait != Error {
        if !i.Turn? {
          ServerGets(p, q, d, i);
        } else if d.wait == Ok {
          ServerTurn(p, q, d, i.retry);
          q := Present(q, d);
        }
      }
    }
  }

  lemma {:induction false} ServerStarts(p: Params)
    ensures ServerOn(p, p, S.START)
  {
    hide Script;
    assert [] + Script(p) == Script(p);
  }

  /** Whatever the client sends, the same holds of the server. */
  lemma {:induction false} ServerSound(p: Params, inputs: seq<Input>)
    ensures var s := RunServer(p, S.START, inputs);
            s.wait == Error || exists q :: ClientMay(p, q) && s.log <= Script(q) && (s.state == S.Done ==> s.log == Script(q))
  {
    hide Script, RunServer;
    var q := ServerRuns(p, inputs);
    var s := RunServer(p, S.START, inputs);
    if s.wait != Error {
      var rest := S.Rest(q, s.state, s.wait);
      assert s.log == Script(q)[..|s.log|] by { assert (s.log + rest)[..|s.log|] == s.log; }
      assert s.state == S.Done ==> s.log + [] == s.log;
    }
  }
}
