/**
  The client's state machine for TLS 1.0-1.2, one function per turn of its loop, and what each turn
  keeps.
 */
module HandshakeClient {
  import opened Words
  import opened HandshakeScript

  datatype State = StartConnect | EnterEarlyData | ReadServerHello | ReadServerCertificate | ReadCertificateStatus
                 | VerifyServerCertificate | ReadServerKeyExchange | ReadCertificateRequest | ReadServerHelloDone
                 | SendClientCertificate | SendClientKeyExchange | SendClientCertificateVerify | SendClientFinished
                 | FinishFlight | ReadSessionTicket | ProcessChangeCipherSpec | ReadServerFinished
                 | FinishClientHandshake | Done

  type Me = Peer<State>

  const START: Me := Peer(StartConnect, Ok, [], [], [], 0, 0, false, false)

  /** do_read_server_certificate: the chain must not be empty. */
  function DoReadServerCertificate(p: Params, c: Me): Me
  {
    if !p.CertAuth() then Goto(c, ReadCertificateStatus, Ok)
    else if Sees(c, Certificate) && c.inbox[0].body != Chain(true) then c.(wait := Error)
    else Expect(c, Certificate, ReadCertificateStatus)
  }

  /** do_read_certificate_status: the server may have changed its mind. */
  function DoReadCertificateStatus(p: Params, c: Me): Me
  {
    if !p.status then Goto(c, VerifyServerCertificate, Ok)
    else if c.inbox == [] then c.(wait := ReadMessage)
    else if !Sees(c, CertificateStatus) then Goto(c, VerifyServerCertificate, Ok)
    else Goto(Take(c), VerifyServerCertificate, Ok)
  }

  /** do_read_server_key_exchange: some ciphers have an optional ServerKeyExchange, some have none. */
  function DoReadServerKeyExchange(p: Params, c: Me): Me
  {
    if c.inbox == [] then c.(wait := ReadMessage)
    else if !Sees(c, ServerKeyExchange) then (if p.RequiresSke() then c.(wait := Error) else Goto(c, ReadCertificateRequest, Ok))
    else if p.kx == RSA then c.(wait := Error)
    else Goto(Take(c), ReadCertificateRequest, Ok)
  }

  /** do_read_certificate_request */
  function DoReadCertificateRequest(p: Params, c: Me): Me
  {
    if !p.CertAuth() then Goto(c, ReadServerHelloDone, Ok)
    else if c.inbox == [] then c.(wait := ReadMessage)
    else if Sees(c, ServerHelloDone) then Goto(c, ReadServerHelloDone, Ok)
    else if !Sees(c, CertificateRequest) then c.(wait := Error)
    else Goto(Take(c), ReadServerHelloDone, Ok).(certRequest := true)
  }

  /** do_send_client_finished */
  function DoSendClientFinished(p: Params, c: Me): Me
  {
    var c1 := Say(c, Client, Ccs, Opaque).(writeEpoch := 1);
    var c2 := if p.npn then Say(c1, Client, Message(NextProto), Opaque) else c1;
    var c3 := if p.channelId then Say(c2, Client, Message(ChannelId), Opaque) else c2;
    Goto(SayFinished(c3, Client), FinishFlight, Flush)
  }

  /** do_read_session_ticket */
  function DoReadSessionTicket(p: Params, c: Me): Me
  {
    if !p.ticket then Goto(c, ProcessChangeCipherSpec, ReadCcs)
    else
      var r := Expect(c, NewSessionTicket, ProcessChangeCipherSpec);
      if r.wait == Ok then r.(wait := ReadCcs) else r
  }

  /** One turn of the loop of ssl_client_handshake. With `retry` an operation that can wait asks to be called again. */
  function Work(p: Params, c: Me, retry: bool): Me
  {
    match c.state
    case StartConnect => Goto(Say(c, Client, Message(ClientHello), Opaque), EnterEarlyData, Flush)
    case EnterEarlyData => Goto(c, ReadServerHello, Ok)
    case ReadServerHello => Expect(c, ServerHello, if p.resumed then ReadSessionTicket else ReadServerCertificate)
    case ReadServerCertificate => DoReadServerCertificate(p, c)
    case ReadCertificateStatus => DoReadCertificateStatus(p, c)
    case VerifyServerCertificate => if p.CertAuth() && retry then c.(wait := Retry) else Goto(c, ReadServerKeyExchange, Ok)
    case ReadServerKeyExchange => DoReadServerKeyExchange(p, c)
    case ReadCertificateRequest => DoReadCertificateRequest(p, c)
    case ReadServerHelloDone => Expect(c, ServerHelloDone, SendClientCertificate)
    case SendClientCertificate =>
      if !c.certRequest then Goto(c, SendClientKeyExchange, Ok)
      else if retry then c.(wait := Retry)
      else Goto(Say(c, Client, Message(Certificate), Chain(p.clientCert)), SendClientKeyExchange, Ok)
    case SendClientKeyExchange => Goto(Say(c, Client, Message(ClientKeyExchange), Opaque), SendClientCertificateVerify, Ok)
    case SendClientCertificateVerify =>
      if !c.certRequest || !p.clientCert then Goto(c, SendClientFinished, Ok)
      else if retry then c.(wait := Retry)
      else Goto(Say(c, Client, Message(CertificateVerify), Opaque), SendClientFinished, Ok)
    case SendClientFinished => if p.channelId && retry then c.(wait := Retry) else DoSendClientFinished(p, c)
    case FinishFlight =>
      if p.resumed then Goto(c, FinishClientHandshake, Ok) else Goto(c, ReadSessionTicket, if p.falseStart then EarlyReturn else Ok)
    case ReadSessionTicket => DoReadSessionTicket(p, c)
    case ProcessChangeCipherSpec => if c.inbox != [] then c.(wait := Error) else Goto(c, ReadServerFinished, Ok).(readEpoch := 1)
    case ReadServerFinished => ExpectFinished(c, if p.resumed then SendClientFinished else FinishClientHandshake)
    case FinishClientHandshake => Goto(c, Done, Ok)
    case Done => c
  }

  // ---------------------------------------------------------------- where a state stands in the conversation

  function Rest(p: Params, state: State, wait: Wait): seq<Token>
  {
    match state
    case StartConnect => Script(p)
    case EnterEarlyData => FromServerHello(p)
    case ReadServerHello => FromServerHello(p)
    case ReadServerCertificate => FromServerCert(p)
    case ReadCertificateStatus => FromStatus(p)
    case VerifyServerCertificate => FromServerKey(p)
    case ReadServerKeyExchange => FromServerKey(p)
    case ReadCertificateRequest => FromRequest(p)
    case ReadServerHelloDone => FromHelloDone(p)
    case SendClientCertificate => FromClientCert(p)
    case SendClientKeyExchange => FromKeyExchange(p)
    case SendClientCertificateVerify => FromVerify(p)
    case SendClientFinished => FromClientEnd(p)
    case FinishFlight => AfterClient(p)
    case ReadSessionTicket => FromServerEnd(p)
    case ProcessChangeCipherSpec => (if wait == ReadCcs then [SERVER_CCS] else []) + ([Secret(Server, Finished)] + AfterServer(p))
    case ReadServerFinished => [Secret(Server, Finished)] + AfterServer(p)
    case FinishClientHandshake => []
    case Done => []
  }

  /** Progress through the states: every turn that does not wait comes closer to the end. */
  function Rank(p: Params, state: State): nat
  {
    match state
    case StartConnect => 19
    case EnterEarlyData => 18
    case ReadServerHello => 17
    case ReadServerCertificate => 16
    case ReadCertificateStatus => 15
    case VerifyServerCertificate => 14
    case ReadServerKeyExchange => 13
    case ReadCertificateRequest => 12
    case ReadServerHelloDone => 11
    case SendClientCertificate => 10
    case SendClientKeyExchange => 9
    case SendClientCertificateVerify => 8
    case SendClientFinished => if p.resumed then 3 else 7
    case FinishFlight => if p.resumed then 2 else 6
    case ReadSessionTicket => if p.resumed then 6 else 5
    case ProcessChangeCipherSpec => if p.resumed then 5 else 4
    case ReadServerFinished => if p.resumed then 4 else 3
    case FinishClientHandshake => 1
    case Done => 0
  }

  /** The cipher for writing changes with this side's ChangeCipherSpec. */
  function WriteEpoch(p: Params, state: State): nat
  {
    match state
    case FinishFlight => 1
    case FinishClientHandshake => 1
    case Done => 1
    case ReadSessionTicket => if p.resumed then 0 else 1
    case ProcessChangeCipherSpec => if p.resumed then 0 else 1
    case ReadServerFinished => if p.resumed then 0 else 1
    case _ => 0
  }

  function ReadEpoch(p: Params, state: State): nat
  {
    match state
    case ReadServerFinished => 1
    case FinishClientHandshake => 1
    case Done => 1
    case SendClientFinished => if p.resumed then 1 else 0
    case FinishFlight => if p.resumed then 1 else 0
    case _ => 0
  }

  /** States in which part of a flight may be waiting to be sent. */
  predicate Sending(state: State)
  {
    state == SendClientKeyExchange || state == SendClientCertificateVerify || state == SendClientFinished
  }

  predicate Flags(p: Params, c: Me)
  {
    match c.state
    case ReadServerHelloDone => c.certRequest == p.CertRequested()
    case SendClientCertificate => c.certRequest == p.CertRequested()
    case SendClientKeyExchange => c.certRequest == p.CertRequested()
    case SendClientCertificateVerify => c.certRequest == p.CertRequested()
    case _ => c.certRequest ==> Rank(p, c.state) < 10
  }

  predicate WaitOk(p: Params, c: Me)
  {
    match c.wait
    case Error => false
    case ReadMessage =>
      var rest := Rest(p, c.state, c.wait);
      c.inbox == [] && c.pending == [] && rest != [] && rest[0].from == Server && rest[0].what.Message? && rest[0].epoch == c.readEpoch
    case ReadCcs => c.state == ProcessChangeCipherSpec && c.pending == []
    case _ => true
  }

  /** States between ServerHello and the client's end of a full handshake. */
  predicate FullOnly(state: State)
  {
    state == ReadServerCertificate || state == ReadCertificateStatus || state == VerifyServerCertificate || state == ReadServerKeyExchange
    || state == ReadCertificateRequest || state == ReadServerHelloDone || state == SendClientCertificate || state == SendClientKeyExchange
    || state == SendClientCertificateVerify
  }

  /** The client has done exactly the beginning of the script that its state stands for. */
  predicate Good(p: Params, c: Me)
  {
    var rest := Rest(p, c.state, c.wait);
    && c.log + rest == Script(p) && Arrived(p, Client, c, rest) && OnlyMessages(c.inbox)
    && c.writeEpoch == WriteEpoch(p, c.state) && c.readEpoch == ReadEpoch(p, c.state)
    && Flags(p, c) && WaitOk(p, c) && (FullOnly(c.state) ==> !p.resumed) && (c.state == ProcessChangeCipherSpec ==> c.inbox == [])
    && (c.pending != [] ==> c.wait == Flush || Sending(c.state)) && (c.wait == Flush ==> c.pending != [])
  }

  /** Sending the last flight. */
  lemma {:induction false} FinishedOnward(p: Params, c: Me)
    requires Arrived(p, Client, c, FromClientEnd(p)) && c.log + FromClientEnd(p) == Script(p) && c.writeEpoch == 0
    ensures Onward(p, Client, c, FromClientEnd(p), DoSendClientFinished(p, c), AfterClient(p))
    ensures DoSendClientFinished(p, c).log + AfterClient(p) == Script(p)
  {
    hide Script, AfterClient, Of, Kinds, Transcript;
    var fin, end := Secret(Client, Finished), AfterClient(p);
    var r3 := [fin] + end;
    var r2 := Opt(p.channelId, Secret(Client, ChannelId)) + r3;
    var r1 := Opt(p.npn, Secret(Client, NextProto)) + r2;
    assert FromClientEnd(p) == [CLIENT_CCS] + r1;
    OptCases(p.npn, Secret(Client, NextProto), r2);
    OptCases(p.channelId, Secret(Client, ChannelId), r3);
    SayOnward(p, Client, c, Ccs, Opaque, r1);
    var c1 := Say(c, Client, Ccs, Opaque).(writeEpoch := 1);
    if p.npn { SayOnward(p, Client, c1, Message(NextProto), Opaque, r2); }
    var c2 := if p.npn then Say(c1, Client, Message(NextProto), Opaque) else c1;
    if p.channelId { SayOnward(p, Client, c2, Message(ChannelId), Opaque, r3); }
    var c3 := if p.channelId then Say(c2, Client, Message(ChannelId), Opaque) else c2;
    assert c3.log + r3 == Script(p);
    RightTranscript(p, Client, c3.log);
    SayOnward(p, Client, c3, Message(Finished), Mac(Kinds(c3.log)), end);
  }

  /** What the server says next while the client does not know what will come. */
  lemma {:induction false} ServerGoesOn(p: Params)
    ensures FromRequest(p) == [if p.CertRequested() then Said(Server, CertificateRequest) else Said(Server, ServerHelloDone)] + FromRequest(p)[1..]
    ensures !p.CertRequested() ==> FromRequest(p) == FromHelloDone(p)
    ensures p.CertRequested() ==> FromRequest(p)[1..] == FromHelloDone(p)
    ensures p.Ske() ==> FromServerKey(p) == [Said(Server, ServerKeyExchange)] + FromRequest(p)
    ensures !p.Ske() ==> FromServerKey(p) == FromRequest(p)
    ensures p.CertAuth() && p.status ==> FromStatus(p) == [Said(Server, CertificateStatus)] + FromServerKey(p)
    ensures !(p.CertAuth() && p.status) ==> FromStatus(p) == FromServerKey(p)
  {
    hide FromClientCert;
    OptCases(p.CertRequested(), Said(Server, CertificateRequest), FromHelloDone(p));
    OptCases(p.Ske(), Said(Server, ServerKeyExchange), FromRequest(p));
    OptCases(p.CertAuth() && p.status, Said(Server, CertificateStatus), FromServerKey(p));
  }

  predicate WorkGood(p: Params, c: Me, retry: bool)
  {
    var d := Work(p, c, retry);
    && Good(p, d) && Arrived(p, Client, c, Rest(p, c.state, c.wait))
    && Onward(p, Client, c, Rest(p, c.state, c.wait), d, Rest(p, d.state, d.wait))
    && ((Rank(p, d.state) < Rank(p, c.state) && |d.inbox| <= |c.inbox| && |d.pending| <= |c.pending| + 4)
        || (d == c.(wait := ReadMessage) && c.inbox == []) || (retry && d == c.(wait := Retry)) || (c.state == Done && d == c))
  }

  lemma {:induction false} HelloOk(p: Params, c: Me, retry: bool)
    requires Good(p, c) && c.wait == Ok && (c.state == StartConnect)
    ensures WorkGood(p, c, retry)
  {
    hide Of, Written, Kinds, Script, AfterClient;
    ScriptStarts(p);
    PlainBodies(p);
    SayOnward(p, Client, c, Message(ClientHello), Opaque, FromServerHello(p));
  }

  lemma {:induction false} CertificateOk(p: Params, c: Me, retry: bool)
    requires Good(p, c) && c.wait == Ok && (c.state == SendClientCertificate)
    ensures WorkGood(p, c, retry)
  {
    hide Of, Written, Kinds, Script, AfterClient;
    OptCases(p.CertRequested(), Said(Client, Certificate), FromKeyExchange(p));
    PlainBodies(p);
    if c.certRequest { SayOnward(p, Client, c, Message(Certificate), Chain(p.clientCert), FromKeyExchange(p)); }
  }

  lemma {:induction false} KeyExchangeOk(p: Params, c: Me, retry: bool)
    requires Good(p, c) && c.wait == Ok && (c.state == SendClientKeyExchange)
    ensures WorkGood(p, c, retry)
  {
    hide Of, Written, Kinds, Script, AfterClient;
    PlainBodies(p);
    SayOnward(p, Client, c, Message(ClientKeyExchange), Opaque, FromVerify(p));
  }

  lemma {:induction false} VerifyOk(p: Params, c: Me, retry: bool)
    requires Good(p, c) && c.wait == Ok && (c.state == SendClientCertificateVerify)
    ensures WorkGood(p, c, retry)
  {
    hide Of, Written, Kinds, Script, AfterClient, FromClientEnd;
    OptCases(p.CertRequested() && p.clientCert, Said(Client, CertificateVerify), FromClientEnd(p));
    PlainBodies(p);
    if c.certRequest && p.clientCert { SayOnward(p, Client, c, Message(CertificateVerify), Opaque, FromClientEnd(p)); }
  }

  lemma {:induction false} FinishedOk(p: Params, c: Me, retry: bool)
    requires Good(p, c) && c.wait == Ok && (c.state == SendClientFinished)
    ensures WorkGood(p, c, retry)
  {
    hide Of, Written, Kinds, Script, AfterClient, FromClientEnd;
    FinishedOnward(p, c);
    FinishedFields(p, c);
  }

  lemma {:induction false} FinishedFields(p: Params, c: Me)
    ensures var d := DoSendClientFinished(p, c);
            && d.state == FinishFlight && d.wait == Flush && d.writeEpoch == 1 && d.readEpoch == c.readEpoch && d.certRequest == c.certRequest
            && d.inbox == c.inbox && 0 < |d.pending| <= |c.pending| + 4
  {}

  lemma {:induction false} ReadHelloOk(p: Params, c: Me, retry: bool)
    requires Good(p, c) && c.wait == Ok && (c.state == ReadServerHello)
    ensures WorkGood(p, c, retry)
  {
    hide Of, Written, Kinds, Script, FromClientCert, FromServerEnd, FromServerCert;
    if c.inbox != [] { Head(p, Client, c, FromServerHello(p)); }
  }

  lemma {:induction false} ReadCertificateOk(p: Params, c: Me, retry: bool)
    requires Good(p, c) && c.wait == Ok && (c.state == ReadServerCertificate)
    ensures WorkGood(p, c, retry)
  {
    hide Of, Written, Kinds, Script, FromClientCert, FromServerEnd, FromStatus;
    PlainBodies(p);
    OptCases(p.CertAuth(), Said(Server, Certificate), FromStatus(p));
    if c.inbox != [] && p.CertAuth() { Head(p, Client, c, FromServerCert(p)); }
  }

  lemma {:induction false} ReadStatusOk(p: Params, c: Me, retry: bool)
    requires Good(p, c) && c.wait == Ok && (c.state == ReadCertificateStatus)
    ensures WorkGood(p, c, retry)
  {
    hide Of, Written, Kinds, Script, FromRequest, FromServerKey, FromStatus, FromHelloDone;
    ServerGoesOn(p);
    if c.inbox != [] { Head(p, Client, c, FromStatus(p)); }
  }

  lemma {:induction false} ReadKeyExchangeOk(p: Params, c: Me, retry: bool)
    requires Good(p, c) && c.wait == Ok && (c.state == ReadServerKeyExchange)
    ensures WorkGood(p, c, retry)
  {
    hide Of, Written, Kinds, Script, FromRequest, FromServerKey, FromStatus, FromHelloDone;
    ServerGoesOn(p);
    if c.inbox != [] { Head(p, Client, c, FromServerKey(p)); }
  }

  lemma {:induction false} ReadRequestOk(p: Params, c: Me, retry: bool)
    requires Good(p, c) && c.wait == Ok && (c.state == ReadCertificateRequest)
    ensures WorkGood(p, c, retry)
  {
    hide Of, Written, Kinds, Script, FromRequest, FromServerKey, FromStatus, FromHelloDone;
    ServerGoesOn(p);
    if c.inbox != [] { Head(p, Client, c, FromRequest(p)); }
  }

  lemma {:induction false} ReadHelloDoneOk(p: Params, c: Me, retry: bool)
    requires Good(p, c) && c.wait == Ok && (c.state == ReadServerHelloDone)
    ensures WorkGood(p, c, retry)
  {
    hide Of, Written, Kinds, Script, FromClientCert;
    if c.inbox != [] { Head(p, Client, c, FromHelloDone(p)); }
  }

  lemma {:induction false} NoTicketOk(p: Params, c: Me, retry: bool)
    requires Good(p, c) && c.wait == Ok && c.state == ReadSessionTicket && !p.ticket
    ensures WorkGood(p, c, retry)
  {
    hide Of, Written, Kinds, Script, Transcript, FromStatus, FromServerCert, FromRequest, FromHelloDone, FromClientCert, FromKeyExchange, FromVerify, ClientEnd, ServerEnd, FromServerHello, FromServerKey, AfterServer, AfterClient, FromServerEnd, FromClientEnd, Onward, Arrived, Outstanding, ToCome;
    ServerEnds(p);
    NothingMore(p, Client, c, SERVER_CCS, [Secret(Server, Finished)] + AfterServer(p));
    WaitOnward(p, Client, c, FromServerEnd(p), ReadCcs);
    GotoOnward(p, Client, c, FromServerEnd(p), c, FromServerEnd(p), ProcessChangeCipherSpec, ReadCcs);
  }

  lemma {:induction false} TicketOk(p: Params, c: Me, retry: bool)
    requires Good(p, c) && c.wait == Ok && c.state == ReadSessionTicket && p.ticket && c.inbox != []
    ensures WorkGood(p, c, retry)
  {
    hide Of, Written, Kinds, Script, Transcript, FromStatus, FromServerCert, FromRequest, FromHelloDone, FromClientCert, FromKeyExchange, FromVerify, ClientEnd, ServerEnd, FromServerHello, FromServerKey, AfterServer, AfterClient, FromServerEnd, FromClientEnd, Onward, Arrived, Outstanding, ToCome;
    ServerEnds(p);
    var r := [Secret(Server, Finished)] + AfterServer(p);
    Head(p, Client, c, FromServerEnd(p));
    assert FromServerEnd(p)[1..] == [SERVER_CCS] + r;
    GotoOnward(p, Client, c, FromServerEnd(p), Take(c), [SERVER_CCS] + r, ProcessChangeCipherSpec, ReadCcs);
    NothingMore(p, Client, Goto(Take(c), ProcessChangeCipherSpec, ReadCcs), SERVER_CCS, r);
  }

  /** The server's Finished is accepted: it protects exactly what the client has seen. */
  lemma {:induction false} FinishedAccepted(p: Params, c: Me, retry: bool)
    requires Good(p, c) && c.wait == Ok && c.state == ReadServerFinished && c.inbox != []
    ensures Work(p, c, retry) == Goto(Take(c), if p.resumed then SendClientFinished else FinishClientHandshake, Ok)
    ensures var rest := [Secret(Server, Finished)] + AfterServer(p);
            Arrived(p, Client, c, rest) && Onward(p, Client, c, rest, Take(c), AfterServer(p)) && c.log + rest == Script(p)
  {
    hide Of, Written, Kinds, Script, Transcript, FromStatus, FromServerCert, FromRequest, FromHelloDone, FromClientCert, FromKeyExchange, FromVerify, ClientEnd, ServerEnd, FromServerHello, FromServerKey, AfterServer, AfterClient, FromServerEnd, FromClientEnd, Onward, Arrived, Outstanding, ToCome;
    var rest := [Secret(Server, Finished)] + AfterServer(p);
    RightTranscript(p, Server, c.log);
    Head(p, Client, c, rest);
    assert rest[1..] == AfterServer(p);
  }

  lemma {:induction false} ReadFinishedOk(p: Params, c: Me, retry: bool)
    requires Good(p, c) && c.wait == Ok && c.state == ReadServerFinished && c.inbox != []
    ensures WorkGood(p, c, retry)
  {
    hide Of, Written, Kinds, Script, Transcript, FromStatus, FromServerCert, FromRequest, FromHelloDone, FromClientCert, FromKeyExchange, FromVerify, ClientEnd, ServerEnd, FromServerHello, FromServerKey, AfterServer, AfterClient, FromServerEnd, FromClientEnd, Onward, Arrived, Outstanding, ToCome, Work;
    ServerEnds(p);
    FinishedAccepted(p, c, retry);
    var rest := [Secret(Server, Finished)] + AfterServer(p);
    var next := if p.resumed then SendClientFinished else FinishClientHandshake;
    assert Rest(p, next, Ok) == AfterServer(p);
    GotoOnward(p, Client, c, rest, Take(c), AfterServer(p), next, Ok);
  }

  /** Waiting for the server's last words. */
  lemma {:induction false} WaitForEndOk(p: Params, c: Me, retry: bool)
    requires Good(p, c) && c.wait == Ok && c.inbox == []
    requires c.state == ReadServerFinished || (c.state == ReadSessionTicket && p.ticket)
    ensures WorkGood(p, c, retry)
  {
    hide Of, Written, Kinds, Script, Transcript, FromStatus, FromServerCert, FromRequest, FromHelloDone, FromClientCert, FromKeyExchange, FromVerify, ClientEnd, ServerEnd, FromServerHello, FromServerKey, AfterServer, AfterClient, FromServerEnd, FromClientEnd, Onward, Arrived, Outstanding, ToCome;
    ServerEnds(p);
    WaitOnward(p, Client, c, Rest(p, c.state, c.wait), ReadMessage);
  }

  /** The states that only move on. */
  lemma {:induction false} MoveOnOk(p: Params, c: Me, retry: bool)
    requires Good(p, c) && c.wait == Ok && (c.state == EnterEarlyData || c.state == VerifyServerCertificate || c.state == FinishClientHandshake || c.state == Done)
    ensures WorkGood(p, c, retry)
  {
    hide Of, Written, Kinds, Script, Transcript, FromStatus, FromServerCert, FromRequest, FromHelloDone, FromClientCert, FromKeyExchange, FromVerify, ClientEnd, ServerEnd, FromServerHello, FromServerKey, FromServerEnd, FromClientEnd, AfterClient, AfterServer;
  }

  lemma {:induction false} TurnOk(p: Params, c: Me, retry: bool)
    requires Good(p, c) && c.wait == Ok && (c.state == FinishFlight || c.state == ProcessChangeCipherSpec)
    ensures WorkGood(p, c, retry)
  {
    hide Of, Written, Kinds, Script, Transcript, FromStatus, FromServerCert, FromRequest, FromHelloDone, FromClientCert, FromKeyExchange, FromVerify, ClientEnd, ServerEnd, FromServerHello, FromServerKey, FromServerEnd, FromClientEnd, AfterClient, AfterServer;
    ServerEnds(p);
    if c.state == ProcessChangeCipherSpec { assert Rest(p, c.state, c.wait) == [Secret(Server, Finished)] + AfterServer(p); }
  }

  /** No turn of the client's loop meets anything unexpected, and each does the next thing of the script. */
  lemma {:induction false} WorkOk(p: Params, c: Me, retry: bool)
    requires Good(p, c) && c.wait == Ok
    ensures WorkGood(p, c, retry)
  {
    hide Good, WorkGood;
    match c.state
    case StartConnect => HelloOk(p, c, retry);
    case ReadServerHello => ReadHelloOk(p, c, retry);
    case ReadServerCertificate => ReadCertificateOk(p, c, retry);
    case ReadCertificateStatus => ReadStatusOk(p, c, retry);
    case ReadServerKeyExchange => ReadKeyExchangeOk(p, c, retry);
    case ReadCertificateRequest => ReadRequestOk(p, c, retry);
    case ReadServerHelloDone => ReadHelloDoneOk(p, c, retry);
    case SendClientCertificate => CertificateOk(p, c, retry);
    case SendClientKeyExchange => KeyExchangeOk(p, c, retry);
    case SendClientCertificateVerify => VerifyOk(p, c, retry);
    case SendClientFinished => FinishedOk(p, c, retry);
    case ReadSessionTicket =>
      if !p.ticket { NoTicketOk(p, c, retry); } else if c.inbox != [] { TicketOk(p, c, retry); } else { WaitForEndOk(p, c, retry); }
    case ReadServerFinished =>
      if c.inbox != [] { ReadFinishedOk(p, c, retry); } else { WaitForEndOk(p, c, retry); }
    case FinishFlight => TurnOk(p, c, retry);
    case ProcessChangeCipherSpec => TurnOk(p, c, retry);
    case _ => MoveOnOk(p, c, retry);
  }

  class Handshake {
    const p: Params
    var me: Me

    constructor (p: Params)
      ensures this.p == p && me == START
    {
      this.p, me := p, START;
    }

    /** ssl_client_handshake: turns of the loop until the machine has to wait or is done. */
    method Drive()
      requires Good(p, me) && me.wait == Ok
      modifies this
      ensures Good(p, me) && (me.wait != Ok || me.state == Done) && Arrived(p, Client, old(me), Rest(p, old(me).state, Ok))
      ensures Onward(p, Client, old(me), Rest(p, old(me).state, Ok), me, Rest(p, me.state, me.wait))
    {
      hide Good, Work, Rest, Onward, Arrived;
      ghost var rest := Rest(p, me.state, Ok);
      GoodArrived(p, me);
      WaitOnward(p, Client, me, rest, Ok);
      while me.state != Done && me.wait == Ok
        invariant Good(p, me) && Onward(p, Client, old(me), rest, me, Rest(p, me.state, me.wait))
        decreases Rank(p, me.state), if me.wait == Ok then 1 else 0
      {
        var retry: bool := *;
        WorkOk(p, me, retry);
        GoodArrived(p, me);
        ghost var next := Work(p, me, retry);
        OnwardTransitive(p, Client, old(me), rest, me, Rest(p, me.state, me.wait), next, Rest(p, next.state, next.wait));
        me := Work(p, me, retry);
      }
    }
  }

  lemma {:induction false} GoodArrived(p: Params, c: Me)
    requires Good(p, c)
    ensures Arrived(p, Client, c, Rest(p, c.state, c.wait))
  {}
}
