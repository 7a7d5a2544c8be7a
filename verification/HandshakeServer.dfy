/**
  The server's state machine for TLS 1.0-1.2, one function per turn of its loop, and what each turn
  keeps.
 */
module HandshakeServer {
  import opened Words
  import opened HandshakeScript

  datatype State = StartAccept | ReadClientHello | SelectCertificate | SelectParameters | SendServerHello | SendServerCertificate
                 | SendServerKeyExchange | SendServerHelloDone | ReadClientCertificate | VerifyClientCertificate
                 | ReadClientKeyExchange | ReadClientCertificateVerify | ReadChangeCipherSpec | ProcessChangeCipherSpec
                 | ReadNextProto | ReadChannelId | ReadClientFinished | SendServerFinished | FinishServerHandshake | Done

  type Me = Peer<State>

  const START: Me := Peer(StartAccept, Ok, [], [], [], 0, 0, false, false)

  /** do_read_client_hello leaves the message in place for the states that follow. */
  function DoReadClientHello(s: Me, retry: bool): Me
  {
    if s.inbox == [] then s.(wait := ReadMessage)
    else if !Sees(s, ClientHello) then s.(wait := Error)
    else if retry then s.(wait := Retry)
    else Goto(s, SelectCertificate, Ok)
  }

  /** do_select_certificate does not look at the type again. */
  function DoSelectCertificate(s: Me, retry: bool): Me
  {
    if s.inbox == [] then s.(wait := ReadMessage)
    else if retry then s.(wait := Retry)
    else Goto(s, SelectParameters, Ok)
  }

  /** do_select_parameters */
  function DoSelectParameters(p: Params, s: Me, retry: bool): Me
  {
    if s.inbox == [] then s.(wait := ReadMessage)
    else if retry then s.(wait := Retry)
    else Goto(Take(s), SendServerHello, Ok).(certRequest := p.CertRequested())
  }

  /** do_send_server_certificate */
  function DoSendServerCertificate(p: Params, s: Me): Me
  {
    var s1 := if p.CertAuth() then Say(s, Server, Message(Certificate), Chain(true)) else s;
    var s2 := if p.CertAuth() && p.status then Say(s1, Server, Message(CertificateStatus), Opaque) else s1;
    Goto(s2, SendServerKeyExchange, Ok)
  }

  /** do_send_server_hello_done */
  function DoSendServerHelloDone(s: Me): Me
  {
    var s1 := if s.certRequest then Say(s, Server, Message(CertificateRequest), Opaque) else s;
    Goto(Say(s1, Server, Message(ServerHelloDone), Opaque), ReadClientCertificate, Flush)
  }

  /** do_read_client_certificate: the chain may be empty. */
  function DoReadClientCertificate(s: Me): Me
  {
    if !s.certRequest then Goto(s, VerifyClientCertificate, Ok)
    else if Sees(s, Certificate) then Goto(Take(s), VerifyClientCertificate, Ok).(peerCert := s.inbox[0].body == Chain(true))
    else Expect(s, Certificate, VerifyClientCertificate)
  }

  /** do_send_server_finished */
  function DoSendServerFinished(p: Params, s: Me): Me
  {
    var s1 := if p.ticket then Say(s, Server, Message(NewSessionTicket), Opaque) else s;
    var s2 := Say(s1, Server, Ccs, Opaque).(writeEpoch := 1);
    Goto(SayFinished(s2, Server), if p.resumed then ReadChangeCipherSpec else FinishServerHandshake, Flush)
  }

  /** One turn of the loop of ssl_server_handshake. With `retry` an operation that can wait asks to be called again. */
  function Work(p: Params, s: Me, retry: bool): Me
  {
    match s.state
    case StartAccept => Goto(s, ReadClientHello, Ok)
    case ReadClientHello => DoReadClientHello(s, retry)
    case SelectCertificate => DoSelectCertificate(s, retry)
    case SelectParameters => DoSelectParameters(p, s, retry)
    case SendServerHello =>
      Goto(Say(s, Server, Message(ServerHello), Opaque), if p.resumed then SendServerFinished else SendServerCertificate, Ok)
    case SendServerCertificate => DoSendServerCertificate(p, s)
    case SendServerKeyExchange =>
      if !p.Ske() then Goto(s, SendServerHelloDone, Ok)
      else if p.CertAuth() && retry then s.(wait := Retry)
      else Goto(Say(s, Server, Message(ServerKeyExchange), Opaque), SendServerHelloDone, Ok)
    case SendServerHelloDone => DoSendServerHelloDone(s)
    case ReadClientCertificate => DoReadClientCertificate(s)
    case VerifyClientCertificate => if s.peerCert && retry then s.(wait := Retry) else Goto(s, ReadClientKeyExchange, Ok)
    case ReadClientKeyExchange =>
      if Sees(s, ClientKeyExchange) && p.kx == RSA && retry then s.(wait := Retry)
      else Expect(s, ClientKeyExchange, ReadClientCertificateVerify)
    case ReadClientCertificateVerify =>
      if !s.peerCert then Goto(s, ReadChangeCipherSpec, Ok) else Expect(s, CertificateVerify, ReadChangeCipherSpec)
    case ReadChangeCipherSpec => Goto(s, ProcessChangeCipherSpec, ReadCcs)
    case ProcessChangeCipherSpec => if s.inbox != [] then s.(wait := Error) else Goto(s, ReadNextProto, Ok).(readEpoch := 1)
    case ReadNextProto => if !p.npn then Goto(s, ReadChannelId, Ok) else Expect(s, NextProto, ReadChannelId)
    case ReadChannelId => if !p.channelId then Goto(s, ReadClientFinished, Ok) else Expect(s, ChannelId, ReadClientFinished)
    case ReadClientFinished => ExpectFinished(s, if p.resumed then FinishServerHandshake else SendServerFinished)
    case SendServerFinished => DoSendServerFinished(p, s)
    case FinishServerHandshake => Goto(s, Done, Ok)
    case Done => s
  }

  // ---------------------------------------------------------------- where a state stands in the conversation

  function Rest(p: Params, state: State, wait: Wait): seq<Token>
  {
    match state
    case StartAccept => Script(p)
    case ReadClientHello => Script(p)
    case SelectCertificate => Script(p)
    case SelectParameters => Script(p)
    case SendServerHello => FromServerHello(p)
    case SendServerCertificate => FromServerCert(p)
    case SendServerKeyExchange => FromServerKey(p)
    case SendServerHelloDone => FromRequest(p)
    case ReadClientCertificate => FromClientCert(p)
    case VerifyClientCertificate => FromKeyExchange(p)
    case ReadClientKeyExchange => FromKeyExchange(p)
    case ReadClientCertificateVerify => FromVerify(p)
    case ReadChangeCipherSpec => FromClientEnd(p)
    case ProcessChangeCipherSpec => (if wait == ReadCcs then [CLIENT_CCS] else []) + FromSecrets(p)
    case ReadNextProto => FromSecrets(p)
    case ReadChannelId => FromChannelId(p)
    case ReadClientFinished => [Secret(Client, Finished)] + AfterClient(p)
    case SendServerFinished => FromServerEnd(p)
    case FinishServerHandshake => []
    case Done => []
  }

  function FromChannelId(p: Params): seq<Token>
  {
    Opt(p.channelId, Secret(Client, ChannelId)) + ([Secret(Client, Finished)] + AfterClient(p))
  }

  function FromSecrets(p: Params): seq<Token>
  {
    Opt(p.npn, Secret(Client, NextProto)) + FromChannelId(p)
  }

  /** Progress through the states: every turn that does not wait comes closer to the end. */
  function Rank(p: Params, state: State): nat
  {
    match state
    case StartAccept => 20
    case ReadClientHello => 19
    case SelectCertificate => 18
    case SelectParameters => 17
    case SendServerHello => 16
    case SendServerCertificate => 15
    case SendServerKeyExchange => 14
    case SendServerHelloDone => 13
    case ReadClientCertificate => 12
    case VerifyClientCertificate => 11
    case ReadClientKeyExchange => 10
    case ReadClientCertificateVerify => 9
    case ReadChangeCipherSpec => 7
    case ProcessChangeCipherSpec => 6
    case ReadNextProto => 5
    case ReadChannelId => 4
    case ReadClientFinished => 3
    case SendServerFinished => if p.resumed then 8 else 2
    case FinishServerHandshake => 1
    case Done => 0
  }

  /** The cipher for writing changes with this side's ChangeCipherSpec. */
  function WriteEpoch(p: Params, state: State): nat
  {
    if state == FinishServerHandshake || state == Done || (p.resumed && Rank(p, state) <= 7) then 1 else 0
  }

  function ReadEpoch(p: Params, state: State): nat
  {
    if Rank(p, state) <= 5 then 1 else 0
  }

  /** States in which part of a flight may be waiting to be sent. */
  predicate Sending(state: State)
  {
    state == SendServerCertificate || state == SendServerKeyExchange || state == SendServerHelloDone || state == SendServerFinished
  }

  /** What the server knows about a client certificate. */
  predicate Flags(p: Params, s: Me)
  {
    && (Rank(p, s.state) <= 16 ==> s.certRequest == p.CertRequested())
    && (Rank(p, s.state) >= 12 ==> !s.peerCert)
    && (9 <= Rank(p, s.state) <= 11 ==> s.peerCert == (p.CertRequested() && p.clientCert))
  }

  predicate WaitOk(p: Params, s: Me)
  {
    match s.wait
    case Error => false
    case ReadMessage =>
      var rest := Rest(p, s.state, s.wait);
      s.inbox == [] && s.pending == [] && rest != [] && rest[0].from == Client && rest[0].what.Message? && rest[0].epoch == s.readEpoch
    case ReadCcs => s.state == ProcessChangeCipherSpec && s.pending == []
    case _ => true
  }

  /** States of a full handshake before the client's end of it. */
  predicate FullOnly(p: Params, state: State) { 9 <= Rank(p, state) <= 15 }

  /** The server has done exactly the beginning of the script that its state stands for. */
  predicate Good(p: Params, s: Me)
  {
    var rest := Rest(p, s.state, s.wait);
    && s.log + rest == Script(p) && Arrived(p, Server, s, rest) && OnlyMessages(s.inbox)
    && s.writeEpoch == WriteEpoch(p, s.state) && s.readEpoch == ReadEpoch(p, s.state)
    && Flags(p, s) && WaitOk(p, s) && (FullOnly(p, s.state) ==> !p.resumed) && (s.state == ProcessChangeCipherSpec ==> s.inbox == [])
    && (s.pending != [] ==> s.wait == Flush || Sending(s.state)) && (s.wait == Flush ==> s.pending != [])
  }

  predicate WorkGood(p: Params, s: Me, retry: bool)
  {
    var d := Work(p, s, retry);
    && Good(p, d) && Arrived(p, Server, s, Rest(p, s.state, s.wait))
    && Onward(p, Server, s, Rest(p, s.state, s.wait), d, Rest(p, d.state, d.wait))
    && ((Rank(p, d.state) < Rank(p, s.state) && |d.inbox| <= |s.inbox| && |d.pending| <= |s.pending| + 4)
        || (d == s.(wait := ReadMessage) && s.inbox == []) || (retry && d == s.(wait := Retry)) || (s.state == Done && d == s))
  }

  /** How the client's end of the conversation goes on. */
  lemma {:induction false} ClientEnds(p: Params)
    ensures FromClientEnd(p) == [CLIENT_CCS] + FromSecrets(p)
    ensures FromSecrets(p) == if p.npn then [Secret(Client, NextProto)] + FromChannelId(p) else FromChannelId(p)
    ensures FromChannelId(p) == if p.channelId then [Secret(Client, ChannelId)] + ([Secret(Client, Finished)] + AfterClient(p))
                                else [Secret(Client, Finished)] + AfterClient(p)
  {
    hide AfterClient;
    var end := [Secret(Client, Finished)] + AfterClient(p);
    OptCases(p.channelId, Secret(Client, ChannelId), end);
    OptCases(p.npn, Secret(Client, NextProto), FromChannelId(p));
    Regroup(Opt(p.channelId, Secret(Client, ChannelId)), [Secret(Client, Finished)], AfterClient(p));
    Regroup(Opt(p.npn, Secret(Client, NextProto)), ClientIdPart(p), AfterClient(p));
    Regroup([CLIENT_CCS], ClientSecrets(p), AfterClient(p));
  }

  lemma {:induction false} SayBodies(p: Params)
    ensures Written(p, Said(Server, ServerHello)).body == Opaque && Written(p, Said(Server, Certificate)).body == Chain(true)
    ensures Written(p, Said(Server, CertificateStatus)).body == Opaque && Written(p, Said(Server, ServerKeyExchange)).body == Opaque
    ensures Written(p, Said(Server, CertificateRequest)).body == Opaque && Written(p, Said(Server, ServerHelloDone)).body == Opaque
    ensures Written(p, Said(Server, NewSessionTicket)).body == Opaque && Written(p, SERVER_CCS).body == Opaque
  {}

  lemma {:induction false} ParametersOk(p: Params, s: Me, retry: bool)
    requires Good(p, s) && s.wait == Ok && s.state == SelectParameters
    ensures WorkGood(p, s, retry)
  {
    hide Of, Written, Kinds, Script, Transcript, FromStatus, FromServerCert, FromRequest, FromHelloDone, FromClientCert, FromKeyExchange, FromVerify, ClientEnd, ClientSecrets, ClientIdPart, ServerEnd, FromServerHello, FromServerKey, AfterServer, AfterClient, FromServerEnd, FromClientEnd;
    ScriptStarts(p);
    if s.inbox != [] { Head(p, Server, s, Script(p)); }
  }

  lemma {:induction false} ClientHelloOk(p: Params, s: Me, retry: bool)
    requires Good(p, s) && s.wait == Ok && (s.state == ReadClientHello || s.state == SelectCertificate)
    ensures WorkGood(p, s, retry)
  {
    hide Of, Written, Kinds, Script, Transcript, FromStatus, FromServerCert, FromRequest, FromHelloDone, FromClientCert, FromKeyExchange, FromVerify, ClientEnd, ClientSecrets, ClientIdPart, ServerEnd, FromServerHello, FromServerKey, AfterServer, AfterClient, FromServerEnd, FromClientEnd;
    ScriptStarts(p);
    if s.inbox != [] { Head(p, Server, s, Script(p)); }
  }

  lemma {:induction false} HelloOk(p: Params, s: Me, retry: bool)
    requires Good(p, s) && s.wait == Ok && s.state == SendServerHello
    ensures WorkGood(p, s, retry)
  {
    hide Of, Written, Kinds, Script, Transcript, FromStatus, FromServerCert, FromRequest, FromHelloDone, FromClientCert, FromKeyExchange, FromVerify, ClientEnd, ClientSecrets, ClientIdPart, ServerEnd, FromServerKey, AfterServer, AfterClient, FromServerEnd, FromClientEnd;
    SayBodies(p);
    SayOnward(p, Server, s, Message(ServerHello), Opaque, if p.resumed then FromServerEnd(p) else FromServerCert(p));
  }

  lemma {:induction false} CertificateOk(p: Params, s: Me, retry: bool)
    requires Good(p, s) && s.wait == Ok && s.state == SendServerCertificate
    ensures WorkGood(p, s, retry)
  {
    hide Of, Written, Kinds, Script, Transcript, FromRequest, FromHelloDone, FromClientCert, FromKeyExchange, FromVerify, ClientEnd, ClientSecrets, ClientIdPart, ServerEnd, FromServerHello, FromServerKey, AfterServer, AfterClient, FromServerEnd, FromClientEnd;
    SayBodies(p);
    OptCases(p.CertAuth(), Said(Server, Certificate), FromStatus(p));
    OptCases(p.CertAuth() && p.status, Said(Server, CertificateStatus), FromServerKey(p));
    if p.CertAuth() {
      SayOnward(p, Server, s, Message(Certificate), Chain(true), FromStatus(p));
      if p.status { SayOnward(p, Server, Say(s, Server, Message(Certificate), Chain(true)), Message(CertificateStatus), Opaque, FromServerKey(p)); }
    }
  }

  lemma {:induction false} KeyExchangeOk(p: Params, s: Me, retry: bool)
    requires Good(p, s) && s.wait == Ok && s.state == SendServerKeyExchange
    ensures WorkGood(p, s, retry)
  {
    hide Of, Written, Kinds, Script, Transcript, FromStatus, FromServerCert, FromRequest, FromHelloDone, FromClientCert, FromKeyExchange, FromVerify, ClientEnd, ClientSecrets, ClientIdPart, ServerEnd, FromServerHello, AfterServer, AfterClient, FromServerEnd, FromClientEnd;
    SayBodies(p);
    OptCases(p.Ske(), Said(Server, ServerKeyExchange), FromRequest(p));
    if p.Ske() { SayOnward(p, Server, s, Message(ServerKeyExchange), Opaque, FromRequest(p)); }
  }

  lemma {:induction false} HelloDoneOk(p: Params, s: Me, retry: bool)
    requires Good(p, s) && s.wait == Ok && s.state == SendServerHelloDone
    ensures WorkGood(p, s, retry)
  {
    hide Of, Written, Kinds, Script, Transcript, FromStatus, FromServerCert, FromClientCert, FromKeyExchange, FromVerify, ClientEnd, ClientSecrets, ClientIdPart, ServerEnd, FromServerHello, FromServerKey, AfterServer, AfterClient, FromServerEnd, FromClientEnd;
    SayBodies(p);
    OptCases(p.CertRequested(), Said(Server, CertificateRequest), FromHelloDone(p));
    if s.certRequest { SayOnward(p, Server, s, Message(CertificateRequest), Opaque, FromHelloDone(p)); }
    var s1 := if s.certRequest then Say(s, Server, Message(CertificateRequest), Opaque) else s;
    SayOnward(p, Server, s1, Message(ServerHelloDone), Opaque, FromClientCert(p));
  }

  lemma {:induction false} ReadCertificateOk(p: Params, s: Me, retry: bool)
    requires Good(p, s) && s.wait == Ok && s.state == ReadClientCertificate
    ensures WorkGood(p, s, retry)
  {
    hide Of, Written, Kinds, Script, Transcript, FromStatus, FromServerCert, FromRequest, FromHelloDone, FromKeyExchange, FromVerify, ClientEnd, ClientSecrets, ClientIdPart, ServerEnd, FromServerHello, FromServerKey, AfterServer, AfterClient, FromServerEnd, FromClientEnd;
    PlainBodies(p);
    OptCases(p.CertRequested(), Said(Client, Certificate), FromKeyExchange(p));
    if s.certRequest && s.inbox != [] { Head(p, Server, s, FromClientCert(p)); }
  }

  lemma {:induction false} ReadKeyExchangeOk(p: Params, s: Me, retry: bool)
    requires Good(p, s) && s.wait == Ok && s.state == ReadClientKeyExchange
    ensures WorkGood(p, s, retry)
  {
    hide Of, Written, Kinds, Script, Transcript, FromStatus, FromServerCert, FromRequest, FromHelloDone, FromClientCert, FromVerify, ClientEnd, ClientSecrets, ClientIdPart, ServerEnd, FromServerHello, FromServerKey, AfterServer, AfterClient, FromServerEnd, FromClientEnd;
    if s.inbox != [] { Head(p, Server, s, FromKeyExchange(p)); }
  }

  lemma {:induction false} ReadVerifyOk(p: Params, s: Me, retry: bool)
    requires Good(p, s) && s.wait == Ok && s.state == ReadClientCertificateVerify
    ensures WorkGood(p, s, retry)
  {
    hide Of, Written, Kinds, Script, Transcript, FromStatus, FromServerCert, FromRequest, FromHelloDone, FromClientCert, FromKeyExchange, ClientEnd, ClientSecrets, ClientIdPart, ServerEnd, FromServerHello, FromServerKey, AfterServer, AfterClient, FromServerEnd, FromClientEnd;
    OptCases(p.CertRequested() && p.clientCert, Said(Client, CertificateVerify), FromClientEnd(p));
    if s.peerCert && s.inbox != [] { Head(p, Server, s, FromVerify(p)); }
  }

  lemma {:induction false} ReadCcsOk(p: Params, s: Me, retry: bool)
    requires Good(p, s) && s.wait == Ok && s.state == ReadChangeCipherSpec
    ensures WorkGood(p, s, retry)
  {
    hide Of, Written, Kinds, Script, Transcript, FromStatus, FromServerCert, FromRequest, FromHelloDone, FromClientCert, FromKeyExchange, FromVerify, ClientEnd, ClientSecrets, ClientIdPart, ServerEnd, FromServerHello, FromServerKey, AfterServer, AfterClient, FromServerEnd, FromClientEnd, FromSecrets, FromChannelId;
    ClientEnds(p);
    NothingMore(p, Server, s, CLIENT_CCS, FromSecrets(p));
  }

  lemma {:induction false} ProcessCcsOk(p: Params, s: Me, retry: bool)
    requires Good(p, s) && s.wait == Ok && s.state == ProcessChangeCipherSpec
    ensures WorkGood(p, s, retry)
  {
    hide Of, Written, Kinds, Script, Transcript, FromStatus, FromServerCert, FromRequest, FromHelloDone, FromClientCert, FromKeyExchange, FromVerify, ClientEnd, ClientSecrets, ClientIdPart, ServerEnd, FromServerHello, FromServerKey, AfterServer, AfterClient, FromServerEnd, FromClientEnd, FromSecrets, FromChannelId;
    assert Rest(p, s.state, s.wait) == FromSecrets(p);
  }

  lemma {:induction false} ReadNextProtoOk(p: Params, s: Me, retry: bool)
    requires Good(p, s) && s.wait == Ok && s.state == ReadNextProto
    ensures WorkGood(p, s, retry)
  {
    hide Of, Written, Kinds, Script, Transcript, FromStatus, FromServerCert, FromRequest, FromHelloDone, FromClientCert, FromKeyExchange, FromVerify, ClientEnd, ClientSecrets, ClientIdPart, ServerEnd, FromServerHello, FromServerKey, AfterServer, AfterClient, FromServerEnd, FromClientEnd, FromSecrets, FromChannelId;
    ClientEnds(p);
    if p.npn && s.inbox != [] { Head(p, Server, s, FromSecrets(p)); }
  }

  lemma {:induction false} ReadChannelIdOk(p: Params, s: Me, retry: bool)
    requires Good(p, s) && s.wait == Ok && s.state == ReadChannelId
    ensures WorkGood(p, s, retry)
  {
    hide Of, Written, Kinds, Script, Transcript, FromStatus, FromServerCert, FromRequest, FromHelloDone, FromClientCert, FromKeyExchange, FromVerify, ClientEnd, ClientSecrets, ClientIdPart, ServerEnd, FromServerHello, FromServerKey, AfterServer, AfterClient, FromServerEnd, FromClientEnd, FromSecrets, FromChannelId;
    ClientEnds(p);
    if p.channelId && s.inbox != [] { Head(p, Server, s, FromChannelId(p)); }
  }

  /** The client's Finished is accepted: it protects exactly what the server has seen. */
  lemma {:induction false} FinishedAccepted(p: Params, s: Me, retry: bool)
    requires Good(p, s) && s.wait == Ok && s.state == ReadClientFinished && s.inbox != []
    ensures Work(p, s, retry) == Goto(Take(s), if p.resumed then FinishServerHandshake else SendServerFinished, Ok)
    ensures var rest := [Secret(Client, Finished)] + AfterClient(p);
            Arrived(p, Server, s, rest) && Onward(p, Server, s, rest, Take(s), AfterClient(p)) && s.log + rest == Script(p)
  {
    hide Of, Written, Kinds, Script, Transcript, FromStatus, FromServerCert, FromRequest, FromHelloDone, FromClientCert, FromKeyExchange, FromVerify, ClientEnd, ClientSecrets, ClientIdPart, ServerEnd, FromServerHello, FromServerKey, AfterServer, AfterClient, FromServerEnd, FromClientEnd, Onward, Arrived, Outstanding, ToCome;
    var rest := [Secret(Client, Finished)] + AfterClient(p);
    RightTranscript(p, Client, s.log);
    Head(p, Server, s, rest);
    assert rest[1..] == AfterClient(p);
  }

  lemma {:induction false} ReadFinishedOk(p: Params, s: Me, retry: bool)
    requires Good(p, s) && s.wait == Ok && s.state == ReadClientFinished && s.inbox != []
    ensures WorkGood(p, s, retry)
  {
    hide Of, Written, Kinds, Script, Transcript, FromStatus, FromServerCert, FromRequest, FromHelloDone, FromClientCert, FromKeyExchange, FromVerify, ClientEnd, ClientSecrets, ClientIdPart, ServerEnd, FromServerHello, FromServerKey, AfterServer, AfterClient, FromServerEnd, FromClientEnd, Onward, Arrived, Outstanding, ToCome, Work;
    ServerEnds(p);
    FinishedAccepted(p, s, retry);
    var rest := [Secret(Client, Finished)] + AfterClient(p);
    var next := if p.resumed then FinishServerHandshake else SendServerFinished;
    assert Rest(p, next, Ok) == AfterClient(p);
    GotoOnward(p, Server, s, rest, Take(s), AfterClient(p), next, Ok);
  }

  lemma {:induction false} WaitForFinishedOk(p: Params, s: Me, retry: bool)
    requires Good(p, s) && s.wait == Ok && s.state == ReadClientFinished && s.inbox == []
    ensures WorkGood(p, s, retry)
  {
    hide Of, Written, Kinds, Script, Transcript, FromStatus, FromServerCert, FromRequest, FromHelloDone, FromClientCert, FromKeyExchange, FromVerify, ClientEnd, ClientSecrets, ClientIdPart, ServerEnd, FromServerHello, FromServerKey, AfterServer, AfterClient, FromServerEnd, FromClientEnd, Onward, Arrived, Outstanding, ToCome;
    WaitOnward(p, Server, s, [Secret(Client, Finished)] + AfterClient(p), ReadMessage);
  }

  /** The server's last words. */
  lemma {:induction false} FinishedOnward(p: Params, s: Me)
    requires Arrived(p, Server, s, FromServerEnd(p)) && s.log + FromServerEnd(p) == Script(p) && s.writeEpoch == 0
    ensures Onward(p, Server, s, FromServerEnd(p), DoSendServerFinished(p, s), AfterServer(p))
    ensures DoSendServerFinished(p, s).log + AfterServer(p) == Script(p)
  {
    hide Script, AfterServer, Of, Kinds, Transcript, FromServerEnd, Written;
    ServerEnds(p);
    SayBodies(p);
    var end := [Secret(Server, Finished)] + AfterServer(p);
    var r := [SERVER_CCS] + end;
    if p.ticket { SayOnward(p, Server, s, Message(NewSessionTicket), Opaque, r); }
    var s1 := if p.ticket then Say(s, Server, Message(NewSessionTicket), Opaque) else s;
    SayOnward(p, Server, s1, Ccs, Opaque, end);
    var s2 := Say(s1, Server, Ccs, Opaque).(writeEpoch := 1);
    assert s2.log + end == Script(p);
    RightTranscript(p, Server, s2.log);
    SayOnward(p, Server, s2, Message(Finished), Mac(Kinds(s2.log)), AfterServer(p));
  }

  lemma {:induction false} FinishedFields(p: Params, s: Me)
    ensures var d := DoSendServerFinished(p, s);
            && d.state == (if p.resumed then ReadChangeCipherSpec else FinishServerHandshake) && d.wait == Flush && d.writeEpoch == 1
            && d.readEpoch == s.readEpoch && d.certRequest == s.certRequest && d.peerCert == s.peerCert
            && d.inbox == s.inbox && 0 < |d.pending| <= |s.pending| + 4
  {}

  lemma {:induction false} FinishedOk(p: Params, s: Me, retry: bool)
    requires Good(p, s) && s.wait == Ok && s.state == SendServerFinished
    ensures WorkGood(p, s, retry)
  {
    hide Of, Written, Kinds, Script, Transcript, FromStatus, FromServerCert, FromRequest, FromHelloDone, FromClientCert, FromKeyExchange, FromVerify, ClientEnd, ClientSecrets, ClientIdPart, ServerEnd, FromServerHello, FromServerKey, AfterServer, AfterClient, FromServerEnd, FromClientEnd, DoSendServerFinished;
    ServerEnds(p);
    FinishedOnward(p, s);
    FinishedFields(p, s);
  }

  /** The states that only move on. */
  lemma {:induction false} MoveOnOk(p: Params, s: Me, retry: bool)
    requires Good(p, s) && s.wait == Ok && (s.state == StartAccept || s.state == VerifyClientCertificate || s.state == FinishServerHandshake || s.state == Done)
    ensures WorkGood(p, s, retry)
  {
    hide Of, Written, Kinds, Script, Transcript, FromStatus, FromServerCert, FromRequest, FromHelloDone, FromClientCert, FromKeyExchange, FromVerify, ClientEnd, ClientSecrets, ClientIdPart, ServerEnd, FromServerHello, FromServerKey, AfterServer, AfterClient, FromServerEnd, FromClientEnd;
  }

  /** No turn of the server's loop meets anything unexpected, and each does the next thing of the script. */
  lemma {:induction false} WorkOk(p: Params, s: Me, retry: bool)
    requires Good(p, s) && s.wait == Ok
    ensures WorkGood(p, s, retry)
  {
    hide Good, WorkGood;
    match s.state
    case ReadClientHello => ClientHelloOk(p, s, retry);
    case SelectCertificate => ClientHelloOk(p, s, retry);
    case SelectParameters => ParametersOk(p, s, retry);
    case SendServerHello => HelloOk(p, s, retry);
    case SendServerCertificate => CertificateOk(p, s, retry);
    case SendServerKeyExchange => KeyExchangeOk(p, s, retry);
    case SendServerHelloDone => HelloDoneOk(p, s, retry);
    case ReadClientCertificate => ReadCertificateOk(p, s, retry);
    case ReadClientKeyExchange => ReadKeyExchangeOk(p, s, retry);
    case ReadClientCertificateVerify => ReadVerifyOk(p, s, retry);
    case ReadChangeCipherSpec => ReadCcsOk(p, s, retry);
    case ProcessChangeCipherSpec => ProcessCcsOk(p, s, retry);
    case ReadNextProto => ReadNextProtoOk(p, s, retry);
    case ReadChannelId => ReadChannelIdOk(p, s, retry);
    case ReadClientFinished => if s.inbox != [] { ReadFinishedOk(p, s, retry); } else { WaitForFinishedOk(p, s, retry); }
    case SendServerFinished => FinishedOk(p, s, retry);
    case _ => MoveOnOk(p, s, retry);
  }

  class Handshake {
    const p: Params
    var me: Me

    constructor (p: Params)
      ensures this.p == p && me == START
    {
      this.p, me := p, START;
    }

    /** ssl_server_handshake: turns of the loop until the machine has to wait or is done. */
    method Drive()
      requires Good(p, me) && me.wait == Ok
      modifies this
      ensures Good(p, me) && (me.wait != Ok || me.state == Done) && Arrived(p, Server, old(me), Rest(p, old(me).state, Ok))
      ensures Onward(p, Server, old(me), Rest(p, old(me).state, Ok), me, Rest(p, me.state, me.wait))
    {
      hide Good, Work, Rest, Onward, Arrived;
      ghost var rest := Rest(p, me.state, Ok);
      GoodArrived(p, me);
      WaitOnward(p, Server, me, rest, Ok);
      while me.state != Done && me.wait == Ok
        invariant Good(p, me) && Onward(p, Server, old(me), rest, me, Rest(p, me.state, me.wait))
        decreases Rank(p, me.state), if me.wait == Ok then 1 else 0
      {
        var retry: bool := *;
        WorkOk(p, me, retry);
        GoodArrived(p, me);
        ghost var next := Work(p, me, retry);
        OnwardTransitive(p, Server, old(me), rest, me, Rest(p, me.state, me.wait), next, Rest(p, next.state, next.wait));
        me := Work(p, me, retry);
      }
    }
  }

  lemma {:induction false} GoodArrived(p: Params, c: Me)
    requires Good(p, c)
    ensures Arrived(p, Server, c, Rest(p, c.state, c.wait))
  {}
}
