/**
  Client and server together over a reliable, ordered channel, under any scheduling, with flights that
  leave in parts and operations that ask to be called again: nobody meets anything unexpected, the two
  never both wait, and both finish, having agreed on every message.
 */
module HandshakePair {
  import opened Words
  import opened HandshakeScript
  import C = HandshakeClient
  import S = HandshakeServer

  /** The two sides, and what is on its way between them. */
  datatype World = World(c: C.Me, s: S.Me, toServer: seq<Item>, toClient: seq<Item>)

  /**
    What a side can do: a turn of its state machine, or resolving what it waits for: sending some of its
    flight, reading a record, or being called again.
   */
  datatype Act = Turn(retry: bool) | Push(n: nat) | Pull | Resume

  /** ssl_run_handshake on ssl_hs_flush: the transport takes n of the pending items, or all. */
  function DoPush<T>(me: Peer<T>, n: nat): (Peer<T>, seq<Item>)
  {
    if me.wait != Flush then (me, [])
    else
      var k := if n <= |me.pending| then n else |me.pending|;
      (me.(pending := me.pending[k..], wait := if k == |me.pending| then Ok else Flush), me.pending[..k])
  }

  /** ssl_run_handshake on ssl_hs_read_message and ssl_hs_read_change_cipher_spec: the next record. */
  function DoPull<T>(me: Peer<T>, item: Item): Peer<T>
  {
    if item.token.epoch != me.readEpoch then me.(wait := Error)
    else if me.wait == ReadCcs then
      (if item.token.what == Ccs then me.(wait := Ok, log := me.log + [item.token]) else me.(wait := Error))
    else if item.token.what.Message? then me.(wait := Ok, inbox := me.inbox + [item])
    else me.(wait := Error)
  }

  predicate Reading<T>(me: Peer<T>) { me.wait == ReadMessage || me.wait == ReadCcs }

  function DoResume<T>(me: Peer<T>): Peer<T>
  {
    if me.wait == Retry || me.wait == EarlyReturn then me.(wait := Ok) else me
  }

  function StepClient(p: Params, w: World, a: Act): World
  {
    match a
    case Turn(retry) => if w.c.wait == Ok then w.(c := C.Work(p, w.c, retry)) else w
    case Push(n) => var (c, out) := DoPush(w.c, n); w.(c := c, toServer := w.toServer + out)
    case Pull => if Reading(w.c) && w.toClient != [] then w.(c := DoPull(w.c, w.toClient[0]), toClient := w.toClient[1..]) else w
    case Resume => w.(c := DoResume(w.c))
  }

  function StepServer(p: Params, w: World, a: Act): World
  {
    match a
    case Turn(retry) => if w.s.wait == Ok then w.(s := S.Work(p, w.s, retry)) else w
    case Push(n) => var (s, out) := DoPush(w.s, n); w.(s := s, toClient := w.toClient + out)
    case Pull => if Reading(w.s) && w.toServer != [] then w.(s := DoPull(w.s, w.toServer[0]), toServer := w.toServer[1..]) else w
    case Resume => w.(s := DoResume(w.s))
  }

  function Step(p: Params, w: World, side: Side, a: Act): World
  {
    if side == Client then StepClient(p, w, a) else StepServer(p, w, a)
  }

  const START := World(C.START, S.START, [], [])

  // ---------------------------------------------------------------- the invariant

  function ClientRest(p: Params, c: C.Me): seq<Token> { C.Rest(p, c.state, c.wait) }
  function ServerRest(p: Params, s: S.Me): seq<Token> { S.Rest(p, s.state, s.wait) }

  /** Each side is good, and what each has still to receive is on its way or still to be sent, in this order. */
  predicate Inv(p: Params, w: World)
  {
    && C.Good(p, w.c) && S.Good(p, w.s)
    && ToCome(p, Client, w.c, ClientRest(p, w.c)) == w.toClient + Outstanding(p, Server, w.s, ServerRest(p, w.s))
    && ToCome(p, Server, w.s, ServerRest(p, w.s)) == w.toServer + Outstanding(p, Client, w.c, ClientRest(p, w.c))
  }

  lemma {:induction false} StartOk(p: Params)
    ensures Inv(p, START)
  {
    hide Script, Of;
    assert C.Good(p, C.START) && S.Good(p, S.START) by { NothingArrived(p); }
    var t := Script(p);
    assert Of(p, Server, t)[0..] == [] + ([] + Of(p, Server, t)) && Of(p, Client, t)[0..] == [] + ([] + Of(p, Client, t));
  }

  lemma {:induction false} NothingArrived(p: Params)
    ensures Arrived(p, Client, C.START, Script(p)) && Arrived(p, Server, S.START, Script(p)) && [] + Script(p) == Script(p)
  {}

  /** Sending part of a flight. */
  lemma {:induction false} PushOnward<T>(p: Params, side: Side, me: Peer<T>, rest: seq<Token>, n: nat)
    requires me.wait == Flush && Arrived(p, side, me, rest)
    ensures var (me', out) := DoPush(me, n);
            && Arrived(p, side, me', rest) && ToCome(p, side, me', rest) == ToCome(p, side, me, rest)
            && out + Outstanding(p, side, me', rest) == Outstanding(p, side, me, rest)
  {
    hide Of;
    var k := if n <= |me.pending| then n else |me.pending|;
    assert me.pending[..k] + me.pending[k..] == me.pending;
    assert me.pending[..k] + (me.pending[k..] + Of(p, side, rest)) == me.pending + Of(p, side, rest);
  }

  lemma {:induction false} ClientPush(p: Params, w: World, n: nat)
    requires Inv(p, w) && w.c.wait == Flush
    ensures Inv(p, StepClient(p, w, Push(n)))
  {
    hide Of, Script, C.WriteEpoch, C.ReadEpoch, S.Good, Outstanding, ToCome, Arrived;
    var (c, out) := DoPush(w.c, n);
    var rest := ClientRest(p, w.c);
    PushOnward(p, Client, w.c, rest, n);
    assert C.Rest(p, w.c.state, Ok) == C.Rest(p, w.c.state, Flush);
    assert (w.toServer + out) + Outstanding(p, Client, c, rest) == w.toServer + (out + Outstanding(p, Client, c, rest));
  }

  lemma {:induction false} ServerPush(p: Params, w: World, n: nat)
    requires Inv(p, w) && w.s.wait == Flush
    ensures Inv(p, StepServer(p, w, Push(n)))
  {
    hide Of, Script, S.WriteEpoch, S.ReadEpoch, C.Good, Outstanding, ToCome, Arrived;
    var (s, out) := DoPush(w.s, n);
    var rest := ServerRest(p, w.s);
    PushOnward(p, Server, w.s, rest, n);
    assert S.Rest(p, w.s.state, Ok) == S.Rest(p, w.s.state, Flush);
    assert (w.toClient + out) + Outstanding(p, Server, s, rest) == w.toClient + (out + Outstanding(p, Server, s, rest));
  }

  /** Reading the record that comes next: it is the next thing in the conversation. */
  lemma {:induction false} PullOnward<T>(p: Params, side: Side, me: Peer<T>, t: Token, rest: seq<Token>, coming: seq<Item>)
    requires Arrived(p, side, me, [t] + rest) && me.inbox == [] && t.from == Other(side)
    requires ToCome(p, side, me, [t] + rest) == coming && coming != []
    ensures coming[0] == Written(p, t) && coming[0].token == t
    ensures me.log + ([t] + rest) == (me.log + [t]) + rest && Outstanding(p, side, me, [t] + rest) == Outstanding(p, side, me, rest)
    ensures Of(p, Other(side), rest) == coming[1..] && [coming[0]] <= Of(p, Other(side), [t] + rest)
    ensures Of(p, Other(side), [t] + rest)[1..] == coming[1..]
  {
    hide Of, Written;
    WrittenToken(p, t);
    OfCons(p, side, t, rest); OfCons(p, Other(side), t, rest);
    assert [] + Of(p, side, rest) == Of(p, side, rest);
    assert Of(p, Other(side), [t] + rest)[0..] == Of(p, Other(side), [t] + rest);
    assert me.log + ([t] + rest) == (me.log + [t]) + rest;
  }

  /** The side after reading it. */
  lemma {:induction false} Pulled<T>(p: Params, side: Side, me: Peer<T>, rest: seq<Token>, rest': seq<Token>, coming: seq<Item>)
    requires Arrived(p, side, me, rest) && me.inbox == [] && rest != [] && rest[0].from == Other(side) && rest[0].epoch == me.readEpoch
    requires if me.wait == ReadCcs then rest[0].what == Ccs && rest' == rest[1..] else me.wait == ReadMessage && rest[0].what.Message? && rest' == rest
    requires ToCome(p, side, me, rest) == coming && coming != []
    ensures var d := DoPull(me, coming[0]);
            && d == me.(wait := Ok, inbox := d.inbox, log := d.log) && OnlyMessages(d.inbox) && (me.wait == ReadCcs ==> d.inbox == [])
            && d.log + rest' == me.log + rest && Outstanding(p, side, d, rest') == Outstanding(p, side, me, rest)
            && Arrived(p, side, d, rest') && ToCome(p, side, d, rest') == coming[1..]
  {
    hide Of, Written;
    assert rest == [rest[0]] + rest[1..];
    PullOnward(p, side, me, rest[0], rest[1..], coming);
    var d := DoPull(me, coming[0]);
    assert Of(p, Other(side), rest')[0..] == Of(p, Other(side), rest');
  }

  /** What a waiting client reads next. */
  lemma {:induction false} ClientAwaits(p: Params, c: C.Me)
    requires C.Good(p, c) && Reading(c)
    ensures var rest := ClientRest(p, c);
            && c.inbox == [] && c.pending == [] && rest != [] && rest[0].from == Server && rest == [rest[0]] + rest[1..] && rest[0].epoch == c.readEpoch
            && (c.wait == ReadMessage ==> rest[0].what.Message? && C.Rest(p, c.state, Ok) == rest && c.state != C.ProcessChangeCipherSpec)
            && (c.wait == ReadCcs ==> rest[0].what == Ccs && C.Rest(p, c.state, Ok) == rest[1..])
  {
    hide Script, Of, Arrived, C.Flags, FromStatus, FromServerCert, FromRequest, FromHelloDone, FromClientCert, FromKeyExchange, FromVerify, FromServerHello, FromServerKey, FromServerEnd, FromClientEnd, AfterClient;
    if c.wait == ReadCcs {
      var end := [Secret(Server, Finished)] + AfterServer(p);
      assert ClientRest(p, c) == [SERVER_CCS] + end && C.Rest(p, c.state, Ok) == end;
    }
  }

  lemma {:induction false} SecretsAreSecret(p: Params)
    ensures S.FromSecrets(p) != [] && S.FromSecrets(p)[0].epoch == 1
  {
    hide S.FromSecrets, S.FromChannelId;
    S.ClientEnds(p);
  }

  lemma {:induction false} ServerAwaits(p: Params, s: S.Me)
    requires S.Good(p, s) && Reading(s)
    ensures var rest := ServerRest(p, s);
            && s.inbox == [] && s.pending == [] && rest != [] && rest[0].from == Client && rest == [rest[0]] + rest[1..] && rest[0].epoch == s.readEpoch
            && (s.wait == ReadMessage ==> rest[0].what.Message? && S.Rest(p, s.state, Ok) == rest && s.state != S.ProcessChangeCipherSpec)
            && (s.wait == ReadCcs ==> rest[0].what == Ccs && S.Rest(p, s.state, Ok) == rest[1..])
  {
    hide Script, Of, Arrived, S.FromSecrets, S.FromChannelId, S.Flags, FromStatus, FromServerCert, FromRequest, FromHelloDone, FromClientCert, FromKeyExchange, FromVerify, FromServerHello, FromServerKey, FromServerEnd, FromClientEnd, AfterClient, AfterServer;
    SecretsAreSecret(p);
    if s.wait == ReadCcs {
      assert ServerRest(p, s) == [CLIENT_CCS] + S.FromSecrets(p) && S.Rest(p, s.state, Ok) == S.FromSecrets(p);
    }
  }

  lemma {:induction false} ClientPull(p: Params, w: World)
    requires Inv(p, w) && Reading(w.c) && w.toClient != []
    ensures Inv(p, StepClient(p, w, Pull))
  {
    hide Of, Script, C.WriteEpoch, C.ReadEpoch, S.Good, C.Rest, Written, Outstanding, ToCome, Arrived, DoPull;
    ClientAwaits(p, w.c);
    var rest, sent := ClientRest(p, w.c), Outstanding(p, Server, w.s, ServerRest(p, w.s));
    var coming := w.toClient + sent;
    Pulled(p, Client, w.c, rest, C.Rest(p, w.c.state, Ok), coming);
    assert coming[0] == w.toClient[0] && coming[1..] == w.toClient[1..] + sent;
  }

  lemma {:induction false} ServerPull(p: Params, w: World)
    requires Inv(p, w) && Reading(w.s) && w.toServer != []
    ensures Inv(p, StepServer(p, w, Pull))
  {
    hide Of, Script, S.WriteEpoch, S.ReadEpoch, C.Good, S.Rest, Written, Outstanding, ToCome, Arrived, DoPull;
    ServerAwaits(p, w.s);
    var rest, sent := ServerRest(p, w.s), Outstanding(p, Client, w.c, ClientRest(p, w.c));
    var coming := w.toServer + sent;
    Pulled(p, Server, w.s, rest, S.Rest(p, w.s.state, Ok), coming);
    assert coming[0] == w.toServer[0] && coming[1..] == w.toServer[1..] + sent;
  }

  lemma {:induction false} ClientTurn(p: Params, w: World, retry: bool)
    requires Inv(p, w) && w.c.wait == Ok
    ensures Inv(p, StepClient(p, w, Turn(retry)))
  {
    hide Of, Script, C.Good, S.Good, C.Rest, S.Rest, C.Work, Outstanding, ToCome, Arrived;
    C.WorkOk(p, w.c, retry);
    ClientArrived(p, w.c); ServerArrived(p, w.s);
  }

  lemma {:induction false} ServerTurn(p: Params, w: World, retry: bool)
    requires Inv(p, w) && w.s.wait == Ok
    ensures Inv(p, StepServer(p, w, Turn(retry)))
  {
    hide Of, Script, C.Good, S.Good, C.Rest, S.Rest, S.Work, Outstanding, ToCome, Arrived;
    S.WorkOk(p, w.s, retry);
    ClientArrived(p, w.c); ServerArrived(p, w.s);
  }

  lemma {:induction false} ClientArrived(p: Params, c: C.Me)
    requires C.Good(p, c)
    ensures Arrived(p, Client, c, ClientRest(p, c)) && c.wait != Error
  {}

  lemma {:induction false} ServerArrived(p: Params, s: S.Me)
    requires S.Good(p, s)
    ensures Arrived(p, Server, s, ServerRest(p, s)) && s.wait != Error
  {}

  lemma {:induction false} ClientResume(p: Params, w: World)
    requires Inv(p, w)
    ensures Inv(p, StepClient(p, w, Resume))
  {
    hide Of, Script, S.Good, C.WriteEpoch, C.ReadEpoch;
    assert w.c.wait == Retry || w.c.wait == EarlyReturn ==> C.Rest(p, w.c.state, w.c.wait) == C.Rest(p, w.c.state, Ok);
    if DoResume(w.c) != w.c { WaitOnward(p, Client, w.c, ClientRest(p, w.c), Ok); }
  }

  lemma {:induction false} ServerResume(p: Params, w: World)
    requires Inv(p, w)
    ensures Inv(p, StepServer(p, w, Resume))
  {
    hide Of, Script, C.Good, S.WriteEpoch, S.ReadEpoch;
    assert w.s.wait == Retry || w.s.wait == EarlyReturn ==> S.Rest(p, w.s.state, w.s.wait) == S.Rest(p, w.s.state, Ok);
    if DoResume(w.s) != w.s { WaitOnward(p, Server, w.s, ServerRest(p, w.s), Ok); }
  }

  /** Whatever either side does next, both stay on the script. */
  lemma {:induction false} StepKeepsInv(p: Params, w: World, side: Side, a: Act)
    requires Inv(p, w)
    ensures Inv(p, Step(p, w, side, a))
  {
    hide Inv, C.Work, S.Work, DoPull;
    match a
    case Turn(retry) =>
      if side == Client && w.c.wait == Ok { ClientTurn(p, w, retry); }
      if side == Server && w.s.wait == Ok { ServerTurn(p, w, retry); }
    case Push(n) =>
      if side == Client && w.c.wait == Flush { ClientPush(p, w, n); }
      if side == Server && w.s.wait == Flush { ServerPush(p, w, n); }
      assert w.toServer + [] == w.toServer && w.toClient + [] == w.toClient;
    case Pull =>
      if side == Client && Reading(w.c) && w.toClient != [] { ClientPull(p, w); }
      if side == Server && Reading(w.s) && w.toServer != [] { ServerPull(p, w); }
    case Resume => ClientResume(p, w); ServerResume(p, w);
  }

  // ---------------------------------------------------------------- whole runs

  datatype Move = Move(side: Side, a: Act)

  function Run(p: Params, w: World, moves: seq<Move>): World
    decreases |moves|
  {
    if moves == [] then w else Run(p, Step(p, w, moves[0].side, moves[0].a), moves[1..])
  }

  /**
    Under any scheduling, with any flight sent in any parts and any number of retries, neither side ever fails:
    no message of the wrong type, no record of the wrong kind or epoch, no wrong Finished, no data left over
    when the keys change.
   */
  lemma {:induction false} NothingUnexpected(p: Params, moves: seq<Move>)
    ensures Run(p, START, moves).c.wait != Error && Run(p, START, moves).s.wait != Error
  {
    hide Inv, Step;
    AlwaysInv(p, moves);
    NoError(p, Run(p, START, moves));
  }

  lemma {:induction false} AlwaysInv(p: Params, moves: seq<Move>)
    ensures Inv(p, Run(p, START, moves))
  {
    hide Inv, Step;
    StartOk(p);
    RunKeepsInv(p, START, moves);
  }

  lemma {:induction false} NoError(p: Params, w: World)
    requires Inv(p, w)
    ensures w.c.wait != Error && w.s.wait != Error
  {}

  lemma {:induction false} RunKeepsInv(p: Params, w: World, moves: seq<Move>)
    requires Inv(p, w)
    ensures Inv(p, Run(p, w, moves))
    decreases |moves|
  {
    hide Inv, Step;
    if moves != [] {
      StepKeepsInv(p, w, moves[0].side, moves[0].a);
      RunKeepsInv(p, Step(p, w, moves[0].side, moves[0].a), moves[1..]);
    }
  }

  // ---------------------------------------------------------------- the two never both wait

  predicate BothDone(w: World) { w.c.state == C.Done && w.s.state == S.Done }

  /** Every conversation is what the client says and what the server says. */
  lemma {:induction false} TwoSides(p: Params, ts: seq<Token>)
    ensures |Of(p, Client, ts)| + |Of(p, Server, ts)| == |ts|
    decreases |ts|
  {
    if ts != [] { TwoSides(p, ts[1..]); }
  }

  /** Two ends of the same conversation that leave equally much are the same. */
  lemma {:induction false} SameEnd(a: seq<Token>, x: seq<Token>, b: seq<Token>, y: seq<Token>)
    requires a + x == b + y && |x| == |y|
    ensures x == y
  {
    assert x == (a + x)[|a|..] && y == (b + y)[|b|..];
  }

  /** With nothing on its way, the two sides stand at the same point. */
  lemma {:induction false} SamePoint(p: Params, w: World)
    requires Inv(p, w) && w.toClient == [] && w.toServer == [] && w.c.inbox == [] && w.s.inbox == [] && w.c.pending == [] && w.s.pending == []
    ensures ClientRest(p, w.c) == ServerRest(p, w.s)
  {
    hide Of, Script, C.Rest, S.Rest, C.Flags, S.Flags, C.WaitOk, S.WaitOk;
    var x, y := ClientRest(p, w.c), ServerRest(p, w.s);
    assert Of(p, Server, x)[0..] == Of(p, Server, x) && Of(p, Client, y)[0..] == Of(p, Client, y);
    assert [] + ([] + Of(p, Server, y)) == Of(p, Server, y) && [] + ([] + Of(p, Client, x)) == Of(p, Client, x);
    TwoSides(p, x); TwoSides(p, y);
    SameEnd(w.c.log, x, w.s.log, y);
  }

  /** A side that waits for the other and has nothing to read. */
  predicate Blocked<T>(me: Peer<T>, incoming: seq<Item>) { Reading(me) && incoming == [] }

  /** With nothing more to come, nothing has arrived and nothing is on its way. */
  lemma {:induction false} NothingToCome<T>(p: Params, side: Side, me: Peer<T>, onTheWay: seq<Item>, pending: seq<Item>, later: seq<Item>)
    requires Arrived(p, side, me, []) && ToCome(p, side, me, []) == onTheWay + (pending + later)
    ensures me.inbox == [] && onTheWay == [] && pending == []
  {
    assert Of(p, Other(side), []) == [];
    assert |onTheWay + (pending + later)| == |onTheWay| + |pending| + |later|;
  }

  lemma {:induction false} ClientDone(p: Params, c: C.Me)
    requires C.Good(p, c) && c.state == C.Done && c.wait == Ok
    ensures ClientRest(p, c) == [] && c.pending == [] && Arrived(p, Client, c, [])
  {}

  lemma {:induction false} ServerDone(p: Params, s: S.Me)
    requires S.Good(p, s) && s.state == S.Done && s.wait == Ok
    ensures ServerRest(p, s) == [] && s.pending == [] && Arrived(p, Server, s, [])
  {}

  /** A side that is done has nothing left, and nothing is on its way to it. */
  lemma {:induction false} ClientQuiet(p: Params, w: World)
    requires Inv(p, w) && w.c.state == C.Done && w.c.wait == Ok
    ensures w.c.inbox == [] && w.c.pending == [] && w.toClient == [] && w.s.pending == [] && ClientRest(p, w.c) == []
  {
    hide Script, C.Good, S.Good, C.Rest, S.Rest, Of, Arrived, ToCome;
    ClientDone(p, w.c);
    NothingToCome(p, Client, w.c, w.toClient, w.s.pending, Of(p, Server, ServerRest(p, w.s)));
  }

  lemma {:induction false} ServerQuiet(p: Params, w: World)
    requires Inv(p, w) && w.s.state == S.Done && w.s.wait == Ok
    ensures w.s.inbox == [] && w.s.pending == [] && w.toServer == [] && w.c.pending == [] && ServerRest(p, w.s) == []
  {
    hide Script, C.Good, S.Good, C.Rest, S.Rest, Of, Arrived, ToCome;
    ServerDone(p, w.s);
    NothingToCome(p, Server, w.s, w.toServer, w.c.pending, Of(p, Client, ClientRest(p, w.c)));
  }

  predicate Idle<T(==)>(me: Peer<T>, done: T, incoming: seq<Item>) { (me.state == done && me.wait == Ok) || Blocked(me, incoming) }

  /** Unless both are done, somebody can go on: the two never both wait for each other, or for one that is done. */
  lemma {:induction false} NeverBothIdle(p: Params, w: World)
    requires Inv(p, w) && Idle(w.c, C.Done, w.toClient) && Idle(w.s, S.Done, w.toServer)
    ensures BothDone(w)
  {
    hide Inv, Of, Script;
    GoodSides(p, w);
    if Blocked(w.c, w.toClient) { ClientAwaits(p, w.c); } else { ClientQuiet(p, w); }
    if Blocked(w.s, w.toServer) { ServerAwaits(p, w.s); } else { ServerQuiet(p, w); }
    if !BothDone(w) { SamePoint(p, w); }
  }

  lemma {:induction false} GoodSides(p: Params, w: World)
    requires Inv(p, w)
    ensures C.Good(p, w.c) && S.Good(p, w.s)
  {}

  // ---------------------------------------------------------------- and so both finish

  function WaitWeight(wait: Wait): nat
  {
    match wait
    case Ok => 1
    case Retry => 2
    case EarlyReturn => 2
    case _ => 0
  }

  function PeerWeight<T>(me: Peer<T>): nat { WaitWeight(me.wait) + 6 * |me.pending| + 2 * |me.inbox| }

  /** How far the handshake is from its end. */
  function Distance(p: Params, w: World): nat
  {
    100 * (C.Rank(p, w.c.state) + S.Rank(p, w.s.state)) + PeerWeight(w.c) + PeerWeight(w.s) + 4 * |w.toServer| + 4 * |w.toClient|
  }

  /** An operation that asks to be called again. */
  predicate Retries(p: Params, w: World, side: Side, a: Act)
  {
    a == Turn(true) && if side == Client then Step(p, w, side, a).c.wait == Retry else Step(p, w, side, a).s.wait == Retry
  }

  predicate Closer(p: Params, w: World, v: World) { v == w || Distance(p, v) < Distance(p, w) }

  lemma {:induction false} PushCounts(p: Params, w: World, side: Side, n: nat)
    requires Inv(p, w)
    ensures Closer(p, w, Step(p, w, side, Push(n)))
  {
    hide Inv, Of, Script, C.Work, S.Work, C.Good, S.Good, C.Rank, S.Rank;
    GoodSides(p, w);
    ClientFlush(p, w.c); ServerFlush(p, w.s);
    assert w.toServer + [] == w.toServer && w.toClient + [] == w.toClient && w.c.pending[0..] == w.c.pending && w.s.pending[0..] == w.s.pending;
  }

  lemma {:induction false} PullCounts(p: Params, w: World, side: Side)
    requires Inv(p, w)
    ensures Closer(p, w, Step(p, w, side, Pull))
  {
    hide Inv, Of, Script, C.Work, S.Work, C.Good, S.Good, C.Rank, S.Rank;
    StepKeepsInv(p, w, side, Pull);
    NoError(p, Step(p, w, side, Pull));
  }

  /** Whatever is done that is not a retry brings the end closer, or changes nothing. */
  lemma {:induction false} StepCounts(p: Params, w: World, side: Side, a: Act)
    requires Inv(p, w)
    ensures Closer(p, w, Step(p, w, side, a)) || (Retries(p, w, side, a) && Distance(p, Step(p, w, side, a)) <= Distance(p, w) + 1)
  {
    hide Inv, Of, Script, C.Work, S.Work, C.Good, S.Good, C.Rank, S.Rank, C.WorkGood, S.WorkGood;
    GoodSides(p, w);
    match a
    case Turn(retry) =>
      if side == Client && w.c.wait == Ok { C.WorkOk(p, w.c, retry); WeighClient(p, w, retry); }
      if side == Server && w.s.wait == Ok { S.WorkOk(p, w.s, retry); WeighServer(p, w, retry); }
    case Push(n) => PushCounts(p, w, side, n);
    case Pull => PullCounts(p, w, side);
    case Resume =>
  }

  lemma {:induction false} ClientFlush(p: Params, c: C.Me)
    requires C.Good(p, c)
    ensures c.wait == Flush ==> c.pending != []
  {}

  lemma {:induction false} ServerFlush(p: Params, s: S.Me)
    requires S.Good(p, s)
    ensures s.wait == Flush ==> s.pending != []
  {}

  lemma {:induction false} WeighClient(p: Params, w: World, retry: bool)
    requires w.c.wait == Ok && C.WorkGood(p, w.c, retry)
    ensures var v := StepClient(p, w, Turn(retry));
            v == w || Distance(p, v) < Distance(p, w) || (retry && v.c.wait == Retry && Distance(p, v) <= Distance(p, w) + 1)
  {
    hide C.Work, C.Good, C.Rank, S.Rank, Of, Onward, Arrived;
    var d := C.Work(p, w.c, retry);
    assert PeerWeight(d) <= PeerWeight(w.c) + 25 || |d.pending| > |w.c.pending| + 4 || |d.inbox| > |w.c.inbox|;
  }

  lemma {:induction false} WeighServer(p: Params, w: World, retry: bool)
    requires w.s.wait == Ok && S.WorkGood(p, w.s, retry)
    ensures var v := StepServer(p, w, Turn(retry));
            v == w || Distance(p, v) < Distance(p, w) || (retry && v.s.wait == Retry && Distance(p, v) <= Distance(p, w) + 1)
  {
    hide S.Work, S.Good, C.Rank, S.Rank, Of, Onward, Arrived;
    var d := S.Work(p, w.s, retry);
    assert PeerWeight(d) <= PeerWeight(w.s) + 25 || |d.pending| > |w.s.pending| + 4 || |d.inbox| > |w.s.inbox|;
  }

  /** What a side that is not idle can do next. */
  function NextAct<T>(me: Peer<T>): Act
  {
    match me.wait
    case Ok => Turn(false)
    case Flush => Push(|me.pending|)
    case ReadMessage => Pull
    case ReadCcs => Pull
    case _ => Resume
  }

  lemma {:induction false} ClientTurnMoves(p: Params, c: C.Me)
    requires C.Good(p, c) && c.wait == Ok && c.state != C.Done
    ensures C.Work(p, c, false) != c
  {
    hide C.Good, C.Rank, Onward, Arrived;
    C.WorkOk(p, c, false);
  }

  lemma {:induction false} ClientGoesOn(p: Params, w: World)
    requires Inv(p, w) && !Idle(w.c, C.Done, w.toClient)
    ensures Step(p, w, Client, NextAct(w.c)) != w && !Retries(p, w, Client, NextAct(w.c))
  {
    hide Inv, C.Work, C.Good, DoPull;
    GoodSides(p, w);
    NoError(p, w);
    ClientFlush(p, w.c);
    if w.c.wait == Ok { ClientTurnMoves(p, w.c); }
  }

  lemma {:induction false} ServerTurnMoves(p: Params, s: S.Me)
    requires S.Good(p, s) && s.wait == Ok && s.state != S.Done
    ensures S.Work(p, s, false) != s
  {
    hide S.Good, S.Rank, Onward, Arrived;
    S.WorkOk(p, s, false);
  }

  lemma {:induction false} ServerGoesOn(p: Params, w: World)
    requires Inv(p, w) && !Idle(w.s, S.Done, w.toServer)
    ensures Step(p, w, Server, NextAct(w.s)) != w && !Retries(p, w, Server, NextAct(w.s))
  {
    hide Inv, S.Work, S.Good, DoPull;
    GoodSides(p, w);
    NoError(p, w);
    ServerFlush(p, w.s);
    if w.s.wait == Ok { ServerTurnMoves(p, w.s); }
  }

  lemma {:induction false} CompletesFrom(p: Params, w: World) returns (moves: seq<Move>)
    requires Inv(p, w)
    ensures BothDone(Run(p, w, moves)) && |moves| <= Distance(p, w)
    decreases Distance(p, w)
  {
    hide Inv, Step, Distance, Idle, Retries;
    if BothDone(w) {
      moves := [];
    } else {
      NotIdle(p, w);
      var m := if Idle(w.c, C.Done, w.toClient) then Move(Server, NextAct(w.s)) else Move(Client, NextAct(w.c));
      StepCounts(p, w, m.side, m.a);
      StepKeepsInv(p, w, m.side, m.a);
      var rest := CompletesFrom(p, Step(p, w, m.side, m.a));
      moves := [m] + rest;
      assert moves[0] == m && moves[1..] == rest;
    }
  }

  /** Whatever has happened so far, the two can go on and finish. */
  lemma {:induction false} Completes(p: Params, moves: seq<Move>) returns (more: seq<Move>)
    ensures BothDone(Run(p, Run(p, START, moves), more))
  {
    hide Inv, Run;
    AlwaysInv(p, moves);
    more := CompletesFrom(p, Run(p, START, moves));
  }

  /** Unless both are done there is a move that is not a retry and changes something: the two never both wait. */
  lemma {:induction false} NeverStuck(p: Params, moves: seq<Move>)
    requires !BothDone(Run(p, START, moves))
    ensures var w := Run(p, START, moves);
            exists m: Move :: Step(p, w, m.side, m.a) != w && !Retries(p, w, m.side, m.a)
  {
    hide Inv, Run, Step, Retries, Idle;
    AlwaysInv(p, moves);
    NotIdle(p, Run(p, START, moves));
  }

  lemma {:induction false} NotIdle(p: Params, w: World)
    requires Inv(p, w) && !BothDone(w)
    ensures var m := if Idle(w.c, C.Done, w.toClient) then Move(Server, NextAct(w.s)) else Move(Client, NextAct(w.c));
            Step(p, w, m.side, m.a) != w && !Retries(p, w, m.side, m.a)
  {
    hide Inv, Step, Idle, Retries;
    if Idle(w.c, C.Done, w.toClient) {
      if Idle(w.s, S.Done, w.toServer) { NeverBothIdle(p, w); }
      ServerGoesOn(p, w);
    } else {
      ClientGoesOn(p, w);
    }
  }

  /** The moves of a run that changed something, not counting retries; and the retries. */
  function Effective(p: Params, w: World, moves: seq<Move>): nat
    decreases |moves|
  {
    if moves == [] then 0
    else
      var v := Step(p, w, moves[0].side, moves[0].a);
      (if v != w && !Retries(p, w, moves[0].side, moves[0].a) then 1 else 0) + Effective(p, v, moves[1..])
  }

  function RetryCount(p: Params, w: World, moves: seq<Move>): nat
    decreases |moves|
  {
    if moves == [] then 0
    else (if Retries(p, w, moves[0].side, moves[0].a) then 1 else 0) + RetryCount(p, Step(p, w, moves[0].side, moves[0].a), moves[1..])
  }

  /** So every run ends: it has at most 3902 moves that change something, and one more for each retry. */
  lemma {:induction false} RunsEnd(p: Params, moves: seq<Move>)
    ensures Effective(p, START, moves) <= 3902 + RetryCount(p, START, moves)
  {
    hide Inv, Step, Run, Effective, RetryCount;
    StartOk(p);
    BoundedRuns(p, START, moves);
    StartDistance(p);
  }

  /** How often an operation could have asked to be called again. */
  function AskedAgain(moves: seq<Move>): nat
  {
    if moves == [] then 0 else (if moves[0].a == Turn(true) then 1 else 0) + AskedAgain(moves[1..])
  }

  lemma {:induction false} EachCounts(p: Params, w: World, moves: seq<Move>)
    requires forall i :: 0 <= i < |moves| ==> Run(p, w, moves[..i + 1]) != Run(p, w, moves[..i])
    ensures Effective(p, w, moves) + AskedAgain(moves) >= |moves| && RetryCount(p, w, moves) <= AskedAgain(moves)
    decreases |moves|
  {
    hide Step;
    if moves != [] {
      var v := Step(p, w, moves[0].side, moves[0].a);
      forall i | 0 <= i <= |moves[1..]| ensures Run(p, v, moves[1..][..i]) == Run(p, w, moves[..i + 1]) {
        assert moves[..i + 1][1..] == moves[1..][..i];
      }
      assert moves[..0] == [] && moves[..1][1..] == [];
      forall i | 0 <= i < |moves[1..]| ensures Run(p, v, moves[1..][..i + 1]) != Run(p, v, moves[1..][..i]) {
        assert Run(p, w, moves[..i + 2]) != Run(p, w, moves[..i + 1]);
      }
      EachCounts(p, v, moves[1..]);
    }
  }

  /** No run in which every move changes something is long, unless operations keep asking to be called again. */
  lemma {:induction false} RunsAreShort(p: Params, moves: seq<Move>)
    requires forall i :: 0 <= i < |moves| ==> Run(p, START, moves[..i + 1]) != Run(p, START, moves[..i])
    ensures |moves| <= 3902 + 2 * AskedAgain(moves)
  {
    hide Run, Effective, RetryCount;
    EachCounts(p, START, moves);
    RunsEnd(p, moves);
  }

  lemma {:induction false} StartDistance(p: Params)
    ensures Distance(p, START) == 3902
  {}

  lemma {:induction false} BoundedRuns(p: Params, w: World, moves: seq<Move>)
    requires Inv(p, w)
    ensures Effective(p, w, moves) + Distance(p, Run(p, w, moves)) <= Distance(p, w) + RetryCount(p, w, moves)
    decreases |moves|
  {
    hide Inv, Step, Distance, Retries;
    if moves != [] {
      StepCounts(p, w, moves[0].side, moves[0].a);
      StepKeepsInv(p, w, moves[0].side, moves[0].a);
      BoundedRuns(p, Step(p, w, moves[0].side, moves[0].a), moves[1..]);
    }
  }

  function Count(ts: seq<Token>, t: Token): nat
  {
    if ts == [] then 0 else (if ts[0] == t then 1 else 0) + Count(ts[1..], t)
  }

  lemma {:induction false} CountOpt(b: bool, x: Token, rest: seq<Token>, t: Token)
    ensures Count(Opt(b, x) + rest, t) == (if b && x == t then 1 else 0) + Count(rest, t)
  {
    if b { assert ([x] + rest)[1..] == rest; } else { assert [] + rest == rest; }
  }

  lemma {:induction false} CountClientEnd(p: Params, rest: seq<Token>, t: Token)
    ensures Count(ClientEnd(p) + rest, t)
            == Count(rest, t) + (if t == CLIENT_CCS || t == Secret(Client, Finished) || (p.npn && t == Secret(Client, NextProto)) || (p.channelId && t == Secret(Client, ChannelId)) then 1 else 0)
  {
    hide Count;
    var end := [Secret(Client, Finished)] + rest;
    Regroup([CLIENT_CCS], ClientSecrets(p), rest);
    Regroup(Opt(p.npn, Secret(Client, NextProto)), ClientIdPart(p), rest);
    Regroup(Opt(p.channelId, Secret(Client, ChannelId)), [Secret(Client, Finished)], rest);
    CountOpt(true, CLIENT_CCS, ClientSecrets(p) + rest, t);
    CountOpt(p.npn, Secret(Client, NextProto), ClientIdPart(p) + rest, t);
    CountOpt(p.channelId, Secret(Client, ChannelId), end, t);
    CountOpt(true, Secret(Client, Finished), rest, t);
  }

  lemma {:induction false} CountServerEnd(p: Params, rest: seq<Token>, t: Token)
    ensures Count(ServerEnd(p) + rest, t)
            == Count(rest, t) + (if t == SERVER_CCS || t == Secret(Server, Finished) || (p.ticket && t == Said(Server, NewSessionTicket)) then 1 else 0)
  {
    hide Count;
    Regroup(Opt(p.ticket, Said(Server, NewSessionTicket)), ServerSecrets(), rest);
    Regroup([SERVER_CCS], [Secret(Server, Finished)], rest);
    CountOpt(p.ticket, Said(Server, NewSessionTicket), ServerSecrets() + rest, t);
    CountOpt(true, SERVER_CCS, [Secret(Server, Finished)] + rest, t);
    CountOpt(true, Secret(Server, Finished), rest, t);
  }

  /** The script has one Finished from each side, and one change of keys. */
  lemma {:induction false} OneFinished(p: Params, t: Token)
    requires t == Secret(Client, Finished) || t == Secret(Server, Finished) || t == CLIENT_CCS || t == SERVER_CCS
    ensures Count(Script(p), t) == 1
  {
    hide Count, ClientEnd, ServerEnd;
    CountOpt(true, Said(Client, ClientHello), FromServerHello(p), t);
    CountOpt(true, Said(Server, ServerHello), if p.resumed then FromServerEnd(p) else FromServerCert(p), t);
    CountOpt(p.CertAuth(), Said(Server, Certificate), FromStatus(p), t);
    CountOpt(p.CertAuth() && p.status, Said(Server, CertificateStatus), FromServerKey(p), t);
    CountOpt(p.Ske(), Said(Server, ServerKeyExchange), FromRequest(p), t);
    CountOpt(p.CertRequested(), Said(Server, CertificateRequest), FromHelloDone(p), t);
    CountOpt(true, Said(Server, ServerHelloDone), FromClientCert(p), t);
    CountOpt(p.CertRequested(), Said(Client, Certificate), FromKeyExchange(p), t);
    CountOpt(true, Said(Client, ClientKeyExchange), FromVerify(p), t);
    CountOpt(p.CertRequested() && p.clientCert, Said(Client, CertificateVerify), FromClientEnd(p), t);
    CountClientEnd(p, AfterClient(p), t); CountServerEnd(p, AfterServer(p), t);
    CountClientEnd(p, [], t); CountServerEnd(p, [], t);
    assert ClientEnd(p) + [] == ClientEnd(p) && ServerEnd(p) + [] == ServerEnd(p);
    assert Count([], t) == 0 by { CountNothing(t); }
  }

  lemma {:induction false} CountNothing(t: Token)
    ensures Count([], t) == 0
  {}

  /**
    When both are done, both have been through the whole script: the same messages in the same order, with
    one Finished from each side, sent once and verified once by the other.
   */
  lemma {:induction false} Agreement(p: Params, moves: seq<Move>)
    requires BothDone(Run(p, START, moves))
    ensures var w := Run(p, START, moves);
            && w.c.log == w.s.log == Script(p) && w.c.readEpoch == w.c.writeEpoch == w.s.readEpoch == w.s.writeEpoch == 1
            && Count(w.c.log, Secret(Client, Finished)) == 1 && Count(w.s.log, Secret(Server, Finished)) == 1
  {
    hide Script, Run, Inv, Count;
    AlwaysInv(p, moves);
    var w := Run(p, START, moves);
    DoneMeans(p, w);
    OneFinished(p, Secret(Client, Finished));
    OneFinished(p, Secret(Server, Finished));
  }

  lemma {:induction false} DoneMeans(p: Params, w: World)
    requires Inv(p, w) && BothDone(w)
    ensures w.c.log == w.s.log == Script(p) && w.c.readEpoch == w.c.writeEpoch == w.s.readEpoch == w.s.writeEpoch == 1
  {
    hide Script, Of;
    GoodSides(p, w);
    assert w.c.log + [] == w.c.log && w.s.log + [] == w.s.log;
  }
}
