/**
  The two ways of running a side agree: all that can happen to it in a handshake with the other machine
  can happen to it with an arbitrary peer, so what is proved of arbitrary peers is about those runs too.
 */
module HandshakeAlone {
  import opened Words
  import opened HandshakeScript
  import opened HandshakeSoundness
  import opened HandshakePair
  import opened HandshakeFlights
  import C = HandshakeClient
  import S = HandshakeServer

  /** The same, but for how much of a flight is left while it is being sent. */
  ghost predicate Alike<T>(me: Peer<T>, other: Peer<T>)
  {
    other == me.(pending := other.pending) && (me.wait != Flush ==> other == me)
  }

  /** One thing said makes one record. */
  function RecordOf(item: Item): Record
  {
    match item.token.what
    case Ccs => CcsRecord(item.token.epoch)
    case Message(kind) => Record.Messages(item.token.epoch, [(kind, item.body)])
  }

  lemma {:induction false} Feeds<T>(me: Peer<T>, from: Side, r: Record)
    requires Reading(me)
    ensures Feed(me, from, r).wait != Flush
  {}

  // ---------------------------------------------------------------- the client

  lemma {:induction false} NextServer(p: Params, w: World)
    requires Inv(p, w) && Reading(w.c) && w.toClient != []
    ensures w.toClient[0].token.from == Server
  {
    hide Of, Script, C.WriteEpoch, C.ReadEpoch, S.Good, C.Rest, Written, Outstanding, ToCome, Arrived;
    ClientAwaits(p, w.c);
    var rest := ClientRest(p, w.c);
    assert [rest[0]] + rest[1..] == rest;
    PullOnward(p, Client, w.c, rest[0], rest[1..], w.toClient + Outstanding(p, Server, w.s, ServerRest(p, w.s)));
  }

  /** What a move does to the client is what at most one input does. */
  lemma {:induction false} ClientMove(p: Params, w: World, m: Move, me: C.Me) returns (inputs: seq<Input>)
    requires Inv(p, w) && Alike(w.c, me)
    ensures |inputs| <= 1
    ensures Alike(Step(p, w, m.side, m.a).c, if inputs == [] then me else React(me, C.Work(p, me, Retrying(inputs[0])), Server, inputs[0]))
  {
    hide Inv, C.Work, S.Work, DoPull, Feed;
    inputs := [];
    if m.side == Client {
      match m.a
      case Turn(retry) => inputs := [Input.Turn(retry)];
      case Push(n) =>
        if w.c.wait == Flush && n >= |w.c.pending| { inputs := [Flushed]; }
      case Pull =>
        if Reading(w.c) && w.toClient != [] {
          NextServer(p, w);
          inputs := [Got(RecordOf(w.toClient[0]))];
          PullIsFeed(w.c, w.toClient[0]);
          Feeds(w.c, Server, RecordOf(w.toClient[0]));
        }
      case Resume => inputs := [Again];
    }
  }

  lemma {:induction false} ClientFollows(p: Params, w: World, moves: seq<Move>, before: seq<Input>) returns (inputs: seq<Input>)
    requires Inv(p, w) && Alike(w.c, RunClient(p, C.START, before))
    ensures Alike(Run(p, w, moves).c, RunClient(p, C.START, inputs))
    decreases |moves|
  {
    hide Inv, Alike, C.Work, Step, React;
    if moves == [] {
      inputs := before;
    } else {
      var more := ClientMove(p, w, moves[0], RunClient(p, C.START, before));
      StepKeepsInv(p, w, moves[0].side, moves[0].a);
      if more == [] {
        inputs := ClientFollows(p, Step(p, w, moves[0].side, moves[0].a), moves[1..], before);
      } else {
        var next := before + more;
        assert next[..|next| - 1] == before && next[|next| - 1] == more[0];
        inputs := ClientFollows(p, Step(p, w, moves[0].side, moves[0].a), moves[1..], next);
      }
    }
  }

  /** Whatever becomes of the client in a handshake with a real server is among what can become of it with an arbitrary peer. */
  lemma {:induction false} ClientAlone(p: Params, moves: seq<Move>) returns (inputs: seq<Input>)
    ensures var (me, alone) := (Run(p, HandshakePair.START, moves).c, RunClient(p, C.START, inputs));
            && alone.state == me.state && alone.wait == me.wait && alone.log == me.log && alone.inbox == me.inbox
            && alone.readEpoch == me.readEpoch && alone.writeEpoch == me.writeEpoch
  {
    hide Inv, Run, C.Work, React;
    StartOk(p);
    inputs := ClientFollows(p, HandshakePair.START, moves, []);
  }

  /** So there is a peer with which the client finishes, and then it has been through the conversation. */
  lemma {:induction false} ClientCanFinish(p: Params) returns (inputs: seq<Input>)
    ensures var alone := RunClient(p, C.START, inputs); alone.state == C.Done && alone.wait != Error && alone.log == Conversation(p)
  {
    hide Inv, RunClient, Step, Script, Conversation;
    var moves := Completes(p, []);
    PairConversation(p, moves);
    NothingUnexpected(p, moves);
    inputs := ClientAlone(p, moves);
  }

  // ---------------------------------------------------------------- the server

  lemma {:induction false} NextClient(p: Params, w: World)
    requires Inv(p, w) && Reading(w.s) && w.toServer != []
    ensures w.toServer[0].token.from == Client
  {
    hide Of, Script, S.WriteEpoch, S.ReadEpoch, C.Good, S.Rest, Written, Outstanding, ToCome, Arrived;
    ServerAwaits(p, w.s);
    var rest := ServerRest(p, w.s);
    assert [rest[0]] + rest[1..] == rest;
    PullOnward(p, Server, w.s, rest[0], rest[1..], w.toServer + Outstanding(p, Client, w.c, ClientRest(p, w.c)));
  }

  /** What a move does to the server is what at most one input does. */
  lemma {:induction false} ServerMove(p: Params, w: World, m: Move, me: S.Me) returns (inputs: seq<Input>)
    requires Inv(p, w) && Alike(w.s, me)
    ensures |inputs| <= 1
    ensures Alike(Step(p, w, m.side, m.a).s, if inputs == [] then me else React(me, S.Work(p, me, Retrying(inputs[0])), Client, inputs[0]))
  {
    hide Inv, S.Work, C.Work, DoPull, Feed;
    inputs := [];
    if m.side == Server {
      match m.a
      case Turn(retry) => inputs := [Input.Turn(retry)];
      case Push(n) =>
        if w.s.wait == Flush && n >= |w.s.pending| { inputs := [Flushed]; }
      case Pull =>
        if Reading(w.s) && w.toServer != [] {
          NextClient(p, w);
          inputs := [Got(RecordOf(w.toServer[0]))];
          PullIsFeed(w.s, w.toServer[0]);
          Feeds(w.s, Client, RecordOf(w.toServer[0]));
        }
      case Resume => inputs := [Again];
    }
  }

  lemma {:induction false} ServerFollows(p: Params, w: World, moves: seq<Move>, before: seq<Input>) returns (inputs: seq<Input>)
    requires Inv(p, w) && Alike(w.s, RunServer(p, S.START, before))
    ensures Alike(Run(p, w, moves).s, RunServer(p, S.START, inputs))
    decreases |moves|
  {
    hide Inv, Alike, S.Work, Step, React;
    if moves == [] {
      inputs := before;
    } else {
      var more := ServerMove(p, w, moves[0], RunServer(p, S.START, before));
      StepKeepsInv(p, w, moves[0].side, moves[0].a);
      if more == [] {
        inputs := ServerFollows(p, Step(p, w, moves[0].side, moves[0].a), moves[1..], before);
      } else {
        var next := before + more;
        assert next[..|next| - 1] == before && next[|next| - 1] == more[0];
        inputs := ServerFollows(p, Step(p, w, moves[0].side, moves[0].a), moves[1..], next);
      }
    }
  }

  /** Whatever becomes of the server in a handshake with a real client is among what can become of it with an arbitrary peer. */
  lemma {:induction false} ServerAlone(p: Params, moves: seq<Move>) returns (inputs: seq<Input>)
    ensures var (me, alone) := (Run(p, HandshakePair.START, moves).s, RunServer(p, S.START, inputs));
            && alone.state == me.state && alone.wait == me.wait && alone.log == me.log && alone.inbox == me.inbox
            && alone.readEpoch == me.readEpoch && alone.writeEpoch == me.writeEpoch
  {
    hide Inv, Run, S.Work, React;
    StartOk(p);
    inputs := ServerFollows(p, HandshakePair.START, moves, []);
  }

  /** So there is a peer with which the server finishes, and then it has been through the conversation. */
  lemma {:induction false} ServerCanFinish(p: Params) returns (inputs: seq<Input>)
    ensures var alone := RunServer(p, S.START, inputs); alone.state == S.Done && alone.wait != Error && alone.log == Conversation(p)
  {
    hide Inv, RunServer, Step, Script, Conversation;
    var moves := Completes(p, []);
    PairConversation(p, moves);
    NothingUnexpected(p, moves);
    inputs := ServerAlone(p, moves);
  }
}
