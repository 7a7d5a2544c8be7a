/**
  The handshake transport over a network that loses, duplicates and reorders records: what the
  receiver hands up is what was sent, in order and once (sections 4.2.2 and 4.2.3 of RFC 6347).
 */
module DtlsTransport {
  import opened Words
  import opened DtlsFragment
  import opened DtlsReassembly
  import opened DtlsReceiver

  datatype Message = Message(typ: nat, body: bytes)

  /** What the network may bring: one record of fragments, or the handshake asking for the next message. */
  datatype Event = Arrive(fs: seq<Fragment>) | Take

  /** `up` is what was handed to the handshake; `alive` is cleared by the first record in error. */
  datatype State = State(r: Receiver, up: seq<Message>, alive: bool)

  /** The sender's messages, numbered from 0 with 16 bits. */
  predicate Sendable(msgs: seq<Message>)
  {
    |msgs| < U16 && forall k :: 0 <= k < |msgs| ==> msgs[k].typ < U8 && |msgs[k].body| < U24
  }

  /** A piece of one of the messages, whatever the MTU that cut it. */
  predicate Genuine(msgs: seq<Message>, f: Fragment)
  {
    && f.num < |msgs| && f.typ == msgs[f.num].typ && f.len == |msgs[f.num].body|
    && f.off + |f.body| <= f.len && f.body == msgs[f.num].body[f.off..f.off + |f.body|]
  }

  predicate AllGenuine(msgs: seq<Message>, fs: seq<Fragment>)
  {
    forall i :: 0 <= i < |fs| ==> Genuine(msgs, fs[i])
  }

  function Plaintext(fs: seq<Fragment>): bytes
    requires forall i :: 0 <= i < |fs| ==> fs[i].Wire()
  {
    if fs == [] then [] else Serialize(fs[0]) + Plaintext(fs[1..])
  }

  /** The fragments fit their headers; nothing else is asked of them. */
  predicate OnWire(e: Event)
  {
    e.Arrive? ==> forall i :: 0 <= i < |e.fs| ==> e.fs[i].Wire()
  }

  /** What comes in: the plaintext of a handshake record of some epoch, or the handshake asking for the next message. */
  datatype Input = Record(plaintext: bytes, epoch: nat) | Asked

  ghost function Feed(s: State, i: Input, maxLen: nat): (after: State)
    requires |s.r.slots| == SSL_MAX_HANDSHAKE_FLIGHT
    ensures |after.r.slots| == SSL_MAX_HANDSHAKE_FLIGHT
  {
    match i
    case Record(plaintext, epoch) =>
      if !s.alive then s
      else
        var (r, why) := AcceptRecord(s.r, plaintext, epoch, maxLen);
        State(r, s.up, why.None?)
    case Asked =>
      if CurrentComplete(s.r) then
        var m := Slot(s.r, s.r.readSeq).value;
        State(Next(s.r), s.up + [Message(m.typ, Body(m))], s.alive)
      else s
  }

  ghost function FeedAll(s: State, inputs: seq<Input>, maxLen: nat): (after: State)
    requires |s.r.slots| == SSL_MAX_HANDSHAKE_FLIGHT
    ensures |after.r.slots| == SSL_MAX_HANDSHAKE_FLIGHT
    decreases |inputs|
  {
    if inputs == [] then s else FeedAll(Feed(s, inputs[0], maxLen), inputs[1..], maxLen)
  }

  function Incoming(e: Event): Input
    requires OnWire(e)
  {
    if e.Arrive? then Record(Plaintext(e.fs), 0) else Asked
  }

  ghost function Step(s: State, e: Event, maxLen: nat): (after: State)
    requires |s.r.slots| == SSL_MAX_HANDSHAKE_FLIGHT && OnWire(e)
    ensures |after.r.slots| == SSL_MAX_HANDSHAKE_FLIGHT
  {
    Feed(s, Incoming(e), maxLen)
  }

  /** Nothing but pieces of the sender's messages arrives. */
  predicate Plausible(msgs: seq<Message>, es: seq<Event>)
  {
    forall i :: 0 <= i < |es| && es[i].Arrive? ==> AllGenuine(msgs, es[i].fs)
  }

  /** What the receiver holds agrees with what was sent. */
  ghost predicate Agrees(msgs: seq<Message>, r: Receiver)
  {
    RingOk(r) && forall k :: 0 <= k < SSL_MAX_HANDSHAKE_FLIGHT ==> SlotAgrees(msgs, r.slots[k])
  }

  ghost predicate SlotAgrees(msgs: seq<Message>, slot: Option<Partial>)
  {
    slot.Some? ==>
      var m := slot.value;
      && m.num < |msgs| && m.typ == msgs[m.num].typ && m.len == |msgs[m.num].body|
      && forall p :: p in m.content ==> p < m.len && m.content[p] == msgs[m.num].body[p]
  }

  ghost predicate Inv(msgs: seq<Message>, s: State)
  {
    Agrees(msgs, s.r) && s.r.readSeq == |s.up| && s.up <= msgs
  }

  // ---------------------------------------------------------------- one fragment, one record, one event

  /** A genuine fragment is turned down exactly when it is the eighth of the window or too long. */
  lemma {:induction false} GenuineAccepted(msgs: seq<Message>, r: Receiver, f: Fragment, maxLen: nat)
    requires Sendable(msgs) && Agrees(msgs, r) && Genuine(msgs, f)
    ensures Accept(r, f, 0, maxLen).Rejected? <==> f.len > maxLen || f.num == r.readSeq + 7
    ensures Accept(r, f, 0, maxLen).Accepted? ==> Agrees(msgs, Accept(r, f, 0, maxLen).r)
  {
    hide Piece;
    var k := f.num % SSL_MAX_HANDSHAKE_FLIGHT;
    assert SlotAgrees(msgs, r.slots[k]);
    if r.readSeq <= f.num < r.readSeq + SSL_MAX_HANDSHAKE_FLIGHT && r.slots[k].Some? { SlotIsMessage(r, f.num); }
    if Accept(r, f, 0, maxLen).Accepted? {
      AcceptKeepsRing(r, f, 0, maxLen);
      var after := Accept(r, f, 0, maxLen).r;
      if after != r {
        assert after.slots == r.slots[k := after.slots[k]];
        assert SlotAgrees(msgs, after.slots[k]);
      }
    }
  }

  lemma {:induction false} RecordUnfolds(r: Receiver, fs: seq<Fragment>, maxLen: nat)
    requires |r.slots| == SSL_MAX_HANDSHAKE_FLIGHT && fs != [] && forall i :: 0 <= i < |fs| ==> fs[i].Wire()
    ensures AcceptRecord(r, Plaintext(fs), 0, maxLen) ==
            match Accept(r, fs[0], 0, maxLen)
            case Rejected(why) => (r, Some(why))
            case Accepted(r') => AcceptRecord(r', Plaintext(fs[1..]), 0, maxLen)
  {
    hide Parse, Serialize, Accept;
    ParseInverts(fs[0], Plaintext(fs[1..]));
    assert Plaintext(fs) != [] by { SerializeNotEmpty(fs[0]); }
  }

  lemma {:induction false} SerializeNotEmpty(f: Fragment)
    requires f.Wire()
    ensures |Serialize(f)| >= DTLS1_HM_HEADER_LENGTH
  {}

  lemma {:induction false} GenuineWire(msgs: seq<Message>, fs: seq<Fragment>)
    requires Sendable(msgs) && AllGenuine(msgs, fs)
    ensures forall i :: 0 <= i < |fs| ==> fs[i].Wire()
  {
    forall i | 0 <= i < |fs| ensures fs[i].Wire() { assert Genuine(msgs, fs[i]); }
  }

  lemma {:induction false} RecordKeepsAgreement(msgs: seq<Message>, r: Receiver, fs: seq<Fragment>, maxLen: nat)
    requires Sendable(msgs) && Agrees(msgs, r) && AllGenuine(msgs, fs) && forall i :: 0 <= i < |fs| ==> fs[i].Wire()
    ensures |r.slots| == SSL_MAX_HANDSHAKE_FLIGHT && Agrees(msgs, AcceptRecord(r, Plaintext(fs), 0, maxLen).0)
    decreases |fs|
  {
    hide Accept, Agrees, Plaintext;
    if fs == [] { RingOfAgreement(msgs, r); PlaintextEmpty(); EmptyRecord(r, maxLen); return; }
    RingOfAgreement(msgs, r);
    RecordUnfolds(r, fs, maxLen);
    assert Genuine(msgs, fs[0]);
    GenuineAccepted(msgs, r, fs[0], maxLen);
    if Accept(r, fs[0], 0, maxLen).Accepted? {
      RecordKeepsAgreement(msgs, Accept(r, fs[0], 0, maxLen).r, fs[1..], maxLen);
    }
  }

  lemma {:induction false} PlaintextEmpty()
    ensures Plaintext([]) == []
  {}

  lemma {:induction false} RingOfAgreement(msgs: seq<Message>, r: Receiver)
    requires Agrees(msgs, r)
    ensures RingOk(r) && |r.slots| == SSL_MAX_HANDSHAKE_FLIGHT
  {}

  /** Every event of the network or the handshake keeps the agreement between the two ends. */
  lemma {:induction false} StepKeepsInv(msgs: seq<Message>, s: State, e: Event, maxLen: nat)
    requires Sendable(msgs) && Inv(msgs, s) && OnWire(e) && (e.Arrive? ==> AllGenuine(msgs, e.fs))
    ensures Inv(msgs, Step(s, e, maxLen))
    ensures s.up <= Step(s, e, maxLen).up
  {
    match e
    case Arrive(fs) =>
      RecordKeepsAgreement(msgs, s.r, fs, maxLen);
    case Take =>
      if CurrentComplete(s.r) { TakeKeepsInv(msgs, s, maxLen); }
  }

  lemma {:induction false} TakeKeepsInv(msgs: seq<Message>, s: State, maxLen: nat)
    requires Sendable(msgs) && Inv(msgs, s) && CurrentComplete(s.r)
    ensures |s.up| < |msgs| && Inv(msgs, Step(s, Take, maxLen)) && Step(s, Take, maxLen).up == s.up + [msgs[|s.up|]]
  {
    var k := s.r.readSeq % SSL_MAX_HANDSHAKE_FLIGHT;
    assert SlotAgrees(msgs, s.r.slots[k]);
    SlotIsMessage(s.r, s.r.readSeq);
    NextKeepsRing(s.r);
    var m := Slot(s.r, s.r.readSeq).value;
    assert Body(m) == msgs[m.num].body;
    assert Next(s.r).slots == s.r.slots[k := None];
  }

  // ---------------------------------------------------------------- whole runs

  ghost function Run(s: State, es: seq<Event>, maxLen: nat): (after: State)
    requires |s.r.slots| == SSL_MAX_HANDSHAKE_FLIGHT && forall i :: 0 <= i < |es| ==> OnWire(es[i])
    ensures |after.r.slots| == SSL_MAX_HANDSHAKE_FLIGHT
    decreases |es|
  {
    if es == [] then s else Run(Step(s, es[0], maxLen), es[1..], maxLen)
  }

  lemma {:induction false} GenuineEvents(msgs: seq<Message>, es: seq<Event>)
    requires Sendable(msgs) && Plausible(msgs, es)
    ensures forall i :: 0 <= i < |es| ==> OnWire(es[i])
  {
    forall i | 0 <= i < |es| ensures OnWire(es[i]) { if es[i].Arrive? { GenuineWire(msgs, es[i].fs); } }
  }

  const START := State(EMPTY, [], true)

  /**
    Whatever bytes the records consist of, and of whatever epochs they are, after every run the ring invariant
    holds, and the read sequence has counted the messages that were handed up.
   */
  lemma {:induction false} RingAlwaysOk(s: State, inputs: seq<Input>, maxLen: nat)
    requires RingOk(s.r)
    ensures RingOk(FeedAll(s, inputs, maxLen).r)
    ensures s.up <= FeedAll(s, inputs, maxLen).up
    ensures FeedAll(s, inputs, maxLen).r.readSeq == (s.r.readSeq + |FeedAll(s, inputs, maxLen).up| - |s.up|) % U16
    decreases |inputs|
  {
    hide RingOk, Feed;
    RingSlots(s.r);
    if inputs != [] {
      FeedKeepsRing(s, inputs[0], maxLen);
      var t := Feed(s, inputs[0], maxLen);
      RingAlwaysOk(t, inputs[1..], maxLen);
      CountedOn(s.r.readSeq + |t.up| - |s.up|, |FeedAll(s, inputs, maxLen).up| - |t.up|);
    } else {
      ReadSeqSmall(s.r);
    }
  }

  lemma {:induction false} CountedOn(a: nat, b: nat)
    ensures (a % U16 + b) % U16 == (a + b) % U16
  {}

  lemma {:induction false} ReadSeqSmall(r: Receiver)
    requires RingOk(r)
    ensures r.readSeq % U16 == r.readSeq
  {}

  lemma {:induction false} FeedKeepsRing(s: State, i: Input, maxLen: nat)
    requires RingOk(s.r)
    ensures RingOk(Feed(s, i, maxLen).r) && s.up <= Feed(s, i, maxLen).up
    ensures Feed(s, i, maxLen).r.readSeq == (s.r.readSeq + |Feed(s, i, maxLen).up| - |s.up|) % U16
  {
    RingSlots(s.r);
    if i.Record? { RecordKeepsRing(s.r, i.plaintext, i.epoch, maxLen); } else { NextKeepsRing(s.r); }
  }

  /** After an error no record is looked at any more; the handshake can still ask for what is complete. */
  lemma {:induction false} NothingAfterError(s: State, inputs: seq<Input>, maxLen: nat)
    requires |s.r.slots| == SSL_MAX_HANDSHAKE_FLIGHT && !s.alive && forall i :: 0 <= i < |inputs| ==> inputs[i].Record?
    ensures FeedAll(s, inputs, maxLen) == s
    decreases |inputs|
  {
    if inputs != [] { NothingAfterError(s, inputs[1..], maxLen); }
  }

  /** A record in which something is wrong ends the connection, and what stands before it in the record is kept. */
  lemma {:induction false} RecordIsFed(s: State, plaintext: bytes, epoch: nat, maxLen: nat)
    requires |s.r.slots| == SSL_MAX_HANDSHAKE_FLIGHT && s.alive
    ensures var t := FeedAll(s, [Record(plaintext, epoch)], maxLen);
            && t.up == s.up && (t.alive <==> AcceptRecord(s.r, plaintext, epoch, maxLen).1.None?)
            && t.r == AcceptRecord(s.r, plaintext, epoch, maxLen).0
  {
    hide AcceptRecord;
    assert [Record(plaintext, epoch)][1..] == [];
  }

  /** A run of genuine records is a run of raw ones. */
  lemma {:induction false} RunIsFeedAll(s: State, es: seq<Event>, inputs: seq<Input>, maxLen: nat)
    requires |s.r.slots| == SSL_MAX_HANDSHAKE_FLIGHT && |inputs| == |es|
    requires forall i :: 0 <= i < |es| ==> OnWire(es[i]) && inputs[i] == Incoming(es[i])
    ensures Run(s, es, maxLen) == FeedAll(s, inputs, maxLen)
    decreases |es|
  {
    hide Feed, Incoming;
    if es != [] { RunIsFeedAll(Step(s, es[0], maxLen), es[1..], inputs[1..], maxLen); }
  }

  lemma {:induction false} RingSlots(r: Receiver)
    requires RingOk(r)
    ensures |r.slots| == SSL_MAX_HANDSHAKE_FLIGHT
  {}

  lemma {:induction false} RunKeepsInv(msgs: seq<Message>, s: State, es: seq<Event>, maxLen: nat)
    requires Sendable(msgs) && Inv(msgs, s) && Plausible(msgs, es) && forall i :: 0 <= i < |es| ==> OnWire(es[i])
    ensures Inv(msgs, Run(s, es, maxLen)) && s.up <= Run(s, es, maxLen).up
    decreases |es|
  {
    hide Step, Agrees;
    RingOfAgreement(msgs, s.r);
    if es != [] {
      StepKeepsInv(msgs, s, es[0], maxLen);
      RunKeepsInv(msgs, Step(s, es[0], maxLen), es[1..], maxLen);
    }
  }

  /**
    Safety: however records are lost, repeated and reordered, and however the messages were cut, what was
    handed up is the beginning of what was sent, each message once, in order and byte for byte.
   */
  lemma {:induction false} OnlySentMessagesHandedUp(msgs: seq<Message>, es: seq<Event>, maxLen: nat)
    requires Sendable(msgs) && Plausible(msgs, es)
    ensures forall i :: 0 <= i < |es| ==> OnWire(es[i])
    ensures Run(START, es, maxLen).up <= msgs
  {
    GenuineEvents(msgs, es);
    RunKeepsInv(msgs, START, es, maxLen);
  }

  // ---------------------------------------------------------------- a flight that has arrived

  /** The body positions of message `num` that have arrived; None when not even an empty piece has. */
  type Got = Option<set<nat>>

  function Join(a: Got, b: Got): Got
  {
    if a.None? then b else if b.None? then a else Some(a.value + b.value)
  }

  function GotFrom(f: Fragment, num: nat): Got
  {
    if f.num == num then Some(Range(f.off, f.off + |f.body|)) else None
  }

  function GotIn(fs: seq<Fragment>, num: nat): Got
  {
    if fs == [] then None else Join(GotFrom(fs[0], num), GotIn(fs[1..], num))
  }

  function GotBy(es: seq<Event>, num: nat): Got
  {
    if es == [] then None else Join(if es[0].Arrive? then GotIn(es[0].fs, num) else None, GotBy(es[1..], num))
  }

  /** The slot of a message still wanted holds exactly what has arrived of it. */
  ghost predicate Exact(r: Receiver, num: nat, g: Got)
    requires |r.slots| == SSL_MAX_HANDSHAKE_FLIGHT
  {
    num < r.readSeq || match g
                       case None => Slot(r, num).None?
                       case Some(ps) => Slot(r, num).Some? && Slot(r, num).value.content.Keys == ps
  }

  /** Pieces of the messages before `b`, none longer than the receiver takes. */
  predicate Within(fs: seq<Fragment>, b: nat, maxLen: nat)
  {
    forall i :: 0 <= i < |fs| ==> fs[i].num < b && fs[i].len <= maxLen
  }

  lemma {:induction false} FragmentExact(msgs: seq<Message>, r: Receiver, f: Fragment, maxLen: nat, b: nat, num: nat, g: Got)
    requires Sendable(msgs) && Agrees(msgs, r) && Genuine(msgs, f) && f.len <= maxLen
    requires f.num < b <= r.readSeq + SSL_MAX_HANDSHAKE_FLIGHT && num < b && Exact(r, num, g)
    ensures Accept(r, f, 0, maxLen).Accepted? && Agrees(msgs, Accept(r, f, 0, maxLen).r)
    ensures Exact(Accept(r, f, 0, maxLen).r, num, Join(g, GotFrom(f, num)))
  {
    hide Agrees, Merge;
    RingOfAgreement(msgs, r);
    GenuineAccepted(msgs, r, f, maxLen);
    if r.readSeq <= num && f.num == num { MergeExact(msgs, r, f, g); }
  }

  lemma {:induction false} MergeExact(msgs: seq<Message>, r: Receiver, f: Fragment, g: Got)
    requires Agrees(msgs, r) && Genuine(msgs, f) && r.readSeq <= f.num < r.readSeq + SSL_MAX_HANDSHAKE_FLIGHT && Exact(r, f.num, g)
    ensures var slot := Slot(r, f.num);
            var m := if slot.Some? then slot.value else Partial(f.typ, f.num, f.len, map[]);
            Some(Merge(m, f).content.Keys) == Join(g, GotFrom(f, f.num))
  {
    var k := f.num % SSL_MAX_HANDSHAKE_FLIGHT;
    assert SlotAgrees(msgs, r.slots[k]);
    if g.Some? {
      SlotIsMessage(r, f.num);
      var m := Slot(r, f.num).value;
      if m.Complete() { assert g.value + Range(f.off, f.off + |f.body|) == g.value; }
      else { assert (m.content + Piece(f.off, f.body)).Keys == m.content.Keys + Piece(f.off, f.body).Keys; }
    } else {
      var m := Partial(f.typ, f.num, f.len, map[]);
      if f.len > 0 { assert !m.Complete() by { assert 0 !in m.content; } }
      assert (m.content + Piece(f.off, f.body)).Keys == Range(f.off, f.off + |f.body|);
      if f.len == 0 { assert Range(f.off, f.off + |f.body|) == {}; }
    }
  }

  lemma {:induction false} RecordExact(msgs: seq<Message>, r: Receiver, fs: seq<Fragment>, maxLen: nat, b: nat, num: nat, g: Got)
    requires Sendable(msgs) && Agrees(msgs, r) && AllGenuine(msgs, fs) && Within(fs, b, maxLen) && forall i :: 0 <= i < |fs| ==> fs[i].Wire()
    requires num < b <= r.readSeq + SSL_MAX_HANDSHAKE_FLIGHT && Exact(r, num, g)
    ensures AcceptRecord(r, Plaintext(fs), 0, maxLen).1.None?
    ensures Exact(AcceptRecord(r, Plaintext(fs), 0, maxLen).0, num, Join(g, GotIn(fs, num)))
    decreases |fs|
  {
    hide Accept, Agrees, Exact, Plaintext, AcceptRecord;
    RingOfAgreement(msgs, r);
    if fs == [] { PlaintextEmpty(); EmptyRecord(r, maxLen); return; }
    RecordUnfolds(r, fs, maxLen);
    assert Genuine(msgs, fs[0]);
    FragmentExact(msgs, r, fs[0], maxLen, b, num, g);
    RecordExact(msgs, Accept(r, fs[0], 0, maxLen).r, fs[1..], maxLen, b, num, Join(g, GotFrom(fs[0], num)));
    JoinAssociative(g, GotFrom(fs[0], num), GotIn(fs[1..], num));
  }

  lemma {:induction false} EmptyRecord(r: Receiver, maxLen: nat)
    requires |r.slots| == SSL_MAX_HANDSHAKE_FLIGHT
    ensures AcceptRecord(r, [], 0, maxLen) == (r, None)
  {}

  lemma {:induction false} JoinAssociative(a: Got, b: Got, c: Got)
    ensures Join(Join(a, b), c) == Join(a, Join(b, c))
  {
    if a.Some? && b.Some? && c.Some? { assert (a.value + b.value) + c.value == a.value + (b.value + c.value); }
  }

  predicate FlightOnly(es: seq<Event>, b: nat, maxLen: nat)
  {
    forall i :: 0 <= i < |es| && es[i].Arrive? ==> Within(es[i].fs, b, maxLen)
  }

  lemma {:induction false} TakeExact(r: Receiver, num: nat, b: nat, g: Got)
    requires RingOk(r) && r.readSeq + 1 < U16 && num < b <= r.readSeq + SSL_MAX_HANDSHAKE_FLIGHT && Exact(r, num, g)
    ensures Exact(Next(r), num, g)
  {}

  lemma {:induction false} StepExact(msgs: seq<Message>, s: State, e: Event, maxLen: nat, b: nat, num: nat, g: Got)
    requires Sendable(msgs) && Inv(msgs, s) && s.alive && OnWire(e) && (e.Arrive? ==> AllGenuine(msgs, e.fs) && Within(e.fs, b, maxLen))
    requires num < b <= s.r.readSeq + SSL_MAX_HANDSHAKE_FLIGHT && Exact(s.r, num, g)
    ensures Step(s, e, maxLen).alive && s.r.readSeq <= Step(s, e, maxLen).r.readSeq
    ensures Exact(Step(s, e, maxLen).r, num, Join(g, if e.Arrive? then GotIn(e.fs, num) else None))
  {
    hide Agrees, Exact;
    RingOfAgreement(msgs, s.r);
    if e.Arrive? { RecordExact(msgs, s.r, e.fs, maxLen, b, num, g); }
    else if CurrentComplete(s.r) { TakeKeepsInv(msgs, s, maxLen); TakeExact(s.r, num, b, g); }
  }

  lemma {:induction false} RunExact(msgs: seq<Message>, s: State, es: seq<Event>, maxLen: nat, b: nat, num: nat, g: Got)
    requires Sendable(msgs) && Inv(msgs, s) && s.alive && Plausible(msgs, es) && FlightOnly(es, b, maxLen)
    requires num < b <= s.r.readSeq + SSL_MAX_HANDSHAKE_FLIGHT && Exact(s.r, num, g) && forall i :: 0 <= i < |es| ==> OnWire(es[i])
    ensures Run(s, es, maxLen).alive && Exact(Run(s, es, maxLen).r, num, Join(g, GotBy(es, num)))
    decreases |es|
  {
    hide Agrees, Exact, Step;
    RingOfAgreement(msgs, s.r);
    if es != [] {
      var here := if es[0].Arrive? then GotIn(es[0].fs, num) else None;
      StepKeepsInv(msgs, s, es[0], maxLen);
      StepExact(msgs, s, es[0], maxLen, b, num, g);
      RunExact(msgs, Step(s, es[0], maxLen), es[1..], maxLen, b, num, Join(g, here));
      JoinAssociative(g, here, GotBy(es[1..], num));
    }
  }

  /** Every byte of every message of the flight, and some piece of every empty one, has arrived. */
  predicate FlightArrived(msgs: seq<Message>, es: seq<Event>, a: nat, b: nat)
    requires b <= |msgs|
  {
    forall num :: a <= num < b ==> GotBy(es, num) == Some(Range(0, |msgs[num].body|))
  }

  /**
    Within a flight of at most seven messages nothing genuine is turned down, and a message is complete
    exactly when all of it has arrived at least once.
   */
  lemma {:induction false} CompleteExactlyWhenArrived(msgs: seq<Message>, s: State, es: seq<Event>, maxLen: nat, b: nat, num: nat)
    requires Sendable(msgs) && Inv(msgs, s) && s.alive && Plausible(msgs, es) && FlightOnly(es, b, maxLen)
    requires s.r.readSeq <= num < b <= s.r.readSeq + SSL_MAX_HANDSHAKE_FLIGHT && b <= |msgs| && Slot(s.r, num).None?
    ensures forall i :: 0 <= i < |es| ==> OnWire(es[i])
    ensures Run(s, es, maxLen).alive
    ensures var r := Run(s, es, maxLen).r;
            num < r.readSeq || ((Slot(r, num).Some? && Slot(r, num).value.Complete()) <==> GotBy(es, num) == Some(Range(0, |msgs[num].body|)))
  {
    hide Run, GotBy;
    GenuineEvents(msgs, es);
    RunExact(msgs, s, es, maxLen, b, num, None);
    RunKeepsInv(msgs, s, es, maxLen);
    var r := Run(s, es, maxLen).r;
    if r.readSeq <= num && Slot(r, num).Some? {
      assert SlotAgrees(msgs, r.slots[num % SSL_MAX_HANDSHAKE_FLIGHT]);
      SlotIsMessage(r, num);
      var m := Slot(r, num).value;
      if m.Complete() { assert m.content.Keys == Range(0, m.len); }
    }
  }

  function Takes(n: nat): (es: seq<Event>)
    ensures |es| == n && forall i :: 0 <= i < n ==> es[i] == Take
  {
    seq(n, _ => Take)
  }

  /** Messages that are complete are handed up one after the other. */
  lemma {:induction false} Drain(msgs: seq<Message>, s: State, b: nat, maxLen: nat)
    requires Sendable(msgs) && Inv(msgs, s) && |s.up| <= b <= |msgs| && b <= s.r.readSeq + SSL_MAX_HANDSHAKE_FLIGHT
    requires forall num :: s.r.readSeq <= num < b ==> Slot(s.r, num).Some? && Slot(s.r, num).value.Complete()
    ensures Run(s, Takes(b - |s.up|), maxLen).up == msgs[..b]
    decreases b - |s.up|
  {
    if |s.up| < b {
      TakeKeepsInv(msgs, s, maxLen);
      var t := Step(s, Take, maxLen);
      forall num | t.r.readSeq <= num < b ensures Slot(t.r, num) == Slot(s.r, num) {}
      Drain(msgs, t, b, maxLen);
      assert Takes(b - |s.up|)[1..] == Takes(b - |t.up|);
    }
  }

  /** Liveness: once all of a flight has arrived, the handshake gets all of its messages by asking for them. */
  lemma {:induction false} FlightDeliverable(msgs: seq<Message>, s: State, es: seq<Event>, maxLen: nat, b: nat)
    requires Sendable(msgs) && Inv(msgs, s) && s.alive && Plausible(msgs, es) && FlightOnly(es, b, maxLen)
    requires s.r.readSeq < b <= s.r.readSeq + SSL_MAX_HANDSHAKE_FLIGHT && b <= |msgs|
    requires forall num :: s.r.readSeq <= num < b ==> Slot(s.r, num).None?
    requires FlightArrived(msgs, es, s.r.readSeq, b)
    ensures forall i :: 0 <= i < |es| ==> OnWire(es[i])
    ensures var t := Run(s, es, maxLen);
            t.alive && (b < |t.up| || Run(t, Takes(b - |t.up|), maxLen).up == msgs[..b])
  {
    hide Run, GotBy, Takes;
    GenuineEvents(msgs, es);
    RunKeepsInv(msgs, s, es, maxLen);
    var t := Run(s, es, maxLen);
    CompleteExactlyWhenArrived(msgs, s, es, maxLen, b, s.r.readSeq);
    forall num | s.r.readSeq <= num < b && t.r.readSeq <= num ensures Slot(t.r, num).Some? && Slot(t.r, num).value.Complete() {
      CompleteExactlyWhenArrived(msgs, s, es, maxLen, b, num);
    }
    if |t.up| <= b { Drain(msgs, t, b, maxLen); }
  }
}
