/**
  Sender and receiver together: a flight that was cut up, sent and sent again, and whose records the
  network lost, repeated and reordered, is handed up whole (section 4.2.3 of RFC 6347).
 */
module DtlsEndToEnd {
  import opened Words
  import opened DtlsFragment
  import opened DtlsReassembly
  import opened DtlsReceiver
  import opened DtlsTransport
  import opened DtlsFlight
  import opened DtlsSender

  /** The pieces of messages among the records of a flight. */
  function Pieces(us: seq<Unit>): seq<Fragment>
  {
    if us == [] then []
    else Pieces(us[..|us| - 1]) + if us[|us| - 1].Cut? then [us[|us| - 1].f] else []
  }

  /** Whatever the MTU, a sender's records carry pieces of its messages and nothing else. */
  lemma {:induction false} PiecesGenuine(flight: seq<Outgoing>, messages: seq<Message>, us: seq<Unit>)
    requires FlightOk(flight) && Tells(flight, messages) && Walk(flight, Pos(0, 0), us).Some?
    ensures AllGenuine(messages, Pieces(us))
    decreases |us|
  {
    hide FlightOk, WellFormed, Whole;
    if us != [] { PiecesGenuine(flight, messages, us[..|us| - 1]); }
  }

  lemma {:induction false} GotInAppends(fs: seq<Fragment>, f: Fragment, num: nat)
    ensures GotIn(fs + [f], num) == Join(GotIn(fs, num), GotFrom(f, num))
    decreases |fs|
  {
    hide GotFrom;
    if fs == [] {
      assert fs + [f] == [f];
    } else {
      GotInAppends(fs[1..], f, num);
      assert (fs + [f])[1..] == fs[1..] + [f];
      JoinAssociative(GotFrom(fs[0], num), GotIn(fs[1..], num), GotFrom(f, num));
    }
  }

  /** What the pieces sent so far cover of message i: all of it, none of it, or the bytes before the offset. */
  function Covered(flight: seq<Outgoing>, p: Pos, i: nat): Got
    requires FlightOk(flight) && i < |flight| && !flight[i].isCcs
  {
    if i < p.written then Some(Range(0, |Whole(flight[i]).body|))
    else if i == p.written && p.offset > 0 then Some(Range(0, p.offset)) else None
  }

  lemma {:induction false} AdvanceCovers(flight: seq<Outgoing>, messages: seq<Message>, p: Pos, u: Unit, i: nat)
    requires FlightOk(flight) && Tells(flight, messages) && PosOk(flight, p) && Advance(flight, p, u).Some? && i < |flight| && !flight[i].isCcs
    ensures var num := Whole(flight[i]).num;
            Covered(flight, Advance(flight, p, u).value, i) == Join(Covered(flight, p, i), if u.Cut? then GotFrom(u.f, num) else None)
  {
    hide Parse, Told;
    if u.Cut? {
      if u.index == i {
        assert Range(0, p.offset) + Range(p.offset, p.offset + |u.f.body|) == Range(0, p.offset + |u.f.body|);
      } else {
        assert u.f.num != Whole(flight[i]).num;
      }
    }
  }

  lemma {:induction false} PiecesCover(flight: seq<Outgoing>, messages: seq<Message>, us: seq<Unit>, i: nat)
    requires FlightOk(flight) && Tells(flight, messages) && Walk(flight, Pos(0, 0), us).Some? && i < |flight| && !flight[i].isCcs
    ensures GotIn(Pieces(us), Whole(flight[i]).num) == Covered(flight, Walk(flight, Pos(0, 0), us).value, i)
    decreases |us|
  {
    hide Parse, Told, Advance, Tells, GotFrom, Covered, Walk;
    WalkSteps(flight, us);
    if us == [] {
      assert Covered(flight, Pos(0, 0), i) == None by { NothingCovered(flight, i); }
    } else {
      var before, u := us[..|us| - 1], us[|us| - 1];
      var p := Walk(flight, Pos(0, 0), before).value;
      PiecesCover(flight, messages, before, i);
      Partition(flight, before, i);
      AdvanceCovers(flight, messages, p, u, i);
      if u.Cut? { GotInAppends(Pieces(before), u.f, Whole(flight[i]).num); } else { assert Pieces(us) == Pieces(before); }
    }
  }

  lemma {:induction false} WalkSteps(flight: seq<Outgoing>, us: seq<Unit>)
    requires FlightOk(flight) && Walk(flight, Pos(0, 0), us).Some?
    ensures us == [] ==> Walk(flight, Pos(0, 0), us).value == Pos(0, 0)
    ensures us != [] ==>
              && Walk(flight, Pos(0, 0), us[..|us| - 1]).Some?
              && Advance(flight, Walk(flight, Pos(0, 0), us[..|us| - 1]).value, us[|us| - 1]) == Walk(flight, Pos(0, 0), us)
  {}

  lemma {:induction false} NothingCovered(flight: seq<Outgoing>, i: nat)
    requires FlightOk(flight) && i < |flight| && !flight[i].isCcs
    ensures Covered(flight, Pos(0, 0), i) == None
  {}

  // ---------------------------------------------------------------- what of the flight the network let through

  /** Every one of these pieces arrived in some record. */
  predicate AllArrive(fs: seq<Fragment>, es: seq<Event>)
  {
    forall k :: 0 <= k < |fs| ==> Arrives(fs[k], es)
  }

  predicate Arrives(f: Fragment, es: seq<Event>)
  {
    exists i :: 0 <= i < |es| && es[i].Arrive? && f in es[i].fs
  }

  predicate Includes(a: Got, b: Got)
  {
    a.None? || (b.Some? && a.value <= b.value)
  }

  lemma {:induction false} RecordIncludes(f: Fragment, fs: seq<Fragment>, num: nat)
    requires f in fs
    ensures Includes(GotFrom(f, num), GotIn(fs, num))
    decreases |fs|
  {
    if f != fs[0] { RecordIncludes(f, fs[1..], num); }
  }

  lemma {:induction false} EventsInclude(f: Fragment, es: seq<Event>, num: nat)
    requires Arrives(f, es)
    ensures Includes(GotFrom(f, num), GotBy(es, num))
    decreases |es|
  {
    hide GotFrom, GotIn;
    if es[0].Arrive? && f in es[0].fs {
      RecordIncludes(f, es[0].fs, num);
    } else {
      var i :| 0 <= i < |es| && es[i].Arrive? && f in es[i].fs;
      assert es[1..][i - 1] == es[i];
      EventsInclude(f, es[1..], num);
    }
  }

  lemma {:induction false} AllIncluded(fs: seq<Fragment>, es: seq<Event>, num: nat)
    requires AllArrive(fs, es)
    ensures Includes(GotIn(fs, num), GotBy(es, num))
    decreases |fs|
  {
    hide GotFrom, GotBy;
    if fs != [] {
      assert Arrives(fs[0], es);
      EventsInclude(fs[0], es, num);
      assert AllArrive(fs[1..], es) by {
        forall k | 0 <= k < |fs[1..]| ensures Arrives(fs[1..][k], es) { assert fs[1..][k] == fs[k + 1]; }
      }
      AllIncluded(fs[1..], es, num);
    }
  }

  /** Genuine pieces never cover more than the message. */
  lemma {:induction false} RecordWithinBody(messages: seq<Message>, fs: seq<Fragment>, num: nat)
    requires AllGenuine(messages, fs) && num < |messages|
    ensures Includes(GotIn(fs, num), Some(Range(0, |messages[num].body|)))
    decreases |fs|
  {
    if fs != [] {
      assert Genuine(messages, fs[0]);
      RecordWithinBody(messages, fs[1..], num);
    }
  }

  lemma {:induction false} EventsWithinBody(messages: seq<Message>, es: seq<Event>, num: nat)
    requires Plausible(messages, es) && num < |messages|
    ensures Includes(GotBy(es, num), Some(Range(0, |messages[num].body|)))
    decreases |es|
  {
    hide GotIn;
    if es != [] {
      if es[0].Arrive? { RecordWithinBody(messages, es[0].fs, num); }
      EventsWithinBody(messages, es[1..], num);
    }
  }

  /** The messages [a, b) are those of the flight. */
  predicate FlightOf(flight: seq<Outgoing>, a: nat, b: nat)
    requires FlightOk(flight)
  {
    forall num :: a <= num < b ==> InFlight(flight, num)
  }

  predicate InFlight(flight: seq<Outgoing>, num: nat)
    requires FlightOk(flight)
  {
    exists i :: 0 <= i < |flight| && !flight[i].isCcs && Whole(flight[i]).num == num
  }

  /** If every piece of one complete sending of the flight arrived at some time, the whole flight has arrived. */
  lemma {:induction false} CompleteSendingArrives(flight: seq<Outgoing>, messages: seq<Message>, us: seq<Unit>, es: seq<Event>, a: nat, b: nat)
    requires FlightOk(flight) && Tells(flight, messages) && Walk(flight, Pos(0, 0), us) == Some(Pos(|flight|, 0))
    requires FlightOf(flight, a, b) && b <= |messages| && Plausible(messages, es) && AllArrive(Pieces(us), es)
    ensures FlightArrived(messages, es, a, b)
  {
    hide Walk, Parse, GotBy, GotIn;
    forall num | a <= num < b ensures GotBy(es, num) == Some(Range(0, |messages[num].body|)) {
      assert InFlight(flight, num);
      var i :| 0 <= i < |flight| && !flight[i].isCcs && Whole(flight[i]).num == num;
      TellsAt(flight, messages, i);
      PiecesCover(flight, messages, us, i);
      AllIncluded(Pieces(us), es, num);
      EventsWithinBody(messages, es, num);
      assert Covered(flight, Pos(|flight|, 0), i) == Some(Range(0, |messages[num].body|));
      assert GotBy(es, num).value == Range(0, |messages[num].body|);
    }
  }

  lemma {:induction false} TellsAt(flight: seq<Outgoing>, messages: seq<Message>, i: nat)
    requires FlightOk(flight) && Tells(flight, messages) && i < |flight| && !flight[i].isCcs
    ensures Told(Whole(flight[i]), messages)
  {}

  /**
    End to end: a sender follows its flight and its retransmissions under any MTUs; the network brings
    pieces of the connection's messages in any order and number; the receiver is at the start of the flight.
    If every piece of some complete sending got through, asking for the messages gives the whole flight, and
    nothing that was asked for before was anything but the sender's messages in order.
   */
  lemma {:induction false} FlightGetsThrough(flight: seq<Outgoing>, messages: seq<Message>, us: seq<Unit>, s: State, es: seq<Event>, maxLen: nat, b: nat)
    requires FlightOk(flight) && Tells(flight, messages) && Walk(flight, Pos(0, 0), us) == Some(Pos(|flight|, 0))
    requires Sendable(messages) && Inv(messages, s) && s.alive && Plausible(messages, es) && FlightOnly(es, b, maxLen)
    requires s.r.readSeq < b <= s.r.readSeq + SSL_MAX_HANDSHAKE_FLIGHT && b <= |messages|
    requires forall num :: s.r.readSeq <= num < b ==> Slot(s.r, num).None?
    requires FlightOf(flight, s.r.readSeq, b) && AllArrive(Pieces(us), es)
    ensures forall i :: 0 <= i < |es| ==> OnWire(es[i])
    ensures var t := Run(s, es, maxLen);
            && t.alive && t.up <= messages
            && (b < |t.up| || Run(t, Takes(b - |t.up|), maxLen).up == messages[..b])
  {
    hide Run, Walk, FlightOk, Tells, Takes, FlightOnly, Plausible;
    CompleteSendingArrives(flight, messages, us, es, s.r.readSeq, b);
    FlightDeliverable(messages, s, es, maxLen, b);
    RunKeepsInv(messages, s, es, maxLen);
  }
}
