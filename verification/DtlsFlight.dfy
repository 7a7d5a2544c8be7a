/**
  Sending a flight (sections 4.1.1, 4.2.3 and 4.2.4 of RFC 6347): messages are cut to fit the MTU,
  packed into datagrams, and sent again from the start when the peer does not answer.
 */
module DtlsFlight {
  import opened Words
  import opened DtlsFragment
  import opened DtlsReassembly
  import opened DtlsReplay
  import opened DtlsRecords
  import opened DtlsReceiver
  import opened DtlsTransport

  const MIN_MTU := 256 - 28
  const DEFAULT_MTU := 1500 - 28

  // ---------------------------------------------------------------- what is sent, and where sending stands

  datatype Outgoing = Outgoing(epoch: nat, isCcs: bool, data: bytes)

  /** A ChangeCipherSpec, or a message stored as a single fragment. */
  predicate WellFormed(m: Outgoing)
  {
    m.isCcs || (Parse(m.data).Some? && Parse(m.data).value.1 == [] && Parse(m.data).value.0.Wire()
                && Parse(m.data).value.0.off == 0 && Parse(m.data).value.0.len == |Parse(m.data).value.0.body|)
  }

  function Whole(m: Outgoing): Fragment
    requires WellFormed(m) && !m.isCcs
  {
    Parse(m.data).value.0
  }

  predicate FlightOk(flight: seq<Outgoing>)
  {
    forall i :: 0 <= i < |flight| ==> WellFormed(flight[i])
  }

  /** One record of the flight: a ChangeCipherSpec or a piece of message `index`. */
  datatype Unit = Ccs(index: nat) | Cut(index: nat, f: Fragment)

  datatype Pos = Pos(written: nat, offset: nat)

  /** Where sending stands after one more record, if that record is the one that belongs there. */
  function Advance(flight: seq<Outgoing>, p: Pos, u: Unit): Option<Pos>
    requires FlightOk(flight)
  {
    if p.written >= |flight| || u.index != p.written then None
    else if flight[p.written].isCcs then (if u.Ccs? && p.offset == 0 then Some(Pos(p.written + 1, 0)) else None)
    else
      var w := Whole(flight[p.written]);
      if u.Ccs? || p.offset + |u.f.body| > |w.body|
         || u.f != Fragment(w.typ, w.len, w.num, p.offset, w.body[p.offset..p.offset + |u.f.body|]) then None
      else if p.offset + |u.f.body| == |w.body| then Some(Pos(p.written + 1, 0))
      else if u.f.body == [] then None
      else Some(Pos(p.written, p.offset + |u.f.body|))
  }

  function Walk(flight: seq<Outgoing>, p: Pos, us: seq<Unit>): Option<Pos>
    requires FlightOk(flight)
  {
    if us == [] then Some(p)
    else match Walk(flight, p, us[..|us| - 1])
         case None => None
         case Some(q) => Advance(flight, q, us[|us| - 1])
  }

  predicate Before(p: Pos, q: Pos) { p.written < q.written || (p.written == q.written && p.offset < q.offset) }

  /** Every record moves the position forward. */
  lemma {:induction false} AdvanceIncreases(flight: seq<Outgoing>, p: Pos, u: Unit)
    requires FlightOk(flight) && Advance(flight, p, u).Some?
    ensures Before(p, Advance(flight, p, u).value) && Advance(flight, p, u).value.written <= |flight|
  {}

  lemma {:induction false} WalkExtends(flight: seq<Outgoing>, p: Pos, us: seq<Unit>, u: Unit)
    requires FlightOk(flight)
    ensures Walk(flight, p, us + [u]) == if Walk(flight, p, us).None? then None else Advance(flight, Walk(flight, p, us).value, u)
  {
    assert (us + [u])[..|us|] == us;
  }

  lemma {:induction false} WalkConcat(flight: seq<Outgoing>, p: Pos, us: seq<Unit>, vs: seq<Unit>)
    requires FlightOk(flight) && Walk(flight, p, us).Some?
    ensures Walk(flight, p, us + vs) == Walk(flight, Walk(flight, p, us).value, vs)
    decreases |vs|
  {
    hide Advance, FlightOk;
    if vs == [] {
      assert us + vs == us;
    } else {
      var k := |vs| - 1;
      WalkConcat(flight, p, us, vs[..k]);
      assert (us + vs)[..|us + vs| - 1] == us + vs[..k];
    }
  }

  // ---------------------------------------------------------------- the records of a flight are its messages cut up

  /** The bytes of message i that the records carry, in the order of the records. */
  function Carried(us: seq<Unit>, i: nat): bytes
  {
    if us == [] then []
    else
      var u := us[|us| - 1];
      Carried(us[..|us| - 1], i) + if u.Cut? && u.index == i then u.f.body else []
  }

  function CcsCount(us: seq<Unit>, i: nat): nat
  {
    if us == [] then 0 else CcsCount(us[..|us| - 1], i) + if us[|us| - 1] == Ccs(i) then 1 else 0
  }

  function Done(flight: seq<Outgoing>, p: Pos, i: nat): bytes
    requires FlightOk(flight) && i < |flight| && !flight[i].isCcs
  {
    var body := Whole(flight[i]).body;
    if i < p.written then body else if i == p.written && p.offset <= |body| then body[..p.offset] else []
  }

  /** Positions at which sending can stand: at the start of a record, or inside a message. */
  predicate PosOk(flight: seq<Outgoing>, p: Pos)
    requires FlightOk(flight)
  {
    && p.written <= |flight|
    && (p.offset == 0 || (p.written < |flight| && !flight[p.written].isCcs && p.offset < |Whole(flight[p.written]).body|))
  }

  lemma {:induction false} AdvanceOk(flight: seq<Outgoing>, p: Pos, u: Unit)
    requires FlightOk(flight) && PosOk(flight, p) && Advance(flight, p, u).Some?
    ensures PosOk(flight, Advance(flight, p, u).value)
  {
    hide WellFormed, FlightOk, Whole;
  }

  lemma {:induction false} AdvanceDone(flight: seq<Outgoing>, p: Pos, u: Unit, i: nat)
    requires FlightOk(flight) && PosOk(flight, p) && Advance(flight, p, u).Some? && i < |flight|
    ensures var q := Advance(flight, p, u).value;
            if flight[i].isCcs then (u == Ccs(i) <==> p.written <= i < q.written) && !(u.Cut? && u.index == i)
            else u != Ccs(i) && Done(flight, q, i) == Done(flight, p, i) + if u.Cut? && u.index == i then u.f.body else []
  {
    hide WellFormed, FlightOk, Whole;
  }

  /**
    The pieces of each message follow each other without gap or overlap and make up the part of the message
    that has been passed; each ChangeCipherSpec passed was sent once.
   */
  lemma {:induction false} Partition(flight: seq<Outgoing>, us: seq<Unit>, i: nat)
    requires FlightOk(flight) && Walk(flight, Pos(0, 0), us).Some? && i < |flight|
    ensures var p := Walk(flight, Pos(0, 0), us).value;
            && PosOk(flight, p)
            && (if flight[i].isCcs then Carried(us, i) == [] && CcsCount(us, i) == (if i < p.written then 1 else 0)
                else Carried(us, i) == Done(flight, p, i) && CcsCount(us, i) == 0)
    decreases |us|
  {
    hide WellFormed, FlightOk, Whole, Advance, PosOk, Done;
    if us == [] {
      NothingDone(flight, i);
    } else {
      var p, u := Walk(flight, Pos(0, 0), us[..|us| - 1]).value, us[|us| - 1];
      Partition(flight, us[..|us| - 1], i);
      AdvanceOk(flight, p, u);
      AdvanceDone(flight, p, u, i);
      Forward(flight, p, u);
    }
  }

  lemma {:induction false} NothingDone(flight: seq<Outgoing>, i: nat)
    requires FlightOk(flight) && i < |flight|
    ensures PosOk(flight, Pos(0, 0)) && (!flight[i].isCcs ==> Done(flight, Pos(0, 0), i) == [])
  {}

  lemma {:induction false} Forward(flight: seq<Outgoing>, p: Pos, u: Unit)
    requires FlightOk(flight) && Advance(flight, p, u).Some?
    ensures p.written <= Advance(flight, p, u).value.written
  {}

  /** Each piece starts where the pieces of its message before it end. */
  lemma {:induction false} Contiguous(flight: seq<Outgoing>, us: seq<Unit>, k: nat)
    requires FlightOk(flight) && Walk(flight, Pos(0, 0), us).Some? && k < |us| && us[k].Cut?
    ensures us[k].index < |flight| && us[k].f.off == |Carried(us[..k], us[k].index)|
    decreases |us|
  {
    hide FlightOk, WellFormed, Carried;
    var n := |us| - 1;
    if k < n {
      Contiguous(flight, us[..n], k);
      assert us[..n][..k] == us[..k];
    } else {
      Partition(flight, us[..n], us[k].index);
    }
  }

  // ---------------------------------------------------------------- what is lost when sealing fails in the middle of a packet

  /**
    One packet of a flight: taken by the network, refused by it, or given up because sealing failed after
    the records `us`. A refused packet is taken back; one that was given up is not.
   */
  datatype Attempt = Taken(us: seq<Unit>) | Refused(us: seq<Unit>) | GivenUp(us: seq<Unit>)

  datatype Sending = Sending(at: Pos, sent: seq<Unit>)

  /** Where sending stands after these packets, and what the network has taken. */
  function Replay(flight: seq<Outgoing>, history: seq<Attempt>): Option<Sending>
    requires FlightOk(flight)
  {
    if history == [] then Some(Sending(Pos(0, 0), []))
    else match Replay(flight, history[..|history| - 1])
         case None => None
         case Some(s) => Attempted(flight, s, history[|history| - 1])
  }

  function Attempted(flight: seq<Outgoing>, s: Sending, a: Attempt): Option<Sending>
    requires FlightOk(flight)
  {
    match Walk(flight, s.at, a.us)
    case None => None
    case Some(q) => Some(Sending(if a.Refused? then s.at else q, if a.Taken? then s.sent + a.us else s.sent))
  }

  /** The records that were sealed into packets that were given up. */
  function Lost(history: seq<Attempt>): seq<Unit>
  {
    if history == [] then []
    else Lost(history[..|history| - 1]) + if history[|history| - 1].GivenUp? then history[|history| - 1].us else []
  }

  /** How much of message i these records are: its bytes, or one for a record without bytes. */
  function Amount(us: seq<Unit>, i: nat): nat
  {
    if us == [] then 0 else Amount(us[..|us| - 1], i) + Weight(us[|us| - 1], i)
  }

  function Weight(u: Unit, i: nat): nat
  {
    if u.index != i then 0 else if u.Ccs? || u.f.body == [] then 1 else |u.f.body|
  }

  function WholeAmount(m: Outgoing): nat
    requires WellFormed(m)
  {
    if m.isCcs || Whole(m).body == [] then 1 else |Whole(m).body|
  }

  /** How much of message i lies before a position. */
  function Passed(flight: seq<Outgoing>, p: Pos, i: nat): nat
    requires FlightOk(flight) && i < |flight|
  {
    if i < p.written then WholeAmount(flight[i]) else if i == p.written then p.offset else 0
  }

  lemma {:induction false} AmountConcat(us: seq<Unit>, vs: seq<Unit>, i: nat)
    ensures Amount(us + vs, i) == Amount(us, i) + Amount(vs, i)
    decreases |vs|
  {
    if vs == [] {
      assert us + vs == us;
    } else {
      AmountConcat(us, vs[..|vs| - 1], i);
      assert (us + vs)[..|us + vs| - 1] == us + vs[..|vs| - 1];
    }
  }

  lemma {:induction false} AdvancePasses(flight: seq<Outgoing>, p: Pos, u: Unit, i: nat)
    requires FlightOk(flight) && PosOk(flight, p) && Advance(flight, p, u).Some? && i < |flight|
    ensures Passed(flight, Advance(flight, p, u).value, i) == Passed(flight, p, i) + Weight(u, i)
  {
    hide WellFormed, FlightOk, Whole;
    assert WellFormed(flight[p.written]) by { FlightAt(flight, p.written); }
  }

  lemma {:induction false} FlightAt(flight: seq<Outgoing>, i: nat)
    requires FlightOk(flight) && i < |flight|
    ensures WellFormed(flight[i])
  {}

  lemma {:induction false} WalkPasses(flight: seq<Outgoing>, p: Pos, us: seq<Unit>, i: nat)
    requires FlightOk(flight) && PosOk(flight, p) && Walk(flight, p, us).Some? && i < |flight|
    ensures PosOk(flight, Walk(flight, p, us).value)
    ensures Passed(flight, Walk(flight, p, us).value, i) == Passed(flight, p, i) + Amount(us, i)
    decreases |us|
  {
    hide WellFormed, FlightOk, Passed, Advance, Weight, PosOk;
    if us != [] {
      var n := |us| - 1;
      WalkPasses(flight, p, us[..n], i);
      AdvanceOk(flight, Walk(flight, p, us[..n]).value, us[n]);
      AdvancePasses(flight, Walk(flight, p, us[..n]).value, us[n], i);
    }
  }

  /** Everything before the position was taken by the network or is lost, and nothing is both. */
  lemma {:induction false} TakenOrLost(flight: seq<Outgoing>, history: seq<Attempt>, i: nat)
    requires FlightOk(flight) && Replay(flight, history).Some? && i < |flight|
    ensures var s := Replay(flight, history).value;
            PosOk(flight, s.at) && Passed(flight, s.at, i) == Amount(s.sent, i) + Amount(Lost(history), i)
    decreases |history|
  {
    hide WellFormed, FlightOk, Passed, PosOk, Walk, Amount;
    if history == [] {
      NothingPassed(flight, i);
    } else {
      var before, a := history[..|history| - 1], history[|history| - 1];
      var s := Replay(flight, before).value;
      TakenOrLost(flight, before, i);
      WalkPasses(flight, s.at, a.us, i);
      AmountConcat(s.sent, a.us, i);
      AmountConcat(Lost(before), a.us, i);
      AmountConcat(Lost(before), [], i);
      NothingPassed(flight, i);
    }
  }

  lemma {:induction false} NothingPassed(flight: seq<Outgoing>, i: nat)
    requires FlightOk(flight) && i < |flight|
    ensures PosOk(flight, Pos(0, 0)) && Passed(flight, Pos(0, 0), i) == 0 && Amount([], i) == 0
  {}

  /** The records that were lost are records of the flight. */
  lemma {:induction false} LostInFlight(flight: seq<Outgoing>, history: seq<Attempt>, k: nat)
    requires FlightOk(flight) && Replay(flight, history).Some? && k < |Lost(history)|
    ensures Lost(history)[k].index < |flight|
    decreases |history|
  {
    hide WellFormed, FlightOk, Walk;
    var before, a := history[..|history| - 1], history[|history| - 1];
    if k < |Lost(before)| {
      LostInFlight(flight, before, k);
    } else {
      WalkInFlight(flight, Replay(flight, before).value.at, a.us, k - |Lost(before)|);
    }
  }

  lemma {:induction false} WalkInFlight(flight: seq<Outgoing>, p: Pos, us: seq<Unit>, k: nat)
    requires FlightOk(flight) && Walk(flight, p, us).Some? && k < |us|
    ensures us[k].index < |flight|
    decreases |us|
  {
    hide WellFormed, FlightOk;
    if k < |us| - 1 { WalkInFlight(flight, p, us[..|us| - 1], k); }
  }

  lemma {:induction false} AmountOfOne(us: seq<Unit>, k: nat)
    requires k < |us|
    ensures Amount(us, us[k].index) > 0
    decreases |us|
  {
    if k < |us| - 1 { AmountOfOne(us[..|us| - 1], k); }
  }

  /**
    What the network took leads to where sending stands exactly if no packet was given up with records in it.
   */
  lemma {:induction false} NothingLostExactly(flight: seq<Outgoing>, history: seq<Attempt>)
    requires FlightOk(flight) && Replay(flight, history).Some?
    ensures var s := Replay(flight, history).value;
            Walk(flight, Pos(0, 0), s.sent) == Some(s.at) <==> Lost(history) == []
  {
    hide WellFormed, FlightOk, Passed, PosOk, Walk, Replay;
    var s := Replay(flight, history).value;
    if Lost(history) == [] {
      NothingLostWalks(flight, history);
    } else {
      var i := Lost(history)[0].index;
      LostInFlight(flight, history, 0);
      AmountOfOne(Lost(history), 0);
      TakenOrLost(flight, history, i);
      NothingPassed(flight, i);
      if Walk(flight, Pos(0, 0), s.sent) == Some(s.at) { WalkPasses(flight, Pos(0, 0), s.sent, i); }
    }
  }

  lemma {:induction false} NothingLostWalks(flight: seq<Outgoing>, history: seq<Attempt>)
    requires FlightOk(flight) && Replay(flight, history).Some? && Lost(history) == []
    ensures Walk(flight, Pos(0, 0), Replay(flight, history).value.sent) == Some(Replay(flight, history).value.at)
    decreases |history|
  {
    hide WellFormed, FlightOk, Advance;
    if history != [] {
      var before, a := history[..|history| - 1], history[|history| - 1];
      NothingLostWalks(flight, before);
      WalkConcat(flight, Pos(0, 0), Replay(flight, before).value.sent, a.us);
    }
  }

  /** Adding a message to a flight changes nothing about what was sent of it. */
  lemma {:induction false} WalkGrows(flight: seq<Outgoing>, m: Outgoing, p: Pos, us: seq<Unit>)
    requires FlightOk(flight) && FlightOk(flight + [m]) && Walk(flight, p, us).Some?
    ensures Walk(flight + [m], p, us) == Walk(flight, p, us)
    decreases |us|
  {
    hide WellFormed, FlightOk, Whole;
    if us != [] { WalkGrows(flight, m, p, us[..|us| - 1]); }
  }

  lemma {:induction false} ReplayGrows(flight: seq<Outgoing>, m: Outgoing, history: seq<Attempt>)
    requires FlightOk(flight) && FlightOk(flight + [m]) && Replay(flight, history).Some?
    ensures Replay(flight + [m], history) == Replay(flight, history)
    decreases |history|
  {
    hide WellFormed, FlightOk, Walk;
    if history != [] {
      var before, a := history[..|history| - 1], history[|history| - 1];
      ReplayGrows(flight, m, before);
      WalkGrows(flight, m, Replay(flight, before).value.at, a.us);
    }
  }

  /** A message of which everything was sent: its body in order, and at least one record even if that is empty. */
  predicate Arriving(m: Outgoing, us: seq<Unit>, i: nat)
    requires WellFormed(m)
  {
    if m.isCcs then CcsCount(us, i) >= 1
    else Carried(us, i) == Whole(m).body && exists k :: 0 <= k < |us| && us[k].index == i
  }

  lemma {:induction false} ArrivingAmount(m: Outgoing, us: seq<Unit>, i: nat)
    requires WellFormed(m) && Arriving(m, us, i)
    ensures Amount(us, i) >= WholeAmount(m)
  {
    hide WellFormed, Whole;
    CarriedAmount(us, i);
    if !m.isCcs {
      var k :| 0 <= k < |us| && us[k].index == i;
      AmountOfOne(us, k);
    }
  }

  lemma {:induction false} CarriedAmount(us: seq<Unit>, i: nat)
    ensures Amount(us, i) >= |Carried(us, i)| && Amount(us, i) >= CcsCount(us, i)
    decreases |us|
  {
    if us != [] { CarriedAmount(us[..|us| - 1], i); }
  }

  lemma {:induction false} AmountFound(us: seq<Unit>, i: nat) returns (k: nat)
    requires Amount(us, i) > 0
    ensures k < |us| && us[k].index == i
    decreases |us|
  {
    var n := |us| - 1;
    if us[n].index == i { k := n; } else { k := AmountFound(us[..n], i); }
  }

  ghost predicate AllArriving(flight: seq<Outgoing>, us: seq<Unit>)
    requires FlightOk(flight)
  {
    forall i :: 0 <= i < |flight| ==> Arriving(flight[i], us, i)
  }

  /**
    A flight that has come to its end, however often writing or sealing failed on the way: the network has
    all of it exactly if no packet was given up with records in it.
   */
  lemma {:induction false} WholeFlightExactly(flight: seq<Outgoing>, history: seq<Attempt>)
    requires FlightOk(flight) && Replay(flight, history).Some? && Replay(flight, history).value.at == Pos(|flight|, 0)
    ensures AllArriving(flight, Replay(flight, history).value.sent) <==> Lost(history) == []
  {
    hide WellFormed, Walk, Replay, Whole, WholeAmount, Arriving;
    var us := Replay(flight, history).value.sent;
    NothingLostExactly(flight, history);
    if Lost(history) == [] {
      forall i | 0 <= i < |flight| ensures Arriving(flight[i], us, i) {
        WholeArrives(flight, us, i);
      }
    } else {
      var i := Lost(history)[0].index;
      LostInFlight(flight, history, 0);
      AmountOfOne(Lost(history), 0);
      TakenOrLost(flight, history, i);
      if AllArriving(flight, us) {
        FlightAt(flight, i);
        ArrivingAmount(flight[i], us, i);
      }
    }
  }

  lemma {:induction false} WholeArrives(flight: seq<Outgoing>, us: seq<Unit>, i: nat)
    requires FlightOk(flight) && Walk(flight, Pos(0, 0), us) == Some(Pos(|flight|, 0)) && i < |flight|
    ensures Arriving(flight[i], us, i)
  {
    hide WellFormed, FlightOk, Walk, Whole, Carried, CcsCount;
    FlightAt(flight, i);
    WholeFlightSent(flight, us, i);
    NothingPassed(flight, i);
    WalkPasses(flight, Pos(0, 0), us, i);
    var k := AmountFound(us, i);
  }

  /** A message of one byte, as it is kept in a flight. */
  function Short(num: nat): (f: Fragment)
    requires num < U16
    ensures f.Wire()
  {
    Fragment(1, 1, num, 0, [7])
  }

  lemma {:induction false} ShortOk(num: nat)
    requires num < U16
    ensures WellFormed(Outgoing(0, false, Serialize(Short(num)))) && Whole(Outgoing(0, false, Serialize(Short(num)))) == Short(num)
  {
    hide Parse, Serialize;
    ParseInverts(Short(num), []);
    assert Serialize(Short(num)) + [] == Serialize(Short(num));
  }

  /**
    Two messages. Sealing the second into the packet of the first fails; the next flush seals only the second
    one, comes to the end of the flight, and the first message is missing.
   */
  lemma {:induction false} FlushMissesMessage()
    ensures var flight := [Outgoing(0, false, Serialize(Short(0))), Outgoing(0, false, Serialize(Short(1)))];
            var history := [GivenUp([Cut(0, Short(0))]), Taken([Cut(1, Short(1))])];
            && FlightOk(flight) && Replay(flight, history) == Some(Sending(Pos(2, 0), [Cut(1, Short(1))]))
            && Carried([Cut(1, Short(1))], 0) == [] != Whole(flight[0]).body
  {
    hide Parse, Serialize, WellFormed, Whole;
    var flight := [Outgoing(0, false, Serialize(Short(0))), Outgoing(0, false, Serialize(Short(1)))];
    var first, second := GivenUp([Cut(0, Short(0))]), Taken([Cut(1, Short(1))]);
    ShortOk(0);
    ShortOk(1);
    ShortSent(flight, 0);
    ShortSent(flight, 1);
    assert [first, second][..1] == [first] && [first][..0] == [];
    assert Attempted(flight, Sending(Pos(0, 0), []), first) == Some(Sending(Pos(1, 0), []));
    assert [] + second.us == second.us;
    assert Attempted(flight, Sending(Pos(1, 0), []), second) == Some(Sending(Pos(2, 0), second.us));
    assert Replay(flight, []) == Some(Sending(Pos(0, 0), []));
    assert Replay(flight, [first]) == Some(Sending(Pos(1, 0), []));
    assert second.us[..0] == [];
  }

  lemma {:induction false} ShortSent(flight: seq<Outgoing>, i: nat)
    requires FlightOk(flight) && i < |flight| && i < U16 && !flight[i].isCcs && Whole(flight[i]) == Short(i)
    ensures Walk(flight, Pos(i, 0), [Cut(i, Short(i))]) == Some(Pos(i + 1, 0))
  {
    hide Parse, WellFormed, Whole;
    var us := [Cut(i, Short(i))];
    assert us[..0] == [];
    assert Walk(flight, Pos(i, 0), us[..0]) == Some(Pos(i, 0));
    assert Short(i).body[0..1] == Short(i).body;
  }

  /** A whole flight: every message exactly, and every ChangeCipherSpec once. */
  lemma {:induction false} WholeFlightSent(flight: seq<Outgoing>, us: seq<Unit>, i: nat)
    requires FlightOk(flight) && Walk(flight, Pos(0, 0), us) == Some(Pos(|flight|, 0)) && i < |flight|
    ensures if flight[i].isCcs then CcsCount(us, i) == 1 else Carried(us, i) == Whole(flight[i]).body
  {
    Partition(flight, us, i);
  }
}
