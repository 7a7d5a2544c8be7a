/**
  From the sender's log of sealed records to the handshake on the other side, replay window
  included: a retransmission is a record of its own, and a flight of which every record of one
  sending gets through in time is handed up whole (sections 4.1.2.6 and 4.2.3 of RFC 6347).
 */
module DtlsDelivery {
  import opened Words
  import opened DtlsFragment
  import opened DtlsReassembly
  import opened DtlsReceiver
  import opened DtlsTransport
  import opened DtlsReplay
  import opened DtlsRecords
  import opened DtlsInput
  import opened DtlsFlight
  import opened DtlsSender
  import opened DtlsEndToEnd

  /** The network brings the record that was sealed as number k, at any time and any number of times, or the handshake asks. */
  datatype Delivery = Bring(k: nat) | Asking

  /** The 64-bit number under which a record arrives: the epoch in the top sixteen bits. */
  function NumberOf(s: Sealed): nat { s.epoch * TWO48 + s.num }

  /** How a reader of an epoch looks at records: in the clear or under keys, and the version it expects under keys. */
  datatype Reading = Reading(epoch: nat, clear: bool, version: nat)

  /** A record that this reader looks up in its window: of its epoch and version, and not too long. Others are dropped. */
  predicate Current(how: Reading, log: seq<Sealed>, d: Delivery)
  {
    && d.Bring? && d.k < |log| && log[d.k].epoch == how.epoch && 13 <= |log[d.k].wire| <= 13 + 16384 + 320
    && RightVersion(log[d.k].wire, how.clear, how.version)
  }

  /** The numbers that reach the window. */
  function Arrivals(how: Reading, log: seq<Sealed>, ds: seq<Delivery>): seq<nat>
  {
    if ds == [] then []
    else Arrivals(how, log, ds[..|ds| - 1]) + if Current(how, log, ds[|ds| - 1]) then [NumberOf(log[ds[|ds| - 1].k])] else []
  }

  /** Delivery i is accepted on its bytes: this is RecordReader.Acceptable after the deliveries before it. */
  ghost predicate GetsIn(how: Reading, log: seq<Sealed>, ds: seq<Delivery>, i: nat)
    requires i < |ds|
  {
    && ds[i].Bring? && ds[i].k < |log|
    && Accepts(how.epoch, how.clear, how.version, Through(Arrivals(how, log, ds[..i])), log[ds[i].k].wire)
  }

  /** What the reader looks up is what the sender's log says. */
  lemma {:induction false} BytesAsLogged(how: Reading, log: seq<Sealed>, ds: seq<Delivery>, i: nat)
    requires AllLabelled(log) && i < |ds|
    ensures GetsIn(how, log, ds, i) <==>
            Current(how, log, ds[i]) && !Stale(Through(Arrivals(how, log, ds[..i])), NumberOf(log[ds[i].k]))
  {
    hide Stale, Through, Arrivals, BigEndian;
    if ds[i].Bring? && ds[i].k < |log| {
      assert HasLabel(log[ds[i].k]);
      var version: nat :| Labelled(log[ds[i].k], version);
    }
  }

  /** This record has not come before, and none that was sealed 64 or more after it in its epoch has. */
  predicate InTime(how: Reading, log: seq<Sealed>, ds: seq<Delivery>, i: nat)
    requires i < |ds| && Current(how, log, ds[i])
  {
    forall j :: 0 <= j < i && Current(how, log, ds[j]) ==> ds[j].k != ds[i].k && log[ds[j].k].num < log[ds[i].k].num + 64
  }

  lemma {:induction false} ArrivalsOf(how: Reading, log: seq<Sealed>, ds: seq<Delivery>, n: nat)
    ensures n in Arrivals(how, log, ds) <==> exists j :: 0 <= j < |ds| && Current(how, log, ds[j]) && NumberOf(log[ds[j].k]) == n
    decreases |ds|
  {
    if ds != [] {
      var before := ds[..|ds| - 1];
      ArrivalsOf(how, log, before, n);
      if n in Arrivals(how, log, before) {
        var j :| 0 <= j < |before| && Current(how, log, before[j]) && NumberOf(log[before[j].k]) == n;
        assert ds[j] == before[j];
      }
      if exists j :: 0 <= j < |ds| && Current(how, log, ds[j]) && NumberOf(log[ds[j].k]) == n {
        var j :| 0 <= j < |ds| && Current(how, log, ds[j]) && NumberOf(log[ds[j].k]) == n;
        if j < |ds| - 1 { assert before[j] == ds[j]; }
      }
    }
  }

  /**
    A record is never taken for a replay of another one: whatever else has arrived, retransmissions and the records
    they repeat included, a record gets in exactly if it is the first time and it is less than 64 behind.
   */
  lemma {:induction false} GetsInExactly(how: Reading, log: seq<Sealed>, ds: seq<Delivery>, i: nat)
    requires NumbersGrow(log) && AllLabelled(log) && i < |ds| && Current(how, log, ds[i])
    ensures GetsIn(how, log, ds, i) <==> InTime(how, log, ds, i)
  {
    hide Through, Stale, Arrivals, GetsIn, AllLabelled;
    BytesAsLogged(how, log, ds, i);
    var n := NumberOf(log[ds[i].k]);
    var ns := Arrivals(how, log, ds[..i]);
    assert (ns + [n])[..|ns|] == ns;
    GetsThroughExactly(ns + [n], |ns|);
    if InTime(how, log, ds, i) {
      forall j | 0 <= j < |ns| ensures ns[j] != n && !Older(n, ns[j]) {
        ArrivalsOf(how, log, ds[..i], ns[j]);
        var l :| 0 <= l < |ds[..i]| && Current(how, log, ds[..i][l]) && NumberOf(log[ds[..i][l].k]) == ns[j];
        assert ds[..i][l] == ds[l];
        DifferentNumbers(log, ds[l].k, ds[i].k);
      }
      assert Unseen(ns + [n], |ns|);
    } else {
      var j :| 0 <= j < i && Current(how, log, ds[j]) && (ds[j].k == ds[i].k || log[ds[j].k].num >= log[ds[i].k].num + 64);
      assert ds[..i][j] == ds[j];
      ArrivalsOf(how, log, ds[..i], NumberOf(log[ds[j].k]));
      var l :| 0 <= l < |ns| && ns[l] == NumberOf(log[ds[j].k]);
      assert (ns + [n])[l] == ns[l];
    }
  }

  lemma {:induction false} DifferentNumbers(log: seq<Sealed>, j: nat, k: nat)
    requires NumbersGrow(log) && j < |log| && k < |log| && j != k && log[j].epoch == log[k].epoch
    ensures NumberOf(log[j]) != NumberOf(log[k])
  {
    assert if j < k then log[j].num < log[k].num else log[k].num < log[j].num;
  }

  /** A record that was sealed after all those that have arrived gets in: that is what a retransmission relies on. */
  lemma {:induction false} LatestGetsIn(how: Reading, log: seq<Sealed>, ds: seq<Delivery>, i: nat)
    requires NumbersGrow(log) && AllLabelled(log) && i < |ds| && Current(how, log, ds[i])
    requires forall j :: 0 <= j < i && ds[j].Bring? ==> ds[j].k < ds[i].k
    ensures GetsIn(how, log, ds, i)
  {
    hide GetsIn;
    GetsInExactly(how, log, ds, i);
    forall j | 0 <= j < i && Current(how, log, ds[j]) ensures ds[j].k != ds[i].k && log[ds[j].k].num < log[ds[i].k].num + 64 {
      assert log[ds[j].k].num < log[ds[i].k].num;
    }
  }

  // ---------------------------------------------------------------- what the ring gets to see

  const IN_THE_CLEAR := Reading(0, true, 0)

  /** The fragment of a handshake record that gets in; of everything else the ring sees nothing. */
  ghost function Seen(log: seq<Sealed>, ds: seq<Delivery>, i: nat): Event
    requires i < |ds|
  {
    if ds[i].Asking? then Take
    else if GetsIn(IN_THE_CLEAR, log, ds, i) && log[ds[i].k].typ == SSL3_RT_HANDSHAKE && Parse(log[ds[i].k].plaintext).Some?
    then Arrive([Parse(log[ds[i].k].plaintext).value.0])
    else Arrive([])
  }

  ghost function Events(log: seq<Sealed>, ds: seq<Delivery>): (es: seq<Event>)
    ensures |es| == |ds| && forall i :: 0 <= i < |ds| ==> es[i] == Seen(log, ds, i)
  {
    seq(|ds|, i requires 0 <= i < |ds| => Seen(log, ds, i))
  }

  lemma {:induction false} EventsPlausible(messages: seq<Message>, log: seq<Sealed>, ds: seq<Delivery>, maxLen: nat)
    requires GenuineLog(messages, log) && forall k :: 0 <= k < |messages| ==> |messages[k].body| <= maxLen
    ensures Plausible(messages, Events(log, ds)) && FlightOnly(Events(log, ds), |messages|, maxLen)
  {
    hide Through, Stale, Parse;
    forall i | 0 <= i < |ds| && Events(log, ds)[i].Arrive?
      ensures AllGenuine(messages, Events(log, ds)[i].fs) && Within(Events(log, ds)[i].fs, |messages|, maxLen)
    {
      assert Events(log, ds)[i] == Seen(log, ds, i);
      if Events(log, ds)[i].fs != [] { assert GenuinePlain(messages, log[ds[i].k].plaintext); }
    }
  }

  /** Every record of this sending gets in at some time. */
  ghost predicate SendingGetsIn(log: seq<Sealed>, ds: seq<Delivery>, places: seq<nat>)
  {
    forall k :: 0 <= k < |places| ==> RecordGetsIn(log, ds, places[k])
  }

  predicate RecordGetsIn(log: seq<Sealed>, ds: seq<Delivery>, place: nat)
  {
    exists i :: 0 <= i < |ds| && ds[i] == Bring(place) && Current(IN_THE_CLEAR, log, ds[i]) && InTime(IN_THE_CLEAR, log, ds, i)
  }

  /** A piece whose record gets in reaches the ring. */
  lemma {:induction false} PieceArrives(flight: seq<Outgoing>, messages: seq<Message>, log: seq<Sealed>, ds: seq<Delivery>, u: Unit, place: nat)
    requires NumbersGrow(log) && AllLabelled(log) && Sendable(messages) && GenuineLog(messages, log) && u.Cut? && u.f.Wire()
    requires place < |log| && SealsUnit(flight, log[place], u) && RecordGetsIn(log, ds, place)
    ensures Arrives(u.f, Events(log, ds))
  {
    hide Parse, Serialize, GetsIn, InTime;
    var i :| 0 <= i < |ds| && ds[i] == Bring(place) && Current(IN_THE_CLEAR, log, ds[i]) && InTime(IN_THE_CLEAR, log, ds, i);
    GetsInExactly(IN_THE_CLEAR, log, ds, i);
    ParseInverts(u.f, []);
    assert Serialize(u.f) + [] == Serialize(u.f);
    assert Events(log, ds)[i] == Seen(log, ds, i) == Arrive([u.f]);
  }

  lemma {:induction false} SendingArrives(flight: seq<Outgoing>, messages: seq<Message>, log: seq<Sealed>, ds: seq<Delivery>, us: seq<Unit>, places: seq<nat>)
    requires NumbersGrow(log) && AllLabelled(log) && FlightOk(flight) && Sendable(messages) && Tells(flight, messages) && GenuineLog(messages, log)
    requires Walk(flight, Pos(0, 0), us).Some? && Placed(flight, log, us, places) && SendingGetsIn(log, ds, places)
    ensures AllArrive(Pieces(us), Events(log, ds))
    decreases |us|
  {
    hide FlightOk, WellFormed, Whole, Tells, GenuineLog, Arrives, SealsUnit, Advance, Parse, Serialize, RecordGetsIn, Events, NumbersGrow, AllLabelled, Sendable;
    if us != [] {
      var n := |us| - 1;
      var p := Walk(flight, Pos(0, 0), us[..n]).value;
      forall k | 0 <= k < n ensures places[..n][k] < |log| && SealsUnit(flight, log[places[..n][k]], us[..n][k]) && RecordGetsIn(log, ds, places[..n][k]) {
        assert places[..n][k] == places[k] && us[..n][k] == us[k];
      }
      SendingArrives(flight, messages, log, ds, us[..n], places[..n]);
      if us[n].Cut? {
        PieceGenuine(flight, messages, p, us[n]);
        PieceArrives(flight, messages, log, ds, us[n], places[n]);
        assert Pieces(us) == Pieces(us[..n]) + [us[n].f];
      }
    }
  }

  /**
    The sender as it is, the replay window and the ring together. The sender has come to the end of a flight without
    having lost a record; the network has brought records that it sealed, in any order and number. If every
    record of that sending got in, the receiver, which was at the start of the flight, hands up the whole flight by
    being asked for it, and nothing it has handed up was anything but the sender's messages in order.
   */
  lemma {:induction false} FlightArrives(sender: FlightSender, s: State, ds: seq<Delivery>, maxLen: nat)
    requires sender.Valid() && !sender.records.exhausted && |sender.messages| < U16
    requires Lost(sender.history) == [] && sender.written == |sender.outgoing| && sender.offset == 0
    requires Inv(sender.messages, s) && s.alive && s.r.readSeq < |sender.messages| <= s.r.readSeq + SSL_MAX_HANDSHAKE_FLIGHT
    requires forall num :: s.r.readSeq <= num < |sender.messages| ==> Slot(s.r, num).None?
    requires FlightOf(sender.outgoing, s.r.readSeq, |sender.messages|)
    requires forall k :: 0 <= k < |sender.messages| ==> |sender.messages[k].body| <= maxLen
    requires SendingGetsIn(sender.records.sealed, ds, sender.places)
    ensures forall i :: 0 <= i < |ds| ==> OnWire(Events(sender.records.sealed, ds)[i])
    ensures var t := Run(s, Events(sender.records.sealed, ds), maxLen);
            && t.alive && t.up <= sender.messages
            && (|sender.messages| < |t.up| || Run(t, Takes(|sender.messages| - |t.up|), maxLen).up == sender.messages)
  {
    hide Run, Walk, Replay, Lost, FlightOk, Tells, Takes, Events, Placed, Plausible, FlightOnly, AllArrive, SendingGetsIn, FlightOf;
    var flight, messages, log := sender.outgoing, sender.messages, sender.records.sealed;
    NothingLostExactly(flight, sender.history);
    EventsPlausible(messages, log, ds, maxLen);
    SendingArrives(flight, messages, log, ds, sender.sent, sender.places);
    FlightGetsThrough(flight, messages, sender.sent, s, Events(log, ds), maxLen, |messages|);
    assert messages[..|messages|] == messages;
  }

  // ---------------------------------------------------------------- the receiving code over a whole run

  lemma {:induction false} RunLonger(s: State, es: seq<Event>, e: Event, maxLen: nat)
    requires |s.r.slots| == SSL_MAX_HANDSHAKE_FLIGHT && OnWire(e) && forall i :: 0 <= i < |es| ==> OnWire(es[i])
    ensures forall i :: 0 <= i < |es + [e]| ==> OnWire((es + [e])[i])
    ensures Run(s, es + [e], maxLen) == Step(Run(s, es, maxLen), e, maxLen)
    decreases |es|
  {
    hide Step, OnWire;
    if es == [] {
      assert [e][1..] == [];
    } else {
      RunLonger(Step(s, es[0], maxLen), es[1..], e, maxLen);
      assert (es + [e])[1..] == es[1..] + [e];
    }
  }

  lemma {:induction false} EventsLonger(log: seq<Sealed>, ds: seq<Delivery>, i: nat)
    requires i < |ds|
    ensures Events(log, ds[..i + 1]) == Events(log, ds[..i]) + [Seen(log, ds, i)]
  {
    forall j | 0 <= j <= i ensures Seen(log, ds[..i + 1], j) == Seen(log, ds, j) && (j < i ==> Seen(log, ds[..i], j) == Seen(log, ds, j)) {
      assert ds[..i + 1][..j] == ds[..j] && (j < i ==> ds[..i][..j] == ds[..j]);
    }
  }

  /** The window after one more delivery. */
  lemma {:induction false} WindowLonger(how: Reading, log: seq<Sealed>, ds: seq<Delivery>, i: nat)
    requires AllLabelled(log) && i < |ds|
    ensures Through(Arrivals(how, log, ds[..i + 1])) ==
            Through(Arrivals(how, log, ds[..i])) + if GetsIn(how, log, ds, i) then {NumberOf(log[ds[i].k])} else {}
  {
    hide Stale, GetsIn, RightVersion;
    BytesAsLogged(how, log, ds, i);
    var ns := Arrivals(how, log, ds[..i]);
    assert ds[..i + 1][..i] == ds[..i] && ds[..i + 1][i] == ds[i];
    if Current(how, log, ds[i]) {
      assert (ns + [NumberOf(log[ds[i].k])])[..|ns|] == ns;
    } else {
      assert ns + [] == ns;
    }
  }

  /** The plaintext of a genuine record is the fragment that the ring sees. */
  lemma {:induction false} SeenPlain(messages: seq<Message>, s: bytes)
    requires Sendable(messages) && GenuinePlain(messages, s)
    ensures var f := Parse(s).value.0; f.Wire() && Plaintext([f]) == s
  {
    hide Serialize, Parse;
    SerializeInverts(s);
    var f := Parse(s).value.0;
    assert [f][1..] == [] && Serialize(f) + [] == Serialize(f);
  }

  lemma {:induction false} NothingForRing(s: State, maxLen: nat)
    requires |s.r.slots| == SSL_MAX_HANDSHAKE_FLIGHT
    ensures OnWire(Arrive([])) && Step(s, Arrive([]), maxLen) == s
  {
    EmptyRecord(s.r, maxLen);
  }

  /** The log of a flight in the clear: handshake records and ChangeCipherSpecs of a legal length. */
  predicate OnlyFlights(log: seq<Sealed>)
  {
    forall k :: 0 <= k < |log| ==>
                  && |log[k].plaintext| <= 16384
                  && (log[k].typ == SSL3_RT_HANDSHAKE || (log[k].typ == SSL3_RT_CHANGE_CIPHER_SPEC && log[k].plaintext == [SSL3_MT_CCS]))
  }

  /** One record that the network brings, through dtls1_open_handshake: the ring sees what Seen says. */
  method BringOne(reader: Reader, messages: seq<Message>, log: seq<Sealed>, ds: seq<Delivery>, i: nat, maxLen: nat, ghost before: State)
      returns (alive: bool)
    requires reader.Valid() && reader.records.rEpoch == 0 && reader.records.nullCipher && i < |ds| && ds[i].Bring? && ds[i].k < |log|
    requires reader.records.bitmap.seen == Through(Arrivals(IN_THE_CLEAR, log, ds[..i]))
    requires AllLabelled(log) && Sendable(messages) && GenuineLog(messages, log) && OnlyFlights(log)
    requires before.alive && before.r == reader.ring.View() && |before.r.slots| == SSL_MAX_HANDSHAKE_FLIGHT
    modifies reader`hasChangeCipherSpec, reader.records`accepted, reader.records.bitmap, reader.ring.repr
    ensures reader.Valid() && reader.records.bitmap == old(reader.records.bitmap) && fresh(reader.ring.repr - old(reader.ring.repr))
    ensures reader.records.bitmap.seen == Through(Arrivals(IN_THE_CLEAR, log, ds[..i + 1]))
    ensures OnWire(Seen(log, ds, i)) && State(reader.ring.View(), before.up, alive) == Step(before, Seen(log, ds, i), maxLen)
  {
    hide Through, Arrivals, Stale, Framed, EpochField, NumberField, BigEndian, Parse, AcceptRecord, Plaintext, Current,
         DtlsRead.View, DtlsRead.Valid, RecordReader.Valid, CurrentComplete, AllLabelled, Labelled, Sendable, Genuine;
    var s := log[ds[i].k];
    WindowLonger(IN_THE_CLEAR, log, ds, i);
    BytesAsLogged(IN_THE_CLEAR, log, ds, i);
    LabelledNumber(log, ds[i].k);
    NothingForRing(before, maxLen);
    assert reader.records.Acceptable(s.wire) <==> GetsIn(IN_THE_CLEAR, log, ds, i);
    if s.typ == SSL3_RT_HANDSHAKE { SeenPlain(messages, s.plaintext); }
    var result, consumed := reader.OpenHandshake(s.wire, false, Some(s.plaintext), Discard, maxLen);
    alive := result != Failed;
  }

  lemma {:induction false} LabelledNumber(log: seq<Sealed>, k: nat)
    requires AllLabelled(log) && k < |log|
    ensures |log[k].wire| >= 13 && log[k].wire[0] == log[k].typ && NumberField(log[k].wire) == NumberOf(log[k])
  {
    hide BigEndian;
    assert HasLabel(log[k]);
  }

  /** dtls1_get_message and dtls1_next_message, when the handshake asks. */
  method AskOne(reader: Reader, maxLen: nat, ghost before: State) returns (got: Option<Message>)
    requires reader.Valid() && before.r == reader.ring.View() && |before.r.slots| == SSL_MAX_HANDSHAKE_FLIGHT
    modifies reader`hasMessage, reader.ring`handshakeReadSeq, reader.ring.incoming
    ensures reader.Valid() && reader.records.bitmap.seen == old(reader.records.bitmap.seen)
    ensures reader.ring.repr == old(reader.ring.repr)
    ensures State(reader.ring.View(), before.up + (if got.Some? then [got.value] else []), before.alive) == Step(before, Take, maxLen)
  {
    hide DtlsRead.View, DtlsRead.Valid, RecordReader.Valid, Next, Body, Header;
    var message := reader.GetMessage();
    if message.None? {
      return None;
    }
    ghost var m := Slot(before.r, before.r.readSeq).value;
    assert message.value.1[DTLS1_HM_HEADER_LENGTH..] == Body(m);
    reader.NextMessage();
    return Some(Message(message.value.0, message.value.1[DTLS1_HM_HEADER_LENGTH..]));
  }

  lemma {:induction false} NothingYet(log: seq<Sealed>, maxLen: nat)
    ensures Events(log, []) == [] && Through(Arrivals(IN_THE_CLEAR, log, [])) == {} && Run(START, [], maxLen) == START
  {}

  lemma {:induction false} NotBrought(log: seq<Sealed>, ds: seq<Delivery>, i: nat)
    requires i < |ds| && (ds[i].Asking? || ds[i].k >= |log|)
    ensures Arrivals(IN_THE_CLEAR, log, ds[..i + 1]) == Arrivals(IN_THE_CLEAR, log, ds[..i])
    ensures Seen(log, ds, i) == (if ds[i].Asking? then Take else Arrive([])) && OnWire(Seen(log, ds, i))
  {
    assert ds[..i + 1][..i] == ds[..i] && ds[..i + 1][i] == ds[i];
    assert Arrivals(IN_THE_CLEAR, log, ds[..i]) + [] == Arrivals(IN_THE_CLEAR, log, ds[..i]);
  }

  /** What comes after an error, or was never sealed, changes nothing. */
  lemma {:induction false} NotListening(messages: seq<Message>, log: seq<Sealed>, ds: seq<Delivery>, i: nat, before: State, maxLen: nat)
    requires Sendable(messages) && GenuineLog(messages, log) && i < |ds| && ds[i].Bring? && |before.r.slots| == SSL_MAX_HANDSHAKE_FLIGHT
    requires !before.alive || ds[i].k >= |log|
    ensures OnWire(Seen(log, ds, i)) && Step(before, Seen(log, ds, i), maxLen) == before
  {
    hide Accepts, Parse, Genuine, Sendable;
    NothingForRing(before, maxLen);
    if Seen(log, ds, i).fs != [] { SeenPlain(messages, log[ds[i].k].plaintext); }
  }

  /**
    The receiving code as it is, from its start and over everything that the network brings and the handshake asks: the
    ring, the messages handed up and whether the connection lives are those of the run that FlightArrives is about.
   */
  method Receive(messages: seq<Message>, log: seq<Sealed>, ds: seq<Delivery>, maxLen: nat) returns (up: seq<Message>, alive: bool, reader: Reader)
    requires AllLabelled(log) && Sendable(messages) && GenuineLog(messages, log) && OnlyFlights(log)
    ensures forall i :: 0 <= i < |ds| ==> OnWire(Events(log, ds)[i])
    ensures fresh(reader) && reader.Valid() && State(reader.ring.View(), up, alive) == Run(START, Events(log, ds), maxLen)
  {
    hide Through, Arrivals, Seen, Events, Step, Feed, DtlsRead.View, DtlsRead.Valid, RecordReader.Valid, CurrentComplete, AllLabelled,
         Sendable, GenuineLog, OnlyFlights, RingOk, OnWire, Accepts;
    reader := new Reader(0);
    up, alive := [], true;
    NothingYet(log, maxLen);
    var i := 0;
    while i < |ds|
      invariant 0 <= i <= |ds| && fresh(reader) && reader.Valid() && reader.records.rEpoch == 0 && reader.records.nullCipher
      invariant fresh(reader.records) && fresh(reader.records.bitmap) && fresh(reader.ring.repr) && fresh(reader.ring) && fresh(reader.ring.incoming)
      invariant forall k :: 0 <= k < i ==> OnWire(Events(log, ds[..i])[k])
      invariant State(reader.ring.View(), up, alive) == Run(START, Events(log, ds[..i]), maxLen)
      invariant alive ==> reader.records.bitmap.seen == Through(Arrivals(IN_THE_CLEAR, log, ds[..i]))
    {
      ghost var before := State(reader.ring.View(), up, alive);
      EventsLonger(log, ds, i);
      if ds[i].Asking? {
        var got := AskOne(reader, maxLen, before);
        NotBrought(log, ds, i);
        if got.Some? {
          up := up + [got.value];
        }
      } else if alive && ds[i].k < |log| {
        alive := BringOne(reader, messages, log, ds, i, maxLen, before);
      } else {
        NotListening(messages, log, ds, i, before, maxLen);
        if alive { NotBrought(log, ds, i); }
      }
      RunLonger(START, Events(log, ds[..i]), Seen(log, ds, i), maxLen);
      i := i + 1;
    }
    assert ds[..i] == ds;
  }
}
