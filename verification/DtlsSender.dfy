/**
  The code that seals and sends a flight, against the walk through the flight that its records make.
 */
module DtlsSender {
  import opened Words
  import opened DtlsFragment
  import opened DtlsReplay
  import opened DtlsRecords
  import opened DtlsReceiver
  import opened DtlsTransport
  import opened DtlsFlight

  datatype SealResult = SealError | SealNoProgress | SealPartial | SealSuccess

  datatype SendResult = FlightSent | WriteBlocked | FlushBlocked | MtuTooSmall | SealFailed | Shutdown

  /** What a record of the flight protects. */
  function Payload(u: Unit): bytes
  {
    if u.Ccs? then [1] else if u.f.Wire() then Serialize(u.f) else []
  }

  /** A sealed record is this record of the flight, under the epoch of its message. */
  ghost predicate SealsUnit(flight: seq<Outgoing>, s: Sealed, u: Unit)
  {
    && u.index < |flight| && s.epoch == flight[u.index].epoch && s.plaintext == Payload(u)
    && s.typ == if u.Ccs? then 20 else 22
  }

  /** The records sealed since there were n of them are exactly these records of the flight. */
  ghost predicate Protects(flight: seq<Outgoing>, sealed: seq<Sealed>, n: nat, us: seq<Unit>)
  {
    |sealed| == n + |us| && forall k :: 0 <= k < |us| ==> SealsUnit(flight, sealed[n + k], us[k])
  }

  /** The handshake messages of a flight are messages of the connection, in their order. */
  predicate Tells(flight: seq<Outgoing>, messages: seq<Message>)
    requires FlightOk(flight)
  {
    && (forall i :: 0 <= i < |flight| && !flight[i].isCcs ==> Told(Whole(flight[i]), messages))
    && (forall i, j :: 0 <= i < j < |flight| && !flight[i].isCcs && !flight[j].isCcs ==> Whole(flight[i]).num < Whole(flight[j]).num)
  }

  predicate Told(w: Fragment, messages: seq<Message>)
  {
    w.num < |messages| && messages[w.num] == Message(w.typ, w.body) && w.off == 0 && w.len == |w.body|
  }

  /** Every handshake record sealed so far is a piece of one of the messages. */
  ghost predicate GenuineLog(messages: seq<Message>, sealed: seq<Sealed>)
  {
    forall k :: 0 <= k < |sealed| && sealed[k].typ == SSL3_RT_HANDSHAKE ==> GenuinePlain(messages, sealed[k].plaintext)
  }

  predicate GenuinePlain(messages: seq<Message>, s: bytes)
  {
    Parse(s).Some? && Parse(s).value.1 == [] && Genuine(messages, Parse(s).value.0)
  }

  lemma {:induction false} GenuineLogGrows(messages: seq<Message>, sealed: seq<Sealed>, m: Message)
    requires GenuineLog(messages, sealed)
    ensures GenuineLog(messages + [m], sealed)
  {
    hide Parse;
  }

  /** A piece of a message of the flight is a piece of a message of the connection. */
  lemma {:induction false} SealedGenuine(flight: seq<Outgoing>, messages: seq<Message>, p: Pos, u: Unit, before: seq<Sealed>, after: seq<Sealed>)
    requires FlightOk(flight) && Sendable(messages) && Tells(flight, messages) && Advance(flight, p, u).Some?
    requires GenuineLog(messages, before) && |after| == |before| + 1 && after[..|before|] == before && SealsUnit(flight, after[|before|], u)
    ensures GenuineLog(messages, after)
  {
    hide Parse, Serialize, WellFormed, Whole;
    if u.Cut? { PieceGenuine(flight, messages, p, u); }
    forall k | 0 <= k < |after| && after[k].typ == SSL3_RT_HANDSHAKE ensures GenuinePlain(messages, after[k].plaintext) {
      if k < |before| { assert after[k] == before[k]; }
    }
  }

  lemma {:induction false} PieceGenuine(flight: seq<Outgoing>, messages: seq<Message>, p: Pos, u: Unit)
    requires FlightOk(flight) && Sendable(messages) && Tells(flight, messages) && Advance(flight, p, u).Some? && u.Cut?
    ensures u.f.Wire() && Genuine(messages, u.f) && Parse(Serialize(u.f)) == Some((u.f, []))
  {
    hide Parse, Serialize, WellFormed, Whole;
    FlightAt(flight, p.written);
    assert Told(Whole(flight[p.written]), messages);
    ParseInverts(u.f, []);
    assert Serialize(u.f) + [] == Serialize(u.f);
  }

  /** The records that the network took are these entries of the log of sealed records. */
  ghost predicate Placed(flight: seq<Outgoing>, sealed: seq<Sealed>, us: seq<Unit>, places: seq<nat>)
  {
    |places| == |us| && forall k :: 0 <= k < |us| ==> places[k] < |sealed| && SealsUnit(flight, sealed[places[k]], us[k])
  }

  lemma {:induction false} PlacedGrows(flight: seq<Outgoing>, before: seq<Sealed>, after: seq<Sealed>, us: seq<Unit>, places: seq<nat>)
    requires Placed(flight, before, us, places) && before <= after
    ensures Placed(flight, after, us, places)
  {
    hide SealsUnit;
    forall k | 0 <= k < |us| ensures places[k] < |after| && SealsUnit(flight, after[places[k]], us[k]) { assert after[places[k]] == before[places[k]]; }
  }

  lemma {:induction false} PlacedInFlight(flight: seq<Outgoing>, m: Outgoing, sealed: seq<Sealed>, us: seq<Unit>, places: seq<nat>)
    requires Placed(flight, sealed, us, places)
    ensures Placed(flight + [m], sealed, us, places)
  {}

  lemma {:induction false} PlacedMore(flight: seq<Outgoing>, before: seq<Sealed>, after: seq<Sealed>, sent: seq<Unit>, places: seq<nat>, us: seq<Unit>)
    requires Placed(flight, before, sent, places) && before <= after && Protects(flight, after, |before|, us)
    ensures Placed(flight, after, sent + us, places + seq(|us|, i => |before| + i))
  {
    hide SealsUnit;
    PlacedGrows(flight, before, after, sent, places);
  }

  /** Adding a ChangeCipherSpec or the next message of the connection. */
  lemma {:induction false} TellsMore(flight: seq<Outgoing>, m: Outgoing, messages: seq<Message>)
    requires FlightOk(flight) && WellFormed(m) && (!m.isCcs ==> Whole(m).num == |messages| % U16)
    requires |messages| < U16 ==> Sendable(messages) && Tells(flight, messages)
    ensures var more := if m.isCcs then messages else messages + [Message(Whole(m).typ, Whole(m).body)];
            FlightOk(flight + [m]) && (|more| < U16 ==> Sendable(more) && Tells(flight + [m], more))
  {
    hide Parse;
  }

  /** A message standing in the flight, from its offset on. */
  lemma {:induction false} PieceAdvances(flight: seq<Outgoing>, p: Pos, todo: nat)
    requires FlightOk(flight) && PosOk(flight, p) && p.written < |flight| && !flight[p.written].isCcs
    requires p.offset + todo <= |Whole(flight[p.written]).body| && (todo == 0 ==> p.offset + todo == |Whole(flight[p.written]).body|)
    ensures var w := Whole(flight[p.written]);
            var f := Fragment(w.typ, w.len, w.num, p.offset, w.body[p.offset..p.offset + todo]);
            && f.Wire()
            && Advance(flight, p, Cut(p.written, f)) == Some(if p.offset + todo == |w.body| then Pos(p.written + 1, 0) else Pos(p.written, p.offset + todo))
  {
    hide Parse;
    assert WellFormed(flight[p.written]);
  }

  class FlightSender {
    const records: RecordWriter
    var outgoing: seq<Outgoing>
    var complete: bool                  // outgoing_messages_complete
    var written: nat                    // outgoing_written
    var offset: nat                     // outgoing_offset
    var handshakeWriteSeq: nat          // 16 bits
    var mtu: nat
    var transcript: bytes               // what the handshake has hashed
    ghost var messages: seq<Message>    // every handshake message of the connection
    ghost var sent: seq<Unit>           // what the network took since the flight was last started
    ghost var datagrams: seq<nat>       // the sizes of the packets it took
    ghost var history: seq<Attempt>     // the packets since the flight was last started
    ghost var refused: nat              // how often the network took nothing
    ghost var places: seq<nat>          // where in the log of sealed records those that were taken stand

    ghost predicate Base()
      reads this, records, records.writeSequence, records.lastWriteSequence
    {
      && records.Valid() && handshakeWriteSeq == |messages| % U16
      && |outgoing| <= SSL_MAX_HANDSHAKE_FLIGHT && FlightOk(outgoing) && PosOk(outgoing, Pos(written, offset))
      && (|messages| < U16 ==> Sendable(messages) && Tells(outgoing, messages) && GenuineLog(messages, records.sealed))
    }

    /** The packets so far account for where sending stands and for what the network has taken. */
    ghost predicate Valid()
      reads this, records, records.writeSequence, records.lastWriteSequence
    {
      Base() && Replay(outgoing, history) == Some(Sending(Pos(written, offset), sent)) && Placed(outgoing, records.sealed, sent, places)
    }

    constructor (recordVersion: nat)
      requires recordVersion < 0x1_0000
      ensures Valid() && outgoing == [] && messages == [] && !complete && history == [] && fresh(records)
      ensures written == 0 && offset == 0 && mtu == 0 && transcript == [] && datagrams == [] && refused == 0 && records.sealed == []
    {
      records := new RecordWriter(recordVersion);
      outgoing, complete, written, offset, handshakeWriteSeq, mtu, transcript := [], false, 0, 0, 0, 0, [];
      messages, sent, datagrams, history, places, refused := [], [], [], [], [], 0;
    }

    // -------------------------------------------------------------- building the flight

    /** dtls_clear_outgoing_messages */
    method ClearOutgoing()
      requires Valid()
      modifies this`outgoing, this`complete, this`written, this`offset, this`sent, this`history, this`places
      ensures Valid() && outgoing == [] && !complete && history == [] && sent == [] && written == 0 && offset == 0
    {
      hide RecordWriter.Valid, Sendable;
      outgoing, complete, written, offset, sent, history, places := [], false, 0, 0, [], [], [];
    }

    /** add_outgoing */
    method AddOutgoing(isCcs: bool, data: bytes) returns (ok: bool)
      requires Valid() && WellFormed(Outgoing(0, isCcs, data))
      requires !isCcs ==> Parse(data).value.0.num == handshakeWriteSeq
      modifies this
      ensures Valid() && (ok <==> old(complete) || old(|outgoing|) < SSL_MAX_HANDSHAKE_FLIGHT)
      ensures ok ==> outgoing == (if old(complete) then [] else old(outgoing)) + [Outgoing(records.wEpoch, isCcs, data)] && !complete
      ensures ok && !isCcs ==> var w := Parse(data).value.0; messages == old(messages) + [Message(w.typ, w.body)]
      ensures !ok || isCcs ==> messages == old(messages)
      ensures ok && old(complete) ==> history == [] && sent == [] && written == 0 && offset == 0
      ensures !(ok && old(complete)) ==> history == old(history) && sent == old(sent) && written == old(written) && offset == old(offset)
      ensures mtu == old(mtu) && datagrams == old(datagrams)
      ensures transcript == old(transcript) + if ok && !isCcs then data else []
    {
      hide Parse, Replay, RecordWriter.Valid, Sendable, Tells, FlightOk, Placed, GenuineLog, WellFormed, Whole, PosOk;
      if complete {
        ClearOutgoing();
      }
      if |outgoing| >= SSL_MAX_HANDSHAKE_FLIGHT {
        return false;
      }
      ghost var m := Outgoing(records.wEpoch, isCcs, data);
      AnyEpoch(records.wEpoch, isCcs, data);
      TellsMore(outgoing, m, messages);
      PosStillOk(outgoing, m, Pos(written, offset));
      ReplayGrows(outgoing, m, history);
      PlacedInFlight(outgoing, m, records.sealed, sent, places);
      if !isCcs {
        ghost var w := Parse(data).value.0;
        if |messages| < U16 { GenuineLogGrows(messages, records.sealed, Message(w.typ, w.body)); }
        messages := messages + [Message(w.typ, w.body)];
        transcript := transcript + data;
        handshakeWriteSeq := (handshakeWriteSeq + 1) % U16;
      }
      outgoing := outgoing + [Outgoing(records.wEpoch, isCcs, data)];
      return true;
    }

    static lemma {:induction false} AnyEpoch(epoch: nat, isCcs: bool, data: bytes)
      requires WellFormed(Outgoing(0, isCcs, data))
      ensures WellFormed(Outgoing(epoch, isCcs, data))
      ensures !isCcs ==> Whole(Outgoing(epoch, isCcs, data)) == Whole(Outgoing(0, isCcs, data)) && Parse(data) == Some((Whole(Outgoing(0, isCcs, data)), []))
    {
      hide Parse;
    }

    static lemma {:induction false} PosStillOk(flight: seq<Outgoing>, m: Outgoing, p: Pos)
      requires FlightOk(flight) && WellFormed(m) && FlightOk(flight + [m]) && PosOk(flight, p)
      ensures PosOk(flight + [m], p)
    {}

    /** dtls1_init_message, dtls1_finish_message and dtls1_add_message. */
    method AddMessage(typ: byte, body: bytes) returns (ok: bool)
      requires Valid()
      modifies this
      ensures Valid() && (ok <==> |body| < U24 && (old(complete) || old(|outgoing|) < SSL_MAX_HANDSHAKE_FLIGHT))
      ensures messages == old(messages) + if ok then [Message(typ, body)] else []
      ensures ok ==> transcript == old(transcript) + Serialize(Fragment(typ, |body|, old(handshakeWriteSeq), 0, body))
      ensures ok ==> outgoing == (if old(complete) then [] else old(outgoing))
                                 + [Outgoing(records.wEpoch, false, Serialize(Fragment(typ, |body|, old(handshakeWriteSeq), 0, body)))]
      ensures !ok ==> transcript == old(transcript)
    {
      hide PutU16, PutU24;
      if |body| >= U24 {
        return false;
      }
      var raw := [typ] + PutU24(0) + PutU16(handshakeWriteSeq) + PutU24(0) + PutU24(|body|) + body;
      Lengths(handshakeWriteSeq, |body|);
      var data := raw[..1] + raw[9..12] + raw[4..];
      ghost var w := Fragment(typ, |body|, handshakeWriteSeq, 0, body);
      assert data == Serialize(w) && data + [] == data;
      ParseInverts(w, []);
      ok := AddOutgoing(false, data);
    }

    /** dtls1_add_change_cipher_spec: part of the flight, but neither a message nor hashed. */
    method AddChangeCipherSpec() returns (ok: bool)
      requires Valid()
      modifies this
      ensures Valid() && (ok <==> old(complete) || old(|outgoing|) < 7)
      ensures ok ==> outgoing == (if old(complete) then [] else old(outgoing)) + [Outgoing(records.wEpoch, true, [])] && !complete
      ensures messages == old(messages) && transcript == old(transcript)
    {
      ok := AddOutgoing(true, []);
    }

    static lemma {:induction false} Lengths(num: nat, len: nat)
      requires num < U16 && len < U24
      ensures |PutU24(0)| == 3 && |PutU16(num)| == 2 && |PutU24(len)| == 3
    {}

    // -------------------------------------------------------------- sealing

    /** Whether a message belongs to the epoch before the current one. */
    function Previous(m: Outgoing): bool
      reads this, records
    {
      records.wEpoch >= 1 && m.epoch == records.wEpoch - 1
    }

    /** The room a packet needs to make any progress on a message. */
    function Need(m: Outgoing): nat
      reads this, records
    {
      records.Overhead(Previous(m)) + if m.isCcs then 1 else DTLS1_HM_HEADER_LENGTH + 1
    }

    /** Sealing has failed since the cipher had failed n times, because it did again or because a counter has come round. */
    ghost predicate Hindered(n: nat)
      reads records`refusals, records`exhausted
    {
      records.refusals > n || records.exhausted
    }

    /** Messages of the current epoch and of the one before it can be sealed, and no others. */
    predicate Live(m: Outgoing)
      reads records`wEpoch
    {
      m.epoch == records.wEpoch || m.epoch + 1 == records.wEpoch
    }

    /** One record of the flight, sealed under the epoch of its message. */
    method SealUnit(typ: byte, plaintext: bytes, previous: bool, maxOut: nat, ghost u: Unit) returns (record: Option<bytes>)
      requires Base() && written < |outgoing| && Advance(outgoing, Pos(written, offset), u).Some?
      requires plaintext == Payload(u) && typ == (if u.Ccs? then SSL3_RT_CHANGE_CIPHER_SPEC else SSL3_RT_HANDSHAKE)
      requires (previous ==> records.wEpoch >= 1) && outgoing[written].epoch == if previous then records.wEpoch - 1 else records.wEpoch
      modifies records`sealed, records`exhausted, records`refusals, records.writeSequence, records.lastWriteSequence
      ensures Base() && old(records.refusals) <= records.refusals
      ensures record.None? ==> records.sealed == old(records.sealed) && (Hindered(old(records.refusals)) || maxOut < 13 || |plaintext| + records.Overhead(previous) >= 0x1_0000)
      ensures record.Some? ==>
                && records.refusals == old(records.refusals) && (records.exhausted ==> old(records.exhausted))
                && 0 < |record.value| <= maxOut
                && |records.sealed| == |old(records.sealed)| + 1 && records.sealed[..|old(records.sealed)|] == old(records.sealed)
                && SealsUnit(outgoing, records.sealed[|old(records.sealed)|], u)
    {
      hide Tells, Sendable, RecordWriter.Valid, Serialize, Walk, ParseRecord, BigEndian, Parse, GenuineLog, FlightOk, WellFormed, PosOk, Whole, Payload;
      ghost var before := records.sealed;
      record := records.SealRecord(typ, plaintext, previous, maxOut);
      if record.Some? {
        assert records.sealed[..|before|] == before;
        if |messages| < U16 { SealedGenuine(outgoing, messages, Pos(written, offset), u, before, records.sealed); }
      }
    }

    static lemma {:induction false} StandsAt(flight: seq<Outgoing>, p: Pos)
      requires FlightOk(flight) && PosOk(flight, p) && p.written < |flight|
      ensures WellFormed(flight[p.written])
      ensures if flight[p.written].isCcs then p.offset == 0 && Advance(flight, p, Ccs(p.written)) == Some(Pos(p.written + 1, 0))
              else var w := Whole(flight[p.written]);
                   w.Wire() && w.off == 0 && w.len == |w.body| && (p.offset < |w.body| || p.offset == 0)
      ensures PosOk(flight, Pos(p.written, 0))
    {
      hide Parse;
    }

    static lemma {:induction false} PartWay(flight: seq<Outgoing>, written: nat, offset: nat)
      requires FlightOk(flight) && written < |flight| && !flight[written].isCcs && offset < |Whole(flight[written]).body|
      ensures PosOk(flight, Pos(written, offset))
    {}

    static lemma {:induction false} AtEnd(flight: seq<Outgoing>, p: Pos)
      requires FlightOk(flight) && PosOk(flight, p) && p.written >= |flight|
      ensures p == Pos(|flight|, 0)
    {}

    /** The half of seal_next_message that cuts the next piece off a message, as large as the room allows. */
    method SealPiece(previous: bool, maxOut: nat) returns (result: SealResult, record: bytes, ghost u: Unit)
      requires Base() && written < |outgoing| && !outgoing[written].isCcs
      requires (previous ==> records.wEpoch >= 1) && outgoing[written].epoch == if previous then records.wEpoch - 1 else records.wEpoch
      requires maxOut >= DTLS1_HM_HEADER_LENGTH + 1 + records.Overhead(previous)
      modifies this`offset, records`sealed, records`exhausted, records`refusals, records.writeSequence, records.lastWriteSequence
      ensures Base() && old(records.refusals) <= records.refusals && result != SealNoProgress
      ensures result == SealError ==>
                offset == old(offset) && records.sealed == old(records.sealed) && (Hindered(old(records.refusals)) || maxOut >= 0x1_0000)
      ensures result == SealPartial ==> u.Cut? && |u.f.body| == maxOut - DTLS1_HM_HEADER_LENGTH - records.Overhead(previous)
      ensures result == SealPartial || result == SealSuccess ==>
                && records.refusals == old(records.refusals) && (records.exhausted ==> old(records.exhausted))
                && Advance(outgoing, Pos(written, old(offset)), u) == Some(if result == SealSuccess then Pos(written + 1, 0) else Pos(written, offset))
                && (result == SealSuccess ==> offset == 0) && 0 < |record| <= maxOut && u.Cut? && u.f.Wire()
                && |records.sealed| == |old(records.sealed)| + 1 && records.sealed[..|old(records.sealed)|] == old(records.sealed)
                && SealsUnit(outgoing, records.sealed[|old(records.sealed)|], u)
    {
      hide Tells, Sendable, RecordWriter.Valid, Serialize, Walk, Parse, GenuineLog, FlightOk, WellFormed, Whole, PosOk, SealsUnit;
      StandsAt(outgoing, Pos(written, offset));
      var overhead, prefix := records.Overhead(previous), records.PrefixLen(previous);
      records.PrefixFits(previous);
      var w := Whole(outgoing[written]);
      var body := w.body[offset..];
      var todo := |body|;
      if todo > maxOut - DTLS1_HM_HEADER_LENGTH - overhead {
        todo := maxOut - DTLS1_HM_HEADER_LENGTH - overhead;
      }
      var f := Fragment(w.typ, w.len, w.num, offset, body[..todo]);
      assert f.body == w.body[offset..offset + todo];
      PieceAdvances(outgoing, Pos(written, offset), todo);
      u := Cut(written, f);
      SerializeLength(f);
      var frag := Serialize(f);
      assert |frag| <= maxOut - prefix;
      var sealed := SealUnit(SSL3_RT_HANDSHAKE, frag, previous, maxOut, u);
      if sealed.None? {
        return SealError, [], u;
      }
      if todo == |body| {
        offset := 0;
        return SealSuccess, sealed.value, u;
      }
      offset := offset + todo;
      PartWay(outgoing, written, offset);
      return SealPartial, sealed.value, u;
    }

    /** seal_next_message */
    method SealNextMessage(maxOut: nat) returns (result: SealResult, record: bytes, ghost u: Unit)
      requires Base() && written < |outgoing|
      modifies this`offset, records`sealed, records`exhausted, records`refusals, records.writeSequence, records.lastWriteSequence
      ensures Base() && old(records.refusals) <= records.refusals
      ensures result == SealNoProgress <==> Live(outgoing[written]) && maxOut < Need(outgoing[written])
      ensures result == SealError ==> !Live(outgoing[written]) || Hindered(old(records.refusals)) || maxOut >= 0x1_0000
      ensures result != SealError ==>
                records.refusals == old(records.refusals) && (records.exhausted ==> old(records.exhausted))
      ensures result == SealPartial ==> u.Cut? && |u.f.body| == maxOut - (Need(outgoing[written]) - 1)
      ensures result == SealError || result == SealNoProgress ==> offset == old(offset) && records.sealed == old(records.sealed)
      ensures result == SealPartial || result == SealSuccess ==>
                && Advance(outgoing, Pos(written, old(offset)), u) == Some(if result == SealSuccess then Pos(written + 1, 0) else Pos(written, offset))
                && (result == SealSuccess ==> offset == 0) && 0 < |record| <= maxOut && (u.Cut? ==> u.f.Wire())
                && |records.sealed| == |old(records.sealed)| + 1 && records.sealed[..|old(records.sealed)|] == old(records.sealed)
                && SealsUnit(outgoing, records.sealed[|old(records.sealed)|], u)
      ensures !Live(outgoing[written]) ==> result == SealError
    {
      hide Tells, Sendable, RecordWriter.Valid, Serialize, Walk, Parse, GenuineLog, FlightOk, WellFormed, Whole, PosOk, SealsUnit;
      result, record, u := SealError, [], Ccs(written);
      StandsAt(outgoing, Pos(written, offset));
      var msg := outgoing[written];
      var previous := false;
      if records.wEpoch >= 1 && msg.epoch == records.wEpoch - 1 {
        previous := true;
      } else if msg.epoch != records.wEpoch {
        return;
      }
      var overhead, prefix := records.Overhead(previous), records.PrefixLen(previous);
      records.PrefixFits(previous);
      if msg.isCcs {
        if maxOut < 1 + overhead {
          result := SealNoProgress;
          return;
        }
        var ccs := SealUnit(SSL3_RT_CHANGE_CIPHER_SPEC, [SSL3_MT_CCS], previous, maxOut, u);
        if ccs.None? {
          return;
        }
        return SealSuccess, ccs.value, u;
      }
      if maxOut < DTLS1_HM_HEADER_LENGTH + 1 + overhead || maxOut < prefix {
        result := SealNoProgress;
        return;
      }
      result, record, u := SealPiece(previous, maxOut);
    }

    static lemma {:induction false} NothingProtected(flight: seq<Outgoing>, sealed: seq<Sealed>)
      ensures Protects(flight, sealed, |sealed|, [])
    {}

    static lemma {:induction false} ProtectsMore(flight: seq<Outgoing>, before: seq<Sealed>, after: seq<Sealed>, n: nat, us: seq<Unit>, u: Unit)
      requires Protects(flight, before, n, us) && |after| == |before| + 1 && after[..|before|] == before
      requires SealsUnit(flight, after[|before|], u)
      ensures Protects(flight, after, n, us + [u])
    {
      hide SealsUnit;
      forall k | 0 <= k < |us| + 1
        ensures SealsUnit(flight, after[n + k], (us + [u])[k])
      {
        if k < |us| { assert after[n + k] == before[n + k]; }
      }
    }

    static lemma {:induction false} SerializeLength(f: Fragment)
      requires f.Wire()
      ensures |Serialize(f)| == DTLS1_HM_HEADER_LENGTH + |f.body|
    {}

    /** seal_next_packet: a packet of the records that come next, as many as fit. */
    method SealNextPacket(maxOut: nat) returns (packet: Option<bytes>, tooSmall: bool, ghost us: seq<Unit>)
      requires Base() && written < |outgoing|
      modifies this`written, this`offset, records`sealed, records`exhausted, records`refusals, records.writeSequence, records.lastWriteSequence
      ensures Base() && old(records.refusals) <= records.refusals && (packet.Some? ==> records.refusals == old(records.refusals))
      ensures packet.None? && !tooSmall ==>
                written < |outgoing| && (!Live(outgoing[written]) || Hindered(old(records.refusals)) || maxOut >= 0x1_0000)
      ensures packet.Some? && written < |outgoing| ==>
                offset > 0 || (Live(outgoing[written]) && maxOut < |packet.value| + Need(outgoing[written]))
      ensures Walk(outgoing, old(Pos(written, offset)), us) == Some(Pos(written, offset))
      ensures old(records.sealed) <= records.sealed && Protects(outgoing, records.sealed, old(|records.sealed|), us)
      ensures packet.Some? ==>
                !tooSmall && us != [] && 0 < |packet.value| <= maxOut && Before(old(Pos(written, offset)), Pos(written, offset))
      ensures packet.None? && tooSmall ==>
                us == [] && written == old(written) && offset == old(offset) && maxOut < Need(outgoing[written])
    {
      hide Advance, Tells, Sendable, RecordWriter.Valid, Serialize, ParseRecord, BigEndian, Parse, FlightOk, WellFormed, PosOk, Protects, SealsUnit, GenuineLog;
      NothingProtected(outgoing, records.sealed);
      var out: bytes, room: nat := [], maxOut;
      us := [];
      ghost var start := Pos(written, offset);
      var madeProgress := false;
      while written < |outgoing|
        invariant records.refusals == old(records.refusals) && offset == (if madeProgress then 0 else old(offset))
        invariant Base() && |out| + room == maxOut && (madeProgress <==> us != []) && (madeProgress ==> out != [])
        invariant Walk(outgoing, start, us) == Some(Pos(written, offset))
        invariant old(records.sealed) <= records.sealed && Protects(outgoing, records.sealed, old(|records.sealed|), us)
        invariant if madeProgress then Before(start, Pos(written, offset)) else Pos(written, offset) == start && out == []
        decreases |outgoing| - written
      {
        ghost var here, before := Pos(written, offset), records.sealed;
        var result, record, u := SealNextMessage(room);
        if result == SealError {
          return None, false, us;
        }
        if result == SealNoProgress {
          break;
        }
        WalkExtends(outgoing, start, us, u);
        ProtectsMore(outgoing, before, records.sealed, old(|records.sealed|), us, u);
        AdvanceIncreases(outgoing, here, u);
        out, room, us, madeProgress := out + record, room - |record|, us + [u], true;
        if result == SealPartial {
          break;
        }
        StartOk(outgoing, written);
        written := written + 1;
      }
      if !madeProgress {
        return None, true, us;
      }
      return Some(out), false, us;
    }

    static lemma {:induction false} StartOk(flight: seq<Outgoing>, written: nat)
      requires FlightOk(flight) && written < |flight|
      ensures PosOk(flight, Pos(written + 1, 0))
    {}

    // -------------------------------------------------------------- writing

    /** BIO_write of one datagram, which the network takes or does not. */
    method BioWrite(packet: bytes, ghost us: seq<Unit>) returns (ret: int)
      requires 0 < |packet| <= mtu
      modifies this`sent, this`datagrams, this`refused
      ensures ret > 0 ==> sent == old(sent) + us && datagrams == old(datagrams) + [|packet|] && refused == old(refused)
      ensures ret <= 0 ==> sent == old(sent) && datagrams == old(datagrams) && refused == old(refused) + 1
    {
      ret := *;
      if ret > 0 {
        sent, datagrams := sent + us, datagrams + [|packet|];
      } else {
        refused := refused + 1;
      }
    }

    /** BIO_flush */
    method BioFlush() returns (ok: bool)
      modifies this`refused
      ensures refused == old(refused) + if ok then 0 else 1
    {
      ok := *;
      if !ok {
        refused := refused + 1;
      }
    }

    /** dtls1_update_mtu. `query` is what the BIO answers when asked for its MTU. */
    method UpdateMtu(noQuery: bool, query: int)
      modifies this`mtu
      ensures old(mtu) >= 228 || noQuery ==> mtu == old(mtu)
      ensures mtu >= 228 <==> old(mtu) >= 228 || !noQuery
      ensures old(mtu) < 228 && !noQuery ==> mtu == if 228 <= query <= 0x4000_0000 then query else 1472
    {
      if mtu < MIN_MTU && !noQuery {
        if 0 <= query <= 0x4000_0000 && query >= MIN_MTU {
          mtu := query;
        } else {
          mtu := DEFAULT_MTU;
        }
      }
    }

    /** The bytes still to send of the message being sent. */
    static function Remaining(flight: seq<Outgoing>, p: Pos): nat
      requires FlightOk(flight) && PosOk(flight, p)
    {
      if p.written < |flight| && !flight[p.written].isCcs then |Whole(flight[p.written]).body| - p.offset else 0
    }

    static lemma {:induction false} RemainingFalls(flight: seq<Outgoing>, p: Pos, q: Pos)
      requires FlightOk(flight) && PosOk(flight, p) && PosOk(flight, q) && Before(p, q)
      ensures p.written < q.written <= |flight| || (p.written == q.written && Remaining(flight, q) < Remaining(flight, p))
    {
      hide WellFormed;
    }

    /** One turn of the loop of send_flight: the next packet, taken back if the network does not take it. */
    method SendPacket() returns (stop: Option<SendResult>)
      requires Valid() && written < |outgoing|
      modifies this`written, this`offset, this`sent, this`datagrams, this`refused, this`history, this`places,
               records`sealed, records`exhausted, records`refusals, records.writeSequence, records.lastWriteSequence
      ensures Valid()
      ensures if stop == Some(MtuTooSmall) then history == old(history)
              else |history| == |old(history)| + 1 && old(history) <= history && Outcome(stop, history[|old(history)|])
      ensures sent == old(sent) + if stop.None? then history[|old(history)|].us else []
      ensures Pos(written, offset) == old(Pos(written, offset)) || stop.None? || stop == Some(SealFailed)
      ensures stop.None? ==> Before(old(Pos(written, offset)), Pos(written, offset))
      ensures stop.Some? ==> datagrams == old(datagrams)
      ensures refused == old(refused) + if stop == Some(WriteBlocked) then 1 else 0
      ensures old(records.refusals) <= records.refusals && (stop.None? ==> records.refusals == old(records.refusals))
      ensures stop == Some(SealFailed) ==>
                written < |outgoing| && (!Live(outgoing[written]) || Hindered(old(records.refusals)) || mtu >= 0x1_0000)
      ensures stop.None? ==> |datagrams| == |old(datagrams)| + 1 && old(datagrams) <= datagrams && 0 < datagrams[|old(datagrams)|] <= mtu
      ensures stop == Some(MtuTooSmall) ==> written < |outgoing| && mtu < Need(outgoing[written])
    {
      hide Advance, Tells, Sendable, RecordWriter.Valid, Serialize, ParseRecord, BigEndian, Parse, FlightOk, WellFormed, Walk, PosOk, Whole, Protects, Before, Replay, Placed, GenuineLog;
      var oldWritten, oldOffset := written, offset;
      ghost var start, taken, before := Pos(written, offset), sent, records.sealed;
      var packet, tooSmall, us := SealNextPacket(mtu);
      PlacedGrows(outgoing, before, records.sealed, sent, places);
      if packet.None? {
        if tooSmall {
          return Some(MtuTooSmall);
        }
        ReplayStep(outgoing, history, start, sent, GivenUp(us), Pos(written, offset));
        history := history + [GivenUp(us)];
        return Some(SealFailed);
      }
      var bioRet := BioWrite(packet.value, us);
      if bioRet <= 0 {
        ReplayStep(outgoing, history, start, sent, Refused(us), Pos(written, offset));
        history := history + [Refused(us)];
        written, offset := oldWritten, oldOffset;
        return Some(WriteBlocked);
      }
      PlacedMore(outgoing, before, records.sealed, taken, places, us);
      places := places + seq(|us|, i => |before| + i);
      ReplayStep(outgoing, history, start, taken, Taken(us), Pos(written, offset));
      history := history + [Taken(us)];
      return None;
    }

    static predicate Outcome(stop: Option<SendResult>, a: Attempt)
    {
      match stop
      case None => a.Taken?
      case Some(WriteBlocked) => a.Refused?
      case Some(SealFailed) => a.GivenUp?
      case _ => false
    }

    static lemma {:induction false} ReplayStep(flight: seq<Outgoing>, history: seq<Attempt>, p: Pos, sent: seq<Unit>, a: Attempt, q: Pos)
      requires FlightOk(flight) && Replay(flight, history) == Some(Sending(p, sent)) && Walk(flight, p, a.us) == Some(q)
      ensures Replay(flight, history + [a]) == Some(Sending(if a.Refused? then p else q, if a.Taken? then sent + a.us else sent))
    {
      hide FlightOk, Walk;
      assert (history + [a])[..|history|] == history;
    }

    static lemma {:induction false} LostStep(history: seq<Attempt>, a: Attempt)
      ensures Lost(history + [a]) == Lost(history) + if a.GivenUp? then a.us else []
    {
      assert (history + [a])[..|history|] == history;
    }

    /** What a call added: packets that were taken, and at most one that was not, in which case it stopped there. */
    static predicate Added(before: seq<Attempt>, after: seq<Attempt>, ret: SendResult)
    {
      && before <= after
      && (forall k :: |before| <= k < |after| ==> after[k].Taken? || (k == |after| - 1 && Outcome(Some(ret), after[k])))
      && (ret == SealFailed ==> |after| > |before| && after[|after| - 1].GivenUp?)
    }

    /**
      send_flight. However often writing fails and is taken up again, what the network took is the part of
      the flight up to where sending stands, in datagrams no larger than the MTU. Only a packet that was given
      up because sealing failed leaves a gap: the records sealed into it are passed and never sent.
     */
    method SendFlight(shutdown: bool, noQuery: bool, query: int) returns (ret: SendResult)
      requires Valid()
      modifies this`mtu, this`written, this`offset, this`sent, this`datagrams, this`refused, this`history, this`places,
               records`sealed, records`exhausted, records`refusals, records.writeSequence, records.lastWriteSequence
      ensures Valid()
      ensures old(sent) <= sent && old(datagrams) <= datagrams
      ensures forall i :: |old(datagrams)| <= i < |datagrams| ==> 0 < datagrams[i] <= mtu
      ensures Added(old(history), history, ret)
      ensures Lost(history) == old(Lost(history)) + if ret == SealFailed then history[|history| - 1].us else []
      ensures Walk(outgoing, Pos(0, 0), sent) == Some(Pos(written, offset)) <==> Lost(history) == []
      ensures ret == FlightSent ==> written == |outgoing| && offset == 0
      ensures ret == MtuTooSmall ==> written < |outgoing| && mtu < Need(outgoing[written])
      ensures ret == Shutdown <==> shutdown
      ensures refused == old(refused) + if ret == WriteBlocked || ret == FlushBlocked then 1 else 0
      ensures ret == SealFailed ==>
                written < |outgoing| && (!Live(outgoing[written]) || Hindered(old(records.refusals)) || mtu >= 0x1_0000)
      ensures ret == FlushBlocked ==> written == |outgoing|
    {
      hide Advance, Tells, Sendable, RecordWriter.Valid, FlightOk, WellFormed, Walk, Whole, Remaining, Replay, Lost, Placed, GenuineLog, PosOk, Live, Hindered, Need;
      if shutdown {
        NothingLostExactly(outgoing, history);
        return Shutdown;
      }
      UpdateMtu(noQuery, query);
      while written < |outgoing|
        invariant Valid() && old(sent) <= sent && old(datagrams) <= datagrams
        invariant Added(old(history), history, FlightSent) && Lost(history) == old(Lost(history))
        invariant refused == old(refused) && records.refusals == old(records.refusals)
        invariant forall i :: |old(datagrams)| <= i < |datagrams| ==> 0 < datagrams[i] <= mtu
        decreases |outgoing| - written, Remaining(outgoing, Pos(written, offset))
      {
        ghost var here, before := Pos(written, offset), history;
        var stop := SendPacket();
        if stop != Some(MtuTooSmall) {
          LostStep(before, history[|before|]);
          assert history == before + [history[|before|]];
        }
        if stop.Some? {
          NothingLostExactly(outgoing, history);
          return stop.value;
        }
        RemainingFalls(outgoing, here, Pos(written, offset));
      }
      NothingLostExactly(outgoing, history);
      AtEnd(outgoing, Pos(written, offset));
      var flushed := BioFlush();
      if !flushed {
        return FlushBlocked;
      }
      return FlightSent;
    }

    /**
      dtls1_flush_flight. Success means that the whole flight is on the wire exactly if no packet with records in
      it was given up since the flight was started.
     */
    method FlushFlight(shutdown: bool, noQuery: bool, query: int) returns (ret: SendResult)
      requires Valid()
      modifies this`complete, this`mtu, this`written, this`offset, this`sent, this`datagrams, this`refused, this`history, this`places,
               records`sealed, records`exhausted, records`refusals, records.writeSequence, records.lastWriteSequence
      ensures Valid() && complete && old(sent) <= sent
      ensures ret == Shutdown <==> shutdown
      ensures refused == old(refused) + if ret == WriteBlocked || ret == FlushBlocked then 1 else 0
      ensures ret == SealFailed ==>
                written < |outgoing| && (!Live(outgoing[written]) || Hindered(old(records.refusals)) || mtu >= 0x1_0000)
      ensures ret == MtuTooSmall ==> written < |outgoing| && mtu < Need(outgoing[written])
      ensures Added(old(history), history, ret)
      ensures Lost(history) == old(Lost(history)) + if ret == SealFailed then history[|history| - 1].us else []
      ensures ret == FlightSent ==> (Walk(outgoing, Pos(0, 0), sent) == Some(Pos(|outgoing|, 0)) <==> old(Lost(history)) == [])
      ensures ret == FlightSent ==> (AllArriving(outgoing, sent) <==> old(Lost(history)) == [])
    {
      hide Advance, Tells, Sendable, RecordWriter.Valid, FlightOk, Walk, Replay, Lost, AllArriving, Added, Placed, GenuineLog;
      complete := true;
      ret := SendFlight(shutdown, noQuery, query);
      if ret == FlightSent { WholeFlightExactly(outgoing, history); }
    }

    static lemma {:induction false} StartsOver(flight: seq<Outgoing>, sealed: seq<Sealed>)
      requires FlightOk(flight)
      ensures Replay(flight, []) == Some(Sending(Pos(0, 0), [])) && PosOk(flight, Pos(0, 0)) && Placed(flight, sealed, [], []) && Lost([]) == []
    {}

    /** dtls1_retransmit_outgoing_messages: the whole flight again, from its start, whatever was lost before. */
    method Retransmit(shutdown: bool, noQuery: bool, query: int) returns (ret: SendResult)
      requires Valid()
      modifies this`mtu, this`written, this`offset, this`sent, this`datagrams, this`refused, this`history, this`places,
               records`sealed, records`exhausted, records`refusals, records.writeSequence, records.lastWriteSequence
      ensures Valid() && Added([], history, ret)
      ensures ret == Shutdown <==> shutdown
      ensures refused == old(refused) + if ret == WriteBlocked || ret == FlushBlocked then 1 else 0
      ensures ret == SealFailed ==>
                written < |outgoing| && (!Live(outgoing[written]) || Hindered(old(records.refusals)) || mtu >= 0x1_0000)
      ensures ret == MtuTooSmall ==> written < |outgoing| && mtu < Need(outgoing[written])
      ensures Lost(history) == if ret == SealFailed then history[|history| - 1].us else []
      ensures ret == FlightSent ==> Walk(outgoing, Pos(0, 0), sent) == Some(Pos(|outgoing|, 0)) && AllArriving(outgoing, sent)
    {
      hide Advance, Tells, Sendable, RecordWriter.Valid, AllArriving, GenuineLog, FlightOk, WellFormed, Walk, Replay, Placed, PosOk, Lost, Added;
      StartsOver(outgoing, records.sealed);
      written, offset, sent, history, places := 0, 0, [], [], [];
      ret := SendFlight(shutdown, noQuery, query);
      if ret == FlightSent { WholeFlightExactly(outgoing, history); }
    }
  }
}
