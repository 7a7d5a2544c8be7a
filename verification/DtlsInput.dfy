/**
  The receiving side as a whole: records pass the replay window, handshake records go into the
  ring of messages, a ChangeCipherSpec is remembered, and the keys change only when nothing is
  left over (sections 4.1 and 4.2.2 of RFC 6347).
 */
module DtlsInput {
  import opened Words
  import opened DtlsFragment
  import opened DtlsReassembly
  import opened DtlsReceiver
  import opened DtlsReplay

  /** ssl_open_record_t */
  datatype OpenResult = Success | Discard | Partly | Closed | Failed

  /** A message that is complete stays so until it is handed up, whatever else arrives. */
  lemma {:induction false} AcceptKeepsCurrent(r: Receiver, f: Fragment, epoch: nat, maxLen: nat)
    requires RingOk(r) && CurrentComplete(r) && Accept(r, f, epoch, maxLen).Accepted?
    ensures CurrentComplete(Accept(r, f, epoch, maxLen).r)
    ensures Slot(Accept(r, f, epoch, maxLen).r, r.readSeq) == Slot(r, r.readSeq)
  {
    hide Piece;
    var k := r.readSeq % SSL_MAX_HANDSHAKE_FLIGHT;
    assert SlotOk(r.readSeq, k, r.slots[k]);
  }

  lemma {:induction false} RecordKeepsCurrent(r: Receiver, s: bytes, epoch: nat, maxLen: nat)
    requires RingOk(r) && CurrentComplete(r)
    ensures var after := AcceptRecord(r, s, epoch, maxLen).0;
            CurrentComplete(after) && Slot(after, r.readSeq) == Slot(r, r.readSeq)
    decreases |s|
  {
    hide Accept;
    if s != [] && Parse(s).Some? {
      SerializeInverts(s);
      var (f, rest) := Parse(s).value;
      if Accept(r, f, epoch, maxLen).Accepted? {
        AcceptKeepsRing(r, f, epoch, maxLen);
        AcceptKeepsCurrent(r, f, epoch, maxLen);
        RecordKeepsCurrent(Accept(r, f, epoch, maxLen).r, rest, epoch, maxLen);
      }
    }
  }

  class Reader {
    const records: RecordReader
    const ring: DtlsRead
    var hasChangeCipherSpec: bool
    var hasMessage: bool

    ghost predicate Valid()
      reads this, records, records.bitmap, ring, ring.repr
    {
      && ring.Valid() && records !in ring.repr && records.bitmap !in ring.repr && this !in ring.repr
      && records.Valid() && (hasMessage ==> CurrentComplete(ring.View()))
    }

    constructor (recordVersion: nat)
      ensures Valid() && ring.View() == EMPTY && !hasChangeCipherSpec && !hasMessage
      ensures records.rEpoch == 0 && records.nullCipher && records.bitmap.seen == {} && fresh(records) && fresh(records.bitmap) && fresh(ring.repr)
      ensures fresh(ring) && fresh(ring.incoming)
    {
      records := new RecordReader(recordVersion);
      ring := new DtlsRead();
      hasChangeCipherSpec, hasMessage := false, false;
    }

    /** A record that gets through the window and decrypts to a plaintext of a legal length. */
    ghost predicate Opens(input: bytes, closed: bool, plain: Option<bytes>)
      reads this, records, records.bitmap
    {
      !closed && records.Acceptable(input) && plain.Some? && |plain.value| <= 16384
    }

    /** What a record that does not open comes to. */
    ghost function Unopened(input: bytes, closed: bool, plain: Option<bytes>): OpenResult
      reads this, records, records.bitmap
    {
      if closed then Closed else if input == [] then Partly
      else if records.Acceptable(input) && plain.Some? then Failed else Discard
    }

    /** How much of a datagram a record takes: nothing, all of it if it is garbled, or its header and body. */
    ghost function Takes(input: bytes, closed: bool): nat
      reads this, records
    {
      if closed || input == [] then 0
      else if !Framed(input) || !RightVersion(input, records.nullCipher, records.recordVersion) then |input|
      else 13 + input[11] as nat * 0x100 + input[12]
    }

    /**
      dtls1_open_handshake. `closed` and `plain` are as for RecordReader.OpenRecord, and `alert` is what
      processing an alert comes to.
     */
    method OpenHandshake(input: bytes, closed: bool, plain: Option<bytes>, alert: OpenResult, maxLen: nat)
      returns (result: OpenResult, consumed: nat)
      requires Valid() && (alert.Discard? || alert.Closed? || alert.Failed?)
      modifies this`hasChangeCipherSpec, records`accepted, records.bitmap, ring.repr
      ensures Valid() && fresh(ring.repr - old(ring.repr)) && consumed == old(Takes(input, closed))
      ensures !old(Opens(input, closed, plain)) ==>
                && result == old(Unopened(input, closed, plain)) && records.accepted == old(records.accepted)
                && records.bitmap.seen == old(records.bitmap.seen)
                && ring.View() == old(ring.View()) && hasChangeCipherSpec == old(hasChangeCipherSpec)
      ensures old(Opens(input, closed, plain)) ==>
                var typ := input[0];
                var (r, why) := AcceptRecord(old(ring.View()), plain.value, records.rEpoch, maxLen);
                && records.accepted == old(records.accepted) + [NumberField(input)]
                && records.bitmap.seen == old(records.bitmap.seen) + {NumberField(input)}
                && ring.View() == (if typ == 22 then r else old(ring.View()))
                && hasChangeCipherSpec == (old(hasChangeCipherSpec) || (typ == 20 && result.Success?))
                && (typ == 22 ==> result == if why.None? then Success else Failed)
                && (typ == 20 ==> result == if records.nullCipher && plain.value == [1] then Success else Failed)
                && (typ == 23 ==> result == if records.nullCipher then Failed else Discard)
                && (typ == 21 ==> result == alert)
                && (typ !in {22, 20, 23, 21} ==> result == Failed)
    {
      hide DtlsRead.View, DtlsRead.Valid, AcceptRecord, BigEndian, Stale, RecordReader.Valid, Framed, CurrentComplete, RingOk;
      ghost var before := ring.View();
      var outcome;
      outcome, consumed := records.OpenRecord(input, closed, plain);
      assert ring.Valid() && ring.View() == before;
      match outcome
      case CloseNotify => return Closed, consumed;
      case NeedMore => return Partly, consumed;
      case Discarded => return Discard, consumed;
      case TooLong => return Failed, consumed;
      case Opened(typ, record) =>
        if typ == SSL3_RT_ALERT {
          return alert, consumed;
        }
        if typ == SSL3_RT_APPLICATION_DATA {
          return if records.nullCipher then Failed else Discard, consumed;
        }
        if typ == SSL3_RT_CHANGE_CIPHER_SPEC {
          if !records.nullCipher || record != [SSL3_MT_CCS] {
            return Failed, consumed;
          }
          hasChangeCipherSpec := true;
          return Success, consumed;
        }
        if typ != SSL3_RT_HANDSHAKE {
          return Failed, consumed;
        }
        if hasMessage { RecordKeepsCurrent(before, record, records.rEpoch, maxLen); }
        var why := ring.OpenRecord(record, records.rEpoch, maxLen);
        return if why.None? then Success else Failed, consumed;
    }

    /** dtls1_open_change_cipher_spec: a ChangeCipherSpec that was remembered, or the next record if it is one. */
    method OpenChangeCipherSpec(input: bytes, closed: bool, plain: Option<bytes>, alert: OpenResult, maxLen: nat)
      returns (result: OpenResult, consumed: nat)
      requires Valid() && (alert.Discard? || alert.Closed? || alert.Failed?)
      modifies this`hasChangeCipherSpec, records`accepted, records.bitmap, ring.repr
      ensures Valid() && !hasChangeCipherSpec && fresh(ring.repr - old(ring.repr))
      ensures old(hasChangeCipherSpec) ==>
                result.Success? && consumed == 0 && ring.View() == old(ring.View()) && records.accepted == old(records.accepted)
                && records.bitmap.seen == old(records.bitmap.seen)
      ensures !old(hasChangeCipherSpec) ==> consumed == old(Takes(input, closed))
      ensures !old(hasChangeCipherSpec) && !old(Opens(input, closed, plain)) ==>
                && result == old(Unopened(input, closed, plain)) && ring.View() == old(ring.View())
                && records.accepted == old(records.accepted) && records.bitmap.seen == old(records.bitmap.seen)
      ensures !old(hasChangeCipherSpec) && old(Opens(input, closed, plain)) ==>
                var typ := input[0];
                var (r, why) := AcceptRecord(old(ring.View()), plain.value, records.rEpoch, maxLen);
                && records.accepted == old(records.accepted) + [NumberField(input)]
                && records.bitmap.seen == old(records.bitmap.seen) + {NumberField(input)}
                && ring.View() == (if typ == 22 then r else old(ring.View()))
                && (typ == 20 ==> result == if records.nullCipher && plain.value == [1] then Success else Failed)
                && (typ == 22 ==> result == if why.None? then Discard else Failed)
                && (typ == 23 ==> result == if records.nullCipher then Failed else Discard)
                && (typ == 21 ==> result == alert)
                && (typ !in {22, 20, 23, 21} ==> result == Failed)
    {
      hide DtlsRead.View, DtlsRead.Valid, AcceptRecord, BigEndian, Stale, RecordReader.Valid, Framed, CurrentComplete, RingOk, RecordReader.Acceptable;
      consumed := 0;
      if !hasChangeCipherSpec {
        result, consumed := OpenHandshake(input, closed, plain, alert, maxLen);
        if !result.Success? {
          return;
        }
      }
      if hasChangeCipherSpec {
        hasChangeCipherSpec := false;
        return Success, consumed;
      }
      return Discard, consumed;
    }

    /** dtls1_get_message */
    method GetMessage() returns (message: Option<(nat, bytes)>)
      requires Valid()
      modifies this`hasMessage
      ensures Valid() && (message.Some? <==> CurrentComplete(ring.View())) && (hasMessage <==> old(hasMessage) || message.Some?)
      ensures message.Some? ==>
                var m := Slot(ring.View(), ring.handshakeReadSeq).value;
                && m.num == ring.handshakeReadSeq && m.len < U24 && m.typ < U8
                && message.value == (m.typ, Header(m.typ, m.len, m.num, 0, m.len) + Body(m))
    {
      hide DtlsRead.View, DtlsRead.Valid, RecordReader.Valid, CurrentComplete, RingOk, Body, Header;
      message := ring.GetMessage();
      if message.Some? {
        hasMessage := true;
      }
    }

    /** dtls1_next_message */
    method NextMessage()
      requires Valid() && hasMessage
      modifies this`hasMessage, ring`handshakeReadSeq, ring.incoming
      ensures Valid() && !hasMessage && ring.View() == Next(old(ring.View()))
    {
      hide DtlsRead.View, RecordReader.Valid, CurrentComplete, RingOk, Next, HmFragment.Valid, HmFragment.Content;
      ring.NextMessage();
      hasMessage := false;
    }

    /** Something was received that has not been handed up: a ChangeCipherSpec, or a message other than the current one. */
    ghost predicate Unprocessed()
      reads this, ring, ring.repr
      requires ring.Valid()
    {
      || hasChangeCipherSpec
      || exists k: nat :: k < SSL_MAX_HANDSHAKE_FLIGHT && Waits(k)
    }

    ghost predicate Waits(k: nat)
      reads this, ring, ring.repr
      requires ring.Valid() && k < SSL_MAX_HANDSHAKE_FLIGHT
    {
      ring.View().slots[k].Some? && !(hasMessage && k == ring.handshakeReadSeq % SSL_MAX_HANDSHAKE_FLIGHT)
    }

    /** dtls_has_unprocessed_handshake_data */
    method HasUnprocessed() returns (b: bool)
      requires Valid()
      ensures b <==> Unprocessed()
    {
      hide DtlsRead.View, RecordReader.Valid, CurrentComplete, HmFragment.Valid, HmFragment.Content;
      if hasChangeCipherSpec {
        return true;
      }
      var current := ring.handshakeReadSeq % SSL_MAX_HANDSHAKE_FLIGHT;
      var i := 0;
      while i < SSL_MAX_HANDSHAKE_FLIGHT
        invariant 0 <= i <= SSL_MAX_HANDSHAKE_FLIGHT
        invariant forall k: nat :: k < i ==> !Waits(k)
      {
        assert ring.View().slots[i] == ring.SlotView(i);
        if !(hasMessage && i == current) && ring.incoming[i] != null {
          assert Waits(i);
          return true;
        }
        assert !Waits(i);
        i := i + 1;
      }
      return false;
    }

    /**
      dtls1_set_read_state: the next epoch starts with an empty window, and with nothing in the ring but the message
      at hand; it is refused while anything is left over.
     */
    method SetReadState(recordVersion: nat) returns (ok: bool)
      requires Valid()
      modifies records
      ensures Valid() && (ok <==> !old(Unprocessed())) && ring.View() == old(ring.View()) && records.accepted == old(records.accepted)
      ensures ok ==>
                && records.rEpoch == (old(records.rEpoch) + 1) % EPOCHS && records.bitmap.seen == {} && !records.nullCipher
                && forall k: nat :: k < SSL_MAX_HANDSHAKE_FLIGHT && ring.View().slots[k].Some? ==>
                     hasMessage && k == ring.handshakeReadSeq % SSL_MAX_HANDSHAKE_FLIGHT
      ensures !ok ==> records.rEpoch == old(records.rEpoch) && records.bitmap == old(records.bitmap)
    {
      hide DtlsRead.View, DtlsRead.Valid, RecordReader.Valid, CurrentComplete, Bitmap.Valid;
      ghost var before := ring.View();
      var unprocessed := HasUnprocessed();
      forall k: nat | !unprocessed && k < SSL_MAX_HANDSHAKE_FLIGHT && before.slots[k].Some?
        ensures hasMessage && k == ring.handshakeReadSeq % SSL_MAX_HANDSHAKE_FLIGHT
      {
        assert !Waits(k);
      }
      ok := records.SetReadState(recordVersion, unprocessed);
      assert ring.Valid() && ring.View() == before;
    }
  }
}
