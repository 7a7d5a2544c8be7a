/**
  Receiving handshake messages (sections 4.2.2 and 4.2.3 of RFC 6347): the ring of seven
  partially assembled messages, first as a function from states to states and then as the code
  that updates it in place.
 */
module DtlsReceiver {
  import opened Words
  import opened DtlsFragment
  import opened DtlsReassembly

  const SSL_MAX_HANDSHAKE_FLIGHT := 7

  // ---------------------------------------------------------------- what a fragment does to the ring

  /** A message of which some bytes have arrived. */
  datatype Partial = Partial(typ: nat, num: nat, len: nat, content: map<nat, byte>)
  {
    ghost predicate Complete() { forall p: nat :: p < len ==> p in content }
  }

  datatype Receiver = Receiver(readSeq: nat, slots: seq<Option<Partial>>)

  datatype Reason = BadHandshakeRecord | ExcessiveSize | UnexpectedRecord | OutsideWindow | FragmentMismatch

  datatype Verdict = Accepted(r: Receiver) | Rejected(why: Reason)

  const EMPTY := Receiver(0, [None, None, None, None, None, None, None])

  /** A slot holds the one message of the window that belongs there. */
  predicate SlotOk(readSeq: nat, k: nat, slot: Option<Partial>)
  {
    slot.Some? ==>
      slot.value.num % SSL_MAX_HANDSHAKE_FLIGHT == k
      && readSeq <= slot.value.num < readSeq + SSL_MAX_HANDSHAKE_FLIGHT
      && slot.value.num < U16
  }

  /** The ring invariant. */
  ghost predicate RingOk(r: Receiver)
  {
    && r.readSeq < U16 && |r.slots| == SSL_MAX_HANDSHAKE_FLIGHT
    && forall k :: 0 <= k < SSL_MAX_HANDSHAKE_FLIGHT ==> SlotOk(r.readSeq, k, r.slots[k])
  }

  function Slot(r: Receiver, num: nat): Option<Partial>
    requires |r.slots| == SSL_MAX_HANDSHAKE_FLIGHT
  {
    r.slots[num % SSL_MAX_HANDSHAKE_FLIGHT]
  }

  /** The message in a slot after a fragment of it; a complete message is left alone. */
  ghost function Merge(m: Partial, f: Fragment): Partial
  {
    if m.Complete() then m else m.(content := m.content + Piece(f.off, f.body))
  }

  /** One fragment in dtls1_open_handshake, with dtls1_get_incoming_message. */
  ghost function Accept(r: Receiver, f: Fragment, epoch: nat, maxLen: nat): (v: Verdict)
    requires |r.slots| == SSL_MAX_HANDSHAKE_FLIGHT
    ensures v.Accepted? ==> v.r.readSeq == r.readSeq && |v.r.slots| == SSL_MAX_HANDSHAKE_FLIGHT
  {
    if f.off > f.len || f.off + |f.body| > f.len || f.len > maxLen then Rejected(ExcessiveSize)
    else if epoch == 1 && f.num != r.readSeq then Rejected(UnexpectedRecord)
    else if f.num < r.readSeq || f.num > r.readSeq + SSL_MAX_HANDSHAKE_FLIGHT then Accepted(r)
    else if f.num - r.readSeq >= SSL_MAX_HANDSHAKE_FLIGHT then Rejected(OutsideWindow)
    else
      var slot := Slot(r, f.num);
      if slot.Some? && (slot.value.typ != f.typ || slot.value.len != f.len) then Rejected(FragmentMismatch)
      else
        var m := if slot.Some? then slot.value else Partial(f.typ, f.num, f.len, map[]);
        Accepted(r.(slots := r.slots[f.num % SSL_MAX_HANDSHAKE_FLIGHT := Some(Merge(m, f))]))
  }

  /**
    The fragments of one record, in order. An error stops the reading, and what the fragments before it
    did stays done.
   */
  ghost function AcceptRecord(r: Receiver, s: bytes, epoch: nat, maxLen: nat): (result: (Receiver, Option<Reason>))
    requires |r.slots| == SSL_MAX_HANDSHAKE_FLIGHT
    ensures result.0.readSeq == r.readSeq && |result.0.slots| == SSL_MAX_HANDSHAKE_FLIGHT
    decreases |s|
  {
    if s == [] then (r, None)
    else
      match Parse(s)
      case None => (r, Some(BadHandshakeRecord))
      case Some(parsed) =>
        match Accept(r, parsed.0, epoch, maxLen)
        case Rejected(why) => (r, Some(why))
        case Accepted(r') => AcceptRecord(r', parsed.1, epoch, maxLen)
  }

  /** The body of a message all of which has arrived. */
  ghost function Body(m: Partial): (body: bytes)
    requires m.Complete()
    ensures |body| == m.len && forall p: nat :: p < m.len ==> body[p] == m.content[p]
  {
    seq(m.len, p requires 0 <= p < m.len => m.content[p])
  }

  /** dtls1_next_message */
  function Next(r: Receiver): Receiver
    requires |r.slots| == SSL_MAX_HANDSHAKE_FLIGHT
  {
    Receiver((r.readSeq + 1) % U16, r.slots[r.readSeq % SSL_MAX_HANDSHAKE_FLIGHT := None])
  }

  ghost predicate CurrentComplete(r: Receiver)
    requires |r.slots| == SSL_MAX_HANDSHAKE_FLIGHT
  {
    Slot(r, r.readSeq).Some? && Slot(r, r.readSeq).value.Complete()
  }

  /**
    When a fragment is an error, and which: it lies outside its message or that is too long, the encrypted epoch waits
    for another message, its number is the read sequence plus seven, or it disagrees with what came before. Fragments
    from the past, or further in the future, are passed over.
   */
  lemma {:induction false} AcceptExactly(r: Receiver, f: Fragment, epoch: nat, maxLen: nat)
    requires RingOk(r)
    ensures var v := Accept(r, f, epoch, maxLen);
            var i := f.num % 7;
            if f.off + |f.body| > f.len || f.len > maxLen then v == Rejected(ExcessiveSize)
            else if epoch == 1 && f.num != r.readSeq then v == Rejected(UnexpectedRecord)
            else if f.num == r.readSeq + 7 then v == Rejected(OutsideWindow)
            else if f.num < r.readSeq || f.num > r.readSeq + 7 then v == Accepted(r)
            else if r.slots[i].Some? && (r.slots[i].value.typ != f.typ || r.slots[i].value.len != f.len) then v == Rejected(FragmentMismatch)
            else v.Accepted? && v.r.readSeq == r.readSeq && v.r.slots[i].Some? && forall k :: 0 <= k < 7 && k != i ==> v.r.slots[k] == r.slots[k]
  {
    hide Merge;
  }

  /** A fragment that is taken puts its bytes where they belong, unless the message is complete. */
  lemma {:induction false} AcceptStores(r: Receiver, f: Fragment, epoch: nat, maxLen: nat, p: nat)
    requires RingOk(r) && Accept(r, f, epoch, maxLen).Accepted? && r.readSeq <= f.num < r.readSeq + 7
    ensures var before, after := r.slots[f.num % 7], Accept(r, f, epoch, maxLen).r.slots[f.num % 7];
            && after.Some? && after.value.num == f.num && after.value.typ == f.typ && after.value.len == f.len
            && (before.Some? && before.value.Complete() ==> after == before)
            && (before.Some? && !before.value.Complete() && !(f.off <= p < f.off + |f.body|) ==>
                  (p in after.value.content <==> p in before.value.content)
                  && (p in before.value.content ==> after.value.content[p] == before.value.content[p]))
            && (!(before.Some? && before.value.Complete()) && f.off <= p < f.off + |f.body| && f.len > 0 ==>
                  p in after.value.content && after.value.content[p] == f.body[p - f.off])
  {
    assert SlotOk(r.readSeq, f.num % 7, r.slots[f.num % 7]);
    if r.slots[f.num % 7].None? && f.len > 0 { assert !Partial(f.typ, f.num, f.len, map[]).Complete() by { assert 0 !in Partial(f.typ, f.num, f.len, map[]).content; } }
  }

  /** Every fragment, whatever it claims, keeps the ring invariant. */
  lemma {:induction false} AcceptKeepsRing(r: Receiver, f: Fragment, epoch: nat, maxLen: nat)
    requires RingOk(r) && f.num < U16 && Accept(r, f, epoch, maxLen).Accepted?
    ensures RingOk(Accept(r, f, epoch, maxLen).r)
  {
    hide Piece;
  }

  /** So does every record, whatever its bytes. */
  lemma {:induction false} RecordKeepsRing(r: Receiver, s: bytes, epoch: nat, maxLen: nat)
    requires RingOk(r)
    ensures RingOk(AcceptRecord(r, s, epoch, maxLen).0)
    decreases |s|
  {
    hide Accept;
    if s != [] && Parse(s).Some? {
      SerializeInverts(s);
      var (f, rest) := Parse(s).value;
      if Accept(r, f, epoch, maxLen).Accepted? {
        AcceptKeepsRing(r, f, epoch, maxLen);
        RecordKeepsRing(Accept(r, f, epoch, maxLen).r, rest, epoch, maxLen);
      }
    }
  }

  /** Whoever is found in the slot of a message within the window is that message: line 276 never fails. */
  lemma {:induction false} SlotIsMessage(r: Receiver, num: nat)
    requires RingOk(r) && r.readSeq <= num < r.readSeq + SSL_MAX_HANDSHAKE_FLIGHT && Slot(r, num).Some?
    ensures Slot(r, num).value.num == num
  {
    var k := num % SSL_MAX_HANDSHAKE_FLIGHT;
    assert SlotOk(r.readSeq, k, r.slots[k]);
  }

  /** Handing a message up keeps the ring invariant, also when the 16-bit counter wraps. */
  lemma {:induction false} NextKeepsRing(r: Receiver)
    requires RingOk(r)
    ensures RingOk(Next(r))
  {
    forall k | 0 <= k < SSL_MAX_HANDSHAKE_FLIGHT ensures SlotOk(Next(r).readSeq, k, Next(r).slots[k]) {
      assert SlotOk(r.readSeq, k, r.slots[k]);
      if r.slots[k].Some? && k != r.readSeq % SSL_MAX_HANDSHAKE_FLIGHT { assert r.slots[k].value.num != r.readSeq; }
    }
  }

  // ---------------------------------------------------------------- the code

  class DtlsRead {
    const incoming: array<HmFragment?>
    var handshakeReadSeq: nat
    ghost var repr: set<object>

    ghost predicate Valid()
      reads this, repr
    {
      && this in repr && incoming in repr && incoming.Length == SSL_MAX_HANDSHAKE_FLIGHT && handshakeReadSeq < U16
      && (forall k :: 0 <= k < SSL_MAX_HANDSHAKE_FLIGHT && incoming[k] != null ==> Owns(incoming[k]))
      && (forall j, k :: 0 <= j < k < SSL_MAX_HANDSHAKE_FLIGHT && incoming[j] != null && incoming[k] != null ==>
            incoming[j].Repr() !! incoming[k].Repr())
      && (forall k :: 0 <= k < SSL_MAX_HANDSHAKE_FLIGHT && incoming[k] != null ==>
            SlotOk(handshakeReadSeq, k, Some(Partial(incoming[k].typ, incoming[k].num, incoming[k].msgLen, map[]))))
    }

    ghost predicate Owns(frag: HmFragment)
      reads this, repr
    {
      frag in repr && frag.Repr() <= repr && frag.Valid() && this !in frag.Repr() && incoming !in frag.Repr()
    }

    ghost function SlotView(k: nat): Option<Partial>
      reads this, repr
      requires Valid() && k < SSL_MAX_HANDSHAKE_FLIGHT
    {
      if incoming[k] == null then None
      else Some(Partial(incoming[k].typ, incoming[k].num, incoming[k].msgLen, incoming[k].Content()))
    }

    ghost function View(): (r: Receiver)
      reads this, repr
      requires Valid()
      ensures RingOk(r) && r.readSeq == handshakeReadSeq
      ensures forall k: nat :: k < SSL_MAX_HANDSHAKE_FLIGHT ==> r.slots[k] == SlotView(k)
    {
      Receiver(handshakeReadSeq, [SlotView(0), SlotView(1), SlotView(2), SlotView(3), SlotView(4), SlotView(5), SlotView(6)])
    }

    constructor ()
      ensures Valid() && fresh(repr) && fresh(incoming) && View() == EMPTY
    {
      incoming := new HmFragment?[SSL_MAX_HANDSHAKE_FLIGHT](_ => null);
      handshakeReadSeq := 0;
      new;
      repr := {this, incoming};
    }

    /** The window and consistency tests of dtls1_get_incoming_message. */
    ghost function Refusal(f: Fragment): Option<Reason>
      reads this, repr
      requires Valid()
    {
      if f.num < handshakeReadSeq || f.num - handshakeReadSeq >= SSL_MAX_HANDSHAKE_FLIGHT then Some(OutsideWindow)
      else
        var slot := SlotView(f.num % SSL_MAX_HANDSHAKE_FLIGHT);
        if slot.Some? && (slot.value.typ != f.typ || slot.value.len != f.len) then Some(FragmentMismatch) else None
    }

    /** dtls1_hm_fragment_new, and putting the message in its slot. */
    method Insert(f: Fragment)
      requires Valid() && f.Wire() && handshakeReadSeq <= f.num < handshakeReadSeq + SSL_MAX_HANDSHAKE_FLIGHT
      requires incoming[f.num % SSL_MAX_HANDSHAKE_FLIGHT] == null
      modifies this`repr, incoming
      ensures Valid() && fresh(repr - old(repr)) && old(repr) <= repr
      ensures View() == old(View()).(slots := old(View()).slots[f.num % SSL_MAX_HANDSHAKE_FLIGHT := Some(Partial(f.typ, f.num, f.len, map[]))])
    {
      hide Bit, Marked, Header, BitRange, HmFragment.Valid, HmFragment.Content, View;
      var idx := f.num % SSL_MAX_HANDSHAKE_FLIGHT;
      var frag := new HmFragment(f.typ, f.len, f.num);
      incoming[idx] := frag;
      repr := repr + frag.Repr();
      assert forall k :: 0 <= k < SSL_MAX_HANDSHAKE_FLIGHT && k != idx && incoming[k] != null ==>
               incoming[k] == old(incoming[k]) && Owns(incoming[k]) && incoming[k].Content() == old(incoming[k].Content());
      assert frag.Repr() !! old(repr);
      assert Valid();
    }

    /** dtls1_get_incoming_message */
    method GetIncoming(f: Fragment) returns (frag: HmFragment?, why: Reason)
      requires Valid() && f.Wire()
      modifies this`repr, incoming
      ensures Valid() && fresh(repr - old(repr)) && old(repr) <= repr
      ensures frag == null <==> old(Refusal(f)).Some?
      ensures frag == null ==> old(Refusal(f)) == Some(why) && View() == old(View())
      ensures frag != null ==>
                var k := f.num % SSL_MAX_HANDSHAKE_FLIGHT;
                var slot := old(View()).slots[k];
                && frag == incoming[k] && frag.num == f.num && frag.msgLen == f.len
                && View() == old(View()).(slots := old(View()).slots[k := if slot.Some? then slot else Some(Partial(f.typ, f.num, f.len, map[]))])
    {
      hide Bit, Marked, Header, BitRange;
      why := OutsideWindow;
      if f.num < handshakeReadSeq || f.num - handshakeReadSeq >= SSL_MAX_HANDSHAKE_FLIGHT {
        return null, why;
      }
      var idx := f.num % SSL_MAX_HANDSHAKE_FLIGHT;
      frag := incoming[idx];
      if frag != null {
        assert SlotOk(handshakeReadSeq, idx, Some(Partial(frag.typ, frag.num, frag.msgLen, map[])));
        assert frag.num == f.num;                       // line 276
        if frag.typ != f.typ || frag.msgLen != f.len {
          return null, FragmentMismatch;
        }
        assert View().slots[idx] == SlotView(idx);
        assert View() == old(View()).(slots := old(View()).slots[idx := SlotView(idx)]);
        return;
      }
      Insert(f);
      frag := incoming[idx];
      assert View().slots[idx] == SlotView(idx);
    }

    /** Copying a fragment into the message in its slot. */
    method Fill(frag: HmFragment, f: Fragment)
      requires Valid() && frag == incoming[f.num % SSL_MAX_HANDSHAKE_FLIGHT] && f.off + |f.body| <= frag.msgLen
      modifies repr
      ensures Valid() && repr == old(repr)
      ensures var k := f.num % SSL_MAX_HANDSHAKE_FLIGHT;
              View() == old(View()).(slots := old(View()).slots[k := Some(Merge(old(View()).slots[k].value, f))])
    {
      hide Bit, Marked, Header, BitRange, View, Piece;
      var idx := f.num % SSL_MAX_HANDSHAKE_FLIGHT;
      assert frag.Complete() <==> View().slots[idx].value.Complete() by { assert SlotView(idx) == View().slots[idx]; }
      if frag.reassembly == null {
        assert View().slots == View().slots[idx := View().slots[idx]];
        return;
      }
      frag.Deliver(f.off, f.body);
      assert forall k :: 0 <= k < SSL_MAX_HANDSHAKE_FLIGHT && k != idx && incoming[k] != null ==>
               Owns(incoming[k]) && incoming[k].Repr() == old(incoming[k].Repr()) && incoming[k].Content() == old(incoming[k].Content());
    }

    /** One turn of the loop of dtls1_open_handshake. */
    method OpenFragment(f: Fragment, epoch: nat, maxLen: nat) returns (why: Option<Reason>)
      requires Valid() && f.Wire()
      modifies repr
      ensures Valid() && fresh(repr - old(repr)) && old(repr) <= repr
      ensures Accept(old(View()), f, epoch, maxLen) == if why.None? then Accepted(View()) else Rejected(why.value)
      ensures why.Some? ==> View() == old(View())
    {
      hide View, Merge, HmFragment.Valid, HmFragment.Content;
      if f.off > f.len || f.off + |f.body| > f.len || f.len > maxLen {
        return Some(ExcessiveSize);
      }
      if epoch == 1 && f.num != handshakeReadSeq {
        return Some(UnexpectedRecord);
      }
      if f.num < handshakeReadSeq || f.num > handshakeReadSeq + SSL_MAX_HANDSHAKE_FLIGHT {
        return None;
      }
      var frag, reason := GetIncoming(f);
      if frag == null {
        return Some(reason);
      }
      Fill(frag, f);
      return None;
    }

    /** The loop of dtls1_open_handshake over one handshake record. */
    method OpenRecord(record: bytes, epoch: nat, maxLen: nat) returns (why: Option<Reason>)
      requires Valid()
      modifies repr
      ensures Valid() && fresh(repr - old(repr))
      ensures (View(), why) == AcceptRecord(old(View()), record, epoch, maxLen)
    {
      hide View, Accept;
      var cbs := record;
      while |cbs| > 0
        invariant Valid() && fresh(repr - old(repr)) && old(repr) <= repr
        invariant AcceptRecord(View(), cbs, epoch, maxLen) == AcceptRecord(old(View()), record, epoch, maxLen)
        decreases |cbs|
      {
        match Parse(cbs)
        case None => return Some(BadHandshakeRecord);
        case Some(parsed) =>
          SerializeInverts(cbs);
          why := OpenFragment(parsed.0, epoch, maxLen);
          if why.Some? {
            return;
          }
          cbs := parsed.1;
      }
      return None;
    }

    /** dtls1_get_message: the type and the bytes of the current message, once it is complete. */
    method GetMessage() returns (message: Option<(nat, bytes)>)
      requires Valid()
      ensures message.Some? <==> CurrentComplete(View())
      ensures message.Some? ==>
                var m := Slot(View(), handshakeReadSeq).value;
                m.num == handshakeReadSeq && m.len < U24 && m.typ < U8 && message.value == (m.typ, Header(m.typ, m.len, m.num, 0, m.len) + Body(m))
    {
      hide Bit, Marked, Header, BitRange, View;
      var idx := handshakeReadSeq % SSL_MAX_HANDSHAKE_FLIGHT;
      var frag := incoming[idx];
      assert View().slots[idx] == SlotView(idx);
      if frag == null || frag.reassembly != null {
        return None;
      }
      SlotIsMessage(View(), handshakeReadSeq);
      ghost var m := Slot(View(), handshakeReadSeq).value;
      assert frag.data[..] == frag.data[..DTLS1_HM_HEADER_LENGTH] + Body(m);
      return Some((frag.typ, frag.data[..]));
    }

    /** dtls1_next_message */
    method NextMessage()
      requires Valid() && CurrentComplete(View())
      modifies this`handshakeReadSeq, incoming
      ensures Valid() && View() == Next(old(View()))
    {
      hide Bit, Marked, Header, BitRange, View, HmFragment.Valid, HmFragment.Content;
      NextKeepsRing(View());
      ghost var after := Next(View());
      var index := handshakeReadSeq % SSL_MAX_HANDSHAKE_FLIGHT;
      incoming[index] := null;
      handshakeReadSeq := (handshakeReadSeq + 1) % U16;
      assert forall k :: 0 <= k < SSL_MAX_HANDSHAKE_FLIGHT && k != index ==> incoming[k] == old(incoming[k]);
      assert forall k :: 0 <= k < SSL_MAX_HANDSHAKE_FLIGHT && k != index && incoming[k] != null ==>
               Owns(incoming[k]) && incoming[k].Content() == old(incoming[k].Content())
               && SlotOk(after.readSeq, k, after.slots[k]);
    }
  }
}
