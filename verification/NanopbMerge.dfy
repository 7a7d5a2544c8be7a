/**
  Concatenation is merging, and unknown fields are transparent.

  What the decoder makes of a prefix of whole fields does not depend on what follows, so
  decoding x + y is decoding x and then y into the same struct.
 */
module NanopbMerge {
  import opened Words
  import opened NanopbWire
  import opened NanopbReaders
  import opened NanopbMessage
  import opened NanopbDecode

  lemma {:induction false} ReadFixedLocal(x: bytes, y: bytes, n: nat)
    requires ReadFixed(x, n).Got?
    ensures ReadFixed(x + y, n) == Got(ReadFixed(x, n).value, ReadFixed(x, n).rest + y)
  {
    TakeLocal(x, y, n);
  }

  lemma {:induction false} DecIntLocal(f: Field, x: bytes, y: bytes)
    requires f.ltype.Packable() && DecInt(f, x).Got?
    ensures DecInt(f, x + y) == Got(DecInt(f, x).value, DecInt(f, x).rest + y)
  {
    hide CastSigned, UnZigZag, Modulus, ReadFixed;
    if f.ltype.FIXED32? {
      ReadFixedLocal(x, y, 4);
    } else if f.ltype.FIXED64? {
      ReadFixedLocal(x, y, 8);
    } else {
      Dec64Local(x, y, 0, 0);
    }
  }

  lemma {:induction false} DecValueLocal(f: Field, old': Value, x: bytes, y: bytes)
    requires WFField(f) && (f.ltype.SUBMESSAGE? && !f.htype.REPEATED? ==> TypedValue(f, old'))
    requires DecValue(f, old', x).Got?
    ensures DecValue(f, old', x + y) == Got(DecValue(f, old', x).value, DecValue(f, old', x).rest + y)
  {
    hide Dec32, Delimited, DecInt, DecodeNoInit, TypedValue;
    match f.ltype {
      case BYTES => Dec32Local(x, y); TakeLocal(Dec32(x).rest, y, Dec32(x).value);
      case STRING => Dec32Local(x, y); TakeLocal(Dec32(x).rest, y, Dec32(x).value);
      case FIXED_LENGTH_BYTES =>
        Dec32Local(x, y);
        if Dec32(x).value != 0 { TakeLocal(Dec32(x).rest, y, f.dataSize); }
      case SUBMESSAGE(sub) => DelimitedLocal(x, y);
      case _ => DecIntLocal(f, x, y);
    }
  }

  lemma {:induction false} DecSlotLocal(f: Field, wt: nat, slot: Slot, x: bytes, y: bytes)
    requires WFField(f) && TypedSlot(f, slot) && DecSlot(f, wt, slot, x).Got?
    ensures DecSlot(f, wt, slot, x + y) == Got(DecSlot(f, wt, slot, x).value, DecSlot(f, wt, slot, x).rest + y)
  {
    hide Delimited, DecValue, DecPacked;
    match f.htype {
      case REQUIRED => DecValueLocal(f, slot.v, x, y);
      case OPTIONAL => DecValueLocal(f, slot.v, x, y);
      case REPEATED =>
        if wt == WT_STRING && f.ltype.Packable() { DelimitedLocal(x, y); }
        else { DecValueLocal(f, DefaultValue(f), x, y); }
      case ONEOF => DefaultValueTyped(f); DecValueLocal(f, DefaultValue(f), x, y);
    }
  }

  /** Decoding is local: whole fields first, then the rest into the struct they left. */
  lemma {:induction false} LoopLocal(d: Desc, m: Msg, seen: set<nat>, x: bytes, y: bytes)
    requires WF(d) && TypedMsg(d, m) && DecodeLoop(d, m, seen, x).Done?
    ensures var r := DecodeLoop(d, m, seen, x);
            if r.ended then DecodeLoop(d, m, seen, x + y) == Done(r.m, r.seen, r.rest + y, true)
            else r.rest == [] && DecodeLoop(d, m, seen, x + y) == DecodeLoop(d, r.m, r.seen, y)
    decreases |x|
  {
    hide ReadTag, SkipField, DecSlot;
    if x == [] {
      assert x + y == y;
    } else {
      ReadTagLocal(x, y);
      match ReadTag(x) {
        case TagEnd(rest) =>
        case Tag(tag, wt, rest) =>
          match Find(d, tag) {
            case None =>
              SkipFieldLocal(wt, rest, y);
              LoopLocal(d, m, seen, SkipField(wt, rest).rest, y);
            case Some(i) =>
              assert TypedSlot(d[i], m[Home(d, i)]) && WFField(d[i]);
              DecSlotLocal(d[i], wt, m[Home(d, i)], rest, y);
              var r := DecSlot(d[i], wt, m[Home(d, i)], rest);
              UpdateTyped(d, m, i, r.value);
              LoopLocal(d, m[Home(d, i) := r.value], seen + {i}, r.rest, y);
          }
      }
    }
  }

  /** The entries seen before do not influence the loop; they are only carried along. */
  lemma {:induction false} LoopSeen(d: Desc, m: Msg, seen: set<nat>, s: bytes)
    requires WF(d) && TypedMsg(d, m)
    ensures var r, q := DecodeLoop(d, m, seen, s), DecodeLoop(d, m, {}, s);
            r.Done? == q.Done?
            && (r.Done? ==> r == Done(q.m, seen + q.seen, q.rest, q.ended))
    decreases |s|
  {
    hide ReadTag, SkipField, DecSlot;
    if s != [] && ReadTag(s).Tag? {
      var t := ReadTag(s);
      match Find(d, t.tag) {
        case None =>
          if SkipField(t.wt, t.rest).Got? { LoopSeen(d, m, seen, SkipField(t.wt, t.rest).rest); }
        case Some(i) =>
          assert TypedSlot(d[i], m[Home(d, i)]) && WFField(d[i]);
          var r := DecSlot(d[i], t.wt, m[Home(d, i)], t.rest);
          if r.Got? {
            UpdateTyped(d, m, i, r.value);
            var m' := m[Home(d, i) := r.value];
            LoopSeen(d, m', seen + {i}, r.rest);
            LoopSeen(d, m', {i}, r.rest);
            assert {} + {i} == {i};
            var q := DecodeLoop(d, m', {}, r.rest);
            if q.Done? { assert seen + {i} + q.seen == seen + ({i} + q.seen); }
          }
      }
    }
  }

  /** A string of bytes is, for this struct, a sequence of whole fields without a zero tag word. */
  ghost predicate WholeFields(d: Desc, m: Msg, x: bytes)
    requires WF(d) && TypedMsg(d, m)
  {
    DecodeLoop(d, m, {}, x).Done? && !DecodeLoop(d, m, {}, x).ended
  }

  /** pb_decode_noinit of x + y is decoding x and then y into the same struct. */
  lemma {:induction false} ConcatIsMerge(d: Desc, m: Msg, x: bytes, y: bytes)
    requires WF(d) && TypedMsg(d, m) && WholeFields(d, m, x)
    requires DecodeNoInit(d, m, x).Got?
    requires DecodeNoInit(d, DecodeNoInit(d, m, x).value, y).Got?
    ensures DecodeNoInit(d, m, x + y) == DecodeNoInit(d, DecodeNoInit(d, m, x).value, y)
  {
    hide DecodeLoop;
    var r := DecodeLoop(d, m, {}, x);
    LoopLocal(d, m, {}, x, y);
    LoopSeen(d, r.m, r.seen, y);
  }

  /** A field that the description does not declare, with its tag and all of its payload. */
  ghost predicate UnknownField(d: Desc, u: bytes)
  {
    match ReadTag(u)
    case Tag(tag, wt, payload) => Find(d, tag).None? && (d == [] ==> tag != 0) && SkipField(wt, payload) == Got((), [])
    case _ => false
  }

  /** Inserting an unknown field at a field boundary changes nothing. */
  lemma {:induction false} UnknownFieldsTransparent(d: Desc, m: Msg, x: bytes, u: bytes, y: bytes)
    requires WF(d) && TypedMsg(d, m) && WholeFields(d, m, x) && UnknownField(d, u)
    ensures DecodeNoInit(d, m, x + u + y) == DecodeNoInit(d, m, x + y)
  {
    var r := DecodeLoop(d, m, {}, x);
    assert DecodeLoop(d, m, {}, x + u + y) == DecodeLoop(d, r.m, r.seen, u + y) by {
      assert x + u + y == x + (u + y);
      LoopLocal(d, m, {}, x, u + y);
    }
    LoopLocal(d, m, {}, x, y);
    SkipsUnknown(d, r.m, r.seen, u, y);
  }

  lemma {:induction false} SkipsUnknown(d: Desc, m: Msg, seen: set<nat>, u: bytes, y: bytes)
    requires WF(d) && TypedMsg(d, m) && UnknownField(d, u)
    ensures DecodeLoop(d, m, seen, u + y) == DecodeLoop(d, m, seen, y)
  {
    hide ReadTag, SkipField, DecSlot;
    assert u != [] by { if u == [] { EmptyTag(); } }
    ReadTagLocal(u, y);
    SkipFieldLocal(ReadTag(u).wt, ReadTag(u).rest, y);
    assert [] + y == y;
  }

  lemma {:induction false} EmptyTag()
    ensures ReadTag([]) == TagEnd([])
  {}
}
