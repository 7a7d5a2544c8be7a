/**
  What the decoder makes of bytes from anywhere: whatever it accepts can be encoded again, and
  that encoding decodes to the same message.
 */
module NanopbReencode {
  import opened Words
  import opened NanopbWire
  import opened NanopbReaders
  import opened NanopbMessage
  import opened NanopbEncode
  import opened NanopbDecode
  import opened NanopbRoundTrip

  // ---------------------------------------------------------------- what decoding keeps

  /** A value that the encoder takes, and a string that ends inside its array. */
  ghost predicate KeptValue(f: Field, v: Value)
    requires TypedValue(f, v)
    decreases v, 0
  {
    match f.ltype
    case BYTES => |v.b| + BYTES_HEADER <= f.dataSize
    case STRING => |CStr(v.chars)| < f.dataSize
    case FIXED_LENGTH_BYTES => true
    case SUBMESSAGE(sub) => KeptMsg(sub, v.slots)
    case FIXED32 => true
    case FIXED64 => true
    case _ => IntSize(f.dataSize)
  }

  ghost predicate KeptSlot(f: Field, s: Slot)
    requires TypedSlot(f, s)
    decreases s, 1
  {
    match f.htype
    case REQUIRED => KeptValue(f, s.v)
    case OPTIONAL => KeptValue(f, s.v)
    case REPEATED => |s.items| <= f.arraySize && forall k :: 0 <= k < |s.items| ==> KeptValue(f, s.items[k])
    case ONEOF => s.which == f.tag ==> KeptValue(f, s.v)
  }

  ghost predicate KeptMsg(d: Desc, m: Msg)
    requires TypedMsg(d, m)
    decreases m, 2
  {
    SelectorsValid(d, m) && forall i {:trigger Home(d, i)} :: 0 <= i < |d| ==> KeptSlot(d[i], m[Home(d, i)])
  }

  ghost predicate KeptAt(d: Desc, m: Msg, i: nat)
    requires TypedMsg(d, m) && i < |d|
  {
    KeptSlot(d[i], SlotAt(d, m, i))
  }

  lemma {:induction false} KeptEverywhere(d: Desc, m: Msg)
    requires TypedMsg(d, m)
    ensures KeptMsg(d, m) <==> SelectorsValid(d, m) && forall i :: 0 <= i < |d| ==> KeptAt(d, m, i)
  {
    hide KeptSlot, SelectorsValid;
    if KeptMsg(d, m) {
      forall i | 0 <= i < |d| ensures KeptAt(d, m, i) { assert Home(d, i) <= i; }
    }
    if SelectorsValid(d, m) && forall i :: 0 <= i < |d| ==> KeptAt(d, m, i) {
      forall i | 0 <= i < |d| ensures KeptSlot(d[i], m[Home(d, i)]) { assert KeptAt(d, m, i); }
    }
  }

  ghost predicate SaneField(f: Field)
    requires WFField(f)
    decreases f, 0
  {
    if f.ltype.SUBMESSAGE? then Sane(f.ltype.sub)
    else f.htype.REQUIRED? || f.htype.OPTIONAL? ==> (DefaultValueTyped(f); KeptValue(f, DefaultValue(f)))
  }

  /** The declared defaults are values of their fields: integers of a size of C, contents that fit. */
  ghost predicate Sane(d: Desc)
    requires WF(d)
    decreases d, 1
  {
    forall i :: 0 <= i < |d| ==> assert WFField(d[i]); SaneField(d[i])
  }

  lemma {:induction false} SaneAt(d: Desc, i: nat)
    requires WF(d) && Sane(d) && i < |d|
    ensures WFField(d[i]) && SaneField(d[i])
  {}

  lemma {:induction false} DefaultKept(d: Desc)
    requires WF(d) && Sane(d)
    ensures TypedMsg(d, DefaultMsg(d)) && KeptMsg(d, DefaultMsg(d))
    decreases d, 1
  {
    hide DefaultMsg, Home, KeptMsg, SaneField;
    DefaultTyped(d);
    KeptEverywhere(d, DefaultMsg(d));
    forall i | 0 <= i < |d| ensures KeptAt(d, DefaultMsg(d), i) && (d[i].htype.ONEOF? ==> Which(d, DefaultMsg(d), i) == 0) {
      SaneAt(d, i);
      DefaultAt(d, i);
      if d[i].htype.REQUIRED? || d[i].htype.OPTIONAL? { DefaultValueKept(d[i]); }
    }
  }

  lemma {:induction false} DefaultValueKept(f: Field)
    requires WFField(f) && SaneField(f) && (f.ltype.SUBMESSAGE? || f.htype.REQUIRED? || f.htype.OPTIONAL?)
    ensures TypedValue(f, DefaultValue(f)) && KeptValue(f, DefaultValue(f))
    decreases f, 0
  {
    DefaultValueTyped(f);
    if f.ltype.SUBMESSAGE? { DefaultKept(f.ltype.sub); }
  }

  lemma {:induction false} DecValueKept(f: Field, old': Value, s: bytes)
    requires WFField(f) && SaneField(f)
    requires f.ltype.SUBMESSAGE? && !f.htype.REPEATED? ==> TypedValue(f, old') && KeptValue(f, old')
    requires DecValue(f, old', s).Got?
    ensures KeptValue(f, DecValue(f, old', s).value)
    decreases |s|, 1
  {
    hide Dec32, Dec64, Delimited, DecodeNoInit, DefaultMsg, CastSigned, UnZigZag, ReadFixed, KeptMsg;
    if f.ltype.SUBMESSAGE? {
      var sub := f.ltype.sub;
      DefaultKept(sub);
      NoInitKept(sub, if f.htype.REPEATED? then DefaultMsg(sub) else old'.slots, Delimited(s).value);
    } else {
      DecPlainKept(f, old', s);
    }
  }

  lemma {:induction false} DecPlainKept(f: Field, old': Value, s: bytes)
    requires WFField(f) && !f.ltype.SUBMESSAGE? && DecValue(f, old', s).Got?
    ensures KeptValue(f, DecValue(f, old', s).value)
  {
    hide Dec32, Dec64, CastSigned, UnZigZag, ReadFixed, TypedValue;
  }

  lemma {:induction false} DecPackedKept(f: Field, items: seq<Value>, s: bytes)
    requires f.ltype.Packable() && DecPacked(f, items, s).Some?
    requires |items| <= f.arraySize && forall k :: 0 <= k < |items| ==> TypedValue(f, items[k]) && KeptValue(f, items[k])
    ensures var r := DecPacked(f, items, s).value;
            |r| <= f.arraySize && forall k :: 0 <= k < |r| ==> TypedValue(f, r[k]) && KeptValue(f, r[k])
    decreases |s|
  {
    hide Dec64, CastSigned, UnZigZag, ReadFixed;
    if s != [] {
      DecIntTyped(f, s);
      DecPackedKept(f, items + [VInt(DecInt(f, s).value)], DecInt(f, s).rest);
    }
  }

  lemma {:induction false} DecSlotKept(f: Field, wt: nat, slot: Slot, s: bytes)
    requires WFField(f) && SaneField(f) && TypedSlot(f, slot) && KeptSlot(f, slot) && DecSlot(f, wt, slot, s).Got?
    ensures KeptSlot(f, DecSlot(f, wt, slot, s).value)
    decreases |s|, 2
  {
    hide DecValue, DecPacked, Delimited, KeptValue, TypedValue, SaneField;
    match f.htype {
      case REQUIRED => DecValueKept(f, slot.v, s);
      case OPTIONAL => DecValueKept(f, slot.v, s);
      case REPEATED =>
        if wt == WT_STRING && f.ltype.Packable() { DecPackedKept(f, slot.items, Delimited(s).value); }
        else if |slot.items| < f.arraySize { DecValueKept(f, DefaultValue(f), s); }
      case ONEOF =>
        DefaultValueTyped(f);
        if f.ltype.SUBMESSAGE? { DefaultValueKept(f); }
        DecValueKept(f, DefaultValue(f), s);
    }
  }

  /** Storing what was decoded for entry i, which also selects it if it is a member of a oneof. */
  lemma {:induction false} UpdateKept(d: Desc, m: Msg, i: nat, s: Slot)
    requires WF(d) && TypedMsg(d, m) && KeptMsg(d, m) && i < |d| && TypedSlot(d[i], s) && KeptSlot(d[i], s)
    requires d[i].htype.ONEOF? ==> s.which == d[i].tag
    ensures TypedMsg(d, m[Home(d, i) := s]) && KeptMsg(d, m[Home(d, i) := s])
  {
    hide KeptMsg, KeptSlot, TypedMsg, TypedSlot, WF, Home;
    SlotExists(d, m, i);
    UpdateTyped(d, m, i, s);
    var m' := m[Home(d, i) := s];
    KeptEverywhere(d, m);
    KeptEverywhere(d, m');
    forall k | 0 <= k < |d|
      ensures KeptAt(d, m', k)
      ensures d[k].htype.ONEOF? ==> Which(d, m', k) == 0 || exists j :: Selects(d, m', k, j)
    {
      assert KeptAt(d, m, k);
      UpdateKeptAt(d, m, i, s, k);
    }
  }

  lemma {:induction false} SlotExists(d: Desc, m: Msg, i: nat)
    requires TypedMsg(d, m) && i < |d|
    ensures Home(d, i) < |m| && SlotAt(d, m, i) == m[Home(d, i)]
  {}

  lemma {:induction false} UpdateKeptAt(d: Desc, m: Msg, i: nat, s: Slot, k: nat)
    requires WF(d) && TypedMsg(d, m) && SelectorsValid(d, m) && i < |d| && TypedSlot(d[i], s) && KeptSlot(d[i], s)
    requires (d[i].htype.ONEOF? ==> s.which == d[i].tag) && k < |d| && KeptAt(d, m, k) && TypedMsg(d, m[Home(d, i) := s])
    ensures var m' := m[Home(d, i) := s];
            KeptAt(d, m', k) && (d[k].htype.ONEOF? ==> Which(d, m', k) == 0 || exists j :: Selects(d, m', k, j))
  {
    hide KeptValue, TypedValue, Home;
    var m' := m[Home(d, i) := s];
    assert SlotAt(d, m', k) == m'[Home(d, k)] && SlotAt(d, m, k) == m[Home(d, k)];
    if Home(d, k) == Home(d, i) {
      if k != i { SharedIsUnion(d, i, k); assert d[k].tag != d[i].tag; }
      if d[k].htype.ONEOF? { assert Selects(d, m', k, i); }
    } else if d[k].htype.ONEOF? && Which(d, m, k) != 0 {
      var j :| Selects(d, m, k, j);
      assert Selects(d, m', k, j);
    }
  }

  lemma {:induction false} LoopKept(d: Desc, m: Msg, seen: set<nat>, s: bytes)
    requires WF(d) && Sane(d) && TypedMsg(d, m) && KeptMsg(d, m) && DecodeLoop(d, m, seen, s).Done?
    ensures KeptMsg(d, DecodeLoop(d, m, seen, s).m)
    decreases |s|, 3
  {
    hide ReadTag, SkipField, DecSlot, KeptMsg, KeptSlot, SaneField;
    if s != [] && ReadTag(s).Tag? {
      var t := ReadTag(s);
      match Find(d, t.tag) {
        case None => LoopKept(d, m, seen, SkipField(t.wt, t.rest).rest);
        case Some(i) =>
          SaneAt(d, i);
          assert TypedSlot(d[i], m[Home(d, i)]);
          assert KeptSlot(d[i], m[Home(d, i)]) by { KeptEverywhere(d, m); assert KeptAt(d, m, i); }
          DecSlotKept(d[i], t.wt, m[Home(d, i)], t.rest);
          var r := DecSlot(d[i], t.wt, m[Home(d, i)], t.rest);
          UpdateKept(d, m, i, r.value);
          LoopKept(d, m[Home(d, i) := r.value], seen + {i}, r.rest);
      }
    }
  }

  lemma {:induction false} NoInitKept(d: Desc, m: Msg, s: bytes)
    requires WF(d) && Sane(d) && TypedMsg(d, m) && KeptMsg(d, m) && DecodeNoInit(d, m, s).Got?
    ensures KeptMsg(d, DecodeNoInit(d, m, s).value)
    decreases |s|, 4
  {
    hide DecodeLoop, KeptMsg, TypedMsg, Sane;
    LoopKept(d, m, {}, s);
  }

  // ---------------------------------------------------------------- what was kept can be encoded

  lemma {:induction false} KeptValueEncodes(f: Field, v: Value)
    requires TypedValue(f, v) && KeptValue(f, v)
    ensures EncValue(f, v).Some?
    ensures |EncValue(f, v).value| < TWO32 ==> SoundValue(f, v)
    decreases v, 0
  {
    hide EncVarint;
    if f.ltype.SUBMESSAGE? {
      assert TypedMsg(f.ltype.sub, v.slots) && KeptMsg(f.ltype.sub, v.slots);
      KeptMsgEncodes(f.ltype.sub, v.slots);
    }
  }

  lemma {:induction false} KeptItemsEncode(f: Field, items: seq<Value>, n: nat, tagged: bool)
    requires n <= |items| && forall k :: 0 <= k < |items| ==> TypedValue(f, items[k]) && KeptValue(f, items[k])
    ensures EncItems(f, items, n, tagged).Some?
    ensures |EncItems(f, items, n, tagged).value| < TWO32 ==> forall k :: 0 <= k < n ==> SoundItem(f, items, k)
    decreases items, 1, n
  {
    hide EncVarint, EncValue, KeptValue, SoundValue, TypedValue;
    if n > 0 {
      KeptItemsEncode(f, items, n - 1, tagged);
      KeptValueEncodes(f, items[n - 1]);
    }
  }

  ghost predicate SoundItem(f: Field, items: seq<Value>, k: nat)
    requires k < |items| && TypedValue(f, items[k])
  {
    SoundValue(f, items[k])
  }

  lemma {:induction false} KeptSlotEncodes(f: Field, s: Slot)
    requires TypedSlot(f, s) && KeptSlot(f, s)
    ensures EncSlot(f, s).Some?
    ensures |EncSlot(f, s).value| < TWO32 ==> SoundSlot(f, s)
    decreases s, 1
  {
    hide EncVarint, EncValue, KeptValue, SoundValue, TypedValue, IsDefaultValue, EncItems;
    if f.htype.REPEATED? {
      KeptItemsEncode(f, s.items, |s.items|, !f.ltype.Packable());
      ArrayParts(f, s.items);
      if |EncSlot(f, s).value| < TWO32 && !f.ltype.Packable() {
        forall k | 0 <= k < |s.items| ensures SoundValue(f, s.items[k]) { assert SoundItem(f, s.items, k); }
      }
    } else if Present(f, s) {
      KeptValueEncodes(f, s.v);
    }
  }

  /** An array is at least as long as its entries. */
  lemma {:induction false} ArrayParts(f: Field, items: seq<Value>)
    requires |items| <= f.arraySize && forall k :: 0 <= k < |items| ==> TypedValue(f, items[k])
    requires EncItems(f, items, |items|, !f.ltype.Packable()).Some?
    ensures EncArray(f, items).Some? && |EncItems(f, items, |items|, !f.ltype.Packable()).value| <= |EncArray(f, items).value|
  {
    hide EncVarint, EncValue;
  }

  lemma {:induction false} KeptPrefixEncodes(d: Desc, m: Msg, k: nat)
    requires TypedMsg(d, m) && KeptMsg(d, m) && k <= |d|
    ensures EncPrefix(d, m, k).Some?
    ensures |EncPrefix(d, m, k).value| < TWO32 ==> forall i :: 0 <= i < k ==> SoundAt(d, m, i)
    decreases m, 3, k
  {
    hide KeptMsg, KeptSlot, TypedMsg, TypedSlot, Home, SoundSlot, EncSlot;
    if k > 0 {
      var i := k - 1;
      KeptPrefixEncodes(d, m, i);
      KeptEverywhere(d, m);
      assert KeptAt(d, m, i);
      SlotExists(d, m, i);
      assert TypedSlot(d[i], m[Home(d, i)]) && EncField(d, m, i) == EncSlot(d[i], m[Home(d, i)]);
      KeptSlotEncodes(d[i], m[Home(d, i)]);
    }
  }

  ghost predicate SoundAt(d: Desc, m: Msg, i: nat)
    requires TypedMsg(d, m) && i < |d|
  {
    SoundSlot(d[i], SlotAt(d, m, i))
  }

  lemma {:induction false} KeptMsgEncodes(d: Desc, m: Msg)
    requires TypedMsg(d, m) && KeptMsg(d, m)
    ensures EncMsg(d, m).Some?
    ensures |EncMsg(d, m).value| < TWO32 ==> SoundMsg(d, m)
    decreases m, 4
  {
    hide KeptSlot, SoundSlot, EncPrefix;
    KeptPrefixEncodes(d, m, |d|);
    if |EncMsg(d, m).value| < TWO32 {
      forall i | 0 <= i < |d| ensures SoundSlot(d[i], m[Home(d, i)]) { assert SoundAt(d, m, i) && Home(d, i) <= i; }
    }
  }

  /**
    Whatever bytes pb_decode accepts, the message it makes of them can be encoded. With defaults that are not
    written, and below 4 GiB, that encoding decodes to the same message.
   */
  lemma {:induction false} AcceptedReencodes(d: Desc, s: bytes)
    requires WF(d) && Sane(d) && Decode(d, s).Got?
    ensures var e := EncMsg(d, Decode(d, s).value);
            && e.Some?
            && (TagsFit(d) && Faithful(d) && |e.value| < TWO32 ==>
                  && SurvivesMsg(d, Decode(d, s).value)
                  && Decode(d, e.value).Got? && SameMsg(d, Decode(d, s).value, Decode(d, e.value).value))
  {
    hide DecodeNoInit, EncMsg, SameMsg, SurvivesMsg, SoundMsg, KeptMsg, DefaultMsg, TypedMsg, Sane, Faithful, TagsFit, WF;
    DefaultKept(d);
    NoInitKept(d, DefaultMsg(d), s);
    var m := Decode(d, s).value;
    KeptMsgEncodes(d, m);
    if TagsFit(d) && Faithful(d) && |EncMsg(d, m).value| < TWO32 {
      SoundSurvives(d, m);
      RoundTrip(d, m);
    }
  }
}
