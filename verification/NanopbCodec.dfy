/**
  Encoder and decoder together: the encoding is a function of what a program can observe, the
  round trip through a buffer, and where the conditions of the round trip are needed.
 */
module NanopbCodec {
  import opened Words
  import opened NanopbWire
  import opened NanopbReaders
  import opened NanopbMessage
  import opened NanopbEncode
  import opened NanopbDecode
  import opened NanopbRoundTrip
  import opened NanopbOStream
  import opened NanopbPbEncode
  import opened NanopbPbDecode

  // ---------------------------------------------------------------- the encoding sees only what can be observed

  lemma {:induction false} SameDefault(f: Field, v: Value, w: Value)
    requires TypedValue(f, v) && TypedValue(f, w) && SameValue(f, v, w)
    ensures IsDefaultValue(f, v) <==> IsDefaultValue(f, w)
    decreases v, 0
  {
    if f.ltype.SUBMESSAGE? {
      var d := f.ltype.sub;
      assert TypedMsg(d, v.slots) && TypedMsg(d, w.slots) && SameMsg(d, v.slots, w.slots);
      SameDefaultMsg(d, v.slots, w.slots);
      DefaultSubmessage(f, v);
      DefaultSubmessage(f, w);
    }
  }

  lemma {:induction false} SameDefaultMsg(d: Desc, m: Msg, n: Msg)
    requires TypedMsg(d, m) && TypedMsg(d, n) && SameMsg(d, m, n)
    ensures IsDefaultMsg(d, m) <==> IsDefaultMsg(d, n)
    decreases m, 2
  {
    hide Home, TypedMsg;
    forall j | 0 <= j < |d| ensures IsDefaultEntry(d, m, j) == IsDefaultEntry(d, n, j) {
      EntryOf(d, m, j);
      EntryOf(d, n, j);
      assert SameSlot(d[j], SlotAt(d, m, j), SlotAt(d, n, j));
      SameDefaultSlot(d[j], m[Home(d, j)], n[Home(d, j)]);
    }
  }

  lemma {:induction false} EntryOf(d: Desc, m: Msg, i: nat)
    requires TypedMsg(d, m) && i < |d|
    ensures |m| == |d| && SlotAt(d, m, i) == m[Home(d, i)] && TypedSlot(d[i], m[Home(d, i)])
    ensures IsDefaultEntry(d, m, i) == IsDefaultSlot(d[i], m[Home(d, i)])
    ensures EncField(d, m, i) == EncSlot(d[i], m[Home(d, i)])
  {}

  lemma {:induction false} SameDefaultSlot(f: Field, s: Slot, t: Slot)
    requires TypedSlot(f, s) && TypedSlot(f, t) && SameSlot(f, s, t)
    ensures IsDefaultSlot(f, s) <==> IsDefaultSlot(f, t)
    decreases s, 1
  {
    if f.htype.OPTIONAL? && f.sizeOffset == 0 { SameDefault(f, s.v, t.v); }
  }

  lemma {:induction false} SameValueEncodes(f: Field, v: Value, w: Value)
    requires TypedValue(f, v) && TypedValue(f, w) && SameValue(f, v, w)
    ensures EncValue(f, v) == EncValue(f, w)
    decreases v, 0
  {
    if f.ltype.SUBMESSAGE? {
      var d := f.ltype.sub;
      assert TypedMsg(d, v.slots) && TypedMsg(d, w.slots) && SameMsg(d, v.slots, w.slots);
      SamePrefixEncodes(d, v.slots, w.slots, |d|);
    }
  }

  lemma {:induction false} SameItemsEncode(f: Field, vs: seq<Value>, ws: seq<Value>, n: nat, tagged: bool)
    requires n <= |vs| == |ws|
    requires forall k :: 0 <= k < |vs| ==> TypedValue(f, vs[k]) && TypedValue(f, ws[k]) && SameValue(f, vs[k], ws[k])
    ensures EncItems(f, vs, n, tagged) == EncItems(f, ws, n, tagged)
    decreases vs, 1, n
  {
    if n > 0 {
      SameItemsEncode(f, vs, ws, n - 1, tagged);
      SameValueEncodes(f, vs[n - 1], ws[n - 1]);
    }
  }

  lemma {:induction false} SameSlotEncodes(f: Field, s: Slot, t: Slot)
    requires TypedSlot(f, s) && TypedSlot(f, t) && SameSlot(f, s, t)
    ensures EncSlot(f, s) == EncSlot(f, t)
    decreases s, 2
  {
    if f.htype.REPEATED? {
      SameItemsEncode(f, s.items, t.items, |s.items|, !f.ltype.Packable());
    } else {
      if f.htype.OPTIONAL? && f.sizeOffset == 0 { SameDefault(f, s.v, t.v); }
      if Present(f, s) { SameValueEncodes(f, s.v, t.v); }
    }
  }

  lemma {:induction false} SamePrefixEncodes(d: Desc, m: Msg, n: Msg, k: nat)
    requires TypedMsg(d, m) && TypedMsg(d, n) && SameMsg(d, m, n) && k <= |d|
    ensures EncPrefix(d, m, k) == EncPrefix(d, n, k)
    decreases m, 3, k
  {
    hide Home, TypedMsg, EncField, SameSlot, TypedSlot, SameMsg, EncPrefix, EncSlot;
    PrefixStart(d, m); PrefixStart(d, n);
    if k > 0 {
      PrefixStep(d, m, k - 1); PrefixStep(d, n, k - 1);
      SamePrefixEncodes(d, m, n, k - 1);
      EntryOf(d, m, k - 1);
      EntryOf(d, n, k - 1);
      SameAt(d, m, n, k - 1);
      SameSlotEncodes(d[k - 1], m[Home(d, k - 1)], n[Home(d, k - 1)]);
    }
  }

  lemma {:induction false} SameAt(d: Desc, m: Msg, n: Msg, j: nat)
    requires TypedMsg(d, m) && TypedMsg(d, n) && SameMsg(d, m, n) && j < |d| && |m| == |n| == |d|
    ensures TypedSlot(d[j], m[Home(d, j)]) && TypedSlot(d[j], n[Home(d, j)]) && SameSlot(d[j], m[Home(d, j)], n[Home(d, j)])
  {
    hide SameSlot, TypedSlot;
    assert SameSlot(d[j], SlotAt(d, m, j), SlotAt(d, n, j));
  }

  /** Structs that no program can tell apart are written as the same bytes. */
  lemma {:induction false} SameMsgEncodes(d: Desc, m: Msg, n: Msg)
    requires TypedMsg(d, m) && TypedMsg(d, n) && SameMsg(d, m, n)
    ensures EncMsg(d, m) == EncMsg(d, n)
  {
    SamePrefixEncodes(d, m, n, |d|);
  }

  /** Encoding what was decoded from an encoding gives the same bytes again. */
  lemma {:induction false} ReencodeStable(d: Desc, m: Msg)
    requires WF(d) && TagsFit(d) && TypedMsg(d, m) && EncMsg(d, m).Some? && SurvivesMsg(d, m)
    ensures Decode(d, EncMsg(d, m).value).Got?
    ensures EncMsg(d, Decode(d, EncMsg(d, m).value).value) == EncMsg(d, m)
  {
    hide EncMsg, Decode, SameMsg, SurvivesMsg;
    RoundTrip(d, m);
    SameMsgEncodes(d, m, Decode(d, EncMsg(d, m).value).value);
  }

  // ---------------------------------------------------------------- through a buffer

  /**
    Encode into a buffer and decode what was written: sending works exactly if the encoding exists and fits, and
    what comes back looks like the original exactly if that survives.
   */
  method Transfer(d: Desc, m: Msg, buffer: array<byte>) returns (sent: bool, ok: bool, n: Msg)
    requires WF(d) && TagsFit(d) && TypedMsg(d, m) && SizesFitMsg(d, m)
    requires buffer.Length < TWO63 || SurvivesMsg(d, m)
    modifies buffer
    ensures sent <==> EncMsg(d, m).Some? && |EncMsg(d, m).value| <= buffer.Length
    ensures ok ==> sent && TypedMsg(d, n)
    ensures sent ==> (ok && SameMsg(d, m, n) <==> SurvivesMsg(d, m))
  {
    hide EncMsg, Decode, SameMsg, TypedMsg, SurvivesMsg, WF, TagsFit, SizesFitMsg;
    var sized, size, written;
    sized, size, sent, written := SizeThenEncode(d, m, buffer);
    ok, n := false, [];
    if sent {
      if SurvivesMsg(d, m) { RoundTrip(d, m); } else { RoundTripExact(d, m); }
      ok, n := PbDecode(buffer[..written], d);
    }
  }

  // ---------------------------------------------------------------- where the conditions are needed

  /** A one-field message whose only field has implicit presence. */
  ghost predicate Implicit(f: Field)
  {
    WFField(f) && f.htype.OPTIONAL? && f.sizeOffset == 0 && !f.ltype.SUBMESSAGE?
  }

  /**
    An instance of RoundTripExact. Implicit presence with a default that is not zero does not survive: the
    zero is not written, and an empty message decodes to the default.
   */
  lemma {:induction false} ImplicitPresenceExact(f: Field, v: Value)
    requires Implicit(f) && TypedValue(f, v) && IsDefaultValue(f, v)
    ensures WF([f]) && TypedMsg([f], [Single(v)]) && EncMsg([f], [Single(v)]) == Some([])
    ensures var r := Decode([f], []);
            r.Got? && TypedValue(f, DefaultValue(f))
            && (SameMsg([f], [Single(v)], r.value) <==> IsDefaultValue(f, DefaultValue(f)))
  {
    var d, m := [f], [Single(v)];
    DefaultValueTyped(f);
    assert d[0] == f && Home(d, 0) == 0;
    assert EncSlot(f, m[0]) == Some([]);
    assert EncField(d, m, 0) == Some([]) && EncPrefix(d, m, 0) == Some([]);
    assert [] + [] == EncPrefix(d, m, 0).value;
    assert EncMsg(d, m) == Some([]);
    DefaultTyped(d);
    assert DefaultMsg(d)[0] == Single(DefaultValue(f));
    assert Decode(d, []) == Got(DefaultMsg(d), []);
    assert SlotAt(d, m, 0) == m[0] && SlotAt(d, DefaultMsg(d), 0) == Single(DefaultValue(f));
    assert SameMsg(d, m, DefaultMsg(d)) <==> SameValue(f, v, DefaultValue(f));
    CStrFirst(f, v, DefaultValue(f));
  }

  lemma {:induction false} CStrFirst(f: Field, v: Value, w: Value)
    requires Implicit(f) && TypedValue(f, v) && TypedValue(f, w) && IsDefaultValue(f, v)
    ensures SameValue(f, v, w) <==> IsDefaultValue(f, w)
  {}
}
