/**
  The message round trip: what pb_encode writes for a struct, pb_decode turns back into a
  struct that no program following the description can tell from the first, exactly if the
  struct survives, which is a condition on the struct and its description alone.
 */
module NanopbRoundTrip {
  import opened Words
  import opened NanopbWire
  import opened NanopbReaders
  import opened NanopbMessage
  import opened NanopbEncode
  import opened NanopbDecode
  import opened NanopbMerge

  // ---------------------------------------------------------------- what the round trip needs

  predicate FitsField(f: Field)
    decreases f, 0
  {
    f.tag < 0x2000_0000 && (f.ltype.SUBMESSAGE? ==> TagsFit(f.ltype.sub))
  }

  /** Field numbers fit the 32-bit tag word, as the language demands. */
  predicate TagsFit(d: Desc)
    decreases d, 1
  {
    forall i :: 0 <= i < |d| ==> FitsField(d[i])
  }

  /** The decoder reads a length prefix as a 32-bit number. */
  predicate PayloadFits(e: Option<bytes>) { e.Some? ==> |e.value| < TWO32 }

  /** What is written: a string has to end inside its array, and a submessage has to fit its length prefix. */
  ghost predicate SurvivesValue(f: Field, v: Value)
    requires WFField(f) && TypedValue(f, v)
    decreases v, 0
  {
    match f.ltype
    case STRING => |CStr(v.chars)| < f.dataSize
    case SUBMESSAGE(sub) => PayloadFits(EncPrefix(sub, v.slots, |sub|)) && SurvivesMsg(sub, v.slots)
    case _ => true
  }

  /** What is not written because of implicit presence: the default it decodes to must be one that is not written either. */
  ghost predicate SurvivesUnwritten(f: Field, v: Value)
    requires WFField(f) && TypedValue(f, v)
    decreases v, 0
  {
    match f.ltype
    case SUBMESSAGE(sub) => SurvivesMsg(sub, v.slots)
    case _ => DefaultValueTyped(f); IsDefaultValue(f, DefaultValue(f))
  }

  ghost predicate SurvivesSlot(f: Field, s: Slot)
    requires WFField(f) && TypedSlot(f, s)
    decreases s, 1
  {
    if f.htype.REPEATED? && f.ltype.Packable() then PayloadFits(EncItems(f, s.items, |s.items|, false))
    else if f.htype.REPEATED? then forall k :: 0 <= k < |s.items| ==> SurvivesValue(f, s.items[k])
    else if Present(f, s) then SurvivesValue(f, s.v)
    else f.htype.OPTIONAL? && f.sizeOffset == 0 ==> SurvivesUnwritten(f, s.v)
  }

  /** Every field survives, and every oneof is unset or set to one of its members. */
  ghost predicate SurvivesMsg(d: Desc, m: Msg)
    requires WF(d) && TypedMsg(d, m)
    decreases m, 2
  {
    && SelectorsValid(d, m)
    && forall i {:trigger Home(d, i)} :: 0 <= i < |d| ==> assert WFField(d[i]); SurvivesSlot(d[i], m[Home(d, i)])
  }

  ghost predicate SurvivesAt(d: Desc, m: Msg, i: nat)
    requires WF(d) && TypedMsg(d, m) && i < |d|
  {
    assert WFField(d[i]);
    SurvivesSlot(d[i], SlotAt(d, m, i))
  }

  lemma {:induction false} SurvivesEverywhere(d: Desc, m: Msg)
    requires WF(d) && TypedMsg(d, m)
    ensures SurvivesMsg(d, m) <==> SelectorsValid(d, m) && forall i :: 0 <= i < |d| ==> SurvivesAt(d, m, i)
  {
    if SurvivesMsg(d, m) {
      forall i | 0 <= i < |d| ensures SurvivesAt(d, m, i) { assert Home(d, i) <= i; }
    }
    if SelectorsValid(d, m) && forall i :: 0 <= i < |d| ==> SurvivesAt(d, m, i) {
      forall i | 0 <= i < |d| ensures WFField(d[i]) && SurvivesSlot(d[i], m[Home(d, i)]) { assert SurvivesAt(d, m, i); }
    }
  }

  ghost predicate ItemSurvives(f: Field, items: seq<Value>, k: nat)
    requires WFField(f) && k < |items| && TypedValue(f, items[k])
  {
    SurvivesValue(f, items[k])
  }

  /** Sizes for which lengths are numbers of 63 bits; what survives is smaller anyway. */
  predicate Sized(survives: bool, e: bytes) { survives || |e| < TWO63 }

  // ---------------------------------------------------------------- integers

  lemma {:induction false} IntRoundTrip(f: Field, i: int, t: bytes)
    requires f.ltype.Packable() && TypedValue(f, VInt(i)) && EncInt(f, i).Some?
    ensures DecInt(f, EncInt(f, i).value + t) == Got(i, t)
    ensures |EncInt(f, i).value| > 0
  {
    hide Dec64, EncVarint, LittleEndian, FromLittleEndian, ReadFixed, CastSigned, ZigZag, UnZigZag, Modulus;
    if f.ltype.FIXED32? {
      FixedRoundTrip(i, 4, t);
    } else if f.ltype.FIXED64? {
      FixedRoundTrip(i, 8, t);
    } else if f.ltype.SVARINT? {
      ZigZagInverse(i);
      Dec64Inverts(ZigZag(i), t);
      CastInRange(i, f.dataSize);
    } else if f.ltype.UVARINT? {
      Dec64Inverts(i, t);
      SmallMod(i, Modulus(f.dataSize));
    } else {
      Dec64Inverts(if i < 0 then TWO64 + i else i, t);
      SignExtension(i, f.dataSize);
    }
  }

  lemma {:induction false} FixedRoundTrip(v: nat, n: nat, t: bytes)
    requires (n == 4 && v < TWO32) || (n == 8 && v < TWO64)
    ensures ReadFixed(LittleEndian(v, n) + t, n) == Got(v, t)
  {
    hide Shl, LittleEndian, FromLittleEndian;
    Shl32();
    LittleEndianInverse(v, n);
    var e := LittleEndian(v, n);
    assert (e + t)[..n] == e && (e + t)[n..] == t;
  }

  /** A negative value is written as 64 bits; the decoder's casts give it back. */
  lemma {:induction false} SignExtension(i: int, n: nat)
    requires IntSize(n) && InRange(i, n, true)
    ensures var v := if i < 0 then TWO64 + i else i;
            CastSigned(v, if n == 8 then 8 else 4) == i && CastSigned(i, n) == i
  {
    CastInRange(i, n);
    if i < 0 && n != 8 { assert (TWO64 + i) % TWO32 == TWO32 + i; }
  }

  // ---------------------------------------------------------------- packed arrays

  lemma {:induction false} PackedRoundTrip(f: Field, before: seq<Value>, items: seq<Value>, n: nat, t: bytes)
    requires f.ltype.Packable() && n <= |items| && |before| + |items| <= f.arraySize
    requires forall k :: 0 <= k < |items| ==> TypedValue(f, items[k])
    requires EncItems(f, items, n, false).Some?
    ensures DecPacked(f, before, EncItems(f, items, n, false).value + t) == DecPacked(f, before + items[..n], t)
    decreases n
  {
    hide DecInt, EncInt;
    if n == 0 {
      assert [] + t == t && before + items[..0] == before;
    } else {
      var x := EncItems(f, items, n - 1, false).value;
      var y := EncValue(f, items[n - 1]).value;
      assert x + ([] + y) + t == x + (y + t);
      PackedRoundTrip(f, before, items, n - 1, y + t);
      IntRoundTrip(f, items[n - 1].i, t);
      assert before + items[..n - 1] + [items[n - 1]] == before + items[..n];
    }
  }

  // ---------------------------------------------------------------- fields that are not written

  /** A value that passes the implicit-presence test decodes to the default. */
  lemma {:induction false} UnwrittenValue(f: Field, v: Value)
    requires WFField(f) && TypedValue(f, v) && IsDefaultValue(f, v)
    ensures TypedValue(f, DefaultValue(f))
    ensures SameValue(f, v, DefaultValue(f)) <==> SurvivesUnwritten(f, v)
    decreases v, 0
  {
    DefaultValueTyped(f);
    if f.ltype.SUBMESSAGE? {
      DefaultSubmessage(f, v);
      UnwrittenMsg(f.ltype.sub, v.slots);
    }
  }

  lemma {:induction false} UnwrittenMsg(d: Desc, m: Msg)
    requires WF(d) && TypedMsg(d, m) && IsDefaultMsg(d, m)
    ensures TypedMsg(d, DefaultMsg(d))
    ensures SameMsg(d, m, DefaultMsg(d)) <==> SurvivesMsg(d, m)
    decreases m, 2
  {
    hide Home, DefaultMsg, SurvivesMsg, SurvivesSlot, SameSlot, IsDefaultSlot, TypedSlot, DefaultSlot;
    DefaultTyped(d);
    SurvivesEverywhere(d, m);
    assert SelectorsValid(d, m) by { DefaultMeansEmpty(d, m); }
    forall i | 0 <= i < |d|
      ensures SameAt(d, m, DefaultMsg(d), i) <==> SurvivesAt(d, m, i)
    {
      assert WFField(d[i]);
      assert IsDefaultEntry(d, m, i);
      DefaultAt(d, i);
      UnwrittenSlot(d[i], m[Home(d, i)], DefaultMsg(d)[Home(d, i)]);
    }
    SameEverywhere(d, m, DefaultMsg(d));
  }

  ghost predicate SameAt(d: Desc, m: Msg, n: Msg, i: nat)
    requires TypedMsg(d, m) && TypedMsg(d, n) && i < |d|
  {
    SameSlot(d[i], SlotAt(d, m, i), SlotAt(d, n, i))
  }

  lemma {:induction false} SameEverywhere(d: Desc, m: Msg, n: Msg)
    requires TypedMsg(d, m) && TypedMsg(d, n)
    ensures SameMsg(d, m, n) <==> forall i :: 0 <= i < |d| ==> SameAt(d, m, n, i)
  {
    hide Home, SameSlot, TypedMsg;
    if SameMsg(d, m, n) {
      forall i | 0 <= i < |d| ensures SameAt(d, m, n, i) {}
    }
    if forall i :: 0 <= i < |d| ==> SameAt(d, m, n, i) {
      forall i | 0 <= i < |d| ensures SameSlot(d[i], SlotAt(d, m, i), SlotAt(d, n, i)) { assert SameAt(d, m, n, i); }
    }
  }

  lemma {:induction false} UnwrittenSlot(f: Field, s: Slot, t: Slot)
    requires WFField(f) && TypedSlot(f, s) && TypedSlot(f, t) && IsDefaultSlot(f, s)
    requires if f.htype.ONEOF? then t == Union(0, VInt(0)) else t == DefaultSlot(f, false)
    ensures SameSlot(f, s, t) <==> SurvivesSlot(f, s)
    decreases s, 1
  {
    if f.htype.OPTIONAL? && f.sizeOffset == 0 { UnwrittenValue(f, s.v); }
  }

  // ---------------------------------------------------------------- values

  lemma {:induction false} StringRoundTrip(f: Field, chars: bytes, t: bytes)
    requires WFField(f) && f.ltype.STRING? && |CStr(chars)| < f.dataSize
    ensures DecString(f, EncString(Chars(f, chars)) + t) == Got(CStr(chars), t)
    ensures CStr(CStr(chars)) == CStr(chars)
  {
    hide Dec32, EncVarint;
    var b := CStr(chars);
    CStrNoZero(b);
    assert EncString(b) + t == EncVarint(|b|) + (b + t);
    Dec32OfLength(|b|, b + t);
    TakeLocal(b, t, |b|);
    assert b[..|b|] == b && b[|b|..] + t == t;
  }

  lemma {:induction false} BytesRoundTrip(f: Field, b: bytes, t: bytes)
    requires WFField(f)
    ensures |b| + BYTES_HEADER <= f.dataSize ==> DecBytes(f, EncString(b) + t) == Got(b, t)
    ensures |b| == f.dataSize ==> DecFixedLength(f, EncString(b) + t) == Got(b, t)
  {
    hide Dec32, EncVarint;
    if |b| <= f.dataSize {
      assert EncString(b) + t == EncVarint(|b|) + (b + t);
      Dec32OfLength(|b|, b + t);
      TakeLocal(b, t, |b|);
      assert b[..|b|] == b && b[|b|..] + t == t;
      if b == [] { assert seq(0, _ => 0) == b; }
    }
  }

  /** A string decodes exactly if it was terminated inside its array; otherwise decoding fails. */
  lemma {:induction false} TerminationExact(f: Field, chars: bytes, t: bytes)
    requires WFField(f) && f.ltype.STRING?
    ensures var r := DecString(f, EncString(Chars(f, chars)) + t);
            if |CStr(chars)| < f.dataSize then r == Got(CStr(chars), t) && CStr(CStr(chars)) == CStr(chars) else r.Fail?
  {
    if |CStr(chars)| < f.dataSize {
      StringRoundTrip(f, chars, t);
    } else {
      hide Dec32, EncVarint;
      var b := Chars(f, chars);
      assert |b| == f.dataSize;
      assert EncString(b) + t == EncVarint(|b|) + (b + t);
      Dec32OfLength(|b|, b + t);
    }
  }

  /** A payload of 4 GiB or more is not read back. */
  lemma {:induction false} DelimitedExact(b: bytes, t: bytes)
    requires |b| < TWO63
    ensures Delimited(EncString(b) + t) == if |b| < TWO32 then Got(b, t) else Fail
  {
    hide Dec32, EncVarint;
    if |b| < TWO32 {
      DelimitedInverts(b, t);
    } else {
      assert EncString(b) + t == EncVarint(|b|) + (b + t);
      Dec32Refuses(|b|, b + t);
    }
  }

  /** What became of a value: it was not read, or it was, and then looks right exactly if it survives. */
  ghost predicate ValueBack(f: Field, v: Value, r: Read<Value>, t: bytes)
    requires WFField(f) && TypedValue(f, v)
  {
    if r.Fail? then !SurvivesValue(f, v)
    else r.rest == t && TypedValue(f, r.value) && (SameValue(f, v, r.value) <==> SurvivesValue(f, v))
  }

  /** One value, over the default when it is a submessage that is merged. */
  lemma {:induction false} ValueRoundTrip(f: Field, v: Value, old': Value, t: bytes)
    requires WFField(f) && TypedValue(f, v) && FitsField(f)
    requires f.ltype.SUBMESSAGE? ==> old' == DefaultValue(f) && TypedValue(f, old')
    requires EncValue(f, v).Some? && Sized(SurvivesValue(f, v), EncValue(f, v).value)
    ensures ValueBack(f, v, DecValue(f, old', EncValue(f, v).value + t), t)
    decreases v, 1
  {
    hide DecInt, EncInt, DecString, DecBytes, DecFixedLength, EncVarint, Dec32, Delimited;
    match f.ltype {
      case STRING => TerminationExact(f, v.chars, t);
      case BYTES => BytesRoundTrip(f, v.b, t);
      case FIXED_LENGTH_BYTES => BytesRoundTrip(f, v.b, t);
      case SUBMESSAGE(sub) => SubmessageRoundTrip(f, v, old', t);
      case _ => IntRoundTrip(f, v.i, t);
    }
  }

  lemma {:induction false} SubmessageRoundTrip(f: Field, v: Value, old': Value, t: bytes)
    requires WFField(f) && TypedValue(f, v) && FitsField(f) && f.ltype.SUBMESSAGE?
    requires old' == DefaultValue(f) && TypedValue(f, old')
    requires EncValue(f, v).Some? && Sized(SurvivesValue(f, v), EncValue(f, v).value)
    ensures ValueBack(f, v, DecValue(f, old', EncValue(f, v).value + t), t)
    decreases v, 0
  {
    hide EncVarint, Delimited, EncPrefix, DecodeNoInit, SameMsg, SurvivesMsg, DefaultMsg, TagsFit, WF, TypedMsg;
    var sub, m := f.ltype.sub, v.slots;
    var e := EncPrefix(sub, m, |sub|).value;
    assert |e| < TWO63;
    DelimitedExact(e, t);
    if |e| < TWO32 { MsgRoundTrip(sub, m); }
  }

  // ---------------------------------------------------------------- fields

  /** One tagged value in the field loop. */
  lemma {:induction false} OneField(d: Desc, m: Msg, seen: set<nat>, i: nat, wt: nat, e: bytes, t: bytes, s: Slot)
    requires WF(d) && TagsFit(d) && TypedMsg(d, m) && i < |d| && wt < 8
    requires WFField(d[i]) && TypedSlot(d[i], m[Home(d, i)]) && DecSlot(d[i], wt, m[Home(d, i)], e + t) == Got(s, t)
    ensures TypedMsg(d, m[Home(d, i) := s])
    ensures DecodeLoop(d, m, seen, EncTag(wt, d[i].tag) + e + t) == DecodeLoop(d, m[Home(d, i) := s], seen + {i}, t)
  {
    hide ReadTag, DecSlot, EncTag;
    assert FitsField(d[i]);
    assert EncTag(wt, d[i].tag) + e + t == EncTag(wt, d[i].tag) + (e + t);
    ReadTagInverts(wt, d[i].tag, e + t);
    assert EncTag(wt, d[i].tag) + (e + t) != [] by { TagNonEmpty(wt, d[i].tag); }
    FindUnique(d, i);
    UpdateTyped(d, m, i, s);
  }

  /** One tagged value that is not read. */
  lemma {:induction false} OneFieldFails(d: Desc, m: Msg, seen: set<nat>, i: nat, wt: nat, e: bytes, t: bytes)
    requires WF(d) && TagsFit(d) && TypedMsg(d, m) && i < |d| && wt < 8
    requires WFField(d[i]) && TypedSlot(d[i], m[Home(d, i)]) && DecSlot(d[i], wt, m[Home(d, i)], e + t).Fail?
    ensures DecodeLoop(d, m, seen, EncTag(wt, d[i].tag) + e + t) == Bad
  {
    hide ReadTag, DecSlot, EncTag;
    assert FitsField(d[i]);
    assert EncTag(wt, d[i].tag) + e + t == EncTag(wt, d[i].tag) + (e + t);
    ReadTagInverts(wt, d[i].tag, e + t);
    assert EncTag(wt, d[i].tag) + (e + t) != [] by { TagNonEmpty(wt, d[i].tag); }
    FindUnique(d, i);
  }

  lemma {:induction false} TagNonEmpty(wt: nat, tag: nat)
    ensures |EncTag(wt, tag)| >= 1
  {}

  lemma {:induction false} AtEntry(d: Desc, i: nat)
    requires WF(d) && TagsFit(d) && i < |d|
    ensures WFField(d[i]) && FitsField(d[i])
  {}

  /** An item that was read looks right exactly if it survives. */
  ghost predicate ItemBack(f: Field, items: seq<Value>, ws: seq<Value>, k: nat)
    requires WFField(f) && k < |items| && k < |ws| && TypedValue(f, items[k])
  {
    TypedValue(f, ws[k]) && (SameValue(f, items[k], ws[k]) <==> SurvivesValue(f, items[k]))
  }

  /** One more entry of an array that is not packed, in the field loop. */
  lemma {:induction false} ItemStep(d: Desc, m: Msg, seen: set<nat>, i: nat, us: seq<Value>, e: bytes, t: bytes)
    requires WF(d) && TagsFit(d) && TypedMsg(d, m) && i < |d| && d[i].htype.REPEATED? && !d[i].ltype.Packable()
    requires m[i] == Rep(us) && |us| < d[i].arraySize && WFField(d[i])
    requires var r := DecValue(d[i], DefaultValue(d[i]), e + t); r.Got? ==> r.rest == t
    ensures var r := DecValue(d[i], DefaultValue(d[i]), e + t);
            var s := EncTag(WireType(d[i].ltype), d[i].tag) + e + t;
            if r.Fail? then DecodeLoop(d, m, seen, s) == Bad
            else var m' := m[i := Rep(us + [r.value])];
                 TypedMsg(d, m') && DecodeLoop(d, m, seen, s) == DecodeLoop(d, m', seen + {i}, t)
  {
    hide EncTag, DecodeLoop, DecValue, WF, TagsFit, DefaultMsg, TypedMsg;
    var f := d[i];
    ArrayHome(d, m, i);
    var wt := WireType(f.ltype);
    var r := DecValue(f, DefaultValue(f), e + t);
    if r.Fail? {
      OneFieldFails(d, m, seen, i, wt, e, t);
    } else {
      OneField(d, m, seen, i, wt, e, t, Rep(us + [r.value]));
    }
  }

  lemma {:induction false} ArrayHome(d: Desc, m: Msg, i: nat)
    requires TypedMsg(d, m) && i < |d| && d[i].htype.REPEATED?
    ensures Home(d, i) == i && |m| == |d| && TypedSlot(d[i], m[i])
  {}

  ghost predicate AllSurvive(f: Field, items: seq<Value>)
    requires WFField(f) && forall k :: 0 <= k < |items| ==> TypedValue(f, items[k])
  {
    forall k :: 0 <= k < |items| ==> ItemSurvives(f, items, k)
  }

  /**
    The first n entries of an array that is not packed, each after its tag. `ws` are the entries that were
    read; if they are fewer, the next one stopped the decoder and does not survive.
   */
  lemma {:induction false} ItemsRoundTrip(d: Desc, m: Msg, seen: set<nat>, i: nat, items: seq<Value>, n: nat, t: bytes)
    returns (ws: seq<Value>)
    requires WF(d) && TagsFit(d) && TypedMsg(d, m) && i < |d| && d[i].htype.REPEATED? && !d[i].ltype.Packable() && WFField(d[i])
    requires m[i] == Rep([]) && n <= |items| <= d[i].arraySize
    requires forall k :: 0 <= k < |items| ==> TypedValue(d[i], items[k])
    requires EncItems(d[i], items, n, true).Some? && Sized(AllSurvive(d[i], items), EncItems(d[i], items, n, true).value)
    ensures |ws| <= n && forall k :: 0 <= k < |ws| ==> ItemBack(d[i], items, ws, k)
    ensures var s := EncItems(d[i], items, n, true).value + t;
            if |ws| < n then !ItemSurvives(d[i], items, |ws|) && DecodeLoop(d, m, seen, s) == Bad
            else TypedMsg(d, m[i := Rep(ws)])
                 && DecodeLoop(d, m, seen, s) == DecodeLoop(d, m[i := Rep(ws)], if n == 0 then seen else seen + {i}, t)
    decreases items, 2, n
  {
    hide EncTag, DecodeLoop, Home, SameValue, WF, TagsFit, DefaultMsg, TypedMsg, TypedValue, SurvivesValue, DecValue, EncValue;
    var f := d[i];
    ArrayHome(d, m, i);
    if n == 0 {
      ws := [];
      assert m[i := Rep([])] == m && [] + t == t;
    } else {
      var x := EncItems(f, items, n - 1, true).value;
      var y := EncValue(f, items[n - 1]).value;
      var tag := EncTag(WireType(f.ltype), f.tag);
      assert x + (tag + y) + t == x + (tag + y + t);
      ws := ItemsRoundTrip(d, m, seen, i, items, n - 1, tag + y + t);
      if |ws| == n - 1 {
        AtEntry(d, i);
        DefaultValueTyped(f);
        assert Sized(SurvivesValue(f, items[n - 1]), y) by { if AllSurvive(f, items) { assert ItemSurvives(f, items, n - 1); } }
        ValueRoundTrip(f, items[n - 1], DefaultValue(f), t);
        var m' := m[i := Rep(ws)];
        ItemStep(d, m', if n == 1 then seen else seen + {i}, i, ws, y, t);
        var r := DecValue(f, DefaultValue(f), y + t);
        if r.Got? {
          ws := ItemAppended(f, items, ws, r.value);
          assert m'[i := Rep(ws)] == m[i := Rep(ws)];
          assert seen + {i} + {i} == seen + {i};
        }
      }
    }
  }

  lemma {:induction false} ItemAppended(f: Field, items: seq<Value>, us: seq<Value>, w: Value) returns (ws: seq<Value>)
    requires WFField(f) && |us| < |items| && forall k :: 0 <= k < |items| ==> TypedValue(f, items[k])
    requires forall k :: 0 <= k < |us| ==> ItemBack(f, items, us, k)
    requires TypedValue(f, w) && (SameValue(f, items[|us|], w) <==> SurvivesValue(f, items[|us|]))
    ensures ws == us + [w] && forall k :: 0 <= k < |ws| ==> ItemBack(f, items, ws, k)
  {
    hide TypedValue, SameValue, SurvivesValue;
    ws := us + [w];
    forall k | 0 <= k < |ws| ensures ItemBack(f, items, ws, k) {
      if k < |us| { assert ItemBack(f, items, us, k); }
    }
  }

  /** The slot that became of a field: it looks right exactly if the field survives. */
  ghost predicate SlotBack(f: Field, s: Slot, t: Slot)
    requires WFField(f) && TypedSlot(f, s)
  {
    TypedSlot(f, t) && (f.htype.ONEOF? ==> s.which == t.which) && (SameSlot(f, s, t) <==> SurvivesSlot(f, s))
  }

  /** Decoding e in front of `rest` puts t into the slot of entry i. */
  ghost predicate Reads(d: Desc, n: Msg, seen: set<nat>, i: nat, e: bytes, rest: bytes, t: Slot, seen': set<nat>)
    requires WF(d) && TypedMsg(d, n) && i < |d|
  {
    && TypedMsg(d, n[Home(d, i) := t]) && seen <= seen' && (d[i].htype.REQUIRED? ==> i in seen')
    && DecodeLoop(d, n, seen, e + rest) == DecodeLoop(d, n[Home(d, i) := t], seen', rest)
  }

  lemma {:induction false} PackedArrayRoundTrip(d: Desc, n: Msg, seen: set<nat>, i: nat, items: seq<Value>, rest: bytes) returns (ok: bool)
    requires WF(d) && TagsFit(d) && TypedMsg(d, n) && i < |d| && d[i].htype.REPEATED? && d[i].ltype.Packable() && n[i] == Rep([])
    requires WFField(d[i]) && TypedSlot(d[i], Rep(items)) && items != []
    requires EncArray(d[i], items).Some? && Sized(SurvivesSlot(d[i], Rep(items)), EncArray(d[i], items).value)
    ensures ok ==> SlotBack(d[i], Rep(items), Rep(items)) && Reads(d, n, seen, i, EncArray(d[i], items).value, rest, Rep(items), seen + {i})
    ensures !ok ==> !SurvivesSlot(d[i], Rep(items)) && DecodeLoop(d, n, seen, EncArray(d[i], items).value + rest) == Bad
  {
    hide EncTag, EncVarint, DecodeLoop, WF, TagsFit, DefaultMsg, TypedMsg, EncItems, DecPacked, Delimited;
    var f := d[i];
    ArrayHome(d, n, i);
    var x := EncItems(f, items, |items|, false).value;
    ok := |x| < TWO32;
    DelimitedExact(x, rest);
    assert EncTag(WT_STRING, f.tag) + EncString(x) == EncArray(f, items).value;
    if ok {
      PackedRoundTrip(f, [], items, |items|, []);
      assert x + [] == x && [] + items[..|items|] == items;
      assert DecPacked(f, items, []) == Some(items) by { PackedEnd(f, items); }
      assert DecSlot(f, WT_STRING, n[i], EncString(x) + rest) == Got(Rep(items), rest);
      OneField(d, n, seen, i, WT_STRING, EncString(x), rest, Rep(items));
      PackedBack(f, items);
    } else {
      OneFieldFails(d, n, seen, i, WT_STRING, EncString(x), rest);
    }
  }

  lemma {:induction false} PackedBack(f: Field, items: seq<Value>)
    requires WFField(f) && f.htype.REPEATED? && f.ltype.Packable() && TypedSlot(f, Rep(items))
    requires PayloadFits(EncItems(f, items, |items|, false))
    ensures SlotBack(f, Rep(items), Rep(items))
  {
    hide EncItems;
    assert SurvivesSlot(f, Rep(items));
    forall k | 0 <= k < |items| ensures SameValue(f, items[k], items[k]) { assert TypedValue(f, items[k]); }
  }

  lemma {:induction false} PackedEnd(f: Field, items: seq<Value>)
    requires f.ltype.Packable()
    ensures DecPacked(f, items, []) == Some(items)
  {}

  lemma {:induction false} ArrayRoundTrip(d: Desc, n: Msg, seen: set<nat>, i: nat, items: seq<Value>, rest: bytes)
    returns (ok: bool, t: Slot, seen': set<nat>)
    requires WF(d) && TagsFit(d) && TypedMsg(d, n) && i < |d| && d[i].htype.REPEATED? && n[i] == Rep([])
    requires WFField(d[i]) && TypedSlot(d[i], Rep(items))
    requires EncArray(d[i], items).Some? && Sized(SurvivesSlot(d[i], Rep(items)), EncArray(d[i], items).value)
    ensures ok ==> SlotBack(d[i], Rep(items), t) && Reads(d, n, seen, i, EncArray(d[i], items).value, rest, t, seen')
    ensures !ok ==> !SurvivesSlot(d[i], Rep(items)) && DecodeLoop(d, n, seen, EncArray(d[i], items).value + rest) == Bad
    decreases items, 3
  {
    hide EncTag, EncVarint, DecodeLoop, WF, TagsFit, DefaultMsg, TypedMsg, EncItems, DecPacked, SurvivesValue, EncPrefix;
    var f := d[i];
    ArrayHome(d, n, i);
    ok, t, seen' := true, n[i], seen;
    if items == [] {
      assert n[i := t] == n && [] + rest == rest;
      NoItems(f);
    } else if f.ltype.Packable() {
      ok := PackedArrayRoundTrip(d, n, seen, i, items, rest);
      t, seen' := Rep(items), seen + {i};
    } else {
      ItemsSurvive(f, items);
      var ws := ItemsRoundTrip(d, n, seen, i, items, |items|, rest);
      ok, t, seen' := |ws| == |items|, Rep(ws), seen + {i};
      if ok { ItemsBack(f, items, ws); }
    }
  }

  lemma {:induction false} NoItems(f: Field)
    requires WFField(f) && f.htype.REPEATED? && TypedSlot(f, Rep([]))
    ensures SlotBack(f, Rep([]), Rep([])) && EncArray(f, []) == Some([])
  {}

  lemma {:induction false} ItemsSurvive(f: Field, items: seq<Value>)
    requires WFField(f) && f.htype.REPEATED? && !f.ltype.Packable() && TypedSlot(f, Rep(items))
    ensures SurvivesSlot(f, Rep(items)) <==> AllSurvive(f, items)
  {
    if AllSurvive(f, items) {
      forall k | 0 <= k < |items| ensures SurvivesValue(f, items[k]) { assert ItemSurvives(f, items, k); }
    }
  }

  lemma {:induction false} ItemsBack(f: Field, items: seq<Value>, ws: seq<Value>)
    requires WFField(f) && f.htype.REPEATED? && !f.ltype.Packable() && TypedSlot(f, Rep(items)) && |ws| == |items|
    requires forall k :: 0 <= k < |ws| ==> ItemBack(f, items, ws, k)
    ensures SlotBack(f, Rep(items), Rep(ws))
  {
    hide SurvivesValue, SameValue, TypedValue;
    ItemsSurvive(f, items);
    assert forall k :: 0 <= k < |ws| ==> TypedValue(f, ws[k]) by {
      forall k | 0 <= k < |ws| ensures TypedValue(f, ws[k]) { assert ItemBack(f, items, ws, k); }
    }
    if AllSurvive(f, items) {
      forall k | 0 <= k < |items| ensures SameValue(f, items[k], ws[k]) { assert ItemBack(f, items, ws, k) && ItemSurvives(f, items, k); }
    }
    if SameSlot(f, Rep(items), Rep(ws)) {
      forall k | 0 <= k < |items| ensures ItemSurvives(f, items, k) { assert ItemBack(f, items, ws, k); }
    }
  }

  /** How a decoded value ends up in the slot of a field that is not an array. */
  function Stored(f: Field, w: Value): Slot
  {
    match f.htype
    case ONEOF => Union(f.tag, w)
    case OPTIONAL => if f.sizeOffset == 0 then Single(w) else Opt(true, w)
    case _ => Single(w)
  }

  /** A value that was read, in the slot of its field. */
  lemma {:induction false} StoredBack(f: Field, s: Slot, w: Value)
    requires WFField(f) && TypedSlot(f, s) && !f.htype.REPEATED? && Present(f, s)
    requires TypedValue(f, w) && (SameValue(f, s.v, w) <==> SurvivesValue(f, s.v))
    ensures SlotBack(f, s, Stored(f, w))
  {
    hide SurvivesValue, SameValue, TypedValue;
  }

  /** The bytes of one field, decoded into its slot while that is still the default. */
  lemma {:induction false} SlotRoundTrip(d: Desc, n: Msg, seen: set<nat>, i: nat, s: Slot, rest: bytes)
    returns (ok: bool, t: Slot, seen': set<nat>)
    requires WF(d) && TagsFit(d) && TypedMsg(d, n) && i < |d| && WFField(d[i])
    requires TypedSlot(d[i], s) && EncSlot(d[i], s).Some? && Sized(SurvivesSlot(d[i], s), EncSlot(d[i], s).value)
    requires !d[i].htype.ONEOF? ==> n[Home(d, i)] == DefaultSlot(d[i], false)
    ensures ok && d[i].htype.ONEOF? && s.which != d[i].tag ==> t == n[Home(d, i)]
    ensures ok && !(d[i].htype.ONEOF? && s.which != d[i].tag) ==> SlotBack(d[i], s, t)
    ensures ok ==> Reads(d, n, seen, i, EncSlot(d[i], s).value, rest, t, seen')
    ensures !ok ==> !SurvivesSlot(d[i], s) && DecodeLoop(d, n, seen, EncSlot(d[i], s).value + rest) == Bad
    decreases s, 2
  {
    hide EncTag, DecodeLoop, Home, WF, TagsFit, DefaultMsg, TypedMsg, EncValue, SurvivesValue, SameValue, EncArray, TypedValue, DecValue;
    var f, h := d[i], Home(d, i);
    AtEntry(d, i);
    EntryTyped(d, n, i);
    if f.htype.REPEATED? {
      assert n[h] == Rep([]) && s == Rep(s.items);
      ok, t, seen' := ArrayRoundTrip(d, n, seen, i, s.items, rest);
    } else if Present(f, s) {
      ok, t, seen' := PresentRoundTrip(d, n, seen, i, s, rest);
    } else {
      ok, t, seen' := true, n[h], seen;
      assert n[h := t] == n && [] + rest == rest;
      if !f.htype.ONEOF? { AbsentBack(f, s); }
    }
  }

  lemma {:induction false} EntryTyped(d: Desc, n: Msg, i: nat)
    requires TypedMsg(d, n) && i < |d|
    ensures |n| == |d| && TypedSlot(d[i], n[Home(d, i)]) && (!d[i].htype.ONEOF? ==> Home(d, i) == i)
  {}

  lemma {:induction false} AbsentBack(f: Field, s: Slot)
    requires WFField(f) && TypedSlot(f, s) && f.htype.OPTIONAL? && !Present(f, s)
    ensures SlotBack(f, s, DefaultSlot(f, false))
  {
    DefaultValueTyped(f);
    if f.sizeOffset == 0 { UnwrittenValue(f, s.v); }
  }

  lemma {:induction false} PresentRoundTrip(d: Desc, n: Msg, seen: set<nat>, i: nat, s: Slot, rest: bytes)
    returns (ok: bool, t: Slot, seen': set<nat>)
    requires WF(d) && TagsFit(d) && TypedMsg(d, n) && i < |d| && WFField(d[i]) && !d[i].htype.REPEATED?
    requires TypedSlot(d[i], s) && Present(d[i], s) && EncSlot(d[i], s).Some? && Sized(SurvivesSlot(d[i], s), EncSlot(d[i], s).value)
    requires !d[i].htype.ONEOF? ==> n[Home(d, i)] == DefaultSlot(d[i], false)
    ensures ok ==> SlotBack(d[i], s, t) && Reads(d, n, seen, i, EncSlot(d[i], s).value, rest, t, seen')
    ensures !ok ==> !SurvivesSlot(d[i], s) && DecodeLoop(d, n, seen, EncSlot(d[i], s).value + rest) == Bad
    decreases s, 1
  {
    hide EncTag, DecodeLoop, Home, WF, TagsFit, DefaultMsg, TypedMsg, EncValue, SurvivesValue, SameValue, TypedValue, DecValue;
    var f, h := d[i], Home(d, i);
    AtEntry(d, i);
    EntryTyped(d, n, i);
    var e := EncValue(f, s.v).value;
    DefaultValueTyped(f);
    ValueRoundTrip(f, s.v, DefaultValue(f), rest);
    var r := DecValue(f, DefaultValue(f), e + rest);
    assert EncTag(WireType(f.ltype), f.tag) + e == EncSlot(f, s).value;
    ok, t, seen' := r.Got?, n[h], seen + {i};
    if ok {
      t := Stored(f, r.value);
      StoredBack(f, s, r.value);
      OneField(d, n, seen, i, WireType(f.ltype), e, rest, t);
    } else {
      OneFieldFails(d, n, seen, i, WireType(f.ltype), e, rest);
    }
  }

  // ---------------------------------------------------------------- messages

  /** Whether decoding the first k fields has settled the slot of entry j. */
  ghost predicate Decided(d: Desc, m: Msg, j: nat, k: nat)
    requires TypedMsg(d, m) && j < |d|
  {
    if d[j].htype.ONEOF? then exists s: nat :: s < k && Selects(d, m, j, s) else j < k
  }

  /** The slot of entry j after decoding k fields: settled, or the default. */
  ghost predicate AgreeAt(d: Desc, m: Msg, n: Msg, j: nat, k: nat)
    requires WF(d) && TypedMsg(d, m) && TypedMsg(d, n) && j < |d|
  {
    assert WFField(d[j]);
    if Decided(d, m, j, k) then SlotBack(d[j], SlotAt(d, m, j), SlotAt(d, n, j))
    else SlotAt(d, n, j) == DefaultMsg(d)[Home(d, j)]
  }

  ghost predicate Agree(d: Desc, m: Msg, n: Msg, k: nat)
    requires WF(d) && TypedMsg(d, m) && TypedMsg(d, n)
  {
    forall j :: 0 <= j < |d| ==> AgreeAt(d, m, n, j, k)
  }

  ghost predicate RequiredPrefix(d: Desc, seen: set<nat>, k: nat)
  {
    forall i :: 0 <= i < |d| && i < k && d[i].htype.REQUIRED? ==> i in seen
  }

  /** The first k fields: either one of them stops the decoder and does not survive, or all are read. */
  lemma {:induction false} PrefixRoundTrip(d: Desc, m: Msg, k: nat, rest: bytes) returns (ok: bool, n: Msg, seen: set<nat>)
    requires WF(d) && TagsFit(d) && TypedMsg(d, m) && k <= |d|
    requires EncPrefix(d, m, k).Some? && Sized(SurvivesMsg(d, m), EncPrefix(d, m, k).value)
    ensures TypedMsg(d, DefaultMsg(d))
    ensures ok ==> TypedMsg(d, n) && Agree(d, m, n, k) && RequiredPrefix(d, seen, k)
    ensures var s := EncPrefix(d, m, k).value + rest;
            if ok then DecodeLoop(d, DefaultMsg(d), {}, s) == DecodeLoop(d, n, seen, rest)
            else !SurvivesMsg(d, m) && DecodeLoop(d, DefaultMsg(d), {}, s) == Bad
    decreases m, 3, k
  {
    hide DecodeLoop, Agree, SurvivesMsg, SurvivesSlot, EncSlot, Home, TypedSlot, DefaultMsg, SameSlot, TagsFit, WF;
    DefaultTyped(d);
    if k == 0 {
      ok, n, seen := true, DefaultMsg(d), {};
      NothingDecoded(d, m);
      assert [] + rest == rest;
    } else {
      var i := k - 1;
      var x, y := EncPrefix(d, m, i).value, EncField(d, m, i).value;
      assert x + y + rest == x + (y + rest);
      var n', seen';
      ok, n', seen' := PrefixRoundTrip(d, m, i, y + rest);
      n, seen := n', seen';
      if ok {
        AtEntry(d, i);
        Ready(d, m, n', i);
        var t;
        ok, t, seen := SlotRoundTrip(d, n', seen', i, m[Home(d, i)], rest);
        n := n'[Home(d, i) := t];
        if ok { AgreeStep(d, m, n', n, i, t); }
      }
    }
  }

  lemma {:induction false} NothingDecoded(d: Desc, m: Msg)
    requires WF(d) && TypedMsg(d, m) && TypedMsg(d, DefaultMsg(d))
    ensures Agree(d, m, DefaultMsg(d), 0)
  {
    hide DefaultMsg, SlotBack, Home;
    forall j | 0 <= j < |d| ensures AgreeAt(d, m, DefaultMsg(d), j, 0) {}
  }

  /** What SlotRoundTrip asks of field i, from the state after the fields before it. */
  lemma {:induction false} Ready(d: Desc, m: Msg, n: Msg, i: nat)
    requires WF(d) && TypedMsg(d, m) && i < |d| && WFField(d[i])
    requires TypedMsg(d, n) && Agree(d, m, n, i)
    ensures TypedSlot(d[i], m[Home(d, i)]) && (SurvivesMsg(d, m) ==> SurvivesSlot(d[i], m[Home(d, i)]))
    ensures !d[i].htype.ONEOF? ==> n[Home(d, i)] == DefaultSlot(d[i], false)
    ensures EncField(d, m, i) == EncSlot(d[i], m[Home(d, i)])
  {
    hide DefaultSlot, SameSlot, Home, DefaultMsg, SurvivesSlot, SurvivesMsg, SlotBack;
    SurvivesEverywhere(d, m);
    assert SurvivesMsg(d, m) ==> SurvivesAt(d, m, i);
    DefaultAt(d, i);
    assert AgreeAt(d, m, n, i, i);
    assert SlotAt(d, n, i) == n[Home(d, i)];
  }

  /** Settling one slot. */
  lemma {:induction false} AgreeStep(d: Desc, m: Msg, n: Msg, n': Msg, i: nat, t: Slot)
    requires WF(d) && TypedMsg(d, m) && TypedMsg(d, n) && i < |d| && Agree(d, m, n, i) && WFField(d[i])
    requires n' == n[Home(d, i) := t] && TypedMsg(d, n')
    requires if d[i].htype.ONEOF? && Which(d, m, i) != d[i].tag then t == n[Home(d, i)] else SlotBack(d[i], SlotAt(d, m, i), t)
    ensures Agree(d, m, n', i + 1)
  {
    hide TypedMsg, SlotBack, WF, Home, AgreeAt, Which;
    var k := i + 1;
    forall j | 0 <= j < |d| ensures AgreeAt(d, m, n', j, k) {
      assert AgreeAt(d, m, n, j, i);
      AgreeAtStep(d, m, n, n', i, t, j);
    }
  }

  lemma {:induction false} AgreeAtStep(d: Desc, m: Msg, n: Msg, n': Msg, i: nat, t: Slot, j: nat)
    requires WF(d) && TypedMsg(d, m) && TypedMsg(d, n) && i < |d| && j < |d| && AgreeAt(d, m, n, j, i) && WFField(d[i])
    requires n' == n[Home(d, i) := t] && TypedMsg(d, n')
    requires if d[i].htype.ONEOF? && Which(d, m, i) != d[i].tag then t == n[Home(d, i)] else SlotBack(d[i], SlotAt(d, m, i), t)
    ensures AgreeAt(d, m, n', j, i + 1)
  {
    hide SameValue, TypedValue, DefaultSlot, DefaultMsg, Home, WF, SurvivesValue, SurvivesUnwritten;
    DecidedStep(d, m, j, i);
    if Home(d, j) != Home(d, i) {
      assert SlotAt(d, n', j) == SlotAt(d, n, j);
    } else if d[i].htype.ONEOF? && Which(d, m, i) != d[i].tag {
      assert n' == n;
    } else if j != i {
      SharedIsUnion(d, i, j);
      assert Selects(d, m, j, i);
      OtherMember(d, m, j, i);
      WFAt(d, j);
      UnselectedBack(d[j], SlotAt(d, m, j), SlotAt(d, n', j));
    } else {
      assert SlotAt(d, n', j) == t;
    }
  }

  lemma {:induction false} WFAt(d: Desc, j: nat)
    requires WF(d) && j < |d|
    ensures WFField(d[j])
  {}

  /** A member of a oneof that is not the selected one. */
  lemma {:induction false} UnselectedBack(f: Field, s: Slot, t: Slot)
    requires WFField(f) && f.htype.ONEOF? && TypedSlot(f, s) && TypedSlot(f, t) && s.which == t.which != f.tag
    ensures SlotBack(f, s, t)
  {}

  lemma {:induction false} OtherMember(d: Desc, m: Msg, j: nat, i: nat)
    requires WF(d) && TypedMsg(d, m) && j < |d| && d[j].htype.ONEOF? && Selects(d, m, j, i) && i != j
    ensures d[j].tag != Which(d, m, j)
  {}

  /** Decoding field i settles slot j exactly if that is its own slot and it is written there. */
  lemma {:induction false} DecidedStep(d: Desc, m: Msg, j: nat, i: nat)
    requires TypedMsg(d, m) && i < |d| && j < |d|
    ensures Decided(d, m, j, i + 1) <==>
            Decided(d, m, j, i) || (Home(d, j) == Home(d, i) && (d[j].htype.ONEOF? ==> d[i].tag == Which(d, m, j)))
    ensures Home(d, j) == Home(d, i) && d[j].htype.ONEOF? ==> d[i].htype.ONEOF? && Which(d, m, j) == Which(d, m, i)
  {
    hide TypedMsg, Home;
    if j != i && Home(d, j) == Home(d, i) { SharedIsUnion(d, i, j); }
    if d[j].htype.ONEOF? {
      if Home(d, j) == Home(d, i) && d[i].tag == Which(d, m, j) { assert Selects(d, m, j, i); }
      if Decided(d, m, j, i + 1) {
        var s: nat :| s < i + 1 && Selects(d, m, j, s);
        if s != i { assert Decided(d, m, j, i); }
      }
    }
  }

  /** After all fields the message looks right exactly if it survives. */
  lemma {:induction false} AgreeAll(d: Desc, m: Msg, n: Msg)
    requires WF(d) && TypedMsg(d, m) && TypedMsg(d, n) && Agree(d, m, n, |d|)
    ensures SameMsg(d, m, n) <==> SurvivesMsg(d, m)
  {
    hide TypedMsg, Home, SameMsg, SurvivesMsg, SurvivesAt, SameAt, WF, Which;
    SameEverywhere(d, m, n);
    SurvivesEverywhere(d, m);
    forall j | 0 <= j < |d|
      ensures SurvivesAt(d, m, j) && SelectorsValid(d, m) ==> SameAt(d, m, n, j)
      ensures SameAt(d, m, n, j) ==> SurvivesAt(d, m, j) && (d[j].htype.ONEOF? ==> Which(d, m, j) == 0 || exists k :: Selects(d, m, j, k))
    {
      assert AgreeAt(d, m, n, j, |d|);
      AgreeAtEnd(d, m, n, j);
    }
  }

  lemma {:induction false} AgreeAtEnd(d: Desc, m: Msg, n: Msg, j: nat)
    requires WF(d) && TypedMsg(d, m) && TypedMsg(d, n) && j < |d| && AgreeAt(d, m, n, j, |d|)
    ensures SurvivesAt(d, m, j) && SelectorsValid(d, m) ==> SameAt(d, m, n, j)
    ensures SameAt(d, m, n, j) ==> SurvivesAt(d, m, j) && (d[j].htype.ONEOF? ==> Which(d, m, j) == 0 || exists k :: Selects(d, m, j, k))
  {
    hide TypedMsg, SameValue, Home, DefaultMsg, SurvivesValue, SurvivesUnwritten, TypedValue;
    assert WFField(d[j]);
    DefaultAt(d, j);
    if d[j].htype.ONEOF? && Decided(d, m, j, |d|) {
      var k: nat :| k < |d| && Selects(d, m, j, k);
    }
  }

  lemma {:induction false} MsgRoundTrip(d: Desc, m: Msg)
    requires WF(d) && TagsFit(d) && TypedMsg(d, m)
    requires EncMsg(d, m).Some? && Sized(SurvivesMsg(d, m), EncMsg(d, m).value)
    ensures TypedMsg(d, DefaultMsg(d))
    ensures var r := DecodeNoInit(d, DefaultMsg(d), EncMsg(d, m).value);
            if r.Fail? then !SurvivesMsg(d, m) else r.rest == [] && (SameMsg(d, m, r.value) <==> SurvivesMsg(d, m))
    decreases m, 4
  {
    hide SameMsg, SurvivesMsg, TagsFit, EncPrefix, Agree;
    var ok, n, seen := PrefixRoundTrip(d, m, |d|, []);
    assert EncMsg(d, m).value + [] == EncMsg(d, m).value;
    if ok {
      AgreeAll(d, m, n);
    }
  }

  /**
    pb_decode of pb_encode(m) succeeds and yields a message that cannot be told from m exactly if m survives. If
    it succeeds it consumes exactly the bytes that were written.
   */
  lemma {:induction false} RoundTripExact(d: Desc, m: Msg)
    requires WF(d) && TagsFit(d) && TypedMsg(d, m) && EncMsg(d, m).Some? && |EncMsg(d, m).value| < TWO63
    ensures var r := Decode(d, EncMsg(d, m).value);
            (r.Got? ==> r.rest == []) && (r.Got? && SameMsg(d, m, r.value) <==> SurvivesMsg(d, m))
  {
    hide DecodeNoInit, EncMsg, SameMsg, SurvivesMsg;
    MsgRoundTrip(d, m);
  }

  /** The same for what survives, of any length. */
  lemma {:induction false} RoundTrip(d: Desc, m: Msg)
    requires WF(d) && TagsFit(d) && TypedMsg(d, m) && EncMsg(d, m).Some? && SurvivesMsg(d, m)
    ensures var r := Decode(d, EncMsg(d, m).value);
            r.Got? && r.rest == [] && SameMsg(d, m, r.value)
  {
    hide DecodeNoInit, EncMsg, SameMsg, SurvivesMsg;
    MsgRoundTrip(d, m);
  }

  // ---------------------------------------------------------------- descriptions for which only the struct matters

  ghost predicate FaithfulField(f: Field)
    requires WFField(f)
    decreases f, 0
  {
    && (f.htype.OPTIONAL? && f.sizeOffset == 0 && !f.ltype.SUBMESSAGE? && !f.ltype.FIXED_LENGTH_BYTES? ==>
          (DefaultValueTyped(f); IsDefaultValue(f, DefaultValue(f))))
    && (f.ltype.SUBMESSAGE? ==> Faithful(f.ltype.sub))
  }

  /** The default of every field with implicit presence is the value that is not written. */
  ghost predicate Faithful(d: Desc)
    requires WF(d)
    decreases d, 1
  {
    forall i :: 0 <= i < |d| ==> assert WFField(d[i]); FaithfulField(d[i])
  }

  ghost predicate SoundValue(f: Field, v: Value)
    requires TypedValue(f, v)
    decreases v, 0
  {
    match f.ltype
    case STRING => |CStr(v.chars)| < f.dataSize
    case SUBMESSAGE(sub) => PayloadFits(EncPrefix(sub, v.slots, |sub|)) && SoundMsg(sub, v.slots)
    case _ => true
  }

  ghost predicate SoundSlot(f: Field, s: Slot)
    requires TypedSlot(f, s)
    decreases s, 1
  {
    if f.htype.REPEATED? && f.ltype.Packable() then PayloadFits(EncItems(f, s.items, |s.items|, false))
    else if f.htype.REPEATED? then forall k :: 0 <= k < |s.items| ==> SoundValue(f, s.items[k])
    else Present(f, s) ==> SoundValue(f, s.v)
  }

  /** What is written is terminated if it is a string and fits its length prefix, and oneof selectors are valid. */
  ghost predicate SoundMsg(d: Desc, m: Msg)
    requires TypedMsg(d, m)
    decreases m, 2
  {
    SelectorsValid(d, m) && forall i {:trigger Home(d, i)} :: 0 <= i < |d| ==> SoundSlot(d[i], m[Home(d, i)])
  }

  /** With such a description, every struct whose written contents are sound survives. */
  lemma {:induction false} SoundSurvives(d: Desc, m: Msg)
    requires WF(d) && Faithful(d) && TypedMsg(d, m) && SoundMsg(d, m)
    ensures SurvivesMsg(d, m)
    decreases m, 2
  {
    hide SurvivesMsg, SurvivesSlot, SoundSlot, FaithfulField;
    SurvivesEverywhere(d, m);
    forall i | 0 <= i < |d| ensures SurvivesAt(d, m, i) {
      assert WFField(d[i]) && FaithfulField(d[i]) && Home(d, i) <= i;
      SoundSlotSurvives(d[i], m[Home(d, i)]);
    }
  }

  lemma {:induction false} SoundSlotSurvives(f: Field, s: Slot)
    requires WFField(f) && FaithfulField(f) && TypedSlot(f, s) && SoundSlot(f, s)
    ensures SurvivesSlot(f, s)
    decreases s, 1
  {
    hide EncItems;
    if f.htype.REPEATED? {
      if !f.ltype.Packable() {
        forall k | 0 <= k < |s.items| ensures SurvivesValue(f, s.items[k]) { SoundValueSurvives(f, s.items[k]); }
      }
    } else if Present(f, s) {
      SoundValueSurvives(f, s.v);
    } else if f.htype.OPTIONAL? && f.sizeOffset == 0 {
      FaithfulUnwritten(f, s.v);
    }
  }

  lemma {:induction false} SoundValueSurvives(f: Field, v: Value)
    requires WFField(f) && FaithfulField(f) && TypedValue(f, v) && SoundValue(f, v)
    ensures SurvivesValue(f, v)
    decreases v, 0
  {
    if f.ltype.SUBMESSAGE? {
      assert TypedMsg(f.ltype.sub, v.slots) && SoundMsg(f.ltype.sub, v.slots);
      SoundSurvives(f.ltype.sub, v.slots);
    }
  }

  lemma {:induction false} FaithfulUnwritten(f: Field, v: Value)
    requires WFField(f) && FaithfulField(f) && TypedValue(f, v) && IsDefaultValue(f, v)
    requires f.htype.OPTIONAL? && f.sizeOffset == 0
    ensures SurvivesUnwritten(f, v)
    decreases v, 0
  {
    DefaultValueTyped(f);
    if f.ltype.SUBMESSAGE? {
      DefaultSubmessage(f, v);
      FaithfulDefaultSurvives(f.ltype.sub, v.slots);
    }
  }

  lemma {:induction false} FaithfulDefaultSurvives(d: Desc, m: Msg)
    requires WF(d) && Faithful(d) && TypedMsg(d, m) && IsDefaultMsg(d, m)
    ensures SurvivesMsg(d, m)
    decreases m, 2
  {
    hide SurvivesMsg, FaithfulField, IsDefaultSlot;
    SurvivesEverywhere(d, m);
    assert SelectorsValid(d, m) by { DefaultMeansEmpty(d, m); }
    forall i | 0 <= i < |d| ensures SurvivesAt(d, m, i) {
      assert WFField(d[i]) && FaithfulField(d[i]) && IsDefaultEntry(d, m, i);
      FaithfulSlot(d[i], m[Home(d, i)]);
    }
  }

  lemma {:induction false} FaithfulSlot(f: Field, s: Slot)
    requires WFField(f) && FaithfulField(f) && TypedSlot(f, s) && IsDefaultSlot(f, s)
    ensures SurvivesSlot(f, s)
    decreases s, 1
  {
    if f.htype.OPTIONAL? && f.sizeOffset == 0 { FaithfulUnwritten(f, s.v); }
  }
}
