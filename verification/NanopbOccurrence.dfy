/**
  What each occurrence of a field does to the struct, in terms of the bytes alone: the last scalar
  wins, entries of arrays accumulate, submessages merge, and a oneof is replaced.
 */
module NanopbOccurrence {
  import opened Words
  import opened NanopbWire
  import opened NanopbReaders
  import opened NanopbMessage
  import opened NanopbEncode
  import opened NanopbDecode
  import opened NanopbMerge
  import opened NanopbRoundTrip

  /** The slot after one more value of field f. */
  function Put(f: Field, s: Slot, w: Value): Slot
    requires f.htype.REPEATED? ==> s.Rep?
  {
    match f.htype
    case REQUIRED => Single(w)
    case OPTIONAL => if f.sizeOffset == 0 then Single(w) else Opt(true, w)
    case REPEATED => Rep(s.items + [w])
    case ONEOF => Union(f.tag, w)
  }

  /** A key in numbers, and what follows it. */
  function Keyed(f: Field, wt: nat, e: bytes): bytes { EncVarint(8 * f.tag + wt) + e }

  lemma {:induction false} SlotHere(d: Desc, m: Msg, i: nat)
    requires WF(d) && TagsFit(d) && TypedMsg(d, m) && i < |d|
    ensures WFField(d[i]) && FitsField(d[i]) && Home(d, i) < |m| && TypedSlot(d[i], m[Home(d, i)])
  {}

  lemma {:induction false} KeyedIsTag(f: Field, wt: nat, e: bytes, t: bytes)
    ensures Keyed(f, wt, e) + t == EncTag(wt, f.tag) + e + t
  {}

  // ---------------------------------------------------------------- scalars, strings and bytes

  /** What a value looks like when it has been read: a string without what follows its end. */
  function Plain(f: Field, v: Value): Value { if f.ltype.STRING? && v.VStr? then VStr(CStr(v.chars)) else v }

  lemma {:induction false} PlainRead(f: Field, v: Value, old': Value, t: bytes)
    requires WFField(f) && !f.ltype.SUBMESSAGE? && TypedValue(f, v) && EncValue(f, v).Some? && SurvivesValue(f, v)
    ensures DecValue(f, old', EncValue(f, v).value + t) == Got(Plain(f, v), t)
  {
    hide DecInt, EncInt, DecString, DecBytes, DecFixedLength, EncVarint, Dec32, Delimited;
    match f.ltype {
      case STRING => StringRoundTrip(f, v.chars, t);
      case BYTES => BytesRoundTrip(f, v.b, t);
      case FIXED_LENGTH_BYTES => BytesRoundTrip(f, v.b, t);
      case SUBMESSAGE(_) =>
      case VARINT => IntRoundTrip(f, v.i, t);
      case UVARINT => IntRoundTrip(f, v.i, t);
      case SVARINT => IntRoundTrip(f, v.i, t);
      case FIXED32 => IntRoundTrip(f, v.i, t);
      case FIXED64 => IntRoundTrip(f, v.i, t);
    }
  }

  /**
    One value that is not a submessage. Whatever was there before, a field that is not an array now holds it; an
    array has one more entry, also if it could have been packed.
   */
  lemma {:induction false} ValueOccurs(d: Desc, m: Msg, seen: set<nat>, i: nat, wt: nat, v: Value, t: bytes)
    requires WF(d) && TagsFit(d) && TypedMsg(d, m) && i < |d| && wt < 8 && WFField(d[i]) && TypedSlot(d[i], m[Home(d, i)])
    requires !d[i].ltype.SUBMESSAGE? && TypedValue(d[i], v) && EncValue(d[i], v).Some? && SurvivesValue(d[i], v)
    requires d[i].htype.REPEATED? ==> |m[Home(d, i)].items| < d[i].arraySize && !(wt == 2 && d[i].ltype.Packable())
    ensures var m' := m[Home(d, i) := Put(d[i], m[Home(d, i)], Plain(d[i], v))];
            && TypedMsg(d, m')
            && DecodeLoop(d, m, seen, Keyed(d[i], wt, EncValue(d[i], v).value) + t) == DecodeLoop(d, m', seen + {i}, t)
  {
    hide DecodeLoop, WF, TagsFit, TypedMsg, Home, EncValue, DecValue, EncTag, SurvivesValue;
    SlotHere(d, m, i);
    var f, s := d[i], m[Home(d, i)];
    DefaultValueTyped(f);
    PlainRead(f, v, if f.htype.REPEATED? || f.htype.ONEOF? then DefaultValue(f) else s.v, t);
    KeyedIsTag(f, wt, EncValue(f, v).value, t);
    OneField(d, m, seen, i, wt, EncValue(f, v).value, t, Put(f, s, Plain(f, v)));
  }

  // ---------------------------------------------------------------- packed arrays

  /** A packed chunk adds all of its entries behind those that are there. */
  lemma {:induction false} PackedOccurs(d: Desc, m: Msg, seen: set<nat>, i: nat, vs: seq<Value>, t: bytes)
    requires WF(d) && TagsFit(d) && TypedMsg(d, m) && i < |d| && d[i].htype.REPEATED? && d[i].ltype.Packable()
    requires WFField(d[i]) && TypedSlot(d[i], m[Home(d, i)]) && |m[Home(d, i)].items| + |vs| <= d[i].arraySize
    requires (forall k :: 0 <= k < |vs| ==> TypedValue(d[i], vs[k])) && EncItems(d[i], vs, |vs|, false).Some?
    requires |EncItems(d[i], vs, |vs|, false).value| < TWO32
    ensures var m' := m[Home(d, i) := Rep(m[Home(d, i)].items + vs)];
            && TypedMsg(d, m')
            && DecodeLoop(d, m, seen, Keyed(d[i], 2, EncString(EncItems(d[i], vs, |vs|, false).value)) + t) == DecodeLoop(d, m', seen + {i}, t)
  {
    hide DecodeLoop, WF, TagsFit, TypedMsg, Home, EncItems, DecPacked, Delimited, EncTag;
    SlotHere(d, m, i);
    var f, items := d[i], m[Home(d, i)].items;
    var x := EncItems(f, vs, |vs|, false).value;
    DelimitedExact(x, t);
    PackedRoundTrip(f, items, vs, |vs|, []);
    assert x + [] == x && vs[..|vs|] == vs;
    PackedEnd(f, items + vs);
    KeyedIsTag(f, 2, EncString(x), t);
    OneField(d, m, seen, i, 2, EncString(x), t, Rep(items + vs));
  }

  /** An array that is full takes no more. */
  lemma {:induction false} FullArrayRefuses(d: Desc, m: Msg, seen: set<nat>, i: nat, wt: nat, e: bytes)
    requires WF(d) && TagsFit(d) && TypedMsg(d, m) && i < |d| && d[i].htype.REPEATED? && wt < 8
    requires TypedSlot(d[i], m[Home(d, i)]) && |m[Home(d, i)].items| >= d[i].arraySize
    requires wt == 2 && d[i].ltype.Packable() ==> exists x, t :: |x| > 0 && |x| < TWO32 && e == EncString(x) + t
    ensures DecodeLoop(d, m, seen, Keyed(d[i], wt, e)) == Bad
  {
    hide DecodeLoop, WF, TagsFit, TypedMsg, Home, Delimited, EncTag, EncString;
    SlotHere(d, m, i);
    KeyedIsTag(d[i], wt, e, []);
    assert Keyed(d[i], wt, e) + [] == Keyed(d[i], wt, e) && e + [] == e;
    if wt == 2 && d[i].ltype.Packable() {
      var x, t :| |x| > 0 && |x| < TWO32 && e == EncString(x) + t;
      DelimitedExact(x, t);
    }
    OneFieldFails(d, m, seen, i, wt, e, []);
  }

  // ---------------------------------------------------------------- submessages

  /** The struct that a submessage is decoded into: what is there already, or the defaults for a new array entry and in a oneof. */
  function Onto(f: Field, s: Slot): Msg
    requires f.ltype.SUBMESSAGE? && (f.htype.REQUIRED? || f.htype.OPTIONAL? ==> (s.Single? || s.Opt?) && s.v.VMsg?)
  {
    if f.htype.REQUIRED? || f.htype.OPTIONAL? then s.v.slots else DefaultMsg(f.ltype.sub)
  }

  lemma {:induction false} OntoTyped(f: Field, s: Slot)
    requires WFField(f) && f.ltype.SUBMESSAGE? && TypedSlot(f, s)
    ensures f.htype.REQUIRED? || f.htype.OPTIONAL? ==> (s.Single? || s.Opt?) && s.v.VMsg?
    ensures WF(f.ltype.sub) && TypedMsg(f.ltype.sub, Onto(f, s))
  {
    DefaultTyped(f.ltype.sub);
  }

  /** One submessage: its bytes are decoded onto what is there. */
  lemma {:induction false} SubmessageOccurs(d: Desc, m: Msg, seen: set<nat>, i: nat, x: bytes, t: bytes)
    requires WF(d) && TagsFit(d) && TypedMsg(d, m) && i < |d| && d[i].ltype.SUBMESSAGE? && |x| < TWO32
    requires WFField(d[i]) && TypedSlot(d[i], m[Home(d, i)]) && WF(d[i].ltype.sub)
    requires Onto.requires(d[i], m[Home(d, i)]) && TypedMsg(d[i].ltype.sub, Onto(d[i], m[Home(d, i)]))
    requires d[i].htype.REPEATED? ==> |m[Home(d, i)].items| < d[i].arraySize
    ensures var r := DecodeNoInit(d[i].ltype.sub, Onto(d[i], m[Home(d, i)]), x);
            var s := Keyed(d[i], 2, EncString(x)) + t;
            if r.Fail? then DecodeLoop(d, m, seen, s) == Bad
            else var m' := m[Home(d, i) := Put(d[i], m[Home(d, i)], VMsg(r.value))];
                 TypedMsg(d, m') && DecodeLoop(d, m, seen, s) == DecodeLoop(d, m', seen + {i}, t)
  {
    hide DecodeLoop, WF, TagsFit, TypedMsg, Home, DecodeNoInit, Delimited, EncTag, EncVarint, DefaultMsg;
    SlotHere(d, m, i);
    var f, s := d[i], m[Home(d, i)];
    DelimitedExact(x, t);
    DefaultValueTyped(f);
    KeyedIsTag(f, 2, EncString(x), t);
    var r := DecodeNoInit(f.ltype.sub, Onto(f, s), x);
    if r.Fail? {
      OneFieldFails(d, m, seen, i, 2, EncString(x), t);
    } else {
      OneField(d, m, seen, i, 2, EncString(x), t, Put(f, s, VMsg(r.value)));
    }
  }

  /**
    Two occurrences of a required or optional submessage: the second is decoded onto what the first one left. In an
    array there are then two entries, and in a oneof only the second counts.
   */
  lemma {:induction false} SubmessagesMerge(d: Desc, m: Msg, seen: set<nat>, i: nat, x: bytes, y: bytes, t: bytes)
    requires WF(d) && TagsFit(d) && TypedMsg(d, m) && i < |d| && d[i].ltype.SUBMESSAGE? && |x| < TWO32 && |y| < TWO32
    requires WFField(d[i]) && TypedSlot(d[i], m[Home(d, i)]) && WF(d[i].ltype.sub)
    requires Onto.requires(d[i], m[Home(d, i)]) && TypedMsg(d[i].ltype.sub, Onto(d[i], m[Home(d, i)]))
    requires d[i].htype.REPEATED? ==> |m[Home(d, i)].items| + 1 < d[i].arraySize
    requires DecodeNoInit(d[i].ltype.sub, Onto(d[i], m[Home(d, i)]), x).Got?
    ensures TypedMsg(d[i].ltype.sub, DefaultMsg(d[i].ltype.sub))
    ensures var f, h := d[i], Home(d, i);
            var first := DecodeNoInit(f.ltype.sub, Onto(f, m[h]), x).value;
            var r := DecodeNoInit(f.ltype.sub, if f.htype.REQUIRED? || f.htype.OPTIONAL? then first else DefaultMsg(f.ltype.sub), y);
            var s := Keyed(f, 2, EncString(x)) + Keyed(f, 2, EncString(y)) + t;
            if r.Fail? then DecodeLoop(d, m, seen, s) == Bad
            else var m' := m[h := match f.htype
                                  case REQUIRED => Single(VMsg(r.value))
                                  case OPTIONAL => if f.sizeOffset == 0 then Single(VMsg(r.value)) else Opt(true, VMsg(r.value))
                                  case REPEATED => Rep(m[h].items + [VMsg(first), VMsg(r.value)])
                                  case ONEOF => Union(f.tag, VMsg(r.value))];
                 TypedMsg(d, m') && DecodeLoop(d, m, seen, s) == DecodeLoop(d, m', seen + {i}, t)
  {
    hide DecodeLoop, WF, TagsFit, TypedMsg, Home, DecodeNoInit, EncString, DefaultMsg, Keyed;
    SlotHere(d, m, i);
    var f, h := d[i], Home(d, i);
    DefaultTyped(f.ltype.sub);
    var first := DecodeNoInit(f.ltype.sub, Onto(f, m[h]), x).value;
    var k, l := Keyed(f, 2, EncString(x)), Keyed(f, 2, EncString(y));
    assert k + l + t == k + (l + t);
    SubmessageOccurs(d, m, seen, i, x, l + t);
    var m1 := m[h := Put(f, m[h], VMsg(first))];
    SlotHere(d, m1, i);
    OntoTyped(f, m1[h]);
    SubmessageOccurs(d, m1, seen + {i}, i, y, t);
    assert seen + {i} + {i} == seen + {i};
    var r := DecodeNoInit(f.ltype.sub, Onto(f, m1[h]), y);
    if r.Got? {
      assert m1[h := Put(f, m1[h], VMsg(r.value))] == m[h := Put(f, m1[h], VMsg(r.value))];
      if f.htype.REPEATED? { assert m[h].items + [VMsg(first)] + [VMsg(r.value)] == m[h].items + [VMsg(first), VMsg(r.value)]; }
    }
  }

  /** A required or optional submessage may be sent in two parts: that is the same as sending it whole. */
  lemma {:induction false} SubmessageInParts(d: Desc, m: Msg, seen: set<nat>, i: nat, x: bytes, y: bytes, t: bytes)
    requires WF(d) && TagsFit(d) && TypedMsg(d, m) && i < |d| && d[i].ltype.SUBMESSAGE? && |x| + |y| < TWO32
    requires d[i].htype.REQUIRED? || d[i].htype.OPTIONAL?
    requires WFField(d[i]) && TypedSlot(d[i], m[Home(d, i)]) && WF(d[i].ltype.sub)
    requires Onto.requires(d[i], m[Home(d, i)]) && TypedMsg(d[i].ltype.sub, Onto(d[i], m[Home(d, i)]))
    requires WholeFields(d[i].ltype.sub, Onto(d[i], m[Home(d, i)]), x) && DecodeNoInit(d[i].ltype.sub, Onto(d[i], m[Home(d, i)]), x).Got?
    requires DecodeNoInit(d[i].ltype.sub, DecodeNoInit(d[i].ltype.sub, Onto(d[i], m[Home(d, i)]), x).value, y).Got?
    ensures DecodeLoop(d, m, seen, Keyed(d[i], 2, EncString(x)) + Keyed(d[i], 2, EncString(y)) + t)
            == DecodeLoop(d, m, seen, Keyed(d[i], 2, EncString(x + y)) + t)
  {
    hide DecodeLoop, WF, TagsFit, TypedMsg, Home, DecodeNoInit, EncString, DefaultMsg, Keyed, WholeFields;
    SlotHere(d, m, i);
    SubmessagesMerge(d, m, seen, i, x, y, t);
    ConcatIsMerge(d[i].ltype.sub, Onto(d[i], m[Home(d, i)]), x, y);
    SubmessageOccurs(d, m, seen, i, x + y, t);
  }

  // ---------------------------------------------------------------- required fields

  /** The required fields declared before entry i. */
  function RequiredBefore(d: Desc, i: nat): set<nat>
    requires i <= |d|
  {
    set k: nat | k < i && d[k].htype.REQUIRED?
  }

  lemma {:induction false} RequiredCounts(d: Desc, i: nat)
    requires i <= |d|
    ensures RequiredIndex(d, i) == |RequiredBefore(d, i)|
  {
    if i > 0 {
      RequiredCounts(d, i - 1);
      if d[i - 1].htype.REQUIRED? {
        assert RequiredBefore(d, i) == RequiredBefore(d, i - 1) + {i - 1};
      } else {
        assert RequiredBefore(d, i) == RequiredBefore(d, i - 1);
      }
    } else {
      assert RequiredBefore(d, 0) == {};
    }
  }

  /** The decoder accepts exactly if its loop does and each of the first 64 required fields was among those it met. */
  lemma {:induction false} RequiredExactly(d: Desc, m: Msg, s: bytes)
    requires WF(d) && TypedMsg(d, m)
    ensures DecodeNoInit(d, m, s).Got? <==>
            && DecodeLoop(d, m, {}, s).Done?
            && forall i: nat :: i < |d| && d[i].htype.REQUIRED? && |RequiredBefore(d, i)| < 64 ==> i in DecodeLoop(d, m, {}, s).seen
  {
    hide DecodeLoop, RequiredIndex, RequiredBefore;
    forall i: nat | i < |d| ensures RequiredIndex(d, i) == |RequiredBefore(d, i)| { RequiredCounts(d, i); }
  }

  // ---------------------------------------------------------------- integers of any origin

  /** The signed value of the low n bytes of a number. */
  function LowSigned(v: nat, n: nat): int
    requires n in {1, 2, 4, 8}
  {
    var m := if n == 1 then 0x100 else if n == 2 then 0x1_0000 else if n == 4 then 0x1_0000_0000 else 0x1_0000_0000_0000_0000;
    if v % m < m / 2 then v % m else v % m - m
  }

  function Width(n: nat): nat
    requires n in {1, 2, 4, 8}
  {
    if n == 1 then 0x100 else if n == 2 then 0x1_0000 else if n == 4 then 0x1_0000_0000 else 0x1_0000_0000_0000_0000
  }

  /** A cast to a signed type keeps the low bytes, and changes nothing exactly if the value fits. */
  lemma {:induction false} CastExactly(i: int, n: nat)
    requires n in {1, 2, 4, 8}
    ensures i >= 0 ==> CastSigned(i, n) == LowSigned(i, n)
    ensures CastSigned(i, n) == i <==> -(Width(n) / 2) <= i < Width(n) / 2
  {}

  /**
    A signed integer is read from any varint: the low 32 bits count for fields of up to 32 bits, whatever stands above
    them, and the value has to fit the field.
   */
  lemma {:induction false} SignedExactly(n: nat, s: bytes)
    ensures DecSigned(n, s) ==
            if Dec64(s).Fail? || n !in {1, 2, 4, 8} then Fail
            else
              var i := LowSigned(Dec64(s).value, if n == 8 then 8 else 4);
              if -(Width(n) / 2) <= i < Width(n) / 2 then Got(i, Dec64(s).rest) else Fail
  {
    hide Dec64, CastSigned, LowSigned, Width;
    if Dec64(s).Got? && n in {1, 2, 4, 8} {
      CastExactly(Dec64(s).value, if n == 8 then 8 else 4);
      CastExactly(LowSigned(Dec64(s).value, if n == 8 then 8 else 4), n);
    }
  }

  /** An unsigned one has to fit the field whole. */
  lemma {:induction false} UnsignedExactly(n: nat, s: bytes)
    ensures DecUnsigned(n, s) ==
            if Dec64(s).Got? && n in {1, 2, 4, 8} && Dec64(s).value < Width(n) then Got(Dec64(s).value, Dec64(s).rest) else Fail
  {
    hide Dec64;
  }

  /** And so does the value of a zig-zag code: half of an even one, and the negative of half of an odd one, rounded up. */
  lemma {:induction false} ZigZagExactly(n: nat, s: bytes)
    ensures DecZigZag(n, s) ==
            if Dec64(s).Fail? || n !in {1, 2, 4, 8} then Fail
            else
              var v := Dec64(s).value;
              var i := if v % 2 == 0 then v / 2 else -(v / 2) - 1;
              if -(Width(n) / 2) <= i < Width(n) / 2 then Got(i, Dec64(s).rest) else Fail
  {
    hide Dec64, CastSigned, Width, UnZigZag, ZigZag;
    if Dec64(s).Got? {
      var v := Dec64(s).value;
      Dec64Bound(s);
      ZigZagOnto(v);
      ZigZagOrder(UnZigZag(v));
      if n in {1, 2, 4, 8} { CastExactly(UnZigZag(v), n); }
    }
  }

  /** A payload is taken exactly if it fits: with its length in front for bytes, with its terminator for a string. */
  lemma {:induction false} PayloadsExactly(f: Field, b: bytes, t: bytes)
    requires f.dataSize <= PB_SIZE_MAX && |b| < TWO32
    ensures DecBytes(f, EncString(b) + t) == if |b| + 4 <= f.dataSize then Got(b, t) else Fail
    ensures DecString(f, EncString(b) + t) == if |b| + 1 <= f.dataSize then Got(b, t) else Fail
    ensures DecFixedLength(f, EncString(b) + t) ==
            if |b| == 0 then Got(seq(f.dataSize, _ => 0), t) else if |b| == f.dataSize then Got(b, t) else Fail
  {
    hide Dec32, EncVarint;
    assert EncString(b) + t == EncVarint(|b|) + (b + t);
    Dec32OfLength(|b|, b + t);
    TakeLocal(b, t, |b|);
    assert b[..|b|] == b && b[|b|..] + t == t;
  }

  // ---------------------------------------------------------------- the ends of a message, and nothing at all

  /** A zero byte ends the message, whatever follows it. */
  lemma {:induction false} ZeroEnds(d: Desc, m: Msg, seen: set<nat>, t: bytes)
    requires WF(d) && TypedMsg(d, m)
    ensures DecodeLoop(d, m, seen, [0] + t) == Done(m, seen, t, true)
  {
    assert ([0] + t)[1..] == t;
  }

  /** A message type without fields refuses field number 0 of any other wire type, which any other type skips. */
  lemma {:induction false} NumberZero(d: Desc, m: Msg, seen: set<nat>, v: byte)
    requires WF(d) && TypedMsg(d, m) && v < 128
    ensures EncTag(1, 0) == [1] && DecodeLoop(d, m, seen, [1, v, v, v, v, v, v, v, v]) == if d == [] then Bad else Done(m, seen, [], false)
  {
    var s: bytes := [1, v, v, v, v, v, v, v, v];
    assert ReadTag(s) == Tag(0, 1, s[1..]);
    assert SkipField(1, s[1..]) == Got((), []);
    assert Find(d, 0).None? by { forall i | 0 <= i < |d| ensures d[i].tag != 0 { assert WFField(d[i]); } }
    assert DecodeLoop(d, m, seen, []) == Done(m, seen, [], false);
  }

  /** Groups and reserved wire types cannot be skipped. */
  lemma {:induction false} OtherWireTypesFail(wt: nat, s: bytes)
    requires wt in {3, 4, 6, 7}
    ensures SkipField(wt, s) == Fail
  {}

  /** What a field holds when nothing was said about it. */
  function Initial(f: Field): Value
    requires !f.ltype.SUBMESSAGE?
  {
    match f.initial
    case Some(v) => v
    case None =>
      if f.ltype.BYTES? then VBytes([]) else if f.ltype.FIXED_LENGTH_BYTES? then VBytes(seq(f.dataSize, _ => 0))
      else if f.ltype.STRING? then VStr([]) else VInt(0)
  }

  /** No bytes at all: has-flags and selectors are off, arrays are empty, everything else has its initial value. */
  lemma {:induction false} NothingDecodes(d: Desc, i: nat)
    requires WF(d) && i < |d| && forall k :: 0 <= k < |d| ==> !d[k].htype.REQUIRED?
    ensures var r := Decode(d, []);
            && r.Got? && r.rest == [] && Home(d, i) < |r.value|
            && var s := r.value[Home(d, i)];
               match d[i].htype
               case REQUIRED => false
               case REPEATED => s == Rep([])
               case ONEOF => s.Union? && s.which == 0
               case OPTIONAL =>
                 var v := if d[i].ltype.SUBMESSAGE? then VMsg(DefaultMsg(d[i].ltype.sub)) else Initial(d[i]);
                 s == if d[i].sizeOffset == 0 then Single(v) else Opt(false, v)
  {
    hide DefaultMsg, Home;
    DefaultTyped(d);
    DefaultAt(d, i);
    assert DecodeLoop(d, DefaultMsg(d), {}, []) == Done(DefaultMsg(d), {}, [], false);
  }

  /** The bytes up to the first one without the continuation bit, or 0 if there is none. */
  function VarintEnd(s: bytes): (n: nat)
    ensures n <= |s|
  {
    if s == [] then 0
    else if s[0] < 128 then 1
    else if VarintEnd(s[1..]) == 0 then 0 else 1 + VarintEnd(s[1..])
  }

  /** A varint is accepted exactly if it ends within ten bytes. */
  lemma {:induction false} Dec64Accepts(s: bytes)
    ensures Dec64(s).Got? <==> 1 <= VarintEnd(s) <= 10
    ensures Dec64(s).Got? ==> Dec64(s).rest == s[VarintEnd(s)..]
  {
    Dec64AcceptsFrom(s, 0, 0);
  }

  lemma {:induction false} Dec64AcceptsFrom(s: bytes, k: nat, acc: nat)
    requires k <= 10
    ensures Dec64From(s, 7 * k, acc).Got? <==> 1 <= VarintEnd(s) <= 10 - k
    ensures Dec64From(s, 7 * k, acc).Got? ==> Dec64From(s, 7 * k, acc).rest == s[VarintEnd(s)..]
    decreases 10 - k
  {
    hide BitOr, Shl;
    if k < 10 && s != [] && s[0] >= 128 {
      Dec64AcceptsFrom(s[1..], k + 1, BitOr(acc, Shl(s[0] % 128, 7 * k) % TWO64));
    }
  }

  /** Four groups of zeros. */
  lemma {:induction false} FourZeros(s: bytes)
    requires |s| > 4 && forall k :: 0 <= k < 4 ==> s[k] == 0x80
    ensures Dec64(s) == Dec64From(s[4..], 28, 0) && Dec32(s) == Dec32From(s[4..], 28, 0)
  {
    hide Shl, BitOr, HighByteOk;
    ShlZeros(0); ShlZeros(7); ShlZeros(14); ShlZeros(21); BitOrZero(0);
    assert s[1..][1..] == s[2..] && s[2..][1..] == s[3..] && s[3..][1..] == s[4..];
    assert Dec64(s) == Dec64From(s[1..], 7, 0) == Dec64From(s[2..], 14, 0) == Dec64From(s[3..], 21, 0);
    assert Dec32(s) == Dec32From(s[1..], 7, 0) == Dec32From(s[2..], 14, 0) == Dec32From(s[3..], 21, 0);
  }

  /**
    A length of 2^32 is refused in its shortest form, but not with a byte of padding behind it: the decoder checks the fifth
    byte only when it is the last one, and otherwise drops its upper bits.
   */
  lemma {:induction false} LongLengthCutOff(t: bytes)
    ensures Dec32(EncVarint(0x1_0000_0000) + t).Fail?
    ensures var s := [0x80, 0x80, 0x80, 0x80, 0x90, 0x00] + t; Dec64(s) == Got(0x1_0000_0000, t) && Dec32(s) == Got(0, t)
  {
    hide Shl, BitOr, EncVarint;
    Dec32Refuses(0x1_0000_0000, t);
    var s: bytes := [0x80, 0x80, 0x80, 0x80, 0x90, 0x00] + t;
    FourZeros(s);
    ShlAt(16); ShlAt(0); ShlZeros(35);
    BitOrZero(0x1_0000_0000); BitOrZero(0);
    assert s[4..] == [0x90, 0x00] + t && s[4..][1..] == [0x00] + t && s[4..][1..][1..] == t;
    assert Dec64From(s[4..], 28, 0) == Dec64From([0x00] + t, 35, 0x1_0000_0000);
    assert Dec32From(s[4..], 28, 0) == Dec32From([0x00] + t, 35, 0);
  }

  /** The 8-bit bit position comes round after 36 bytes of padding, so that a byte behind them counts again. */
  lemma {:induction false} PaddingComesRound()
    ensures Dec32(seq(37, _ => 0x80) + [1]) == Got(8, [])
  {
    PaddedFrom(36, 7);
    var s: bytes := seq(37, _ => 0x80) + [1];
    assert s[1..] == seq(36, _ => 0x80) + [1];
  }

  lemma {:induction false} PaddingByte(s: bytes, bitpos: nat)
    requires bitpos < 256 && s != [] && s[0] == 0x80
    ensures Dec32From(s, bitpos, 0) == Dec32From(s[1..], (bitpos + 7) % 256, 0)
  {
    hide Shl, BitOr;
    ShlZeros(bitpos);
    BitOrZero(0);
  }

  lemma {:induction false} OneAtThree()
    ensures Dec32From([1], 3, 0) == Got(8, [])
  {
    hide Shl, BitOr;
    ShlNext(1, 0); ShlNext(1, 1); ShlNext(1, 2); ShlZero(1);
    BitOrZero(8);
  }

  lemma {:induction false} PaddedFrom(n: nat, bitpos: nat)
    requires bitpos < 256 && (7 * n + bitpos) % 256 == 3
    ensures Dec32From(seq(n, _ => 0x80) + [1], bitpos, 0) == Got(8, [])
  {
    hide Dec32From;
    var s: bytes := seq(n, _ => 0x80) + [1];
    if n > 0 {
      NextPosition(n, bitpos);
      PaddedFrom(n - 1, (bitpos + 7) % 256);
      assert s[1..] == seq(n - 1, _ => 0x80) + [1];
      PaddingByte(s, bitpos);
    } else {
      assert s == [1];
      OneAtThree();
    }
  }

  lemma {:induction false} NextPosition(n: nat, bitpos: nat)
    requires n > 0
    ensures (7 * (n - 1) + (bitpos + 7) % 256) % 256 == (7 * n + bitpos) % 256
  {}
}
