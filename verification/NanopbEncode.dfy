/**
  What pb_encode.c writes for a message: the bytes as a function of the description and the
  struct, or a failure. The functions follow the encoder case by case; how the bytes reach a
  bounded stream, in two passes, is the subject of NanopbOStream.
 */
module NanopbEncode {
  import opened Words
  import opened NanopbWire
  import opened NanopbReaders
  import opened NanopbMessage

  /** pb_encode_tag_for_field */
  function WireType(t: LType): (wt: nat)
    ensures wt in {WT_VARINT, WT_64BIT, WT_STRING, WT_32BIT}
  {
    match t
    case VARINT => WT_VARINT
    case UVARINT => WT_VARINT
    case SVARINT => WT_VARINT
    case FIXED32 => WT_32BIT
    case FIXED64 => WT_64BIT
    case _ => WT_STRING
  }

  /** pb_enc_varint, pb_enc_uvarint, pb_enc_svarint, pb_enc_fixed32, pb_enc_fixed64 */
  function EncInt(f: Field, i: int): Option<bytes>
    requires f.ltype.Packable() && TypedValue(f, VInt(i))
  {
    if f.ltype.FIXED32? then Some(LittleEndian(i, 4))
    else if f.ltype.FIXED64? then Some(LittleEndian(i, 8))
    else if !IntSize(f.dataSize) then None
    else if f.ltype.SVARINT? then Some(EncVarint(ZigZag(i)))
    else Some(EncVarint(if i < 0 then TWO64 + i else i))
  }

  /** pb_encode_string */
  function EncString(b: bytes): bytes { EncVarint(|b|) + b }

  /** The characters pb_enc_string finds: up to a zero, or to the end of the array. */
  function Chars(f: Field, chars: bytes): bytes
  {
    if |CStr(chars)| <= f.dataSize then CStr(chars) else CStr(chars)[..f.dataSize]
  }

  /** PB_ENCODERS[PB_LTYPE(type)] */
  ghost function EncValue(f: Field, v: Value): (e: Option<bytes>)
    requires TypedValue(f, v)
    decreases v, 0, 0
  {
    match f.ltype
    case BYTES => if |v.b| + BYTES_HEADER > f.dataSize then None else Some(EncString(v.b))
    case STRING => Some(EncString(Chars(f, v.chars)))
    case FIXED_LENGTH_BYTES => Some(EncString(v.b))
    case SUBMESSAGE(sub) => var e :- EncPrefix(sub, v.slots, |sub|); Some(EncString(e))
    case _ => EncInt(f, v.i)
  }

  /** The first n entries of an array, each after its own tag when not packed. */
  ghost function EncItems(f: Field, items: seq<Value>, n: nat, tagged: bool): Option<bytes>
    requires n <= |items| && forall k :: 0 <= k < |items| ==> TypedValue(f, items[k])
    decreases items, 1, n
  {
    if n == 0 then Some([])
    else
      var x :- EncItems(f, items, n - 1, tagged);
      var y :- EncValue(f, items[n - 1]);
      Some(x + ((if tagged then EncTag(WireType(f.ltype), f.tag) else []) + y))
  }

  /** encode_array: arrays are always packed if the type allows it. */
  ghost function EncArray(f: Field, items: seq<Value>): Option<bytes>
    requires forall k :: 0 <= k < |items| ==> TypedValue(f, items[k])
    decreases items, 2, 0
  {
    if items == [] then Some([])
    else if |items| > f.arraySize then None
    else
      var x :- EncItems(f, items, |items|, !f.ltype.Packable());
      Some(if f.ltype.Packable() then EncTag(WT_STRING, f.tag) + EncString(x) else x)
  }

  /** pb_check_proto3_default_value for the data of a field with implicit presence. */
  ghost predicate IsDefaultValue(f: Field, v: Value)
    requires TypedValue(f, v)
    decreases v, 0
  {
    match f.ltype
    case BYTES => v.b == []
    case STRING => v.chars == [] || v.chars[0] == 0
    case FIXED_LENGTH_BYTES => f.dataSize == 0
    case SUBMESSAGE(sub) =>
      assert TypedMsg(sub, v.slots);
      forall j :: 0 <= j < |sub| ==> IsDefaultSlot(sub[j], v.slots[Home(sub, j)])
    case _ => v.i == 0
  }

  /** pb_check_proto3_default_value */
  ghost predicate IsDefaultSlot(f: Field, s: Slot)
    requires TypedSlot(f, s)
    decreases s, 1
  {
    match f.htype
    case REQUIRED => false
    case REPEATED => s.items == []
    case ONEOF => s.which == 0
    case OPTIONAL => if f.sizeOffset != 0 then !s.has else IsDefaultValue(f, s.v)
  }

  ghost predicate IsDefaultEntry(d: Desc, m: Msg, j: nat)
    requires TypedMsg(d, m) && j < |d|
  {
    IsDefaultSlot(d[j], SlotAt(d, m, j))
  }

  ghost predicate IsDefaultMsg(d: Desc, m: Msg)
    requires TypedMsg(d, m)
  {
    forall j :: 0 <= j < |d| ==> IsDefaultEntry(d, m, j)
  }

  /** A submessage passes the test if all of its fields do. */
  lemma {:induction false} DefaultSubmessage(f: Field, v: Value)
    requires f.ltype.SUBMESSAGE? && TypedValue(f, v) && TypedMsg(f.ltype.sub, v.slots)
    ensures IsDefaultValue(f, v) <==> IsDefaultMsg(f.ltype.sub, v.slots)
  {
    var d, m := f.ltype.sub, v.slots;
    if IsDefaultMsg(d, m) {
      forall j | 0 <= j < |d| ensures IsDefaultSlot(d[j], m[Home(d, j)]) { assert IsDefaultEntry(d, m, j); }
    }
    if IsDefaultValue(f, v) {
      forall j | 0 <= j < |d| ensures IsDefaultEntry(d, m, j) {}
    }
  }

  /** Whether encode_basic_field writes a field that is not an array. */
  ghost predicate Present(f: Field, s: Slot)
    requires TypedSlot(f, s) && !f.htype.REPEATED?
  {
    match f.htype
    case REQUIRED => true
    case ONEOF => s.which == f.tag
    case OPTIONAL => if f.sizeOffset != 0 then s.has else !IsDefaultValue(f, s.v)
  }

  /** encode_basic_field */
  ghost function EncSlot(f: Field, s: Slot): Option<bytes>
    requires TypedSlot(f, s)
    decreases s, 1, 0
  {
    if f.htype.REPEATED? then EncArray(f, s.items)
    else if !Present(f, s) then Some([])
    else var e :- EncValue(f, s.v); Some(EncTag(WireType(f.ltype), f.tag) + e)
  }

  /** encode_field, for the entry the iterator points at. */
  ghost function EncField(d: Desc, m: Msg, j: nat): Option<bytes>
    requires TypedMsg(d, m) && j < |d|
    decreases m, 2, 0
  {
    EncSlot(d[j], m[Home(d, j)])
  }

  /** pb_encode after n fields. */
  ghost function EncPrefix(d: Desc, m: Msg, n: nat): Option<bytes>
    requires TypedMsg(d, m) && n <= |d|
    decreases m, 3, n
  {
    if n == 0 then Some([])
    else
      var x :- EncPrefix(d, m, n - 1);
      var y :- EncField(d, m, n - 1);
      Some(x + y)
  }

  /** pb_encode */
  ghost function EncMsg(d: Desc, m: Msg): Option<bytes>
    requires TypedMsg(d, m)
  {
    EncPrefix(d, m, |d|)
  }

  // ---------------------------------------------------------------- sizes

  ghost predicate SizesFitValue(f: Field, v: Value)
    requires TypedValue(f, v)
    decreases v, 0
  {
    f.ltype.SUBMESSAGE? ==>
      && (EncPrefix(f.ltype.sub, v.slots, |f.ltype.sub|).Some? ==>
            |EncPrefix(f.ltype.sub, v.slots, |f.ltype.sub|).value| < TWO64)
      && SizesFitMsg(f.ltype.sub, v.slots)
  }

  ghost predicate SizesFitSlot(f: Field, s: Slot)
    requires TypedSlot(f, s)
    decreases s, 1
  {
    if f.htype.REPEATED? then forall k :: 0 <= k < |s.items| ==> SizesFitValue(f, s.items[k])
    else Present(f, s) ==> SizesFitValue(f, s.v)
  }

  /** The encoded size of no submessage overflows size_t. */
  ghost predicate SizesFitMsg(d: Desc, m: Msg)
    requires TypedMsg(d, m)
    decreases m, 2
  {
    forall i {:trigger Home(d, i)} :: 0 <= i < |d| ==> SizesFitSlot(d[i], m[Home(d, i)])
  }

  /** Packed entries take at most ten bytes each. */
  lemma {:induction false} PackedSize(f: Field, items: seq<Value>, n: nat)
    requires f.ltype.Packable() && n <= |items| && forall k :: 0 <= k < |items| ==> TypedValue(f, items[k])
    requires EncItems(f, items, n, false).Some?
    ensures |EncItems(f, items, n, false).value| <= 10 * n
    ensures f.ltype.FIXED32? ==> |EncItems(f, items, n, false).value| == 4 * n
    ensures f.ltype.FIXED64? ==> |EncItems(f, items, n, false).value| == 8 * n
    decreases n
  {
    hide EncVarint, LittleEndian;
    if n > 0 {
      PackedSize(f, items, n - 1);
      var i := items[n - 1].i;
      if !f.ltype.FIXED32? && !f.ltype.FIXED64? {
        if f.ltype.SVARINT? { ZigZagInverse(i); VarintAtMostTen(ZigZag(i)); }
        else { VarintAtMostTen(if i < 0 then TWO64 + i else i); }
      }
    }
  }

  // ---------------------------------------------------------------- implicit presence

  /** Encoding succeeds and writes no bytes. */
  predicate Nothing(e: Option<bytes>) { e.Some? && |e.value| == 0 }

  ghost predicate WritesNothing(d: Desc, m: Msg, j: nat)
    requires TypedMsg(d, m) && j < |d|
  {
    Nothing(EncField(d, m, j))
  }

  lemma {:induction false} PrefixSucceeds(d: Desc, m: Msg, n: nat, k: nat)
    requires TypedMsg(d, m) && k <= n <= |d| && EncPrefix(d, m, n).Some?
    ensures EncPrefix(d, m, k).Some? && EncPrefix(d, m, k).value <= EncPrefix(d, m, n).value
    ensures k < n ==> EncField(d, m, k).Some? && |EncField(d, m, k).value| <= |EncPrefix(d, m, n).value|
  {
    hide EncField, TypedMsg;
    if k < n { PrefixSucceeds(d, m, n - 1, k); }
  }

  lemma {:induction false} ArrayEmpty(f: Field, items: seq<Value>)
    requires forall k :: 0 <= k < |items| ==> TypedValue(f, items[k])
    ensures Nothing(EncArray(f, items)) <==> items == []
  {
    if items != [] && EncItems(f, items, |items|, !f.ltype.Packable()).Some? {
      assert EncItems(f, items, |items| - 1, !f.ltype.Packable()).Some?;
    }
  }

  /** A field is written as nothing exactly if it is a default, or an unselected member of a oneof. */
  lemma {:induction false} SlotEmpty(f: Field, s: Slot)
    requires TypedSlot(f, s) && f.tag > 0
    ensures Nothing(EncSlot(f, s)) <==> IsDefaultSlot(f, s) || (f.htype.ONEOF? && s.which != f.tag)
  {
    if f.htype.REPEATED? { ArrayEmpty(f, s.items); }
  }

  lemma {:induction false} PrefixEmpty(d: Desc, m: Msg, n: nat)
    requires TypedMsg(d, m) && n <= |d|
    ensures Nothing(EncPrefix(d, m, n)) <==> forall j :: 0 <= j < n ==> WritesNothing(d, m, j)
    decreases n
  {
    hide EncField, TypedMsg;
    if n > 0 {
      PrefixEmpty(d, m, n - 1);
      var x, y := EncPrefix(d, m, n - 1), EncField(d, m, n - 1);
      assert Nothing(EncPrefix(d, m, n)) <==> Nothing(x) && Nothing(y);
      assert Nothing(y) <==> WritesNothing(d, m, n - 1);
    }
  }

  /** The selector of the oneof that entry i is a member of. */
  ghost function Which(d: Desc, m: Msg, i: nat): nat
    requires TypedMsg(d, m) && i < |d| && d[i].htype.ONEOF?
  {
    SlotAt(d, m, i).which
  }

  ghost predicate Selects(d: Desc, m: Msg, i: nat, k: nat)
    requires TypedMsg(d, m) && i < |d| && d[i].htype.ONEOF?
  {
    k < |d| && Home(d, k) == Home(d, i) && d[k].tag == Which(d, m, i)
  }

  /** Every oneof of this struct is either unset or set to one of its members. */
  ghost predicate SelectorsValid(d: Desc, m: Msg)
    requires TypedMsg(d, m)
  {
    forall i :: 0 <= i < |d| && d[i].htype.ONEOF? ==> Which(d, m, i) == 0 || exists k :: Selects(d, m, i, k)
  }

  ghost predicate SelectorsZero(d: Desc, m: Msg)
    requires TypedMsg(d, m)
  {
    forall i :: 0 <= i < |d| && d[i].htype.ONEOF? ==> Which(d, m, i) == 0
  }

  lemma {:induction false} FieldEmpty(d: Desc, m: Msg, j: nat)
    requires TypedMsg(d, m) && WF(d) && j < |d|
    ensures WritesNothing(d, m, j) <==>
            IsDefaultEntry(d, m, j) || (d[j].htype.ONEOF? && Which(d, m, j) != d[j].tag)
    ensures d[j].htype.ONEOF? ==> (IsDefaultEntry(d, m, j) <==> Which(d, m, j) == 0)
  {
    hide EncSlot, IsDefaultValue;
    assert WFField(d[j]);
    SlotEmpty(d[j], SlotAt(d, m, j));
  }

  /**
    The implicit-presence test holds of a message exactly if encoding that message writes
    nothing and no oneof selector is set.
   */
  lemma {:induction false} DefaultMeansEmpty(d: Desc, m: Msg)
    requires TypedMsg(d, m) && WF(d)
    ensures IsDefaultMsg(d, m) <==> Nothing(EncMsg(d, m)) && SelectorsZero(d, m)
  {
    hide EncField, EncPrefix, IsDefaultSlot, TypedMsg, Which, WF, SlotAt;
    PrefixEmpty(d, m, |d|);
    forall j | 0 <= j < |d|
      ensures IsDefaultMsg(d, m) ==> WritesNothing(d, m, j) && (d[j].htype.ONEOF? ==> Which(d, m, j) == 0)
      ensures Nothing(EncMsg(d, m)) && SelectorsZero(d, m) ==> IsDefaultEntry(d, m, j)
    {
      FieldEmpty(d, m, j);
    }
  }

  /** With valid oneof selectors, the test means exactly that nothing is written. */
  lemma {:induction false} DefaultIffEmpty(d: Desc, m: Msg)
    requires TypedMsg(d, m) && WF(d) && SelectorsValid(d, m)
    ensures IsDefaultMsg(d, m) <==> Nothing(EncMsg(d, m))
  {
    hide EncField, EncPrefix, IsDefaultSlot, TypedMsg, WF;
    DefaultMeansEmpty(d, m);
    PrefixEmpty(d, m, |d|);
    if Nothing(EncMsg(d, m)) {
      forall i | 0 <= i < |d| && d[i].htype.ONEOF? ensures Which(d, m, i) == 0 {
        if Which(d, m, i) != 0 {
          var k :| Selects(d, m, i, k);
          FieldEmpty(d, m, k);
        }
      }
    }
  }
}
