/**
  The wire format itself (the message structure of the Protocol Buffers encoding): a message is a
  sequence of records, each with a field number, a wire type and a payload. What the encoder
  writes is said here record by record, in numbers, without the encoder's own tables.
 */
module NanopbFormat {
  import opened Words
  import opened NanopbWire
  import opened NanopbReaders
  import opened NanopbMessage
  import opened NanopbEncode
  import opened NanopbDecode
  import opened NanopbMerge
  import opened NanopbRoundTrip

  datatype Rec = Varint(num: nat, v: nat) | Eight(num: nat, v: nat) | Chunk(num: nat, b: bytes) | Four(num: nat, v: nat)

  /** A record as bytes: the key is eight times the field number plus the wire type. */
  function RecBytes(r: Rec): bytes
  {
    match r
    case Varint(num, v) => EncVarint(8 * num) + EncVarint(v)
    case Eight(num, v) => EncVarint(8 * num + 1) + LittleEndian(v, 8)
    case Chunk(num, b) => EncVarint(8 * num + 2) + (EncVarint(|b|) + b)
    case Four(num, v) => EncVarint(8 * num + 5) + LittleEndian(v, 4)
  }

  function AllBytes(rs: seq<Rec>): bytes
  {
    if rs == [] then [] else AllBytes(rs[..|rs| - 1]) + RecBytes(rs[|rs| - 1])
  }

  lemma {:induction false} AllBytesConcat(rs: seq<Rec>, qs: seq<Rec>)
    ensures AllBytes(rs + qs) == AllBytes(rs) + AllBytes(qs)
    decreases |qs|
  {
    hide RecBytes;
    if qs == [] {
      assert rs + qs == rs;
    } else {
      AllBytesConcat(rs, qs[..|qs| - 1]);
      assert (rs + qs)[..|rs + qs| - 1] == rs + qs[..|qs| - 1];
    }
  }

  lemma {:induction false} AllBytesOne(r: Rec)
    ensures AllBytes([r]) == RecBytes(r)
  {
    hide RecBytes;
    assert [r][..0] == [];
    assert [] + RecBytes(r) == RecBytes(r);
  }

  // ---------------------------------------------------------------- the records of a message

  /** The number that stands for an integer on the wire: two's complement in 64 bits, or zig-zag. */
  function Number(f: Field, i: int): nat
    requires -TWO63 <= i
  {
    if f.ltype.SVARINT? then (if i >= 0 then 2 * i else -2 * i - 1)
    else if i < 0 then i + 0x1_0000_0000_0000_0000 else i
  }

  /** The characters of a string, as many as there are before a zero and as the array holds. */
  function Text(f: Field, chars: bytes): bytes
  {
    var n := |CStr(chars)|;
    CStr(chars)[..if n <= f.dataSize then n else f.dataSize]
  }

  /** Integers that the encoder takes have at most 64 bits. */
  lemma {:induction false} EncodedFits(f: Field, v: Value)
    requires TypedValue(f, v) && EncValue(f, v).Some?
    ensures v.VInt? ==> -TWO63 <= v.i < TWO64 && (f.ltype.UVARINT? || f.ltype.FIXED32? || f.ltype.FIXED64? ==> v.i >= 0)
  {
    hide EncVarint, LittleEndian;
  }

  /** The record of one value. */
  ghost function ValueRec(f: Field, v: Value): Rec
    requires TypedValue(f, v) && EncValue(f, v).Some?
  {
    EncodedFits(f, v);
    match f.ltype
    case VARINT => Varint(f.tag, Number(f, v.i))
    case UVARINT => Varint(f.tag, Number(f, v.i))
    case SVARINT => Varint(f.tag, Number(f, v.i))
    case FIXED32 => Four(f.tag, v.i)
    case FIXED64 => Eight(f.tag, v.i)
    case BYTES => Chunk(f.tag, v.b)
    case FIXED_LENGTH_BYTES => Chunk(f.tag, v.b)
    case STRING => Chunk(f.tag, Text(f, v.chars))
    case SUBMESSAGE(sub) => Chunk(f.tag, EncPrefix(sub, v.slots, |sub|).value)
  }

  /** An entry of a packed array has no key of its own. */
  function PackedEntry(f: Field, i: int): bytes
    requires f.ltype.Packable() && -TWO63 <= i && (f.ltype.FIXED32? || f.ltype.FIXED64? ==> i >= 0)
  {
    if f.ltype.FIXED32? then LittleEndian(i, 4) else if f.ltype.FIXED64? then LittleEndian(i, 8) else EncVarint(Number(f, i))
  }

  ghost function PackedPayload(f: Field, items: seq<Value>, n: nat): bytes
    requires f.ltype.Packable() && n <= |items| && forall k :: 0 <= k < |items| ==> TypedValue(f, items[k])
    requires EncItems(f, items, n, false).Some?
  {
    if n == 0 then []
    else
      EncodedFits(f, items[n - 1]);
      PackedPayload(f, items, n - 1) + PackedEntry(f, items[n - 1].i)
  }

  /** What the encoder takes: an integer of a size of C, and bytes that fit their array with its length. */
  ghost predicate Encodable(f: Field, v: Value)
    requires TypedValue(f, v)
    decreases v, 0
  {
    match f.ltype
    case VARINT => f.dataSize in {1, 2, 4, 8}
    case UVARINT => f.dataSize in {1, 2, 4, 8}
    case SVARINT => f.dataSize in {1, 2, 4, 8}
    case BYTES => |v.b| + 4 <= f.dataSize
    case SUBMESSAGE(sub) => assert TypedMsg(sub, v.slots); forall i {:trigger Home(sub, i)} :: 0 <= i < |sub| ==> EncodableSlot(sub[i], v.slots[Home(sub, i)])
    case _ => true
  }

  ghost predicate EncodableSlot(f: Field, s: Slot)
    requires TypedSlot(f, s)
    decreases s, 1
  {
    if f.htype.REPEATED? then |s.items| <= f.arraySize && forall k :: 0 <= k < |s.items| ==> Encodable(f, s.items[k])
    else Written(f, s) ==> Encodable(f, s.v)
  }

  /** Whether a field that is not an array is written. */
  ghost predicate Written(f: Field, s: Slot)
    requires TypedSlot(f, s) && !f.htype.REPEATED?
  {
    match f.htype
    case REQUIRED => true
    case ONEOF => s.which == f.tag
    case OPTIONAL => if f.sizeOffset != 0 then s.has else !Zero(f, s.v)
  }

  /** The value of a field with implicit presence that stands for absence. */
  ghost predicate Zero(f: Field, v: Value)
    requires TypedValue(f, v)
  {
    match f.ltype
    case BYTES => |v.b| == 0
    case FIXED_LENGTH_BYTES => |v.b| == 0
    case STRING => CStr(v.chars) == []
    case SUBMESSAGE(sub) => assert TypedMsg(sub, v.slots); EncMsg(sub, v.slots) == Some([]) && SelectorsZero(sub, v.slots)
    case _ => v.i == 0
  }

  lemma {:induction false} ZeroMeansDefault(f: Field, v: Value)
    requires WFField(f) && TypedValue(f, v)
    ensures IsDefaultValue(f, v) <==> Zero(f, v)
  {
    if f.ltype.SUBMESSAGE? {
      DefaultSubmessage(f, v);
      DefaultMeansEmpty(f.ltype.sub, v.slots);
    }
  }

  lemma {:induction false} WrittenMeansPresent(f: Field, s: Slot)
    requires WFField(f) && TypedSlot(f, s) && !f.htype.REPEATED?
    ensures Present(f, s) <==> Written(f, s)
  {
    hide IsDefaultValue, Zero, TypedValue;
    if f.htype.OPTIONAL? && f.sizeOffset == 0 { ZeroMeansDefault(f, s.v); }
  }

  ghost function ItemRecs(f: Field, items: seq<Value>, n: nat): seq<Rec>
    requires n <= |items| && forall k :: 0 <= k < |items| ==> TypedValue(f, items[k])
    requires EncItems(f, items, n, true).Some?
  {
    if n == 0 then [] else ItemRecs(f, items, n - 1) + [ValueRec(f, items[n - 1])]
  }

  /** The records of one field: none if it is absent, one for a packed array, one for each entry of any other array. */
  ghost function SlotRecs(f: Field, s: Slot): seq<Rec>
    requires WFField(f) && TypedSlot(f, s) && EncSlot(f, s).Some?
  {
    if f.htype.REPEATED? then
      assert EncArray(f, s.items).Some?;
      if s.items == [] then []
      else if f.ltype.Packable() then [Chunk(f.tag, PackedPayload(f, s.items, |s.items|))]
      else ItemRecs(f, s.items, |s.items|)
    else
      WrittenMeansPresent(f, s);
      if Written(f, s) then [ValueRec(f, s.v)] else []
  }

  /** The records of the first n fields, in the order of the description. */
  ghost function MsgRecs(d: Desc, m: Msg, n: nat): seq<Rec>
    requires WF(d) && TypedMsg(d, m) && n <= |d| && EncPrefix(d, m, n).Some?
  {
    if n == 0 then []
    else
      assert WFField(d[n - 1]) && EncField(d, m, n - 1).Some?;
      MsgRecs(d, m, n - 1) + SlotRecs(d[n - 1], SlotAt(d, m, n - 1))
  }

  // ---------------------------------------------------------------- the encoder writes these records

  lemma {:induction false} IntWritten(f: Field, i: int)
    requires f.ltype.Packable() && TypedValue(f, VInt(i)) && EncInt(f, i).Some?
    ensures -TWO63 <= i && (f.ltype.FIXED32? || f.ltype.FIXED64? ==> i >= 0)
    ensures EncInt(f, i).value == PackedEntry(f, i)
  {
    hide EncVarint, LittleEndian, ZigZag;
    EncodedFits(f, VInt(i));
    if f.ltype.SVARINT? { ZigZagOrder(i); }
  }

  /** One value behind its key is its record. */
  lemma {:induction false} ValueWritten(f: Field, v: Value)
    requires WFField(f) && TypedValue(f, v) && EncValue(f, v).Some?
    ensures EncTag(WireType(f.ltype), f.tag) + EncValue(f, v).value == RecBytes(ValueRec(f, v))
  {
    hide EncVarint, LittleEndian, EncPrefix, EncInt;
    if f.ltype.Packable() { IntWritten(f, v.i); }
  }

  lemma {:induction false} PackedWritten(f: Field, items: seq<Value>, n: nat)
    requires f.ltype.Packable() && n <= |items| && forall k :: 0 <= k < |items| ==> TypedValue(f, items[k])
    requires EncItems(f, items, n, false).Some?
    ensures EncItems(f, items, n, false).value == PackedPayload(f, items, n)
    decreases n
  {
    hide EncVarint, LittleEndian, EncInt, PackedEntry;
    if n > 0 {
      PackedWritten(f, items, n - 1);
      IntWritten(f, items[n - 1].i);
    }
  }

  lemma {:induction false} ItemsWritten(f: Field, items: seq<Value>, n: nat)
    requires WFField(f) && n <= |items| && forall k :: 0 <= k < |items| ==> TypedValue(f, items[k])
    requires EncItems(f, items, n, true).Some?
    ensures EncItems(f, items, n, true).value == AllBytes(ItemRecs(f, items, n))
    decreases n
  {
    hide EncTag, EncValue, RecBytes, TypedValue, ValueRec;
    if n > 0 {
      ItemsWritten(f, items, n - 1);
      ValueWritten(f, items[n - 1]);
      AllBytesConcat(ItemRecs(f, items, n - 1), [ValueRec(f, items[n - 1])]);
      AllBytesOne(ValueRec(f, items[n - 1]));
    }
  }

  lemma {:induction false} SlotWritten(f: Field, s: Slot)
    requires WFField(f) && TypedSlot(f, s) && EncSlot(f, s).Some?
    ensures EncSlot(f, s).value == AllBytes(SlotRecs(f, s))
  {
    hide EncVarint, EncValue, EncItems, TypedValue, ValueRec, PackedPayload, ItemRecs, Written;
    if f.htype.REPEATED? {
      if s.items != [] {
        if f.ltype.Packable() {
          PackedWritten(f, s.items, |s.items|);
          AllBytesOne(Chunk(f.tag, PackedPayload(f, s.items, |s.items|)));
        } else {
          ItemsWritten(f, s.items, |s.items|);
        }
      }
    } else {
      WrittenMeansPresent(f, s);
      if Written(f, s) { ValueWritten(f, s.v); AllBytesOne(ValueRec(f, s.v)); }
    }
  }

  /** What pb_encode writes are the records of the message. */
  lemma {:induction false} MessageWritten(d: Desc, m: Msg, n: nat)
    requires WF(d) && TypedMsg(d, m) && n <= |d| && EncPrefix(d, m, n).Some?
    ensures EncPrefix(d, m, n).value == AllBytes(MsgRecs(d, m, n))
    decreases n
  {
    hide EncSlot, SlotRecs, RecBytes, TypedMsg, Home, TypedSlot, WF;
    if n > 0 {
      EntryThere(d, m, n - 1);
      MessageWritten(d, m, n - 1);
      SlotWritten(d[n - 1], SlotAt(d, m, n - 1));
      AllBytesConcat(MsgRecs(d, m, n - 1), SlotRecs(d[n - 1], SlotAt(d, m, n - 1)));
    }
  }

  lemma {:induction false} EntryThere(d: Desc, m: Msg, i: nat)
    requires WF(d) && TypedMsg(d, m) && i < |d|
    ensures WFField(d[i]) && TypedSlot(d[i], SlotAt(d, m, i)) && EncField(d, m, i) == EncSlot(d[i], SlotAt(d, m, i))
  {}

  // ---------------------------------------------------------------- when there is an encoding

  lemma {:induction false} EncodableValueExactly(f: Field, v: Value)
    requires WFField(f) && TypedValue(f, v)
    ensures EncValue(f, v).Some? <==> Encodable(f, v)
    decreases v, 0
  {
    hide EncVarint, LittleEndian;
    if f.ltype.SUBMESSAGE? {
      var sub, m := f.ltype.sub, v.slots;
      assert TypedMsg(sub, m);
      EncodableExactly(sub, m);
      EncodableSubmessage(f, v);
    }
  }

  ghost predicate EncodableAt(d: Desc, m: Msg, i: nat)
    requires TypedMsg(d, m) && i < |d|
  {
    EncodableSlot(d[i], SlotAt(d, m, i))
  }

  lemma {:induction false} EncodableSubmessage(f: Field, v: Value)
    requires f.ltype.SUBMESSAGE? && TypedValue(f, v) && TypedMsg(f.ltype.sub, v.slots)
    ensures Encodable(f, v) <==> forall i :: 0 <= i < |f.ltype.sub| ==> EncodableAt(f.ltype.sub, v.slots, i)
  {
    hide EncodableSlot;
    var d, m := f.ltype.sub, v.slots;
    if forall i :: 0 <= i < |d| ==> EncodableAt(d, m, i) {
      forall i | 0 <= i < |d| ensures EncodableSlot(d[i], m[Home(d, i)]) { assert EncodableAt(d, m, i); }
    }
    if Encodable(f, v) {
      forall i | 0 <= i < |d| ensures EncodableAt(d, m, i) { assert Home(d, i) <= i; }
    }
  }

  ghost predicate EncodableItem(f: Field, items: seq<Value>, k: nat)
    requires k < |items| && TypedValue(f, items[k])
  {
    Encodable(f, items[k])
  }

  lemma {:induction false} EncodableItemsExactly(f: Field, items: seq<Value>, n: nat, tagged: bool)
    requires WFField(f) && n <= |items| && forall k :: 0 <= k < |items| ==> TypedValue(f, items[k])
    ensures EncItems(f, items, n, tagged).Some? <==> forall k :: 0 <= k < n ==> EncodableItem(f, items, k)
    decreases items, 1, n
  {
    hide EncVarint, EncValue, Encodable, TypedValue;
    if n > 0 {
      EncodableItemsExactly(f, items, n - 1, tagged);
      EncodableValueExactly(f, items[n - 1]);
      assert EncodableItem(f, items, n - 1) <==> EncValue(f, items[n - 1]).Some?;
    }
  }

  lemma {:induction false} EncodableSlotExactly(f: Field, s: Slot)
    requires WFField(f) && TypedSlot(f, s)
    ensures EncSlot(f, s).Some? <==> EncodableSlot(f, s)
    decreases s, 1
  {
    hide EncVarint, EncValue, Encodable, TypedValue, EncItems, Present, Zero;
    if f.htype.REPEATED? {
      EncodableItemsExactly(f, s.items, |s.items|, !f.ltype.Packable());
      EncodableAll(f, s.items);
    } else {
      WrittenMeansPresent(f, s);
      if Written(f, s) { EncodableValueExactly(f, s.v); }
    }
  }

  lemma {:induction false} EncodableAll(f: Field, items: seq<Value>)
    requires forall k :: 0 <= k < |items| ==> TypedValue(f, items[k])
    ensures (forall k :: 0 <= k < |items| ==> EncodableItem(f, items, k)) <==> forall k :: 0 <= k < |items| ==> Encodable(f, items[k])
  {
    hide Encodable, TypedValue;
    if forall k :: 0 <= k < |items| ==> EncodableItem(f, items, k) {
      forall k | 0 <= k < |items| ensures Encodable(f, items[k]) { assert EncodableItem(f, items, k); }
    }
  }

  lemma {:induction false} EncodablePrefixExactly(d: Desc, m: Msg, n: nat)
    requires WF(d) && TypedMsg(d, m) && n <= |d|
    ensures EncPrefix(d, m, n).Some? <==> forall i :: 0 <= i < n ==> EncodableAt(d, m, i)
    decreases m, 3, n
  {
    hide EncSlot, EncodableSlot, TypedMsg, Home, TypedSlot, WF;
    if n > 0 {
      EncodablePrefixExactly(d, m, n - 1);
      EntryThere(d, m, n - 1);
      HomeThere(d, m, n - 1);
      EncodableSlotExactly(d[n - 1], m[Home(d, n - 1)]);
      assert EncodableAt(d, m, n - 1) <==> EncField(d, m, n - 1).Some?;
    }
  }

  lemma {:induction false} HomeThere(d: Desc, m: Msg, i: nat)
    requires TypedMsg(d, m) && i < |d|
    ensures Home(d, i) < |m| && SlotAt(d, m, i) == m[Home(d, i)]
  {}

  /** pb_encode fails exactly for a written array with too many entries, bytes that do not fit, or an integer of no size of C. */
  lemma {:induction false} EncodableExactly(d: Desc, m: Msg)
    requires WF(d) && TypedMsg(d, m)
    ensures EncMsg(d, m).Some? <==> forall i :: 0 <= i < |d| ==> EncodableAt(d, m, i)
    decreases m, 4
  {
    EncodablePrefixExactly(d, m, |d|);
  }

  // ---------------------------------------------------------------- readers that know other fields, or none

  /** A record that a reader can skip: its key and its length fit 32 bits. */
  predicate Skippable(r: Rec)
  {
    0 < r.num < 0x2000_0000 && (r.Chunk? ==> |r.b| < TWO32)
  }

  lemma {:induction false} SkipVarintWhole(v: nat, t: bytes)
    ensures SkipVarint(EncVarint(v) + t) == Got((), t)
  {
    var e := EncVarint(v);
    if v < 128 {
      assert (e + t)[1..] == t;
    } else {
      assert (e + t)[1..] == EncVarint(v / 128) + t;
      SkipVarintWhole(v / 128, t);
    }
  }

  lemma {:induction false} RecordSkipped(r: Rec, t: bytes)
    requires Skippable(r)
    ensures exists wt, payload :: ReadTag(RecBytes(r) + t) == Tag(r.num, wt, payload) && SkipField(wt, payload) == Got((), t)
  {
    hide EncVarint, LittleEndian, SkipVarint, Delimited, ReadTag;
    match r {
      case Varint(num, v) =>
        assert RecBytes(r) + t == EncTag(WT_VARINT, num) + (EncVarint(v) + t);
        ReadTagInverts(0, num, EncVarint(v) + t);
        SkipVarintWhole(v, t);
        assert SkipField(0, EncVarint(v) + t) == Got((), t);
      case Eight(num, v) =>
        var e := LittleEndian(v, 8);
        assert RecBytes(r) + t == EncTag(WT_64BIT, num) + (e + t);
        ReadTagInverts(1, num, e + t);
        assert (e + t)[8..] == t;
        assert SkipField(1, e + t) == Got((), t);
      case Chunk(num, b) =>
        assert RecBytes(r) + t == EncTag(WT_STRING, num) + (EncVarint(|b|) + b + t);
        ReadTagInverts(2, num, EncVarint(|b|) + b + t);
        DelimitedInverts(b, t);
        assert SkipField(2, EncVarint(|b|) + b + t) == Got((), t);
      case Four(num, v) =>
        var e := LittleEndian(v, 4);
        assert RecBytes(r) + t == EncTag(WT_32BIT, num) + (e + t);
        ReadTagInverts(5, num, e + t);
        assert (e + t)[4..] == t;
        assert SkipField(5, e + t) == Got((), t);
    }
  }

  /** A reader whose description does not have these numbers goes past the records without noticing. */
  lemma {:induction false} AllSkipped(d: Desc, m: Msg, seen: set<nat>, rs: seq<Rec>, t: bytes)
    requires WF(d) && TypedMsg(d, m) && forall k :: 0 <= k < |rs| ==> Skippable(rs[k]) && Find(d, rs[k].num).None?
    ensures DecodeLoop(d, m, seen, AllBytes(rs) + t) == DecodeLoop(d, m, seen, t)
    decreases |rs|
  {
    hide RecBytes, SkipField, ReadTag, WF, TypedMsg, Skippable, Find;
    if rs == [] {
      assert [] + t == t;
    } else {
      var k := |rs| - 1;
      var e := RecBytes(rs[k]);
      assert AllBytes(rs) + t == AllBytes(rs[..k]) + (e + t);
      AllSkipped(d, m, seen, rs[..k], e + t);
      OneSkipped(d, m, seen, rs[k], t);
    }
  }

  lemma {:induction false} OneSkipped(d: Desc, m: Msg, seen: set<nat>, r: Rec, t: bytes)
    requires WF(d) && TypedMsg(d, m) && Skippable(r) && Find(d, r.num).None?
    ensures DecodeLoop(d, m, seen, RecBytes(r) + t) == DecodeLoop(d, m, seen, t)
  {
    hide RecBytes, SkipField, ReadTag, WF, TypedMsg, Find;
    RecordSkipped(r, t);
    var wt, payload :| ReadTag(RecBytes(r) + t) == Tag(r.num, wt, payload) && SkipField(wt, payload) == Got((), t);
    if RecBytes(r) + t == [] { EmptyTag(); }
  }

  lemma {:induction false} RecFits(rs: seq<Rec>, k: nat)
    requires k < |rs| && rs[k].Chunk?
    ensures |rs[k].b| <= |AllBytes(rs)|
    decreases |rs|
  {
    hide EncVarint, LittleEndian;
    if k < |rs| - 1 { RecFits(rs[..|rs| - 1], k); }
  }

  lemma {:induction false} SlotNumber(f: Field, s: Slot, k: nat)
    requires WFField(f) && TypedSlot(f, s) && EncSlot(f, s).Some? && k < |SlotRecs(f, s)|
    ensures SlotRecs(f, s)[k].num == f.tag
  {
    hide EncValue, EncItems, PackedPayload, Written, TypedValue;
    if f.htype.REPEATED? && !f.ltype.Packable() {
      assert EncArray(f, s.items).Some?;
      ItemNumber(f, s.items, |s.items|, k);
    }
  }

  lemma {:induction false} ItemNumber(f: Field, items: seq<Value>, n: nat, k: nat)
    requires n <= |items| && (forall j :: 0 <= j < |items| ==> TypedValue(f, items[j])) && EncItems(f, items, n, true).Some?
    requires k < |ItemRecs(f, items, n)|
    ensures ItemRecs(f, items, n)[k].num == f.tag
    decreases n
  {
    hide EncValue, TypedValue;
    if k < |ItemRecs(f, items, n - 1)| { ItemNumber(f, items, n - 1, k); }
  }

  lemma {:induction false} MessageNumber(d: Desc, m: Msg, n: nat, k: nat) returns (i: nat)
    requires WF(d) && TypedMsg(d, m) && n <= |d| && EncPrefix(d, m, n).Some? && k < |MsgRecs(d, m, n)|
    ensures i < n && MsgRecs(d, m, n)[k].num == d[i].tag
    decreases n
  {
    hide EncSlot, SlotRecs, TypedMsg, TypedSlot, Home, WF;
    EntryThere(d, m, n - 1);
    if k < |MsgRecs(d, m, n - 1)| {
      i := MessageNumber(d, m, n - 1, k);
    } else {
      SlotNumber(d[n - 1], SlotAt(d, m, n - 1), k - |MsgRecs(d, m, n - 1)|);
      i := n - 1;
    }
  }

  /**
    What is encoded is skipped whole by every reader that declares none of the fields, an old version or one that
    declares nothing at all: the wire types alone tell it how long each field is.
   */
  lemma {:induction false} EncodingSkipped(d: Desc, m: Msg, reader: Desc, into: Msg, seen: set<nat>, t: bytes)
    requires WF(d) && TagsFit(d) && TypedMsg(d, m) && EncMsg(d, m).Some? && |EncMsg(d, m).value| < TWO32
    requires WF(reader) && TypedMsg(reader, into) && forall i :: 0 <= i < |d| ==> Find(reader, d[i].tag).None?
    ensures DecodeLoop(reader, into, seen, EncMsg(d, m).value + t) == DecodeLoop(reader, into, seen, t)
  {
    hide EncPrefix, MsgRecs, AllBytes, DecodeLoop, TypedMsg, Find;
    var rs := MsgRecs(d, m, |d|);
    MessageWritten(d, m, |d|);
    forall k | 0 <= k < |rs| ensures Skippable(rs[k]) && Find(reader, rs[k].num).None? {
      var i := MessageNumber(d, m, |d|, k);
      AtEntry(d, i);
      if rs[k].Chunk? { RecFits(rs, k); }
    }
    AllSkipped(reader, into, seen, rs, t);
  }
}
