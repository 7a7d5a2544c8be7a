/**
  The encoder of pb_encode.c as it runs: field by field through the iterator, each submessage
  and packed array in two passes, the first over a sizing stream.

  Every method is tied to the bytes that NanopbEncode defines: it succeeds exactly if those
  bytes exist and fit the stream, and then writes exactly them.
 */
module NanopbPbEncode {
  import opened Words
  import opened NanopbWire
  import opened NanopbReaders
  import opened NanopbMessage
  import opened NanopbEncode
  import opened NanopbOStream
  import opened NanopbDecode
  import opened NanopbFieldIter

  /** The result of writing x and then y. */
  function Both(x: Option<bytes>, y: Option<bytes>): Option<bytes>
  {
    if x.Some? && y.Some? then Some(x.value + y.value) else None
  }

  // ---------------------------------------------------------------- single values

  /** pb_encode_svarint */
  method EncodeSVarint(s: OStream, value: int) returns (ok: bool)
    requires s.Valid() && -TWO63 <= value < TWO63
    modifies s.Repr()
    ensures s.Valid() && Appends(old(s.View()), s.View(), ok, Some(EncVarint(ZigZag(value))))
  {
    hide Appends;
    ZigZagInverse(value);
    var zigzagged := if value < 0 then TWO64 - 1 - 2 * (TWO64 + value) % TWO64 else 2 * value;
    ok := s.EncodeVarint(zigzagged);
  }

  /** pb_encode_fixed32 and pb_encode_fixed64 */
  method EncodeFixed(s: OStream, val: nat, n: nat) returns (ok: bool)
    requires s.Valid()
    modifies s.Repr()
    ensures s.Valid() && Appends(old(s.View()), s.View(), ok, Some(LittleEndian(val, n)))
  {
    hide Appends;
    var out: bytes, v := [], val;
    for i := 0 to n
      invariant out + LittleEndian(v, n - i) == LittleEndian(val, n)
    {
      assert out + LittleEndian(v, n - i) == out + [v % 256] + LittleEndian(v / 256, n - i - 1);
      out := out + [v % 256];
      v := v / 256;
    }
    assert out + [] == out;
    ok := s.Write(out);
  }

  /** The encoders of the packable types. */
  method EncodeInt(s: OStream, f: Field, i: int) returns (ok: bool)
    requires s.Valid() && f.ltype.Packable() && TypedValue(f, VInt(i))
    modifies s.Repr()
    ensures s.Valid() && Appends(old(s.View()), s.View(), ok, EncInt(f, i))
  {
    if f.ltype.FIXED32? {
      ok := EncodeFixed(s, i, 4);
    } else if f.ltype.FIXED64? {
      ok := EncodeFixed(s, i, 8);
    } else if !IntSize(f.dataSize) {
      s.SetError(InvalidDataSize);
      ok := false;
    } else if f.ltype.SVARINT? {
      ok := EncodeSVarint(s, i);
    } else {
      ok := s.EncodeVarint(if i < 0 then TWO64 + i else i);
    }
  }

  /** pb_encode_string */
  method EncodeString(s: OStream, b: bytes) returns (ok: bool)
    requires s.Valid() && |b| < TWO64
    modifies s.Repr()
    ensures s.Valid() && Appends(old(s.View()), s.View(), ok, Some(EncString(b)))
  {
    hide Appends, EncVarint;
    ghost var v0 := s.View();
    ok := s.EncodeVarint(|b|);
    ghost var v1 := s.View();
    if !ok {
      FirstFails(v0, v1, Some(EncVarint(|b|)), Some(EncString(b)));
      return;
    }
    ok := s.Write(b);
    InSequence(v0, v1, s.View(), EncVarint(|b|), ok, Some(b));
  }

  /** The search for the terminator in pb_enc_string. */
  method StringLength(f: Field, chars: bytes) returns (size: nat)
    ensures size <= |chars| && chars[..size] == Chars(f, chars)
  {
    size := 0;
    while size < f.dataSize && size < |chars| && chars[size] != 0
      invariant size <= f.dataSize && size <= |chars|
      invariant forall k :: 0 <= k < size ==> chars[k] != 0
    {
      size := size + 1;
    }
    CStrScan(chars, size);
  }

  // ---------------------------------------------------------------- implicit presence

  /** pb_check_proto3_default_value */
  method CheckDefaultValue(f: Field, s: Slot) returns (isDefault: bool)
    requires TypedSlot(f, s)
    ensures isDefault <==> IsDefaultSlot(f, s)
    decreases s
  {
    match f.htype {
      case REQUIRED => return false;
      case REPEATED => return s.items == [];
      case ONEOF => return s.which == 0;
      case OPTIONAL =>
        if f.sizeOffset != 0 {
          return !s.has;
        }
        match f.ltype {
          case BYTES => return s.v.b == [];
          case STRING => return s.v.chars == [] || s.v.chars[0] == 0;
          case FIXED_LENGTH_BYTES => return f.dataSize == 0;
          case SUBMESSAGE(sub) =>
            assert TypedMsg(sub, s.v.slots);
            DefaultSubmessage(f, s.v);
            isDefault := CheckDefaultFields(sub, s.v.slots);
          case _ => return s.v.i == 0;
        }
    }
  }

  /** The iteration over the fields of a submessage. */
  method CheckDefaultFields(sub: Desc, m: Msg) returns (isDefault: bool)
    requires TypedMsg(sub, m)
    ensures isDefault <==> IsDefaultMsg(sub, m)
    decreases m
  {
    hide IsDefaultSlot, IsDefaultEntry, Home, TypedMsg, RequiredIndex, Offset;
    var iter := new FieldIter(sub);
    if sub == [] {
      return true;
    }
    while true
      invariant iter.Valid() && iter.start == sub && fresh(iter)
      invariant forall j :: 0 <= j < iter.pos ==> IsDefaultEntry(sub, m, j)
      decreases |sub| - iter.pos
    {
      EntrySlot(sub, m, iter.pos);
      var here := CheckDefaultValue(sub[iter.pos], m[Home(sub, iter.pos)]);
      if !here {
        return false;
      }
      var more := iter.Next();
      if !more {
        return true;
      }
    }
  }

  lemma {:induction false} EntrySlot(d: Desc, m: Msg, i: nat)
    requires TypedMsg(d, m) && i < |d|
    ensures |m| == |d| && TypedSlot(d[i], m[Home(d, i)]) && SlotAt(d, m, i) == m[Home(d, i)]
    ensures IsDefaultEntry(d, m, i) == IsDefaultSlot(d[i], m[Home(d, i)])
  {}

  // ---------------------------------------------------------------- messages

  /** PB_ENCODERS[PB_LTYPE(type)] */
  method EncodeValue(s: OStream, f: Field, v: Value) returns (ok: bool)
    requires s.Valid() && WFField(f) && TypedValue(f, v) && SizesFitValue(f, v)
    modifies s.Repr()
    ensures s.Valid() && Appends(old(s.View()), s.View(), ok, EncValue(f, v))
    decreases v, 0
  {
    match f.ltype {
      case BYTES =>
        if |v.b| + BYTES_HEADER > f.dataSize {
          s.SetError(BytesSize);
          ok := false;
        } else {
          ok := EncodeString(s, v.b);
        }
      case STRING =>
        var size := StringLength(f, v.chars);
        ok := EncodeString(s, v.chars[..size]);
      case FIXED_LENGTH_BYTES =>
        ok := EncodeString(s, v.b);
      case SUBMESSAGE(sub) =>
        assert TypedMsg(sub, v.slots) && SizesFitMsg(sub, v.slots);
        ok := EncodeSubmessage(s, sub, v.slots);
      case _ =>
        ok := EncodeInt(s, f, v.i);
    }
  }

  /** What a submessage of these bytes looks like in its parent. */
  function Prefixed(e: Option<bytes>): Option<bytes>
  {
    if e.Some? then Some(EncString(e.value)) else None
  }

  /** pb_encode_submessage: size it, then write it through a substream of exactly that size. */
  method EncodeSubmessage(s: OStream, sub: Desc, m: Msg) returns (ok: bool)
    requires s.Valid() && WF(sub) && TypedMsg(sub, m) && SizesFitMsg(sub, m)
    requires EncMsg(sub, m).Some? ==> |EncMsg(sub, m).value| < TWO64
    modifies s.Repr()
    ensures s.Valid() && Appends(old(s.View()), s.View(), ok, Prefixed(EncMsg(sub, m)))
    decreases m, 6
  {
    hide EncMsg, WF, TypedMsg, SizesFitMsg, EncVarint;
    ghost var v0 := s.View();
    var substream := new OStream.Sizing();
    ok := PbEncode(substream, sub, m);
    if !ok {
      s.errmsg := substream.errmsg;
      return false;
    }
    var size := substream.bytesWritten;
    ghost var e := EncMsg(sub, m).value;
    ok := s.EncodeVarint(size);
    ghost var v1 := s.View();
    if !ok {
      FirstFails(v0, v1, Some(EncVarint(size)), Some(EncString(e)));
      return;
    }
    if s.sink == null {
      ok := s.Count(e, size);
    } else {
      ok := WriteSubmessage(s, sub, m, size);
    }
    InSequence(v0, v1, s.View(), EncVarint(size), ok, Some(e));
  }

  /** The second pass of pb_encode_submessage; it never finds that the size has changed. */
  method WriteSubmessage(s: OStream, sub: Desc, m: Msg, size: nat) returns (ok: bool)
    requires s.Valid() && s.sink != null && WF(sub) && TypedMsg(sub, m) && SizesFitMsg(sub, m)
    requires EncMsg(sub, m).Some? && |EncMsg(sub, m).value| == size
    modifies s.Repr()
    ensures s.Valid() && Appends(old(s.View()), s.View(), ok, EncMsg(sub, m))
    decreases m, 5
  {
    hide EncMsg, WF, TypedMsg, SizesFitMsg;
    if s.bytesWritten + size > s.maxSize {
      s.SetError(StreamFull);
      return false;
    }
    var substream := new OStream(s.sink, s.state, size);
    ok := PbEncode(substream, sub, m);
    s.bytesWritten := s.bytesWritten + substream.bytesWritten;
    s.state := substream.state;
    s.errmsg := substream.errmsg;
    if substream.bytesWritten != size {
      // "submsg size changed": only a callback could write something else the second time.
      assert false;
    }
  }

  /** encode_array */
  method EncodeArray(s: OStream, f: Field, items: seq<Value>) returns (ok: bool)
    requires s.Valid() && WFField(f)
    requires forall k :: 0 <= k < |items| ==> TypedValue(f, items[k]) && SizesFitValue(f, items[k])
    modifies s.Repr()
    ensures s.Valid() && Appends(old(s.View()), s.View(), ok, EncArray(f, items))
    decreases items, 4
  {
    ghost var v0 := s.View();
    if |items| == 0 {
      WritesNone(v0);
      return true;
    }
    if |items| > f.arraySize {
      s.SetError(ArrayMaxSize);
      return false;
    }
    if f.ltype.Packable() {
      ok := EncodePacked(s, f, items);
    } else {
      ok := EncodeItems(s, f, items, true);
    }
  }

  /** The loops of encode_array over the entries. */
  method EncodeItems(s: OStream, f: Field, items: seq<Value>, tagged: bool) returns (ok: bool)
    requires s.Valid() && WFField(f)
    requires forall k :: 0 <= k < |items| ==> TypedValue(f, items[k]) && SizesFitValue(f, items[k])
    modifies s.Repr()
    ensures s.Valid() && Appends(old(s.View()), s.View(), ok, EncItems(f, items, |items|, tagged))
    decreases items, 0
  {
    hide Appends, EncTag, TypedValue, SizesFitValue, WFField, EncItems, Item;
    ghost var v0 := s.View();
    WritesNone(v0);
    ItemsStart(f, items, tagged);
    for i := 0 to |items|
      invariant s.Valid() && EncItems(f, items, i, tagged).Some?
      invariant Appends(v0, s.View(), true, EncItems(f, items, i, tagged))
    {
      ghost var v1 := s.View();
      ghost var x := EncItems(f, items, i, tagged).value;
      ghost var y := Item(f, items[i], tagged);
      ok := EncodeItem(s, f, items[i], tagged);
      InSequence(v0, v1, s.View(), x, ok, y);
      ItemsStep(f, items, i, tagged);
      if !ok {
        if EncItems(f, items, |items|, tagged).Some? { ItemsMonotone(f, items, i + 1, tagged); }
        FirstFails(v0, s.View(), Both(Some(x), y), EncItems(f, items, |items|, tagged));
        return;
      }
      assert y.Some? by { OkMeansSome(v1, s.View(), y); }
    }
    ok := true;
  }

  lemma {:induction false} OkMeansSome(a: View, b: View, e: Option<bytes>)
    requires Appends(a, b, true, e)
    ensures e.Some?
  {}

  /** One entry of an array. */
  ghost function Item(f: Field, v: Value, tagged: bool): Option<bytes>
    requires TypedValue(f, v)
  {
    Both(Some(if tagged then EncTag(WireType(f.ltype), f.tag) else []), EncValue(f, v))
  }

  lemma {:induction false} ItemsStart(f: Field, items: seq<Value>, tagged: bool)
    requires forall k :: 0 <= k < |items| ==> TypedValue(f, items[k])
    ensures EncItems(f, items, 0, tagged) == Some([])
  {}

  lemma {:induction false} ItemsStep(f: Field, items: seq<Value>, i: nat, tagged: bool)
    requires i < |items| && forall k :: 0 <= k < |items| ==> TypedValue(f, items[k])
    ensures EncItems(f, items, i + 1, tagged) == Both(EncItems(f, items, i, tagged), Item(f, items[i], tagged))
  {
    hide EncTag, TypedValue;
  }

  lemma {:induction false} ItemsMonotone(f: Field, items: seq<Value>, n: nat, tagged: bool)
    requires n <= |items| && forall k :: 0 <= k < |items| ==> TypedValue(f, items[k])
    requires EncItems(f, items, |items|, tagged).Some?
    ensures EncItems(f, items, n, tagged).Some?
    ensures |EncItems(f, items, n, tagged).value| <= |EncItems(f, items, |items|, tagged).value|
    decreases |items| - n
  {
    if n < |items| {
      ItemsMonotone(f, items, n + 1, tagged);
    }
  }

  method EncodeItem(s: OStream, f: Field, v: Value, tagged: bool) returns (ok: bool)
    requires s.Valid() && WFField(f) && TypedValue(f, v) && SizesFitValue(f, v)
    modifies s.Repr()
    ensures s.Valid() && Appends(old(s.View()), s.View(), ok, Item(f, v, tagged))
    decreases v, 1
  {
    hide Appends, EncTag, TypedValue, SizesFitValue, EncValue;
    ghost var v0 := s.View();
    ghost var tag := if tagged then EncTag(WireType(f.ltype), f.tag) else [];
    if tagged {
      ok := s.EncodeTag(WireType(f.ltype), f.tag);
      if !ok {
        FirstFails(v0, s.View(), Some(tag), Item(f, v, tagged));
        return;
      }
    } else {
      WritesNone(v0);
    }
    ghost var v1 := s.View();
    ok := EncodeValue(s, f, v);
    InSequence(v0, v1, s.View(), tag, ok, EncValue(f, v));
  }

  /** A packed array: its size, from a multiplication or a sizing stream, and then its data. */
  method EncodePacked(s: OStream, f: Field, items: seq<Value>) returns (ok: bool)
    requires s.Valid() && WFField(f) && f.ltype.Packable() && 0 < |items| <= f.arraySize
    requires forall k :: 0 <= k < |items| ==> TypedValue(f, items[k]) && SizesFitValue(f, items[k])
    modifies s.Repr()
    ensures s.Valid() && Appends(old(s.View()), s.View(), ok, EncArray(f, items))
    decreases items, 3
  {
    hide Appends, EncTag, TypedValue, SizesFitValue, EncItems, EncVarint;
    ghost var v0 := s.View();
    ghost var x := EncItems(f, items, |items|, false);
    ghost var tag := EncTag(WT_STRING, f.tag);
    ok := s.EncodeTag(WT_STRING, f.tag);
    ghost var v1 := s.View();
    if !ok {
      FirstFails(v0, v1, Some(tag), EncArray(f, items));
      return;
    }
    if x.Some? { PackedSize(f, items, |items|); }
    ok := PackedData(s, f, items);
    InSequence(v0, v1, s.View(), tag, ok, Prefixed(x));
  }

  method PackedData(s: OStream, f: Field, items: seq<Value>) returns (ok: bool)
    requires s.Valid() && WFField(f) && f.ltype.Packable() && 0 < |items| <= f.arraySize
    requires forall k :: 0 <= k < |items| ==> TypedValue(f, items[k]) && SizesFitValue(f, items[k])
    modifies s.Repr()
    ensures s.Valid() && Appends(old(s.View()), s.View(), ok, Prefixed(EncItems(f, items, |items|, false)))
    decreases items, 2
  {
    hide EncTag, TypedValue, SizesFitValue, EncItems, EncVarint;
    ghost var v0 := s.View();
    ghost var x := EncItems(f, items, |items|, false);
    var size: nat;
    if f.ltype.FIXED32? {
      size := 4 * |items|;
      FixedSucceeds(f, items, |items|);
      PackedSize(f, items, |items|);
    } else if f.ltype.FIXED64? {
      size := 8 * |items|;
      FixedSucceeds(f, items, |items|);
      PackedSize(f, items, |items|);
    } else {
      var sizestream := new OStream.Sizing();
      ok := EncodeItems(sizestream, f, items, false);
      if !ok {
        // The encoder of the entries has set its error on the sizing stream only.
        return;
      }
      size := sizestream.bytesWritten;
      PackedSize(f, items, |items|);
    }
    ok := PackedBytes(s, f, items, size);
  }

  /** The length of the packed data, and the data unless the stream only counts. */
  method PackedBytes(s: OStream, f: Field, items: seq<Value>, size: nat) returns (ok: bool)
    requires s.Valid() && WFField(f) && f.ltype.Packable() && size < TWO64
    requires forall k :: 0 <= k < |items| ==> TypedValue(f, items[k]) && SizesFitValue(f, items[k])
    requires EncItems(f, items, |items|, false).Some? && |EncItems(f, items, |items|, false).value| == size
    modifies s.Repr()
    ensures s.Valid() && Appends(old(s.View()), s.View(), ok, Prefixed(EncItems(f, items, |items|, false)))
    decreases items, 1
  {
    hide Appends, EncTag, TypedValue, SizesFitValue, EncItems, EncVarint;
    ghost var v0 := s.View();
    ghost var x := EncItems(f, items, |items|, false);
    ok := s.EncodeVarint(size);
    ghost var v1 := s.View();
    if !ok {
      FirstFails(v0, v1, Some(EncVarint(size)), Prefixed(x));
      return;
    }
    if s.sink == null {
      ok := s.Count(x.value, size);
    } else {
      ok := EncodeItems(s, f, items, false);
    }
    InSequence(v0, v1, s.View(), EncVarint(size), ok, x);
  }

  lemma {:induction false} FixedSucceeds(f: Field, items: seq<Value>, n: nat)
    requires n <= |items| && (f.ltype.FIXED32? || f.ltype.FIXED64?)
    requires forall k :: 0 <= k < |items| ==> TypedValue(f, items[k])
    ensures EncItems(f, items, n, false).Some?
  {
    if n > 0 { FixedSucceeds(f, items, n - 1); }
  }

  /** encode_basic_field */
  method EncodeBasicField(s: OStream, f: Field, slot: Slot) returns (ok: bool)
    requires s.Valid() && WFField(f) && TypedSlot(f, slot) && SizesFitSlot(f, slot)
    modifies s.Repr()
    ensures s.Valid() && Appends(old(s.View()), s.View(), ok, EncSlot(f, slot))
    decreases slot, 3
  {
    hide Appends, EncTag, SizesFitValue, EncArray, WFField, IsDefaultValue;
    if f.htype.REPEATED? {
      ok := EncodeArray(s, f, slot.items);
      return;
    }
    var present := true;
    match f.htype {
      case OPTIONAL =>
        if f.sizeOffset != 0 {
          present := slot.has;
        } else {
          var isDefault := CheckDefaultValue(f, slot);
          present := !isDefault;
        }
      case ONEOF => present := slot.which == f.tag;
      case _ =>
    }
    assert present == Present(f, slot);
    if present {
      ok := EncodeItem(s, f, slot.v, true);
    } else {
      WritesNone(s.View());
      ok := true;
    }
  }

  /** pb_encode */
  method PbEncode(s: OStream, d: Desc, m: Msg) returns (ok: bool)
    requires s.Valid() && WF(d) && TypedMsg(d, m) && SizesFitMsg(d, m)
    modifies s.Repr()
    ensures s.Valid() && Appends(old(s.View()), s.View(), ok, EncMsg(d, m))
    decreases m, 4
  {
    hide Appends, TypedMsg, WF, SizesFitMsg, Home, Offset, RequiredIndex, EncField, EncPrefix, OStream.Valid, OStream.View, Extent;
    ghost var v0 := s.View();
    WritesNone(v0);
    PrefixStart(d, m);
    var iter := new FieldIter(d);
    if d == [] {
      return true;
    }
    while true
      invariant iter.Valid() && iter.start == d && fresh(iter)
      invariant s.Valid() && EncPrefix(d, m, iter.pos).Some?
      invariant Appends(v0, s.View(), true, EncPrefix(d, m, iter.pos))
      decreases |d| - iter.pos
    {
      ghost var i := iter.pos;
      ghost var v1 := s.View();
      ghost var x := EncPrefix(d, m, i).value;
      EntryReady(d, m, i);
      ok := EncodeBasicField(s, d[iter.pos], m[Home(d, iter.pos)]);
      InSequence(v0, v1, s.View(), x, ok, EncField(d, m, i));
      PrefixStep(d, m, i);
      if !ok {
        if EncMsg(d, m).Some? { PrefixSucceeds(d, m, |d|, i + 1); }
        FirstFails(v0, s.View(), EncPrefix(d, m, i + 1), EncMsg(d, m));
        return;
      }
      OkMeansSome(v1, s.View(), EncField(d, m, i));
      var more := iter.Next();
      if !more {
        return true;
      }
    }
  }

  lemma {:induction false} PrefixStart(d: Desc, m: Msg)
    requires TypedMsg(d, m)
    ensures EncPrefix(d, m, 0) == Some([])
  {}

  lemma {:induction false} PrefixStep(d: Desc, m: Msg, i: nat)
    requires TypedMsg(d, m) && i < |d|
    ensures EncPrefix(d, m, i + 1) == Both(EncPrefix(d, m, i), EncField(d, m, i))
  {
    hide TypedMsg, EncField;
  }

  lemma {:induction false} EntryReady(d: Desc, m: Msg, i: nat)
    requires WF(d) && TypedMsg(d, m) && SizesFitMsg(d, m) && i < |d|
    ensures |m| == |d| && TypedSlot(d[i], m[Home(d, i)]) && WFField(d[i]) && SizesFitSlot(d[i], m[Home(d, i)])
    ensures EncField(d, m, i) == EncSlot(d[i], m[Home(d, i)])
  {}

  /** pb_get_encoded_size */
  method GetEncodedSize(d: Desc, m: Msg) returns (ok: bool, size: nat)
    requires WF(d) && TypedMsg(d, m) && SizesFitMsg(d, m)
    ensures ok <==> EncMsg(d, m).Some?
    ensures ok ==> size == |EncMsg(d, m).value|
  {
    hide EncMsg, TypedMsg, WF, SizesFitMsg;
    var stream := new OStream.Sizing();
    ok := PbEncode(stream, d, m);
    size := stream.bytesWritten;
  }

  /** pb_encode on a stream over a whole buffer. */
  method EncodeToBuffer(d: Desc, m: Msg, buffer: array<byte>) returns (ok: bool, written: nat)
    requires WF(d) && TypedMsg(d, m) && SizesFitMsg(d, m)
    modifies buffer
    ensures ok <==> EncMsg(d, m).Some? && |EncMsg(d, m).value| <= buffer.Length
    ensures ok ==> written == |EncMsg(d, m).value| && EncMsg(d, m) == Some(buffer[..written]) && buffer[written..] == old(buffer[written..])
  {
    hide EncMsg, TypedMsg, WF, SizesFitMsg, Appends;
    var stream := new OStream(buffer, 0, buffer.Length);
    ghost var v0, e := stream.View(), EncMsg(d, m);
    ok := PbEncode(stream, d, m);
    written := stream.bytesWritten;
    ghost var v := stream.View();
    FillsBuffer(v0, v, ok, e);
    assert v.image == buffer[..stream.state] && v.beyond == buffer[stream.state..];
    assert ok ==> old(buffer[..])[|e.value|..] == old(buffer[|e.value|..]);
  }

  lemma {:induction false} FillsBuffer(a: View, b: View, ok: bool, e: Option<bytes>)
    requires Appends(a, b, ok, e) && !a.sizing && a.image == [] && a.written == 0 && |a.beyond| == a.max
    ensures ok <==> e.Some? && |e.value| <= a.max
    ensures ok ==> b.image == e.value && b.written == |e.value| && |e.value| <= |a.beyond| && b.beyond == a.beyond[|e.value|..]
  {
    if ok { assert [] + e.value == e.value; }
  }

  /**
    The sizing pass agrees with the writing pass: encoding into a buffer succeeds exactly if the
    reported size fits, and then fills exactly that many bytes and leaves the others alone.
   */
  method SizeThenEncode(d: Desc, m: Msg, buffer: array<byte>) returns (sized: bool, size: nat, ok: bool, written: nat)
    requires WF(d) && TypedMsg(d, m) && SizesFitMsg(d, m)
    modifies buffer
    ensures sized <==> EncMsg(d, m).Some?
    ensures sized ==> size == |EncMsg(d, m).value|
    ensures ok <==> sized && size <= buffer.Length
    ensures ok ==> written == size && EncMsg(d, m) == Some(buffer[..size]) && buffer[size..] == old(buffer[size..])
  {
    hide EncMsg, TypedMsg, WF, SizesFitMsg;
    sized, size := GetEncodedSize(d, m);
    ok, written := EncodeToBuffer(d, m, buffer);
  }
}
