/**
  What pb_decode.c makes of a sequence of bytes: a new struct and the bytes left over, or a
  failure. The functions follow the decoder case by case, including what it does not check:
  the wire type of a field other than an array is never compared with the description.

  Every reader consumes at least one byte, so the field loop and the recursion into
  submessages both terminate because the stream gets shorter.
 */
module NanopbDecode {
  import opened Words
  import opened NanopbWire
  import opened NanopbReaders
  import opened NanopbMessage

  /** A value cast to a signed integer of n bytes. */
  function CastSigned(i: int, n: nat): int
    requires IntSize(n)
  {
    AsSigned(i % Modulus(n), Modulus(n))
  }

  lemma {:induction false} CastInRange(i: int, n: nat)
    requires IntSize(n)
    ensures InRange(CastSigned(i, n), n, true)
    ensures InRange(i, n, true) ==> CastSigned(i, n) == i
  {}

  /** pb_dec_varint: fields of up to 32 bits take the low word of the varint as an int32_t first. */
  function DecSigned(n: nat, s: bytes): (r: Read<int>)
    ensures r.Got? ==> |r.rest| < |s|
  {
    var (v, rest) :- Dec64(s);
    if !IntSize(n) then Fail
    else
      var svalue := if n == 8 then CastSigned(v, 8) else CastSigned(v, 4);
      if CastSigned(svalue, n) != svalue then Fail else Got(svalue, rest)
  }

  /** pb_dec_uvarint */
  function DecUnsigned(n: nat, s: bytes): (r: Read<int>)
    ensures r.Got? ==> |r.rest| < |s|
  {
    var (v, rest) :- Dec64(s);
    if !IntSize(n) || v % Modulus(n) != v then Fail else Got(v, rest)
  }

  /** pb_dec_svarint */
  function DecZigZag(n: nat, s: bytes): (r: Read<int>)
    ensures r.Got? ==> |r.rest| < |s|
  {
    var (v, rest) :- Dec64(s);
    Dec64Bound(s);
    var value := UnZigZag(v);
    if !IntSize(n) || CastSigned(value, n) != value then Fail else Got(value, rest)
  }

  /** The decoders of the packable types. */
  function DecInt(f: Field, s: bytes): (r: Read<int>)
    requires f.ltype.Packable()
    ensures r.Got? ==> |r.rest| < |s|
  {
    if f.ltype.VARINT? then DecSigned(f.dataSize, s)
    else if f.ltype.UVARINT? then DecUnsigned(f.dataSize, s)
    else if f.ltype.SVARINT? then DecZigZag(f.dataSize, s)
    else ReadFixed(s, if f.ltype.FIXED32? then 4 else 8)
  }

  lemma {:induction false} DecIntTyped(f: Field, s: bytes)
    requires f.ltype.Packable() && DecInt(f, s).Got?
    ensures TypedValue(f, VInt(DecInt(f, s).value))
  {
    hide Dec64, FromLittleEndian;
    if f.ltype.VARINT? {
      var svalue := DecSigned(f.dataSize, s).value;
      CastInRange(svalue, f.dataSize);
    } else if f.ltype.SVARINT? {
      CastInRange(DecZigZag(f.dataSize, s).value, f.dataSize);
    } else if f.ltype.FIXED32? {
      FromLittleEndianBound(s[..4]); Shl32();
    } else if f.ltype.FIXED64? {
      FromLittleEndianBound(s[..8]); Shl32();
    }
  }

  /** pb_dec_bytes */
  function DecBytes(f: Field, s: bytes): (r: Read<bytes>)
    ensures r.Got? ==> |r.rest| < |s| && |r.value| <= PB_SIZE_MAX
  {
    var (size, rest) :- Dec32(s);
    if size > PB_SIZE_MAX || size + BYTES_HEADER > f.dataSize then Fail else Take(rest, size)
  }

  /** pb_dec_string: room for the terminator is computed in 32 bits, and checked for wrap-around. */
  function DecString(f: Field, s: bytes): (r: Read<bytes>)
    ensures r.Got? ==> |r.rest| < |s|
  {
    var (size, rest) :- Dec32(s);
    var alloc := (size + 1) % TWO32;
    if alloc < size || alloc > f.dataSize then Fail else Take(rest, size)
  }

  /** pb_dec_fixed_length_bytes: an empty string means all zeros. */
  function DecFixedLength(f: Field, s: bytes): (r: Read<bytes>)
    ensures r.Got? ==> |r.rest| < |s| && |r.value| == f.dataSize
  {
    var (size, rest) :- Dec32(s);
    if size > PB_SIZE_MAX then Fail
    else if size == 0 then Got(seq(f.dataSize, _ => 0), rest)
    else if size != f.dataSize then Fail
    else Take(rest, f.dataSize)
  }

  /** PB_DECODERS[PB_LTYPE(type)], over the value that is in the struct. */
  ghost function DecValue(f: Field, old': Value, s: bytes): (r: Read<Value>)
    requires WFField(f) && (f.ltype.SUBMESSAGE? && !f.htype.REPEATED? ==> TypedValue(f, old'))
    ensures r.Got? ==> |r.rest| < |s| && TypedValue(f, r.value)
    decreases |s|, 1
  {
    match f.ltype
    case BYTES => var (b, rest) :- DecBytes(f, s); Got(VBytes(b), rest)
    case STRING => var (b, rest) :- DecString(f, s); Got(VStr(b), rest)
    case FIXED_LENGTH_BYTES => var (b, rest) :- DecFixedLength(f, s); Got(VBytes(b), rest)
    case SUBMESSAGE(sub) =>
      var (inner, rest) :- Delimited(s);
      DefaultTyped(sub);
      var (m, _) :- DecodeNoInit(sub, if f.htype.REPEATED? then DefaultMsg(sub) else old'.slots, inner);
      Got(VMsg(m), rest)
    case _ =>
      var (i, rest) :- DecInt(f, s);
      DecIntTyped(f, s);
      Got(VInt(i), rest)
  }

  /** The loop over a packed array: items are appended until the substream or the array is used up. */
  function DecPacked(f: Field, items: seq<Value>, s: bytes): Option<seq<Value>>
    requires f.ltype.Packable()
    decreases |s|
  {
    if s == [] then Some(items)
    else if |items| >= f.arraySize then None
    else match DecInt(f, s)
      case Fail => None
      case Got(i, rest) => DecPacked(f, items + [VInt(i)], rest)
  }

  lemma {:induction false} DecPackedTyped(f: Field, items: seq<Value>, s: bytes)
    requires f.ltype.Packable() && DecPacked(f, items, s).Some?
    requires forall k :: 0 <= k < |items| ==> TypedValue(f, items[k])
    ensures forall k :: 0 <= k < |DecPacked(f, items, s).value| ==> TypedValue(f, DecPacked(f, items, s).value[k])
    decreases |s|
  {
    hide DecInt;
    if s != [] {
      DecIntTyped(f, s);
      DecPackedTyped(f, items + [VInt(DecInt(f, s).value)], DecInt(f, s).rest);
    }
  }

  /** decode_static_field, for the slot of the field. */
  ghost function DecSlot(f: Field, wt: nat, slot: Slot, s: bytes): (r: Read<Slot>)
    requires WFField(f) && TypedSlot(f, slot)
    ensures r.Got? ==> |r.rest| < |s| && TypedSlot(f, r.value)
    ensures r.Got? && f.htype.ONEOF? ==> r.value.which == f.tag
    decreases |s|, 2
  {
    match f.htype
    case REQUIRED =>
      var (v, rest) :- DecValue(f, slot.v, s);
      Got(Single(v), rest)
    case OPTIONAL =>
      var (v, rest) :- DecValue(f, slot.v, s);
      Got(if f.sizeOffset == 0 then Single(v) else Opt(true, v), rest)
    case REPEATED =>
      if wt == WT_STRING && f.ltype.Packable() then
        var (inner, rest) :- Delimited(s);
        (match DecPacked(f, slot.items, inner)
         case None => Fail
         case Some(items) => DecPackedTyped(f, slot.items, inner); Got(Rep(items), rest))
      else if |slot.items| >= f.arraySize then Fail
      else
        var (v, rest) :- DecValue(f, DefaultValue(f), s);
        Got(Rep(slot.items + [v]), rest)
    case ONEOF =>
      DefaultValueTyped(f);
      var (v, rest) :- DecValue(f, DefaultValue(f), s);
      Got(Union(f.tag, v), rest)
  }

  /** The entry that pb_field_iter_find stops at; tags are distinct. */
  function Find(d: Desc, tag: nat): (r: Option<nat>)
    ensures r.Some? ==> r.value < |d| && d[r.value].tag == tag
    ensures r.None? ==> forall i :: 0 <= i < |d| ==> d[i].tag != tag
  {
    if d == [] then None
    else if d[|d| - 1].tag == tag then Some(|d| - 1)
    else Find(d[..|d| - 1], tag)
  }

  lemma {:induction false} FindUnique(d: Desc, i: nat)
    requires DistinctTags(d) && i < |d|
    ensures Find(d, d[i].tag) == Some(i)
  {}

  /** Storing a slot of the shape that entry i wants leaves the struct matching its description. */
  lemma {:induction false} UpdateTyped(d: Desc, m: Msg, i: nat, s: Slot)
    requires WF(d) && TypedMsg(d, m) && i < |d| && TypedSlot(d[i], s)
    requires d[i].htype.ONEOF? ==> s.which == d[i].tag
    ensures TypedMsg(d, m[Home(d, i) := s])
  {
    forall k | 0 <= k < |d| ensures TypedSlot(d[k], m[Home(d, i) := s][Home(d, k)]) {
      if Home(d, k) == Home(d, i) && k != i {
        assert d[k].tag != d[i].tag;
        SharedIsUnion(d, i, k);
      }
    }
  }

  /** Only members of a oneof share a slot. */
  lemma {:induction false} SharedIsUnion(d: Desc, i: nat, k: nat)
    requires i < |d| && k < |d| && i != k && Home(d, i) == Home(d, k)
    ensures d[i].htype.ONEOF? && d[k].htype.ONEOF?
  {}

  /** The outcome of the field loop; `ended` tells that a zero tag word ended the message. */
  datatype Loop = Done(m: Msg, seen: set<nat>, rest: bytes, ended: bool) | Bad

  /** The loop of pb_decode_noinit. `seen` are the entries decoded so far. */
  ghost function DecodeLoop(d: Desc, m: Msg, seen: set<nat>, s: bytes): (r: Loop)
    requires WF(d) && TypedMsg(d, m)
    ensures r.Done? ==> TypedMsg(d, r.m)
    decreases |s|, 3
  {
    if s == [] then Done(m, seen, [], false)
    else match ReadTag(s)
      case TagFail => Bad
      case TagEnd(rest) => Done(m, seen, rest, true)
      case Tag(tag, wt, rest) =>
        match Find(d, tag)
        case None =>
          // In a message type without fields, tag 0 matches the terminator of the description,
          // whose data size no decoder accepts.
          if d == [] && tag == 0 then Bad
          else (match SkipField(wt, rest)
                case Fail => Bad
                case Got(_, rest') => DecodeLoop(d, m, seen, rest'))
        case Some(i) =>
          assert TypedSlot(d[i], m[Home(d, i)]) && WFField(d[i]);
          match DecSlot(d[i], wt, m[Home(d, i)], rest)
          case Fail => Bad
          case Got(slot, rest') =>
            UpdateTyped(d, m, i, slot);
            DecodeLoop(d, m[Home(d, i) := slot], seen + {i}, rest')
  }

  /** iter.required_field_index at entry i. */
  function RequiredIndex(d: Desc, i: nat): nat
    requires i <= |d|
  {
    if i == 0 then 0 else RequiredIndex(d, i - 1) + (if d[i - 1].htype.REQUIRED? then 1 else 0)
  }

  /** The check at the end of pb_decode_noinit: the first 64 required fields are tracked. */
  predicate RequiredSeen(d: Desc, seen: set<nat>)
  {
    forall i :: 0 <= i < |d| && d[i].htype.REQUIRED? && RequiredIndex(d, i) < PB_MAX_REQUIRED_FIELDS ==> i in seen
  }

  /** pb_decode_noinit */
  ghost function DecodeNoInit(d: Desc, m: Msg, s: bytes): (r: Read<Msg>)
    requires WF(d) && TypedMsg(d, m)
    ensures r.Got? ==> TypedMsg(d, r.value)
    decreases |s|, 4
  {
    match DecodeLoop(d, m, {}, s)
    case Bad => Fail
    case Done(m', seen, rest, _) => if RequiredSeen(d, seen) then Got(m', rest) else Fail
  }

  /** pb_decode */
  ghost function Decode(d: Desc, s: bytes): (r: Read<Msg>)
    requires WF(d)
    ensures r.Got? ==> TypedMsg(d, r.value)
  {
    DefaultTyped(d);
    DecodeNoInit(d, DefaultMsg(d), s)
  }
}
