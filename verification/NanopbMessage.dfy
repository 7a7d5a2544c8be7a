/**
  Message descriptions and message structs of nanopb, for static allocation.

  A description is the `pb_field_t` array without its terminator. A struct is a sequence of
  slots, one for each entry of the description; the entries of one oneof share the slot of the
  first of them. What the library never reads is not part of a slot: array entries beyond the
  count, characters after the terminating zero of a string that was decoded.
 */
module NanopbMessage {
  import opened Words
  import opened NanopbWire

  // The library is built with PB_FIELD_32BIT, so pb_size_t is a 32-bit type.
  const PB_SIZE_MAX := 0xFFFF_FFFF
  const BYTES_HEADER := 4
  const PB_MAX_REQUIRED_FIELDS := 64

  datatype LType =
    | VARINT | UVARINT | SVARINT | FIXED32 | FIXED64
    | BYTES | STRING | SUBMESSAGE(sub: seq<Field>) | FIXED_LENGTH_BYTES
  {
    /** PB_LTYPE <= PB_LTYPE_LAST_PACKABLE */
    predicate Packable() { VARINT? || UVARINT? || SVARINT? || FIXED32? || FIXED64? }
  }

  datatype HType = REQUIRED | OPTIONAL | REPEATED | ONEOF

  datatype Field = Field(tag: nat, htype: HType, ltype: LType, dataOffset: nat, sizeOffset: int,
                         dataSize: nat, arraySize: nat, initial: Option<Value>)

  type Desc = seq<Field>

  datatype Value = VInt(i: int) | VBytes(b: bytes) | VStr(chars: bytes) | VMsg(slots: seq<Slot>)

  datatype Slot =
    | Single(v: Value)
    | Opt(has: bool, v: Value)
    | Rep(items: seq<Value>)
    | Union(which: nat, v: Value)
    | Shared

  type Msg = seq<Slot>

  // ---------------------------------------------------------------- layout

  /** Whether entry i shares the storage of the entry before it: a later member of a oneof. */
  predicate Cont(d: Desc, i: nat)
    requires i < |d|
  {
    i > 0 && d[i - 1].htype.ONEOF? && d[i].htype.ONEOF? && d[i].dataOffset == PB_SIZE_MAX
  }

  /** The slot where entry i is stored. */
  function Home(d: Desc, i: nat): (h: nat)
    requires i < |d|
    ensures h <= i && !Cont(d, h)
    ensures !d[i].htype.ONEOF? ==> h == i
    ensures d[i].htype.ONEOF? ==> d[h].htype.ONEOF?
  {
    if Cont(d, i) then Home(d, i - 1) else i
  }

  /** The slot of entry i; in a struct that matches its description it has the shape the entry wants. */
  ghost function SlotAt(d: Desc, m: Msg, i: nat): (s: Slot)
    requires TypedMsg(d, m) && i < |d|
    ensures TypedSlot(d[i], s)
  {
    m[Home(d, i)]
  }

  /** Entries between a slot and a later entry of the same slot are stored there too. */
  lemma {:induction false} HomeBetween(d: Desc, i: nat, k: nat)
    requires i < |d| && Home(d, i) <= k <= i
    ensures Home(d, k) == Home(d, i)
  {
    if k < i { HomeBetween(d, i - 1, k); }
  }

  // ---------------------------------------------------------------- well-formed descriptions

  predicate IntSize(n: nat) { n == 1 || n == 2 || n == 4 || n == 8 }

  /** 2^(8n) for the integer sizes of C. */
  function Modulus(n: nat): (m: nat)
    requires IntSize(n)
    ensures 256 <= m <= TWO64 && m % 2 == 0
  {
    match n case 1 => 0x100 case 2 => 0x1_0000 case 4 => TWO32 case 8 => TWO64
  }

  /** What the memory of an integer field of n bytes can hold. */
  predicate InRange(i: int, n: nat, signed: bool)
  {
    IntSize(n) ==> if signed then -(Modulus(n) / 2) <= i < Modulus(n) / 2 else 0 <= i < Modulus(n)
  }

  predicate DistinctTags(d: Desc)
  {
    forall i, j :: 0 <= i < j < |d| ==> d[i].tag != d[j].tag
  }

  ghost predicate WFField(f: Field)
    decreases f, 0
  {
    && 0 < f.tag <= PB_SIZE_MAX && f.dataSize <= PB_SIZE_MAX && f.arraySize <= PB_SIZE_MAX
    && (f.htype.REPEATED? || f.htype.ONEOF? ==> f.sizeOffset != 0)
    && (f.ltype.SUBMESSAGE? ==> WF(f.ltype.sub))
    && (f.initial.Some? && !f.ltype.SUBMESSAGE? ==> TypedValue(f, f.initial.value))
  }

  /** What the description generator guarantees; fixed-count arrays are excluded. */
  ghost predicate WF(d: Desc)
    decreases d, 0
  {
    DistinctTags(d) && forall i :: 0 <= i < |d| ==> WFField(d[i])
  }

  // ---------------------------------------------------------------- structs that match a description

  ghost predicate TypedValue(f: Field, v: Value)
    decreases v, 0
  {
    match f.ltype
    case VARINT => v.VInt? && InRange(v.i, f.dataSize, true)
    case SVARINT => v.VInt? && InRange(v.i, f.dataSize, true)
    case UVARINT => v.VInt? && InRange(v.i, f.dataSize, false)
    case FIXED32 => v.VInt? && 0 <= v.i < TWO32
    case FIXED64 => v.VInt? && 0 <= v.i < TWO64
    case BYTES => v.VBytes? && |v.b| <= PB_SIZE_MAX
    case FIXED_LENGTH_BYTES => v.VBytes? && |v.b| == f.dataSize
    case STRING => v.VStr?
    case SUBMESSAGE(sub) => v.VMsg? && TypedMsg(sub, v.slots)
  }

  /** A slot, as one of the entries stored in it sees it. */
  ghost predicate TypedSlot(f: Field, s: Slot)
    decreases s, 1
  {
    match f.htype
    case REQUIRED => s.Single? && TypedValue(f, s.v)
    case OPTIONAL => (if f.sizeOffset == 0 then s.Single? else s.Opt?) && TypedValue(f, s.v)
    case REPEATED => s.Rep? && forall k :: 0 <= k < |s.items| ==> TypedValue(f, s.items[k])
    case ONEOF => s.Union? && (s.which == f.tag ==> TypedValue(f, s.v))
  }

  /** "The actual struct pointed to must match the description in fields." */
  ghost predicate TypedMsg(d: Desc, m: Msg)
    decreases m, 2
  {
    |m| == |d| && forall i {:trigger Home(d, i)} :: 0 <= i < |d| ==> TypedSlot(d[i], m[Home(d, i)])
  }

  // ---------------------------------------------------------------- default values

  /** pb_field_set_to_default for the data of one field. */
  function DefaultValue(f: Field): Value
    decreases f, 0
  {
    match f.ltype
    case SUBMESSAGE(sub) => VMsg(DefaultMsg(sub))
    case _ => if f.initial.Some? then f.initial.value else ZeroValue(f)
  }

  function ZeroValue(f: Field): Value
  {
    match f.ltype
    case BYTES => VBytes([])
    case FIXED_LENGTH_BYTES => VBytes(seq(f.dataSize, _ => 0))
    case STRING => VStr([])
    case _ => VInt(0)
  }

  function DefaultSlot(f: Field, cont: bool): Slot
    decreases f, 1
  {
    if cont then Shared
    else match f.htype
      case REQUIRED => Single(DefaultValue(f))
      case OPTIONAL => if f.sizeOffset == 0 then Single(DefaultValue(f)) else Opt(false, DefaultValue(f))
      case REPEATED => Rep([])
      case ONEOF => Union(0, VInt(0))
  }

  /** pb_message_set_to_defaults */
  function DefaultMsg(d: Desc): (m: Msg)
    ensures |m| == |d|
    decreases d, 2
  {
    seq(|d|, i requires 0 <= i < |d| => DefaultSlot(d[i], Cont(d, i)))
  }

  /** The slot of entry i in a struct of defaults. */
  lemma {:induction false} DefaultAt(d: Desc, i: nat)
    requires i < |d|
    ensures DefaultMsg(d)[Home(d, i)] == if d[i].htype.ONEOF? then Union(0, VInt(0)) else DefaultSlot(d[i], false)
  {}

  lemma {:induction false} DefaultTyped(d: Desc)
    requires WF(d)
    ensures TypedMsg(d, DefaultMsg(d))
    decreases d, 1
  {
    forall i | 0 <= i < |d| ensures TypedSlot(d[i], DefaultMsg(d)[Home(d, i)]) {
      assert WFField(d[i]);
      DefaultValueTyped(d[i]);
    }
  }

  lemma {:induction false} DefaultValueTyped(f: Field)
    requires WFField(f)
    ensures TypedValue(f, DefaultValue(f))
    decreases f, 0
  {
    if f.ltype.SUBMESSAGE? { DefaultTyped(f.ltype.sub); }
  }

  // ---------------------------------------------------------------- what a program can observe

  /** The C string stored in a character array: up to the first zero. */
  function CStr(s: bytes): (r: bytes)
    ensures |r| <= |s| && r == s[..|r|] && 0 !in r
    ensures |r| < |s| ==> s[|r|] == 0
  {
    if s == [] || s[0] == 0 then [] else [s[0]] + CStr(s[1..])
  }

  /** Scanning over n characters that are not zero. */
  lemma {:induction false} CStrScan(s: bytes, n: nat)
    requires n <= |s| && forall k :: 0 <= k < n ==> s[k] != 0
    ensures n <= |CStr(s)| && CStr(s)[..n] == s[..n]
    ensures n == |s| || s[n] == 0 ==> CStr(s) == s[..n]
  {
    if n > 0 {
      CStrScan(s[1..], n - 1);
      assert s[..n] == [s[0]] + s[1..][..n - 1];
    }
  }

  lemma {:induction false} CStrNoZero(s: bytes)
    requires 0 !in s
    ensures CStr(s) == s
  {
    if s != [] { assert s[0] in s; assert s == [s[0]] + s[1..]; CStrNoZero(s[1..]); }
  }

  ghost predicate SameValue(f: Field, v: Value, w: Value)
    requires TypedValue(f, v) && TypedValue(f, w)
    decreases v, 0
  {
    match f.ltype
    case STRING => CStr(v.chars) == CStr(w.chars)
    case SUBMESSAGE(sub) => SameMsg(sub, v.slots, w.slots)
    case _ => v == w
  }

  ghost predicate SameSlot(f: Field, s: Slot, t: Slot)
    requires TypedSlot(f, s) && TypedSlot(f, t)
    decreases s, 1
  {
    match f.htype
    case REQUIRED => SameValue(f, s.v, t.v)
    case OPTIONAL =>
      if f.sizeOffset == 0 then SameValue(f, s.v, t.v)
      else s.has == t.has && (s.has ==> SameValue(f, s.v, t.v))
    case REPEATED =>
      |s.items| == |t.items| && forall k :: 0 <= k < |s.items| ==> SameValue(f, s.items[k], t.items[k])
    case ONEOF => s.which == t.which && (s.which == f.tag ==> SameValue(f, s.v, t.v))
  }

  /** No program that follows the description can tell the two structs apart. */
  ghost predicate SameMsg(d: Desc, m: Msg, n: Msg)
    requires TypedMsg(d, m) && TypedMsg(d, n)
    decreases m, 2
  {
    forall i :: 0 <= i < |d| ==> SameSlot(d[i], SlotAt(d, m, i), SlotAt(d, n, i))
  }
}
