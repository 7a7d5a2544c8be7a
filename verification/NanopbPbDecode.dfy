/**
  The decoder of pb_decode.c as it runs: the tag loop over a stream that shrinks, the iterator
  that is left wherever the last search stopped, the bit set of required fields, and a substream
  for every length-delimited field. Every method is tied to what NanopbDecode defines.
 */
module NanopbPbDecode {
  import opened Words
  import opened NanopbWire
  import opened NanopbReaders
  import opened NanopbMessage
  import opened NanopbDecode
  import opened NanopbIStream
  import opened NanopbFieldIter

  // ---------------------------------------------------------------- the bit set of required fields

  /** Some entry that has been decoded is the required field number q. */
  ghost predicate SeenRequired(d: Desc, seen: set<nat>, q: nat)
  {
    exists i :: i in seen && i < |d| && d[i].htype.REQUIRED? && RequiredIndex(d, i) == q
  }

  /** A word of fields_seen holds exactly the required fields from `base` on that were decoded. */
  ghost predicate TracksWord(w: nat, base: nat, d: Desc, seen: set<nat>)
  {
    forall j: nat :: Bit(w, j) <==> j < 32 && SeenRequired(d, seen, j + base)
  }

  ghost predicate Tracks(low: nat, high: nat, d: Desc, seen: set<nat>)
  {
    TracksWord(low, 0, d, seen) && TracksWord(high, 32, d, seen)
  }

  /** Recording one more entry keeps the words exact. */
  lemma {:induction false} WordStep(w: nat, base: nat, d: Desc, seen: set<nat>, i: nat)
    requires TracksWord(w, base, d, seen) && i < |d|
    ensures var q := RequiredIndex(d, i);
            TracksWord(if d[i].htype.REQUIRED? && base <= q < base + 32 then Mark(w, q - base) else w, base, d, seen + {i})
  {
    hide Bit, Mark, RequiredIndex, SeenRequired;
    var q := RequiredIndex(d, i);
    var w' := if d[i].htype.REQUIRED? && base <= q < base + 32 then Mark(w, q - base) else w;
    forall j: nat ensures Bit(w', j) <==> j < 32 && SeenRequired(d, seen + {i}, j + base) {
      SeenStep(d, seen, i, j + base);
      if base <= q { MarkSets(w, q - base, j); }
    }
  }

  lemma {:induction false} SeenStep(d: Desc, seen: set<nat>, i: nat, q: nat)
    requires i < |d|
    ensures SeenRequired(d, seen + {i}, q) <==>
            SeenRequired(d, seen, q) || (d[i].htype.REQUIRED? && RequiredIndex(d, i) == q)
  {
    hide RequiredIndex;
    if d[i].htype.REQUIRED? && RequiredIndex(d, i) == q { assert i in seen + {i}; }
    if SeenRequired(d, seen, q) {
      var k :| k in seen && k < |d| && d[k].htype.REQUIRED? && RequiredIndex(d, k) == q;
      assert k in seen + {i};
    }
  }

  lemma {:induction false} RequiredIndexMonotone(d: Desc, i: nat, j: nat)
    requires i < j <= |d|
    ensures RequiredIndex(d, i) + (if d[i].htype.REQUIRED? then 1 else 0) <= RequiredIndex(d, j)
  {
    if i + 1 < j { RequiredIndexMonotone(d, i, j - 1); }
  }

  lemma {:induction false} RequiredIndexReached(d: Desc, q: nat, n: nat) returns (i: nat)
    requires n <= |d| && q < RequiredIndex(d, n)
    ensures i < n && d[i].htype.REQUIRED? && RequiredIndex(d, i) == q
  {
    if q < RequiredIndex(d, n - 1) { i := RequiredIndexReached(d, q, n - 1); } else { i := n - 1; }
  }

  /** How many required fields are tracked. */
  function Tracked(d: Desc): nat
  {
    if RequiredIndex(d, |d|) > PB_MAX_REQUIRED_FIELDS then PB_MAX_REQUIRED_FIELDS else RequiredIndex(d, |d|)
  }

  /** Every tracked required field was decoded exactly if every tracked number is marked. */
  lemma {:induction false} TrackedExact(d: Desc, seen: set<nat>)
    ensures RequiredSeen(d, seen) <==> forall q :: 0 <= q < Tracked(d) ==> SeenRequired(d, seen, q)
    ensures forall q: nat :: SeenRequired(d, seen, q) ==> q < RequiredIndex(d, |d|)
  {
    hide RequiredIndex;
    forall q: nat | SeenRequired(d, seen, q) ensures q < RequiredIndex(d, |d|) {
      var i :| i in seen && i < |d| && d[i].htype.REQUIRED? && RequiredIndex(d, i) == q;
      RequiredIndexMonotone(d, i, |d|);
    }
    if RequiredSeen(d, seen) {
      forall q | 0 <= q < Tracked(d) ensures SeenRequired(d, seen, q) {
        var i := RequiredIndexReached(d, q, |d|);
      }
    }
    if forall q :: 0 <= q < Tracked(d) ==> SeenRequired(d, seen, q) {
      forall i | 0 <= i < |d| && d[i].htype.REQUIRED? && RequiredIndex(d, i) < PB_MAX_REQUIRED_FIELDS ensures i in seen {
        var q := RequiredIndex(d, i);
        RequiredIndexMonotone(d, i, |d|);
        assert SeenRequired(d, seen, q);
        var k :| k in seen && k < |d| && d[k].htype.REQUIRED? && RequiredIndex(d, k) == q;
        if k < i { RequiredIndexMonotone(d, k, i); }
        if i < k { RequiredIndexMonotone(d, i, k); }
      }
    }
  }

  /** The low word, and then the high word, against the number of tracked fields. */
  predicate WordsComplete(low: nat, high: nat, n: nat)
  {
    (0 < n < 32 ==> low == Shl(1, n) - 1) && (n >= 32 ==> low == Shl(1, 32) - 1) && (n > 32 ==> high == Shl(1, n - 32) - 1)
  }

  /** The marks of the first n numbers of a word. */
  lemma {:induction false} WordExact(w: nat, base: nat, d: Desc, seen: set<nat>, n: nat)
    requires TracksWord(w, base, d, seen) && n <= 32
    requires forall q: nat :: SeenRequired(d, seen, q) && q >= base + n ==> n == 32
    ensures w == Shl(1, n) - 1 <==> forall q :: base <= q < base + n ==> SeenRequired(d, seen, q)
  {
    hide Bit, Shl, SeenRequired;
    AllOnes(w, n);
    if forall q :: base <= q < base + n ==> SeenRequired(d, seen, q) {
      forall k: nat | k < n ensures Bit(w, k) { assert SeenRequired(d, seen, k + base); }
    }
    if w == Shl(1, n) - 1 {
      forall q | base <= q < base + n ensures SeenRequired(d, seen, q) { assert Bit(w, q - base); }
    }
  }

  /** Comparing whole words decides whether all tracked fields were decoded. */
  lemma {:induction false} WordsExact(low: nat, high: nat, d: Desc, seen: set<nat>)
    requires Tracks(low, high, d, seen)
    ensures RequiredSeen(d, seen) <==> WordsComplete(low, high, Tracked(d))
  {
    hide Bit, Shl, SeenRequired, RequiredSeen, RequiredIndex, TracksWord;
    TrackedExact(d, seen);
    var n := Tracked(d);
    if n < 32 {
      WordExact(low, 0, d, seen, n);
    } else {
      WordExact(low, 0, d, seen, 32);
      WordExact(high, 32, d, seen, n - 32);
    }
  }

  /** The end of pb_decode_noinit, from wherever the iterator stands. */
  method CheckRequired(iter: FieldIter, fieldsSeen: array<nat>, ghost seen: set<nat>) returns (ok: bool)
    requires iter.Valid() && fieldsSeen.Length == 2
    requires Tracks(fieldsSeen[0], fieldsSeen[1], iter.start, seen)
    modifies iter
    ensures ok <==> RequiredSeen(iter.start, seen)
  {
    hide Bit, Shl, RequiredSeen, Tracks, Offset;
    var d := iter.start;
    var count, lastRequired := 0, false;
    while true
      invariant iter.Valid()
      decreases |d| - iter.pos
    {
      count := iter.requiredFieldIndex;
      lastRequired := iter.pos < |d| && d[iter.pos].htype.REQUIRED?;
      ghost var last := iter.pos;
      var more := iter.Next();
      if !more {
        assert d != [] ==> last == |d| - 1 && count == RequiredIndex(d, |d| - 1);
        break;
      }
    }
    // Fixup if last field was also required; the terminator of an empty description is not.
    if lastRequired && d != [] {
      count := count + 1;
    }
    assert count == RequiredIndex(d, |d|);
    if count > PB_MAX_REQUIRED_FIELDS {
      count := PB_MAX_REQUIRED_FIELDS;
    }
    WordsExact(fieldsSeen[0], fieldsSeen[1], d, seen);
    ShlZero(1);
    assert Shl(1, 32) == TWO32 by { Shl32(); }
    var i := 0;
    while i < count / 32
      invariant 0 <= i <= count / 32 <= 2
      invariant forall k :: 0 <= k < i ==> fieldsSeen[k] == 0xFFFF_FFFF
    {
      if fieldsSeen[i] != 0xFFFF_FFFF {
        return false;
      }
      i := i + 1;
    }
    if count % 32 != 0 {
      // allbits >> (32 - count % 32)
      ok := fieldsSeen[count / 32] == Shl(1, count % 32) - 1;
    } else {
      ok := true;
    }
  }

  // ---------------------------------------------------------------- single values

  /** PB_DECODERS of the packable types. */
  method DecodeInt(stream: IStream, f: Field) returns (ok: bool, value: int)
    requires stream.Valid() && f.ltype.Packable()
    modifies stream
    ensures stream.Valid() && stream.End() == old(stream.End())
    ensures Outcome(DecInt(f, old(stream.Rest())), ok, value, stream.Rest())
  {
    hide Dec64, ReadFixed;
    var raw: nat;
    value := 0;
    if f.ltype.FIXED32? {
      ok, raw := stream.DecodeFixed(4);
      value := raw;
      return;
    }
    if f.ltype.FIXED64? {
      ok, raw := stream.DecodeFixed(8);
      value := raw;
      return;
    }
    ghost var s := stream.Rest();
    ok, raw := stream.DecodeVarint();
    if !ok {
      return;
    }
    Dec64Bound(s);
    if !IntSize(f.dataSize) {
      return false, value;
    }
    if f.ltype.VARINT? {
      value := if f.dataSize == 8 then CastSigned(raw, 8) else CastSigned(raw, 4);
      var clamped := CastSigned(value, f.dataSize);
      ok := clamped == value;
    } else if f.ltype.UVARINT? {
      value := raw;
      var clamped := raw % Modulus(f.dataSize);
      ok := clamped == raw;
    } else {
      value := UnZigZag(raw);
      var clamped := CastSigned(value, f.dataSize);
      ok := clamped == value;
    }
  }

  /** pb_dec_bytes, pb_dec_string and pb_dec_fixed_length_bytes */
  method DecodeBytes(stream: IStream, f: Field) returns (ok: bool, b: bytes)
    requires stream.Valid() && (f.ltype.BYTES? || f.ltype.STRING? || f.ltype.FIXED_LENGTH_BYTES?)
    modifies stream
    ensures stream.Valid() && stream.End() == old(stream.End())
    ensures Outcome(if f.ltype.BYTES? then DecBytes(f, old(stream.Rest()))
                    else if f.ltype.STRING? then DecString(f, old(stream.Rest()))
                    else DecFixedLength(f, old(stream.Rest())), ok, b, stream.Rest())
  {
    hide Dec32;
    b := [];
    ghost var s := stream.Rest();
    var size, eof;
    ok, size, eof := stream.DecodeVarint32();
    if !ok {
      return;
    }
    Dec32Bound(s);
    if f.ltype.BYTES? {
      if size > PB_SIZE_MAX || size + BYTES_HEADER > f.dataSize {
        return false, b;
      }
    } else if f.ltype.STRING? {
      var allocSize := (size + 1) % TWO32;
      if allocSize < size || allocSize > f.dataSize {
        return false, b;
      }
    } else {
      if size > PB_SIZE_MAX {
        return false, b;
      }
      if size == 0 {
        b := seq(f.dataSize, _ => 0);
        return true, b;
      }
      if size != f.dataSize {
        return false, b;
      }
    }
    ok, b := stream.Read(size);
  }

  // ---------------------------------------------------------------- messages

  /** PB_DECODERS[PB_LTYPE(type)], over the value that is in the struct. */
  method DecodeValue(stream: IStream, f: Field, old': Value) returns (ok: bool, v: Value)
    requires stream.Valid() && WFField(f) && (f.ltype.SUBMESSAGE? && !f.htype.REPEATED? ==> TypedValue(f, old'))
    modifies stream
    ensures stream.Valid() && stream.End() <= old(stream.End()) && (ok ==> stream.End() == old(stream.End()))
    ensures Outcome(DecValue(f, old', old(stream.Rest())), ok, v, stream.Rest())
    decreases stream.bytesLeft, 1
  {
    hide DecInt, DecBytes, DecString, DecFixedLength, Delimited, DecodeNoInit;
    v := VInt(0);
    match f.ltype {
      case BYTES =>
        var b;
        ok, b := DecodeBytes(stream, f);
        v := VBytes(b);
      case STRING =>
        var b;
        ok, b := DecodeBytes(stream, f);
        v := VStr(b);
      case FIXED_LENGTH_BYTES =>
        var b;
        ok, b := DecodeBytes(stream, f);
        v := VBytes(b);
      case SUBMESSAGE(sub) =>
        DefaultTyped(sub);
        var m;
        ok, m := DecodeSubmessage(stream, sub, if f.htype.REPEATED? then DefaultMsg(sub) else old'.slots);
        v := VMsg(m);
      case _ =>
        var i;
        ok, i := DecodeInt(stream, f);
        v := VInt(i);
    }
  }

  /** pb_dec_submessage: whatever the submessage leaves of its bytes is skipped. */
  method DecodeSubmessage(stream: IStream, sub: Desc, m0: Msg) returns (ok: bool, m: Msg)
    requires stream.Valid() && WF(sub) && TypedMsg(sub, m0)
    modifies stream
    ensures stream.Valid() && stream.End() <= old(stream.End()) && (ok ==> stream.End() == old(stream.End()))
    ensures Outcome(SubmessageRead(sub, m0, old(stream.Rest())), ok, m, stream.Rest())
    decreases stream.bytesLeft, 0
  {
    hide Delimited, DecodeNoInit, WF, TypedMsg;
    m := m0;
    var substream;
    ok, substream := stream.MakeSubstream();
    if !ok {
      return;
    }
    ok, m := PbDecodeNoInit(substream, sub, m0);
    stream.CloseSubstream(substream);
  }

  /** A submessage, as its parent reads it. */
  ghost function SubmessageRead(sub: Desc, m0: Msg, s: bytes): Read<Msg>
    requires WF(sub) && TypedMsg(sub, m0)
  {
    var (inner, rest) :- Delimited(s);
    var (m, _) :- DecodeNoInit(sub, m0, inner);
    Got(m, rest)
  }

  /** decode_static_field */
  method DecodeStaticField(stream: IStream, f: Field, wireType: nat, slot: Slot) returns (ok: bool, slot': Slot)
    requires stream.Valid() && WFField(f) && TypedSlot(f, slot)
    modifies stream
    ensures stream.Valid() && stream.End() <= old(stream.End()) && (ok ==> stream.End() == old(stream.End()))
    ensures Outcome(DecSlot(f, wireType, slot, old(stream.Rest())), ok, slot', stream.Rest())
    decreases stream.bytesLeft, 2
  {
    hide DecValue, Delimited, DecPacked;
    slot' := slot;
    var v;
    match f.htype {
      case REQUIRED =>
        ok, v := DecodeValue(stream, f, slot.v);
        slot' := Single(v);
      case OPTIONAL =>
        ok, v := DecodeValue(stream, f, slot.v);
        slot' := if f.sizeOffset == 0 then Single(v) else Opt(true, v);
      case REPEATED =>
        if wireType == WT_STRING && f.ltype.Packable() {
          var items;
          ok, items := DecodePackedArray(stream, f, slot.items);
          slot' := Rep(items);
        } else {
          if |slot.items| >= f.arraySize {
            return false, slot;
          }
          ok, v := DecodeValue(stream, f, DefaultValue(f));
          slot' := Rep(slot.items + [v]);
        }
      case ONEOF =>
        DefaultValueTyped(f);
        ok, v := DecodeValue(stream, f, DefaultValue(f));
        slot' := Union(f.tag, v);
    }
  }

  ghost function PackedRead(f: Field, items: seq<Value>, s: bytes): Read<seq<Value>>
    requires f.ltype.Packable()
  {
    var (inner, rest) :- Delimited(s);
    match DecPacked(f, items, inner)
    case None => Fail
    case Some(items') => Got(items', rest)
  }

  /** The packed branch of decode_static_field. */
  method DecodePackedArray(stream: IStream, f: Field, items0: seq<Value>) returns (ok: bool, items: seq<Value>)
    requires stream.Valid() && f.ltype.Packable()
    modifies stream
    ensures stream.Valid() && stream.End() <= old(stream.End()) && (ok ==> stream.End() == old(stream.End()))
    ensures Outcome(PackedRead(f, items0, old(stream.Rest())), ok, items, stream.Rest())
  {
    hide Delimited, DecInt;
    items := items0;
    var substream;
    ok, substream := stream.MakeSubstream();
    if !ok {
      return;
    }
    ghost var inner := substream.Rest();
    label made:
    var status := true;
    while substream.bytesLeft > 0 && |items| < f.arraySize
      invariant substream.Valid() && substream.End() == old@made(substream.End()) && unchanged@made(stream)
      invariant DecPacked(f, items0, inner) == DecPacked(f, items, substream.Rest())
      decreases substream.bytesLeft
    {
      var got, i := DecodeInt(substream, f);
      if !got {
        status := false;
        break;
      }
      items := items + [VInt(i)];
    }
    if substream.bytesLeft != 0 {
      // "array overflow": the substream is not closed
      return false, items;
    }
    stream.CloseSubstream(substream);
    ok := status;
  }

  /** pb_decode_noinit */
  method PbDecodeNoInit(stream: IStream, d: Desc, m0: Msg) returns (ok: bool, m: Msg)
    requires stream.Valid() && WF(d) && TypedMsg(d, m0)
    modifies stream
    ensures stream.Valid() && stream.End() <= old(stream.End()) && (ok ==> stream.End() == old(stream.End()))
    ensures Outcome(DecodeNoInit(d, m0, old(stream.Rest())), ok, m, stream.Rest())
    decreases stream.bytesLeft, 4
  {
    hide DecSlot, SkipField, ReadTag, Offset, RequiredIndex, Home, TypedSlot, RequiredSeen, Tracks;
    m := m0;
    var fieldsSeen := new nat[2](_ => 0);
    ghost var seen: set<nat> := {};
    NothingSeen(d);
    var iter := new FieldIter(d);
    while stream.bytesLeft > 0
      invariant stream.Valid() && stream.End() == old(stream.End()) && stream.bytesLeft <= old(stream.bytesLeft)
      invariant iter.Valid() && iter.start == d && TypedMsg(d, m)
      invariant fresh(iter) && fresh(fieldsSeen) && fieldsSeen.Length == 2
      invariant Tracks(fieldsSeen[0], fieldsSeen[1], d, seen)
      invariant DecodeLoop(d, m0, {}, old(stream.Rest())) == DecodeLoop(d, m, seen, stream.Rest())
      decreases stream.bytesLeft
    {
      var got, wireType, tag, eof := stream.DecodeTag();
      if !got {
        if eof {
          ok := CheckRequired(iter, fieldsSeen, seen);
          return;
        }
        return false, m;
      }
      var found := iter.Find(tag);
      if !found {
        got := stream.Skip(wireType);
        if !got {
          return false, m;
        }
      } else if d == [] {
        // The terminator matched tag 0; its data size is 0, which no integer has.
        return false, m;
      } else {
        FindUnique(d, iter.pos);
        var i := iter.pos;
        MarkField(iter, fieldsSeen, seen);
        Slotted(d, m, i);
        var slot;
        got, slot := DecodeStaticField(stream, d[i], wireType, m[Home(d, i)]);
        if !got {
          return false, m;
        }
        UpdateTyped(d, m, i, slot);
        m := m[Home(d, i) := slot];
        seen := seen + {i};
      }
    }
    ok := CheckRequired(iter, fieldsSeen, seen);
  }

  lemma {:induction false} NothingSeen(d: Desc)
    ensures Tracks(0, 0, d, {})
  {
    forall j: nat ensures !Bit(0, j) { ZeroBits(j); }
  }

  lemma {:induction false} Slotted(d: Desc, m: Msg, i: nat)
    requires WF(d) && TypedMsg(d, m) && i < |d|
    ensures |m| == |d| && TypedSlot(d[i], m[Home(d, i)]) && WFField(d[i])
  {}

  /** `fields_seen[index >> 5] |= 1 << (index & 31)` for a required field among the first 64. */
  method MarkField(iter: FieldIter, fieldsSeen: array<nat>, ghost seen: set<nat>)
    requires iter.Valid() && iter.start != [] && fieldsSeen.Length == 2
    requires Tracks(fieldsSeen[0], fieldsSeen[1], iter.start, seen)
    modifies fieldsSeen
    ensures Tracks(fieldsSeen[0], fieldsSeen[1], iter.start, seen + {iter.pos})
  {
    hide TracksWord, Offset, RequiredIndex, Shl, BitOr;
    var index := iter.requiredFieldIndex;
    WordStep(fieldsSeen[0], 0, iter.start, seen, iter.pos);
    WordStep(fieldsSeen[1], 32, iter.start, seen, iter.pos);
    if iter.start[iter.pos].htype.REQUIRED? && index < PB_MAX_REQUIRED_FIELDS {
      fieldsSeen[index / 32] := BitOr(fieldsSeen[index / 32], Shl(1, index % 32));
    }
  }

  /** pb_decode from a buffer. */
  method PbDecode(buffer: bytes, d: Desc) returns (ok: bool, m: Msg)
    requires WF(d)
    ensures ok <==> Decode(d, buffer).Got?
    ensures ok ==> m == Decode(d, buffer).value
  {
    hide DecodeNoInit;
    DefaultTyped(d);
    var stream := new IStream(buffer, 0, |buffer|);
    assert stream.Rest() == buffer;
    ok, m := PbDecodeNoInit(stream, d, DefaultMsg(d));
  }
}
