/**
  Output streams of pb_encode.c: a buffer stream writes through a pointer into memory that it
  shares with its substreams; a sizing stream (no callback) only counts.
 */
module NanopbOStream {
  import opened Words
  import opened NanopbWire
  import opened NanopbReaders
  import opened NanopbMessage

  datatype Error = StreamFull | ArrayMaxSize | InvalidDataSize | BytesSize

  /** What an operation can do to a stream: its position in memory, its count and its error. */
  datatype View = Snapshot(sizing: bool, image: bytes, beyond: bytes, written: nat, max: nat, err: Option<Error>)

  /** Whether there is room for n more bytes. */
  predicate Room(a: View, n: nat) { a.sizing || a.written + n <= a.max }

  /**
    The effect of an operation that writes the bytes e, or cannot. Success is exactly that e
    exists and fits; then the stream has grown by exactly those bytes and memory after them is
    untouched. In no case is memory before the stream's pointer touched. If the first error of a
    stream comes from an operation whose bytes exist, that error is that the stream is full.
   */
  ghost predicate Appends(a: View, b: View, ok: bool, e: Option<bytes>)
  {
    && b.sizing == a.sizing && b.max == a.max
    && (ok <==> e.Some? && Room(a, |e.value|))
    && (ok ==> b.written == a.written + |e.value| && (a.err.None? ==> b.err.None?))
    && (ok && a.sizing ==> b.image == a.image && b.beyond == a.beyond)
    && (ok && !a.sizing ==> b.image == a.image + e.value && |e.value| <= |a.beyond| && b.beyond == a.beyond[|e.value|..])
    && (!ok ==> a.image <= b.image)
    && (!ok && a.err.None? && e.Some? ==> b.err == Some(StreamFull))
  }

  /** Two operations in a row write the one's bytes and then the other's. */
  lemma {:induction false} InSequence(a: View, b: View, c: View, x: bytes, ok: bool, y: Option<bytes>)
    requires Appends(a, b, true, Some(x)) && Appends(b, c, ok, y)
    ensures Appends(a, c, ok, if y.Some? then Some(x + y.value) else None)
  {
    if ok && !a.sizing {
      assert a.image + x + y.value == a.image + (x + y.value);
      assert a.beyond[|x|..][|y.value|..] == a.beyond[|x| + |y.value|..];
    }
  }

  /** An operation fails if its first part does. */
  lemma {:induction false} FirstFails(a: View, b: View, x: Option<bytes>, e: Option<bytes>)
    requires Appends(a, b, false, x)
    requires e.Some? ==> x.Some? && |x.value| <= |e.value|
    ensures Appends(a, b, false, e)
  {}

  lemma {:induction false} WritesNone(a: View)
    requires a.written <= a.max || a.sizing
    ensures Appends(a, a, true, Some([]))
  {
    assert a.image + [] == a.image && a.beyond[0..] == a.beyond;
  }

  /** The loop of pb_encode_varint: groups with the continuation bit, cleared in the last. */
  method FillVarint(buffer: array<byte>, value: nat) returns (i: nat)
    requires buffer.Length == 10 && 0 < value < TWO64
    modifies buffer
    ensures i <= 10 && buffer[..i] == EncVarint(value)
  {
    hide EncVarint, Filled;
    var v: nat := value;
    i := 0;
    FilledStart(value);
    while v != 0
      invariant i <= 10 && Filled(buffer[..i], v, value)
      decreases v
    {
      FilledStep(buffer[..i], v, value);
      buffer[i] := v % 128 + 128;
      assert buffer[..i + 1] == buffer[..i] + [v % 128 + 128];
      v := v / 128;
      i := i + 1;
    }
    FilledEnd(buffer[..i], value);
    ghost var before := buffer[..i];
    buffer[i - 1] := buffer[i - 1] - 128;
    assert buffer[..i] == before[..i - 1] + [before[i - 1] - 128];
  }

  /** The groups written so far, when the value has been shifted down to v. */
  ghost predicate Filled(groups: bytes, v: nat, value: nat)
  {
    if v > 0 then groups + EncVarint(v) == EncVarint(value)
    else |groups| > 0 && groups[|groups| - 1] >= 128
         && groups[..|groups| - 1] + [groups[|groups| - 1] - 128] == EncVarint(value)
  }

  lemma {:induction false} FilledStart(value: nat)
    requires value > 0
    ensures Filled([], value, value)
  {
    assert [] + EncVarint(value) == EncVarint(value);
  }

  lemma {:induction false} FilledEnd(groups: bytes, value: nat)
    requires Filled(groups, 0, value)
    ensures |groups| > 0 && groups[|groups| - 1] >= 128
    ensures groups[..|groups| - 1] + [groups[|groups| - 1] - 128] == EncVarint(value)
  {}

  lemma {:induction false} FilledStep(groups: bytes, v: nat, value: nat)
    requires Filled(groups, v, value) && v > 0 && value < TWO64
    ensures |groups| < 10 && Filled(groups + [v % 128 + 128], v / 128, value)
  {
    VarintAtMostTen(value);
    assert |groups + EncVarint(v)| == |groups| + |EncVarint(v)|;
    var g := groups + [v % 128 + 128];
    if v >= 128 {
      assert g + EncVarint(v / 128) == groups + EncVarint(v);
    } else {
      assert g[..|g| - 1] == groups;
    }
  }

  class OStream {
    const sink: array?<byte>   // null for a sizing stream
    var state: nat             // where the next byte goes
    var maxSize: nat
    var bytesWritten: nat
    var errmsg: Option<Error>

    ghost predicate Valid()
      reads this
    {
      sink != null ==> bytesWritten <= maxSize && state + (maxSize - bytesWritten) <= sink.Length
    }

    ghost function Repr(): set<object>
    {
      if sink == null then {this} else {this, sink}
    }

    ghost function View(): (a: View)
      reads this, sink
      requires Valid()
      ensures a.sizing || a.written <= a.max
    {
      if sink == null then Snapshot(true, [], [], bytesWritten, maxSize, errmsg)
      else Snapshot(false, sink[..state], sink[state..], bytesWritten, maxSize, errmsg)
    }

    /** pb_ostream_from_buffer, and the substream of pb_encode_submessage. */
    constructor (buffer: array<byte>, offset: nat, size: nat)
      requires offset + size <= buffer.Length
      ensures Valid() && sink == buffer && state == offset && maxSize == size && bytesWritten == 0 && errmsg == None
    {
      sink := buffer;
      state := offset;
      maxSize := size;
      bytesWritten := 0;
      errmsg := None;
    }

    /** PB_OSTREAM_SIZING */
    constructor Sizing()
      ensures Valid() && sink == null && bytesWritten == 0 && errmsg == None
    {
      sink := null;
      state := 0;
      maxSize := 0;
      bytesWritten := 0;
      errmsg := None;
    }

    /** PB_RETURN_ERROR keeps the first message. */
    method SetError(e: Error)
      modifies this`errmsg
      ensures errmsg == if old(errmsg).Some? then old(errmsg) else Some(e)
    {
      if errmsg.None? { errmsg := Some(e); }
    }

    /** buf_write */
    method BufWrite(buf: bytes)
      requires Valid() && sink != null && bytesWritten + |buf| <= maxSize
      modifies this`state, sink
      ensures state == old(state) + |buf|
      ensures sink[..state] == old(sink[..state]) + buf
      ensures sink[state..] == old(sink[state..])[|buf|..]
    {
      var dest := state;
      state := dest + |buf|;
      for i := 0 to |buf|
        invariant state == dest + |buf|
        invariant sink[..dest + i] == old(sink[..state]) + buf[..i]
        invariant sink[dest + i..] == old(sink[state..])[i..]
      {
        sink[dest + i] := buf[i];
        assert sink[..dest + i + 1] == sink[..dest + i] + [buf[i]];
        assert sink[dest + i + 1..] == old(sink[state..])[i + 1..];
      }
    }

    /** pb_write */
    method Write(buf: bytes) returns (ok: bool)
      requires Valid()
      modifies Repr()
      ensures Valid() && Appends(old(View()), View(), ok, Some(buf))
    {
      if sink != null {
        if bytesWritten + |buf| > maxSize {
          SetError(StreamFull);
          return false;
        }
        BufWrite(buf);
      }
      bytesWritten := bytesWritten + |buf|;
      return true;
    }

    /** pb_write of a null buffer, on a sizing stream. */
    method Count(ghost e: bytes, n: nat) returns (ok: bool)
      requires Valid() && sink == null && n == |e|
      modifies this
      ensures Valid() && Appends(old(View()), View(), ok, Some(e))
    {
      bytesWritten := bytesWritten + n;
      return true;
    }

    /** pb_encode_varint */
    method EncodeVarint(value: nat) returns (ok: bool)
      requires Valid() && value < TWO64
      modifies Repr()
      ensures Valid() && Appends(old(View()), View(), ok, Some(EncVarint(value)))
    {
      hide Appends;
      if value <= 0x7F {
        ok := Write([value]);
        return;
      }
      var buffer := new byte[10](_ => 0);
      var n := FillVarint(buffer, value);
      ok := Write(buffer[..n]);
    }

    /** pb_encode_tag */
    method EncodeTag(wireType: nat, tag: nat) returns (ok: bool)
      requires Valid() && wireType < 8 && tag <= PB_SIZE_MAX
      modifies Repr()
      ensures Valid() && Appends(old(View()), View(), ok, Some(EncTag(wireType, tag)))
    {
      ok := EncodeVarint(8 * tag + wireType);
    }
  }
}
