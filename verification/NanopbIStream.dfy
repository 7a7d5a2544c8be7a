/**
  Input streams of pb_decode.c over a memory buffer: a read pointer and a count of bytes left,
  moved in place by the readers. Each reader is tied to the function that says what it makes of
  the bytes that are left.
 */
module NanopbIStream {
  import opened Words
  import opened NanopbWire
  import opened NanopbReaders

  /** A reader succeeds exactly if the bytes can be read, with that value and that rest. */
  ghost predicate Outcome<T>(r: Read<T>, ok: bool, value: T, rest: bytes)
  {
    (ok <==> r.Got?) && (ok ==> value == r.value && rest == r.rest)
  }

  class IStream {
    const source: bytes
    var state: nat
    var bytesLeft: nat

    ghost predicate Valid()
      reads this
    {
      state + bytesLeft <= |source|
    }

    /** The bytes still to be read. */
    ghost function Rest(): (s: bytes)
      reads this
      requires Valid()
      ensures |s| == bytesLeft
    {
      source[state..state + bytesLeft]
    }

    /** Where this stream ends in the buffer; reading never moves it. */
    ghost function End(): nat
      reads this
    {
      state + bytesLeft
    }

    /** pb_istream_from_buffer, and the copy that makes a substream. */
    constructor (buffer: bytes, offset: nat, size: nat)
      requires offset + size <= |buffer|
      ensures Valid() && source == buffer && state == offset && bytesLeft == size
    {
      source := buffer;
      state := offset;
      bytesLeft := size;
    }

    /** pb_readbyte */
    method ReadByte() returns (ok: bool, b: byte)
      requires Valid()
      modifies this
      ensures Valid() && End() == old(End())
      ensures ok <==> old(bytesLeft) > 0
      ensures if ok then b == old(Rest())[0] && Rest() == old(Rest())[1..] else Rest() == old(Rest())
    {
      b := 0;
      if bytesLeft == 0 {
        return false, b;
      }
      b := source[state];
      state := state + 1;
      bytesLeft := bytesLeft - 1;
      return true, b;
    }

    /** pb_read */
    method Read(count: nat) returns (ok: bool, buf: bytes)
      requires Valid()
      modifies this
      ensures Valid() && End() == old(End())
      ensures Outcome(Take(old(Rest()), count), ok, buf, Rest())
    {
      buf := [];
      if bytesLeft < count {
        return false, buf;
      }
      ghost var s := Rest();
      buf := source[state..state + count];
      state := state + count;
      bytesLeft := bytesLeft - count;
      assert buf == s[..count] && Rest() == s[count..];
      return true, buf;
    }

    /** pb_decode_varint */
    method DecodeVarint() returns (ok: bool, dest: nat)
      requires Valid()
      modifies this
      ensures Valid() && End() == old(End())
      ensures Outcome(Dec64(old(Rest())), ok, dest, Rest())
    {
      hide BitOr, Shl;
      var bitpos, result := 0, 0;
      dest := 0;
      while true
        invariant Valid() && End() == old(End())
        invariant Dec64(old(Rest())) == Dec64From(Rest(), bitpos, result)
        decreases bytesLeft
      {
        if bitpos >= 64 {
          return false, dest;
        }
        var got, b := ReadByte();
        if !got {
          return false, dest;
        }
        result := BitOr(result, Shl(b % 128, bitpos) % TWO64);
        bitpos := bitpos + 7;
        if b < 128 {
          return true, result;
        }
      }
    }

    /** pb_decode_varint32_eof; the bit position is an 8-bit counter. */
    method DecodeVarint32() returns (ok: bool, dest: nat, eof: bool)
      requires Valid()
      modifies this
      ensures Valid() && End() == old(End())
      ensures Outcome(Dec32(old(Rest())), ok, dest, Rest())
      ensures eof <==> old(bytesLeft) == 0
      ensures eof ==> !ok && Rest() == old(Rest())
    {
      hide BitOr, Shl, HighByteOk;
      dest := 0;
      var got, b := ReadByte();
      if !got {
        return false, dest, true;
      }
      if b < 128 {
        return true, b, false;
      }
      var bitpos, result := 7, b % 128;
      while true
        invariant Valid() && End() == old(End()) && 0 <= bitpos < 256 && result >= 0
        invariant Dec32(old(Rest())) == Dec32From(Rest(), bitpos, result)
        decreases bytesLeft
      {
        got, b := ReadByte();
        if !got {
          return false, dest, false;
        }
        if bitpos >= 32 {
          if !HighByteOk(b, bitpos, result) {
            return false, dest, false;
          }
        } else {
          result := BitOr(result, Shl(b % 128, bitpos) % TWO32);
        }
        bitpos := (bitpos + 7) % 256;
        if b < 128 {
          if bitpos == 35 && b % 128 >= 16 {
            return false, dest, false;
          }
          return true, result, false;
        }
      }
    }

    /** pb_decode_fixed32 and pb_decode_fixed64 */
    method DecodeFixed(n: nat) returns (ok: bool, dest: nat)
      requires Valid()
      modifies this
      ensures Valid() && End() == old(End())
      ensures Outcome(ReadFixed(old(Rest()), n), ok, dest, Rest())
    {
      dest := 0;
      var b;
      ok, b := Read(n);
      if ok {
        var i := n;
        while i > 0
          invariant 0 <= i <= n && dest == FromLittleEndian(b[i..])
        {
          i := i - 1;
          assert b[i..][1..] == b[i + 1..];
          dest := b[i] + 256 * dest;
        }
        assert b[0..] == b;
      }
    }

    /** pb_skip_varint */
    method SkipVarintBytes() returns (ok: bool)
      requires Valid()
      modifies this
      ensures Valid() && End() == old(End())
      ensures Outcome(SkipVarint(old(Rest())), ok, (), Rest())
    {
      while true
        invariant Valid() && End() == old(End())
        invariant SkipVarint(old(Rest())) == SkipVarint(Rest())
        decreases bytesLeft
      {
        var got, b := ReadByte();
        if !got {
          return false;
        }
        if b < 128 {
          return true;
        }
      }
    }

    /** pb_skip_string, and the reading of a string whose length comes first. */
    method ReadString() returns (ok: bool, buf: bytes)
      requires Valid()
      modifies this
      ensures Valid() && End() == old(End())
      ensures Outcome(Delimited(old(Rest())), ok, buf, Rest())
    {
      hide Dec32;
      buf := [];
      var size, eof;
      ok, size, eof := DecodeVarint32();
      if ok {
        ok, buf := Read(size);
      }
    }

    /** pb_skip_field */
    method Skip(wireType: nat) returns (ok: bool)
      requires Valid()
      modifies this
      ensures Valid() && End() == old(End())
      ensures Outcome(SkipField(wireType, old(Rest())), ok, (), Rest())
    {
      hide Delimited, SkipVarint;
      var skipped;
      if wireType == WT_VARINT { ok := SkipVarintBytes(); }
      else if wireType == WT_64BIT { ok, skipped := Read(8); }
      else if wireType == WT_STRING { ok, skipped := ReadString(); }
      else if wireType == WT_32BIT { ok, skipped := Read(4); }
      else { ok := false; }
    }

    /** pb_decode_tag */
    method DecodeTag() returns (ok: bool, wireType: nat, tag: nat, eof: bool)
      requires Valid()
      modifies this
      ensures Valid() && End() == old(End())
      ensures match ReadTag(old(Rest()))
              case Tag(t, w, rest) => ok && t == tag && w == wireType && Rest() == rest
              case TagEnd(rest) => !ok && eof && Rest() == rest
              case TagFail => !ok && !eof
    {
      hide Dec32;
      wireType, tag := 0, 0;
      var temp;
      ok, temp, eof := DecodeVarint32();
      if !ok {
        return;
      }
      if temp == 0 {
        return false, wireType, tag, true;
      }
      tag := temp / 8;
      wireType := temp % 8;
    }

    /**
      pb_make_string_substream. Until the substream is closed, this stream still points at the
      start of the substream, with the substream's bytes no longer counted as its own.
     */
    method MakeSubstream() returns (ok: bool, sub: IStream)
      requires Valid()
      modifies this
      ensures Valid() && fresh(sub) && sub.Valid()
      ensures ok <==> Delimited(old(Rest())).Got?
      ensures !ok ==> End() == old(End())
      ensures ok ==> sub.state == state && sub.Rest() == Delimited(old(Rest())).value && SplitFrom(sub) && sub.End() + bytesLeft == old(End())
      ensures ok ==> source[sub.End()..sub.End() + bytesLeft] == Delimited(old(Rest())).rest
    {
      hide Dec32;
      var size, eof;
      ok, size, eof := DecodeVarint32();
      sub := new IStream(source, state, 0);
      if !ok {
        return;
      }
      if bytesLeft < size {
        return false, sub;
      }
      ghost var s := Rest();
      sub := new IStream(source, state, size);
      bytesLeft := bytesLeft - size;
      assert sub.Rest() == s[..size];
      assert source[sub.End()..sub.End() + bytesLeft] == s[size..];
    }

    /** The substream lies in the same buffer and the rest of this stream follows it. */
    ghost predicate SplitFrom(sub: IStream)
      reads this, sub
    {
      sub.source == source && sub.End() + bytesLeft <= |source|
    }

    /** pb_close_string_substream: however much of the substream was read, this stream is after it. */
    method CloseSubstream(sub: IStream)
      requires this != sub && sub.Valid() && SplitFrom(sub)
      modifies this, sub
      ensures Valid() && state == old(sub.End()) && bytesLeft == old(bytesLeft)
      ensures Rest() == old(source[sub.End()..sub.End() + bytesLeft])
    {
      if sub.bytesLeft > 0 {
        var _, _ := sub.Read(sub.bytesLeft);
      }
      state := sub.state;
    }
  }
}
