/**
  Reassembly of one handshake message from fragments that arrive in any order, overlap and
  repeat: hm_fragment and its bitmask of received bytes.
 */
module DtlsReassembly {
  import opened Words
  import opened DtlsFragment

  /** bit_range: a byte with bits `start`, inclusive, to `end`, exclusive, set. */
  function BitRange(start: nat, end: nat): (r: nat)
    requires start <= end <= 8
    ensures r < 256
  {
    ShlLonger(start, end);
    ByteRange(start, end);
    Shl(1, end) - Shl(1, start)
  }

  lemma {:induction false} ByteRange(start: nat, end: nat)
    requires start <= end <= 8
    ensures Shl(1, end) - Shl(1, start) < 256
  {
    ShlLonger(end, 8);
    ShlGroup(1, 0); ShlZero(1); ShlNext(1, 7);
  }

  /** The positions whose bit is set in a bitmask. */
  predicate Marked(mask: bytes, p: nat)
  {
    p < 8 * |mask| && Bit(mask[p / 8], p % 8)
  }

  /** `mask[i] |= bits` */
  method OrByte(mask: array<byte>, i: nat, bits: nat)
    requires i < mask.Length && bits < 256
    modifies mask
    ensures forall p: nat :: Marked(mask[..], p) <==> old(Marked(mask[..], p)) || (p / 8 == i && Bit(bits, p % 8))
  {
    hide Bit, BitOr;
    assert Shl(1, 8) == 256 by { ShlGroup(1, 0); ShlZero(1); ShlNext(1, 7); }
    BitOrBound(mask[i], bits, 8);
    ghost var before := mask[..];
    mask[i] := BitOr(mask[i], bits);
    forall p: nat
      ensures Marked(mask[..], p) <==> Marked(before, p) || (p / 8 == i && Bit(bits, p % 8))
    {
      if p / 8 == i { OrBits(before[i], bits, p % 8); }
    }
    assert mask[..] == before[i := mask[i]];
  }

  /** The marking half of dtls1_hm_fragment_mark: first byte, whole bytes, last byte. */
  method MarkRange(mask: array<byte>, start: nat, end: nat)
    requires start < end <= 8 * mask.Length
    modifies mask
    ensures forall p: nat :: Marked(mask[..], p) <==> old(Marked(mask[..], p)) || start <= p < end
  {
    hide Marked, BitRange;
    if start / 8 == end / 8 {
      OrByte(mask, start / 8, BitRange(start % 8, end % 8));
      forall p: nat ensures (p / 8 == start / 8 && Bit(BitRange(start % 8, end % 8), p % 8)) <==> start <= p < end {
        BitRangeBits(start % 8, end % 8, p % 8);
      }
      return;
    }
    ghost var before := mask[..];
    OrByte(mask, start / 8, BitRange(start % 8, 8));
    forall p: nat ensures (p / 8 == start / 8 && Bit(BitRange(start % 8, 8), p % 8)) <==> start <= p < 8 * (start / 8 + 1) {
      BitRangeBits(start % 8, 8, p % 8);
    }
    var i := start / 8 + 1;
    while i < end / 8
      invariant start / 8 < i <= end / 8
      invariant forall p: nat :: Marked(mask[..], p) <==> Marked(before, p) || start <= p < 8 * i
    {
      SetByte(mask, i);
      i := i + 1;
    }
    if end % 8 != 0 {
      OrByte(mask, end / 8, BitRange(0, end % 8));
      forall p: nat ensures (p / 8 == end / 8 && Bit(BitRange(0, end % 8), p % 8)) <==> 8 * (end / 8) <= p < end {
        BitRangeBits(0, end % 8, p % 8);
      }
    }
  }

  lemma {:induction false} BitRangeBits(start: nat, end: nat, j: nat)
    requires start <= end <= 8
    ensures Bit(BitRange(start, end), j) <==> start <= j < end
  {
    RangeBits(start, end, j);
  }

  /** `mask[i] = 0xff` */
  method SetByte(mask: array<byte>, i: nat)
    requires i < mask.Length
    modifies mask
    ensures forall p: nat :: Marked(mask[..], p) <==> old(Marked(mask[..], p)) || 8 * i <= p < 8 * (i + 1)
  {
    ghost var before := mask[..];
    mask[i] := 0xff;
    assert mask[..] == before[i := 0xff];
    forall p: nat ensures Marked(mask[..], p) <==> Marked(before, p) || 8 * i <= p < 8 * (i + 1) {
      FullByte(0xff, p % 8);
    }
  }

  /** 0xff is the byte with all bits set. */
  lemma {:induction false} FullByte(w: byte, j: nat)
    requires j < 8
    ensures w == 0xff ==> Bit(w, j)
  {
    assert Shl(1, 8) == 256 by { ShlGroup(1, 0); ShlZero(1); ShlNext(1, 7); }
    ShlZero(1);
    RangeBits(0, 8, j);
  }

  /** Comparing a byte with its n low bits set decides whether those bits are all set. */
  lemma {:induction false} ByteComplete(w: byte, n: nat)
    requires n <= 8 && forall j :: n <= j < 8 ==> !Bit(w, j)
    ensures w == BitRange(0, n) <==> forall j :: 0 <= j < n ==> Bit(w, j)
  {
    hide Bit;
    assert Shl(1, 8) == 256 by { ShlGroup(1, 0); ShlZero(1); ShlNext(1, 7); }
    ShlZero(1);
    forall j: nat | n <= j ensures !Bit(w, j) { if j >= 8 { SmallBits(w, 8, j); } }
    AllOnes(w, n);
  }

  /** The completeness half of dtls1_hm_fragment_mark. */
  method AllMarked(mask: array<byte>, msgLen: nat) returns (complete: bool)
    requires msgLen > 0 && mask.Length == (msgLen + 7) / 8
    requires forall p: nat :: msgLen <= p ==> !Marked(mask[..], p)
    ensures complete <==> forall p: nat :: p < msgLen ==> Marked(mask[..], p)
  {
    hide Bit, BitRange;
    var i := 0;
    while i < msgLen / 8
      invariant 0 <= i <= msgLen / 8
      invariant forall p: nat :: p < 8 * i ==> Marked(mask[..], p)
    {
      ByteMarks(mask[..], i, 8);
      if mask[i] != 0xff {
        return false;
      }
      i := i + 1;
    }
    if msgLen % 8 != 0 {
      ByteMarks(mask[..], msgLen / 8, msgLen % 8);
      if mask[msgLen / 8] != BitRange(0, msgLen % 8) {
        return false;
      }
    }
    return true;
  }

  lemma {:induction false} ByteMarks(mask: bytes, i: nat, n: nat)
    requires i < |mask| && 0 < n <= 8
    requires forall p: nat :: 8 * i + n <= p < 8 * (i + 1) ==> !Marked(mask, p)
    ensures mask[i] == BitRange(0, n) <==> forall p: nat :: 8 * i <= p < 8 * i + n ==> Marked(mask, p)
    ensures BitRange(0, 8) == 0xff
  {
    hide Bit;
    assert Shl(1, 8) == 256 && Shl(1, 0) == 1 by { ShlGroup(1, 0); ShlZero(1); ShlNext(1, 7); }
    forall j | 0 <= j < 8 ensures Bit(mask[i], j) == Marked(mask, 8 * i + j) {}
    ByteComplete(mask[i], n);
    if forall j :: 0 <= j < n ==> Bit(mask[i], j) {
      forall p: nat | 8 * i <= p < 8 * i + n ensures Marked(mask, p) { assert Bit(mask[i], p - 8 * i); }
    }
    if forall p: nat :: 8 * i <= p < 8 * i + n ==> Marked(mask, p) {
      forall j | 0 <= j < n ensures Bit(mask[i], j) { assert Marked(mask, 8 * i + j); }
    }
  }

  predicate From(start: nat, p: nat) { start <= p }

  /** The body positions of a range. */
  function Range(start: nat, end: nat): (r: set<nat>)
    ensures forall p: nat :: p in r <==> start <= p < end
  {
    set p: nat | p < end && From(start, p)
  }

  /** What a fragment at `off` says about the body. */
  function Piece(off: nat, body: bytes): (m: map<nat, byte>)
    ensures m.Keys == Range(off, off + |body|)
    ensures forall p :: p in m ==> m[p] == body[p - off]
  {
    map p | p in Range(off, off + |body|) :: ByteAt(off, body, p)
  }

  function ByteAt(off: nat, body: bytes, p: nat): byte
    requires off <= p < off + |body|
  {
    body[p - off]
  }

  class HmFragment {
    const typ: nat
    const num: nat
    const msgLen: nat
    const data: array<byte>          // the message, including its header
    var reassembly: array?<byte>     // null once the message is complete
    ghost var received: set<nat>     // the body positions that have arrived

    ghost predicate Valid()
      reads this, data, reassembly
    {
      && typ < U8 && num < U16 && msgLen < U24
      && data.Length == DTLS1_HM_HEADER_LENGTH + msgLen
      && data[..DTLS1_HM_HEADER_LENGTH] == Header(typ, msgLen, num, 0, msgLen)
      && (forall p :: p in received ==> p < msgLen)
      && (reassembly == null <==> Complete())
      && (reassembly != null ==>
            && reassembly != data && reassembly.Length == (msgLen + 7) / 8
            && forall p: nat :: Marked(reassembly[..], p) <==> p in received)
    }

    /** Every byte of the body has arrived. */
    ghost predicate Complete()
      reads this
    {
      forall p: nat :: p < msgLen ==> p in received
    }

    ghost function Repr(): set<object>
      reads this
    {
      if reassembly == null then {this, data} else {this, data, reassembly}
    }

    /** The bytes that have arrived, by position in the body. */
    ghost function Content(): (m: map<nat, byte>)
      reads this, data, reassembly
      requires Valid()
      ensures forall p: nat :: p in m <==> p in received
    {
      map p | p in received :: data[DTLS1_HM_HEADER_LENGTH + p]
    }

    /** dtls1_hm_fragment_new */
    constructor (typ: nat, msgLen: nat, num: nat)
      requires typ < U8 && num < U16 && msgLen < U24
      ensures Valid() && fresh(Repr()) && Content() == map[] && this.typ == typ && this.msgLen == msgLen && this.num == num
    {
      var header := Header(typ, msgLen, num, 0, msgLen);
      var d := new byte[DTLS1_HM_HEADER_LENGTH + msgLen](i => if 0 <= i < |header| then header[i] else 0);
      this.typ, this.msgLen, this.num := typ, msgLen, num;
      data := d;
      received := {};
      var r: array?<byte> := null;
      if msgLen > 0 {
        r := new byte[(msgLen + 7) / 8](_ => 0);
      }
      reassembly := r;
      new;
      assert d[..DTLS1_HM_HEADER_LENGTH] == header;
      if msgLen > 0 {
        forall p: nat ensures !Marked(reassembly[..], p) { ZeroBits(p % 8); }
        assert !Complete() by { assert 0 !in received; }
      }
    }

    /** dtls1_hm_fragment_mark */
    method Mark(start: nat, end: nat)
      requires Valid() && reassembly != null && start <= end <= msgLen
      modifies this, reassembly
      ensures Valid() && Repr() <= old(Repr())
      ensures received == old(received) + Range(start, end)
      ensures data[..] == old(data[..])
    {
      hide Bit, Marked, Header, BitRange;
      received := received + Range(start, end);
      if start == end {
        assert received == old(received);
        return;
      }
      MarkRange(reassembly, start, end);
      assert data[..] == old(data[..]);
      forall p: nat ensures Marked(reassembly[..], p) <==> p in received {
        assert old(Marked(reassembly[..], p)) <==> p in old(received);
      }
      ghost var mask := reassembly[..];
      assert forall p: nat :: Marked(mask, p) <==> p in received;
      var complete := AllMarked(reassembly, msgLen);
      assert mask == reassembly[..];
      assert complete ==> forall p: nat :: p < msgLen ==> Marked(mask, p);
      assert !complete ==> exists p: nat :: p < msgLen && !Marked(mask, p);
      assert complete <==> Complete();
      if complete {
        reassembly := null;
      }
    }

    /** Copying a fragment's bytes into the message and marking them. */
    method Deliver(off: nat, body: bytes)
      requires Valid() && reassembly != null && off + |body| <= msgLen
      modifies this, data, reassembly
      ensures Valid() && Repr() <= old(Repr())
      ensures received == old(received) + Range(off, off + |body|)
      ensures Content() == old(Content()) + Piece(off, body)
    {
      hide Bit, Marked, Header, BitRange;
      CopyInto(data, DTLS1_HM_HEADER_LENGTH + off, body);
      assert data[..DTLS1_HM_HEADER_LENGTH] == old(data[..DTLS1_HM_HEADER_LENGTH]);
      Mark(off, off + |body|);
      assert forall p :: 0 <= p < data.Length ==> data[p] == data[..][p];
    }
  }
}
