/**
  The byte level of the Protocol Buffers codec: little-endian base-128 varints,
  zig-zag, fixed-width integers, and the readers that the decoder is built from.

  A reader is a function from the bytes left in a stream to the value read and
  the bytes left after it, so that every statement about a stream is a statement
  about the sequence of bytes that is still to be read.
 */
module NanopbWire {
  import opened Words

  /** The outcome of reading from a stream: the value and what is left, or a failure. */
  datatype Read<+T> = Got(value: T, rest: bytes) | Fail {
    predicate IsFailure() { Fail? }
    function PropagateFailure<U>(): Read<U> requires Fail? { Fail }
    function Extract(): (T, bytes) requires Got? { (value, rest) }
  }

  // ---------------------------------------------------------------- base-128 varints

  /** The bytes pb_encode_varint writes for an unsigned value. */
  function EncVarint(v: nat): (e: bytes)
    ensures |e| >= 1
  {
    if v < 128 then [v] else [128 + v % 128] + EncVarint(v / 128)
  }

  lemma {:induction false} VarintLength(v: nat, k: nat)
    requires 1 <= k && v < Shl(1, 7 * k)
    ensures |EncVarint(v)| <= k
  {
    ShlAt(1);
    if v >= 128 && k > 1 {
      ShlGroup(1, 7 * (k - 1));
      assert 7 * k == 7 * (k - 1) + 7;
      VarintLength(v / 128, k - 1);
    }
  }

  /** Every 64-bit value takes at most ten bytes: the size of the encoder's buffer. */
  lemma {:induction false} VarintAtMostTen(v: nat)
    requires v < TWO64
    ensures 1 <= |EncVarint(v)| <= 10
  {
    ShlLonger(64, 70); ShlAt(1);
    VarintLength(v, 10);
  }

  /** Every 32-bit value takes at most five. */
  lemma {:induction false} VarintAtMostFive(v: nat)
    requires v < TWO32
    ensures 1 <= |EncVarint(v)| <= 5
  {
    ShlAt(1);
    VarintLength(v, 5);
  }

  /** pb_decode_varint from the point where `bitpos` bits are already in `acc`. */
  function Dec64From(s: bytes, bitpos: nat, acc: nat): (r: Read<nat>)
    ensures r.Got? ==> |r.rest| < |s|
  {
    if bitpos >= 64 || s == [] then Fail
    else
      var acc' := BitOr(acc, Shl(s[0] % 128, bitpos) % TWO64);
      if s[0] >= 128 then Dec64From(s[1..], bitpos + 7, acc') else Got(acc', s[1..])
  }

  function Dec64(s: bytes): (r: Read<nat>)
    ensures r.Got? ==> |r.rest| < |s|
  {
    Dec64From(s, 0, 0)
  }

  /** What the 32-bit decoder demands of a byte above bit 31: padding, or sign extension. */
  predicate HighByteOk(b: byte, bitpos: nat, acc: nat)
  {
    b % 128 == 0 || (acc >= TWO31 && b == (if bitpos < 63 then 0xFF else 0x01))
  }

  /** The register of the 32-bit decoder after a byte: bytes above bit 31 are only checked. */
  function Reg32(b: byte, bitpos: nat, acc: nat): nat
  {
    if bitpos >= 32 then acc else BitOr(acc, Shl(b % 128, bitpos) % TWO32)
  }

  /**
    pb_decode_varint32_eof after the first byte. The bit position is an 8-bit counter in the
    source (uint_fast8_t), so it wraps; only the end of the stream bounds the loop.
   */
  function Dec32From(s: bytes, bitpos: nat, acc: nat): (r: Read<nat>)
    requires bitpos < 256
    ensures r.Got? ==> |r.rest| < |s|
  {
    if s == [] || (bitpos >= 32 && !HighByteOk(s[0], bitpos, acc)) then Fail
    else
      var acc' := Reg32(s[0], bitpos, acc);
      var next := (bitpos + 7) % 256;
      if s[0] >= 128 then Dec32From(s[1..], next, acc')
      else if next == 35 && s[0] % 128 >= 16 then Fail
      else Got(acc', s[1..])
  }

  function Dec32(s: bytes): (r: Read<nat>)
    ensures r.Got? ==> |r.rest| < |s|
  {
    if s == [] then Fail
    else if s[0] < 128 then Got(s[0], s[1..])
    else Dec32From(s[1..], 7, s[0] % 128)
  }

  // ---------------------------------------------------------------- both decoders, step by step

  /** A bit position that the decoders reach before the 8-bit counter wraps. */
  predicate Group(bitpos: nat) { bitpos % 7 == 0 && bitpos < 64 }

  /** The 64-bit decoder's register after a byte: `|` is a sum, truncated at the top. */
  lemma {:induction false} Step64(g: nat, bitpos: nat, acc: nat)
    requires g < 128 && Group(bitpos) && acc < Shl(1, bitpos)
    ensures BitOr(acc, Shl(g, bitpos) % TWO64) == acc + Shl(g, bitpos) % TWO64 < Shl(1, bitpos + 7)
    ensures bitpos < 63 ==> Shl(g, bitpos) % TWO64 == Shl(g, bitpos)
  {
    hide Shl, BitOr;
    GroupBelow(g, bitpos);
    if bitpos < 63 {
      assert Shl(1, bitpos + 7) <= TWO63 by { ShlLonger(bitpos + 7, 63); ShlAt(1); }
      SmallMod(Shl(g, bitpos), TWO64);
      BitOrDisjoint(acc, g, bitpos);
    } else {
      TopBit(g);
      BitOrDisjoint(acc, g % 2, 63);
    }
  }

  lemma {:induction false} TopBit(g: nat)
    ensures Shl(g, 63) % TWO64 == Shl(g % 2, 63) <= Shl(g, 63)
  {
    hide Shl;
    ShlAt(g); ShlAt(g % 2);
    var h := g / 2;
    assert TWO63 * g == TWO64 * h + TWO63 * (g % 2);
    assert (TWO64 * h + TWO63 * (g % 2)) % TWO64 == TWO63 * (g % 2);
  }

  lemma {:induction false} TopNibble(g: nat)
    ensures Shl(g, 28) % TWO32 == Shl(g % 16, 28)
  {
    hide Shl;
    ShlAt(g); ShlAt(g % 16);
    var h := g / 16;
    assert 0x1000_0000 * g == TWO32 * h + 0x1000_0000 * (g % 16);
    assert (TWO32 * h + 0x1000_0000 * (g % 16)) % TWO32 == 0x1000_0000 * (g % 16);
  }

  lemma {:induction false} AddMultiple(k: nat, x: nat)
    ensures (TWO32 * k + x) % TWO32 == x % TWO32
  {}

  lemma {:induction false} LowWordAdd(a: nat, b: nat)
    ensures (a + b) % TWO32 == (a % TWO32 + b % TWO32) % TWO32
    ensures b % TWO64 % TWO32 == b % TWO32
  {
    var p, q, r := a / TWO32, b / TWO32, b / TWO64;
    assert a + b == TWO32 * (p + q) + (a % TWO32 + b % TWO32);
    AddMultiple(p + q, a % TWO32 + b % TWO32);
    assert b == TWO32 * (TWO32 * r) + b % TWO64;
    AddMultiple(TWO32 * r, b % TWO64);
  }

  lemma {:induction false} LowWordClear(g: nat, bitpos: nat)
    requires bitpos >= 35
    ensures Shl(g, bitpos) % TWO32 == 0
  {
    hide Shl;
    if bitpos == 35 {
      ShlAt(g);
      AddMultiple(8 * g, 0);
    } else {
      LowWordClear(g, bitpos - 1);
      ShlNext(g, bitpos - 1);
      LowWordAdd(Shl(g, bitpos - 1), Shl(g, bitpos - 1));
    }
  }

  /** The 32-bit decoder's register is the other one modulo 2^32. */
  lemma {:induction false} Step32(b: byte, bitpos: nat, a32: nat, a64: nat)
    requires Group(bitpos) && a64 < Shl(1, bitpos) && a32 == a64 % TWO32
    ensures Reg32(b, bitpos, a32) == (a64 + Shl(b % 128, bitpos) % TWO64) % TWO32
  {
    hide Shl, BitOr;
    var g := b % 128;
    LowWordAdd(a64, Shl(g, bitpos) % TWO64);
    LowWordAdd(a64, Shl(g, bitpos));
    if bitpos >= 35 {
      LowWordClear(g, bitpos);
      assert Shl(g, bitpos) % TWO64 % TWO32 == 0;
    } else {
      Step32Low(g, bitpos, a64);
      assert a32 + Shl(g, bitpos) % TWO32 == a64 % TWO32 + Shl(g, bitpos) % TWO64 % TWO32;
    }
  }

  lemma {:induction false} Step32Low(g: nat, bitpos: nat, a64: nat)
    requires g < 128 && bitpos % 7 == 0 && bitpos < 35 && a64 < Shl(1, bitpos)
    ensures a64 % TWO32 == a64
    ensures BitOr(a64, Shl(g, bitpos) % TWO32) == a64 + Shl(g, bitpos) % TWO32 == (a64 + Shl(g, bitpos) % TWO32) % TWO32
  {
    hide Shl, BitOr;
    assert Shl(1, bitpos) <= 0x1000_0000 by { ShlLonger(bitpos, 28); ShlAt(1); }
    SmallMod(a64, TWO32);
    LowStep(g, bitpos, a64);
    SmallMod(a64 + Shl(g, bitpos) % TWO32, TWO32);
  }

  lemma {:induction false} LowStep(g: nat, bitpos: nat, acc: nat)
    requires g < 128 && bitpos % 7 == 0 && bitpos <= 28 && acc < Shl(1, bitpos)
    ensures BitOr(acc, Shl(g, bitpos) % TWO32) == acc + Shl(g, bitpos) % TWO32 < TWO32
  {
    hide Shl, BitOr;
    if bitpos == 28 {
      TopNibble(g); ShlAt(g % 16); ShlAt(1);
      BitOrDisjoint(acc, g % 16, 28);
    } else {
      GroupBelow(g, bitpos);
      assert Shl(1, bitpos + 7) <= 0x1000_0000 by { ShlLonger(bitpos + 7, 28); ShlAt(1); }
      SmallMod(Shl(g, bitpos), TWO32);
      BitOrDisjoint(acc, g, bitpos);
    }
  }

  /** A value whose lowest group is already in place. */
  lemma {:induction false} NextGroup(v: nat, bitpos: nat)
    ensures Shl(v, bitpos) == Shl(v / 128, bitpos + 7) + Shl(v % 128, bitpos)
  {
    assert v == 128 * (v / 128) + v % 128;
    ShlAdd(128 * (v / 128), v % 128, bitpos);
    ShlGroup(v / 128, bitpos);
  }

  /** A shifted value that fits in 64 bits has not reached the end of the register. */
  lemma {:induction false} InRegister(v: nat, bitpos: nat)
    requires Shl(v, bitpos) < TWO64 && bitpos % 7 == 0 && v > 0
    ensures Group(bitpos)
  {
    hide Shl;
    ShlMono(1, v, bitpos);
    if bitpos >= 64 { ShlLonger(70, bitpos); ShlGroup(1, 63); ShlAt(1); }
  }

  /** Decoding what was encoded yields the value and leaves the rest of the stream untouched. */
  lemma {:induction false} Dec64InvertsFrom(v: nat, t: bytes, bitpos: nat, acc: nat)
    requires Shl(v, bitpos) < TWO64 && acc < Shl(1, bitpos) && bitpos % 7 == 0 && (bitpos == 0 || v > 0)
    ensures Dec64From(EncVarint(v) + t, bitpos, acc) == Got(acc + Shl(v, bitpos), t)
    decreases v
  {
    hide Shl, BitOr;
    if v > 0 { InRegister(v, bitpos); }
    Step64(v % 128, bitpos, acc);
    NextGroup(v, bitpos);
    var e := EncVarint(v) + t;
    if v < 128 {
      assert e[1..] == t;
    } else {
      assert e[1..] == EncVarint(v / 128) + t;
      InRegister(v / 128, bitpos + 7);
      Dec64InvertsFrom(v / 128, t, bitpos + 7, acc + Shl(v % 128, bitpos));
    }
  }

  lemma {:induction false} Dec64Inverts(v: nat, t: bytes)
    requires v < TWO64
    ensures Dec64(EncVarint(v) + t) == Got(v, t)
  {
    Dec64InvertsFrom(v, t, 0, 0);
  }

  /** Where both decoders accept, they stop at the same byte and agree modulo 2^32. */
  lemma {:induction false} DecodersAgreeFrom(s: bytes, bitpos: nat, a32: nat, a64: nat)
    requires bitpos % 7 == 0 && bitpos < 256 && a64 < Shl(1, bitpos) && a32 == a64 % TWO32
    requires Dec32From(s, bitpos, a32).Got? && Dec64From(s, bitpos, a64).Got?
    ensures Dec32From(s, bitpos, a32).rest == Dec64From(s, bitpos, a64).rest
    ensures Dec32From(s, bitpos, a32).value == Dec64From(s, bitpos, a64).value % TWO32
    decreases |s|
  {
    hide Shl, BitOr;
    Step64(s[0] % 128, bitpos, a64);
    Step32(s[0], bitpos, a32, a64);
    if s[0] >= 128 {
      DecodersAgreeFrom(s[1..], bitpos + 7, Reg32(s[0], bitpos, a32),
                        BitOr(a64, Shl(s[0] % 128, bitpos) % TWO64));
    }
  }

  lemma {:induction false} DecodersAgree(s: bytes)
    requires Dec32(s).Got? && Dec64(s).Got?
    ensures Dec32(s).rest == Dec64(s).rest
    ensures Dec32(s).value == Dec64(s).value % TWO32
  {
    hide Shl, BitOr;
    ShlZero(s[0] % 128); ShlAt(1); BitOrZero(s[0] % 128);
    if s[0] >= 128 {
      assert Dec64(s) == Dec64From(s[1..], 7, s[0] % 128);
      DecodersAgreeFrom(s[1..], 7, s[0] % 128, s[0] % 128);
    }
  }

  // ---------------------------------------------------------------- what the 32-bit decoder accepts

  /** A 64-bit value that is a 32-bit one, or the sign extension of a negative 32-bit one. */
  predicate ThirtyTwoBits(v: nat) { v < TWO32 || TWO64 - TWO31 <= v < TWO64 }

  lemma {:induction false} Dec32AcceptsFrom(v: nat, t: bytes, bitpos: nat, a32: nat, a64: nat)
    requires Group(bitpos) && 7 <= bitpos && v > 0 && a64 < Shl(1, bitpos) && a32 == a64 % TWO32
    requires ThirtyTwoBits(a64 + Shl(v, bitpos))
    ensures Dec32From(EncVarint(v) + t, bitpos, a32).Got?
    decreases v
  {
    hide Shl, BitOr, HighByteOk, Reg32, ThirtyTwoBits;
    var e := EncVarint(v) + t;
    HighGroups(v, bitpos, a32, a64);
    if v >= 128 {
      assert e[1..] == EncVarint(v / 128) + t;
      NextStep(v, bitpos, a32, a64);
      Dec32AcceptsFrom(v / 128, t, bitpos + 7, Reg32(128 + v % 128, bitpos, a32), a64 + Shl(v % 128, bitpos));
    }
  }

  /** What the recursion above hands on to the next byte. */
  lemma {:induction false} NextStep(v: nat, bitpos: nat, a32: nat, a64: nat)
    requires Group(bitpos) && v >= 128 && a64 < Shl(1, bitpos) && a32 == a64 % TWO32
    requires ThirtyTwoBits(a64 + Shl(v, bitpos))
    ensures Group(bitpos + 7)
    ensures a64 + Shl(v % 128, bitpos) < Shl(1, bitpos + 7)
    ensures Reg32(128 + v % 128, bitpos, a32) == (a64 + Shl(v % 128, bitpos)) % TWO32
    ensures a64 + Shl(v % 128, bitpos) + Shl(v / 128, bitpos + 7) == a64 + Shl(v, bitpos)
  {
    hide Shl, BitOr, Reg32;
    NextGroup(v, bitpos);
    InRegister(v / 128, bitpos + 7);
    Step64(v % 128, bitpos, a64);
    Step32(128 + v % 128, bitpos, a32, a64);
  }

  /** Above bit 31, a 32-bit value has no groups left and a negative one has only ones. */
  lemma {:induction false} HighGroups(v: nat, bitpos: nat, a32: nat, a64: nat)
    requires Group(bitpos) && 7 <= bitpos && v > 0 && a64 < Shl(1, bitpos) && a32 == a64 % TWO32
    requires ThirtyTwoBits(a64 + Shl(v, bitpos))
    ensures bitpos >= 32 ==> HighByteOk(if v < 128 then v else 128 + v % 128, bitpos, a32)
    ensures bitpos == 28 && v < 128 ==> v < 16
  {
    hide Shl;
    ShlAt(1); ShlAt(v);
    if bitpos >= 35 {
      var k := TWO64 - (a64 + Shl(v, bitpos));
      match bitpos {
        case 35 => OnesLeft(v, a64, 0x8_0000_0000, 0x1FFF_FFFF, k);
        case 42 => OnesLeft(v, a64, 0x400_0000_0000, 0x3F_FFFF, k);
        case 49 => OnesLeft(v, a64, 0x2_0000_0000_0000, 0x7FFF, k);
        case 56 => OnesLeft(v, a64, 0x100_0000_0000_0000, 0xFF, k);
        case 63 => OnesLeft(v, a64, TWO63, 1, k);
      }
    }
  }

  /** The groups of 2^64 - k that lie wholly above bit 31 are ones, and the register below them is -k. */
  lemma {:induction false} OnesLeft(v: nat, a64: nat, p: nat, ones: nat, k: int)
    requires p in {0x8_0000_0000, 0x400_0000_0000, 0x2_0000_0000_0000, 0x100_0000_0000_0000, TWO63}
    requires (ones + 1) * p == TWO64 && v > 0
    requires a64 < p && a64 + p * v == TWO64 - k && (1 <= k <= TWO31 || TWO64 - k < TWO32)
    ensures 1 <= k <= TWO31 && v == ones && a64 % TWO32 == TWO32 - k
  {
    assert p >= TWO32 && p % TWO32 == 0;
    MulLe(1, v, p);
    assert 1 <= k <= TWO31;
    var d := v - ones;
    assert d * p == p - k - a64;
    NoMultiple(d, p, p - k - a64);
    assert a64 == p - k;
    var q := p / TWO32;
    assert a64 == TWO32 * (q - 1) + (TWO32 - k);
  }

  lemma {:induction false} MulLe(a: nat, b: nat, p: nat)
    requires a <= b
    ensures a * p <= b * p
  {}

  lemma {:induction false} NoMultiple(d: int, m: nat, x: int)
    requires d * m == x && 0 - m < x < m
    ensures d == 0
  {}

  /** The 32-bit decoder inverts the encoder on u32, and on the sign extension of a negative i32. */
  lemma {:induction false} Dec32Inverts(v: nat, t: bytes)
    requires ThirtyTwoBits(v)
    ensures Dec32(EncVarint(v) + t) == Got(v % TWO32, t)
  {
    hide Shl, BitOr;
    var e := EncVarint(v) + t;
    Dec64Inverts(v, t);
    if v >= 128 {
      assert e[1..] == EncVarint(v / 128) + t;
      ShlAt(1); ShlAt(v / 128);
      assert v % 128 + Shl(v / 128, 7) == v;
      Dec32AcceptsFrom(v / 128, t, 7, v % 128, v % 128);
    }
    DecodersAgree(e);
  }

  /** What is left of a length of 2^32 or more, and less than 2^63, at a bit position of the 32-bit decoder. */
  predicate TooMuch(v: nat, bitpos: nat)
  {
    match bitpos
    case 7 => 0x200_0000 <= v < 0x100_0000_0000_0000
    case 14 => 0x4_0000 <= v < 0x2_0000_0000_0000
    case 21 => 0x800 <= v < 0x400_0000_0000
    case 28 => 0x10 <= v < 0x8_0000_0000
    case 35 => 1 <= v < 0x1000_0000
    case 42 => 1 <= v < 0x20_0000
    case 49 => 1 <= v < 0x4000
    case 56 => 1 <= v < 0x80
    case _ => false
  }

  lemma {:induction false} Dec32FromRefuses(v: nat, t: bytes, bitpos: nat, acc: nat)
    requires TooMuch(v, bitpos)
    ensures Dec32From(EncVarint(v) + t, bitpos, acc).Fail?
    decreases v
  {
    hide Reg32;
    var e := EncVarint(v);
    if v >= 128 {
      assert TooMuch(v / 128, bitpos + 7);
      assert (e + t)[1..] == EncVarint(v / 128) + t;
      Dec32FromRefuses(v / 128, t, bitpos + 7, Reg32(e[0], bitpos, acc));
    } else {
      assert (e + t)[0] == v && bitpos >= 28;
    }
  }

  /** The 32-bit decoder accepts no length of 2^32 or more. */
  lemma {:induction false} Dec32Refuses(v: nat, t: bytes)
    requires TWO32 <= v < TWO63
    ensures Dec32(EncVarint(v) + t).Fail?
  {
    var e := EncVarint(v);
    assert (e + t)[1..] == EncVarint(v / 128) + t;
    Dec32FromRefuses(v / 128, t, 7, e[0] % 128);
  }

  /** One more byte of a longer varint, below bit 32. */
  lemma {:induction false} OneByteOn(v: nat, t: bytes, bitpos: nat, a64: nat)
    requires v >= 128 && bitpos in {7, 14, 21, 28} && a64 < Shl(1, bitpos)
    ensures var a := a64 + Shl(v % 128, bitpos);
            && a < Shl(1, bitpos + 7) && a + Shl(v / 128, bitpos + 7) == a64 + Shl(v, bitpos)
            && Dec32From(EncVarint(v) + t, bitpos, a64 % TWO32) == Dec32From(EncVarint(v / 128) + t, bitpos + 7, a % TWO32)
  {
    hide Shl, BitOr, Reg32;
    Step64(v % 128, bitpos, a64);
    Step32(128 + v % 128, bitpos, a64 % TWO32, a64);
    NextGroup(v, bitpos);
    assert (EncVarint(v) + t)[1..] == EncVarint(v / 128) + t;
  }

  /** The groups above bit 34, each of them all zeros or all ones. */
  predicate ZerosOrOnes(v: nat, bitpos: nat)
    requires bitpos <= 63
    decreases 63 - bitpos
  {
    bitpos > 56 || (v % 128 in {0, 127} && ZerosOrOnes(v / 128, bitpos + 7))
  }

  lemma {:induction false} LongestFrom(v: nat, t: bytes, bitpos: nat, a32: nat)
    requires match bitpos case 35 => 0x1000_0000 <= v < 0x2000_0000 case 42 => 0x20_0000 <= v < 0x40_0000
                          case 49 => 0x4000 <= v < 0x8000 case 56 => 0x80 <= v < 0x100 case 63 => v == 1 case _ => false
    ensures Dec32From(EncVarint(v) + t, bitpos, a32).Got? <==> a32 >= TWO31 && ZerosOrOnes(v, bitpos)
    decreases v
  {
    hide Shl, BitOr;
    var e := EncVarint(v) + t;
    if bitpos < 63 {
      assert e[1..] == EncVarint(v / 128) + t;
      LongestFrom(v / 128, t, bitpos + 7, a32);
    }
  }

  /** On to bit 35. */
  lemma {:induction false} BytesOn(v: nat, t: bytes, bitpos: nat, a64: nat) returns (w: nat, a: nat)
    requires match bitpos case 7 => v >= 0x1000_0000 case 14 => v >= 0x20_0000 case 21 => v >= 0x4000 case 28 => v >= 0x80 case _ => bitpos == 35
    requires a64 < Shl(1, bitpos)
    ensures a < Shl(1, 35) && a + Shl(w, 35) == a64 + Shl(v, bitpos)
    ensures Dec32From(EncVarint(v) + t, bitpos, a64 % TWO32) == Dec32From(EncVarint(w) + t, 35, a % TWO32)
    decreases v
  {
    hide Shl, BitOr, Dec32From, EncVarint;
    if bitpos == 35 {
      w, a := v, a64;
    } else {
      OneByteOn(v, t, bitpos, a64);
      w, a := BytesOn(v / 128, t, bitpos + 7, a64 + Shl(v % 128, bitpos));
    }
  }

  lemma {:induction false} FirstByteOn(v: nat, t: bytes)
    requires v >= 128
    ensures Dec32(EncVarint(v) + t) == Dec32From(EncVarint(v / 128) + t, 7, v % 128)
  {
    hide Dec32From;
    assert (EncVarint(v) + t)[1..] == EncVarint(v / 128) + t;
  }

  lemma {:induction false} SplitAt35(v: nat, w: nat, a: nat)
    requires v == 0x8_0000_0000 * w + a && a < 0x8_0000_0000
    ensures w == v / 0x8_0000_0000 && a % TWO32 == v % TWO32
  {
    AddMultiple(8 * w, a);
  }

  /** The first five bytes of a long varint fill the register. */
  lemma {:induction false} FiveBytesOn(v: nat, t: bytes)
    requires v >= 0x8_0000_0000
    ensures Dec32(EncVarint(v) + t) == Dec32From(EncVarint(v / 0x8_0000_0000) + t, 35, v % TWO32)
  {
    hide Shl, Dec32, Dec32From, EncVarint;
    FirstByteOn(v, t);
    ShlAt(1);
    ShlAt(v / 128);
    var w, a := BytesOn(v / 128, t, 7, v % 128);
    ShlAt(w);
    SplitAt35(v, w, a);
  }

  /**
    A length of 2^63 or more is refused as well, with one exception: with bit 31 set and each group of seven bits from bit
    35 on all zeros or all ones it is taken for a negative number, and only its low 32 bits count.
   */
  lemma {:induction false} Dec32Longest(v: nat, t: bytes)
    requires TWO63 <= v < TWO64
    ensures var w := v / 0x8_0000_0000;
            var negative := && v % 0x1_0000_0000 >= 0x8000_0000 && w % 128 in {0, 127} && w / 128 % 128 in {0, 127}
                            && w / 128 / 128 % 128 in {0, 127} && w / 128 / 128 / 128 % 128 in {0, 127};
            Dec32(EncVarint(v) + t) == if negative then Got(v % 0x1_0000_0000, t) else Fail
  {
    hide Dec32, Dec64, Dec32From, ZerosOrOnes, EncVarint;
    var w := v / 0x8_0000_0000;
    Dec64Inverts(v, t);
    FiveBytesOn(v, t);
    LongestFrom(w, t, 35, v % TWO32);
    FourGroups(w);
    if Dec32(EncVarint(v) + t).Got? { DecodersAgree(EncVarint(v) + t); }
  }

  lemma {:induction false} FourGroups(w: nat)
    ensures ZerosOrOnes(w, 35) <==> w % 128 in {0, 127} && w / 128 % 128 in {0, 127} && w / 128 / 128 % 128 in {0, 127} && w / 128 / 128 / 128 % 128 in {0, 127}
  {
    assert ZerosOrOnes(w / 128, 42) <==> w / 128 % 128 in {0, 127} && ZerosOrOnes(w / 128 / 128, 49);
    assert ZerosOrOnes(w / 128 / 128 / 128, 56) <==> w / 128 / 128 / 128 % 128 in {0, 127} && ZerosOrOnes(w / 128 / 128 / 128 / 128, 63);
  }

  lemma {:induction false} Dec32FromBound(s: bytes, bitpos: nat, acc: nat)
    requires bitpos < 256 && acc < TWO32 && Dec32From(s, bitpos, acc).Got?
    ensures Dec32From(s, bitpos, acc).value < TWO32
    decreases |s|
  {
    assert Shl(1, 32) == TWO32 by { ShlAt(1); assert Shl(1, 30) == 4 * Shl(1, 28); }
    if bitpos < 32 { BitOrBound(acc, Shl(s[0] % 128, bitpos) % TWO32, 32); }
    if s[0] >= 128 { Dec32FromBound(s[1..], (bitpos + 7) % 256, Reg32(s[0], bitpos, acc)); }
  }

  lemma {:induction false} Dec64FromBound(s: bytes, bitpos: nat, acc: nat)
    requires acc < TWO64 && Dec64From(s, bitpos, acc).Got?
    ensures Dec64From(s, bitpos, acc).value < TWO64
    decreases |s|
  {
    hide BitOr, Shl;
    assert Shl(1, 64) == TWO64 by { ShlAt(1); ShlNext(1, 63); }
    BitOrBound(acc, Shl(s[0] % 128, bitpos) % TWO64, 64);
    if s[0] >= 128 { Dec64FromBound(s[1..], bitpos + 7, BitOr(acc, Shl(s[0] % 128, bitpos) % TWO64)); }
  }

  lemma {:induction false} Dec64Bound(s: bytes)
    requires Dec64(s).Got?
    ensures Dec64(s).value < TWO64
  {
    Dec64FromBound(s, 0, 0);
  }

  /** Whatever the bytes, the 32-bit decoder yields a 32-bit value. */
  lemma {:induction false} Dec32Bound(s: bytes)
    requires Dec32(s).Got?
    ensures Dec32(s).value < TWO32
  {
    if s[0] >= 128 { Dec32FromBound(s[1..], 7, s[0] % 128); }
  }

  // ---------------------------------------------------------------- zig-zag and fixed width

  /** pb_encode_svarint: the value as a 64-bit pattern shifted left, complemented when negative. */
  function ZigZag(i: int): nat
    requires -TWO63 <= i < TWO63
  {
    if i < 0 then TWO64 - 1 - 2 * (TWO64 + i) % TWO64 else 2 * i
  }

  /** pb_decode_svarint: the complement of a 64-bit pattern, read as a signed value. */
  function UnZigZag(v: nat): int
    requires v < TWO64
  {
    if v % 2 == 1 then AsSigned(TWO64 - 1 - v / 2, TWO64) else v / 2
  }

  /** A bit pattern of a given modulus, read as two's complement. */
  function AsSigned(v: nat, modulus: nat): int
  {
    if v >= modulus / 2 then v - modulus else v
  }

  lemma {:induction false} ZigZagInverse(i: int)
    requires -TWO63 <= i < TWO63
    ensures ZigZag(i) < TWO64 && UnZigZag(ZigZag(i)) == i
  {
    if i < 0 { assert 2 * (TWO64 + i) == TWO64 + (TWO64 + 2 * i); }
  }

  /** Every 64-bit code is the code of one 64-bit value. */
  lemma {:induction false} ZigZagOnto(v: nat)
    requires v < TWO64
    ensures -TWO63 <= UnZigZag(v) < TWO63 && ZigZag(UnZigZag(v)) == v
  {
    ZigZagOrder(UnZigZag(v));
  }

  /** Small magnitudes get small codes: the reason for the zig-zag encoding. */
  lemma {:induction false} ZigZagOrder(i: int)
    requires -TWO63 <= i < TWO63
    ensures ZigZag(i) == (if i < 0 then 2 * (-i) - 1 else 2 * i)
  {
    if i < 0 { assert 2 * (TWO64 + i) == TWO64 + (TWO64 + 2 * i); }
  }

  /** The n low bytes of a value, least significant first. */
  function LittleEndian(v: nat, n: nat): (e: bytes)
    ensures |e| == n
  {
    if n == 0 then [] else [v % 256] + LittleEndian(v / 256, n - 1)
  }

  function FromLittleEndian(e: bytes): nat
  {
    if e == [] then 0 else e[0] + 256 * FromLittleEndian(e[1..])
  }

  lemma {:induction false} LittleEndianInverse(v: nat, n: nat)
    requires v < Shl(1, 8 * n)
    ensures FromLittleEndian(LittleEndian(v, n)) == v
  {
    if n > 0 {
      assert Shl(1, 8 * n) == 2 * Shl(1, 8 * (n - 1) + 7);
      ShlGroup(1, 8 * (n - 1));
      LittleEndianInverse(v / 256, n - 1);
    }
  }

  lemma {:induction false} FromLittleEndianBound(e: bytes)
    ensures FromLittleEndian(e) < Shl(1, 8 * |e|)
  {
    if e != [] {
      var n := |e| - 1;
      FromLittleEndianBound(e[1..]);
      assert Shl(1, 8 * |e|) == 2 * Shl(1, 8 * n + 7);
      ShlGroup(1, 8 * n);
    }
  }
}
