/**
  The readers of pb_decode.c that do not depend on a message description: raw bytes, tags,
  length-delimited substreams, and skipping. Every one of them is local: what it makes of a
  stream depends only on the bytes it consumes.
 */
module NanopbReaders {
  import opened Words
  import opened NanopbWire

  const WT_VARINT := 0
  const WT_64BIT := 1
  const WT_STRING := 2
  const WT_32BIT := 5

  /** pb_read */
  function Take(s: bytes, n: nat): (r: Read<bytes>)
    ensures r.Got? ==> r.value + r.rest == s && |r.value| == n
  {
    if |s| < n then Fail else Got(s[..n], s[n..])
  }

  /** pb_decode_fixed32 and pb_decode_fixed64 */
  function ReadFixed(s: bytes, n: nat): (r: Read<nat>)
    ensures r.Got? ==> |r.rest| == |s| - n
  {
    var (b, rest) :- Take(s, n);
    Got(FromLittleEndian(b), rest)
  }

  /** pb_skip_varint: any number of continuation bytes. */
  function SkipVarint(s: bytes): (r: Read<()>)
    ensures r.Got? ==> |r.rest| < |s|
  {
    if s == [] then Fail
    else if s[0] >= 128 then SkipVarint(s[1..])
    else Got((), s[1..])
  }

  /** pb_make_string_substream, and pb_skip_string: a 32-bit length and that many bytes. */
  function Delimited(s: bytes): (r: Read<bytes>)
    ensures r.Got? ==> |r.value| + |r.rest| < |s|
  {
    var (size, rest) :- Dec32(s);
    Take(rest, size)
  }

  /** pb_skip_field */
  function SkipField(wt: nat, s: bytes): (r: Read<()>)
    ensures r.Got? ==> |r.rest| < |s|
  {
    if wt == WT_VARINT then SkipVarint(s)
    else if wt == WT_64BIT then var (_, rest) :- Take(s, 8); Got((), rest)
    else if wt == WT_STRING then var (_, rest) :- Delimited(s); Got((), rest)
    else if wt == WT_32BIT then var (_, rest) :- Take(s, 4); Got((), rest)
    else Fail
  }

  /** The outcome of pb_decode_tag; `TagEnd` is a failure with the eof flag set. */
  datatype TagRead = Tag(tag: nat, wt: nat, rest: bytes) | TagEnd(rest: bytes) | TagFail

  /** pb_decode_tag: a zero tag word ends the message. */
  function ReadTag(s: bytes): (r: TagRead)
    ensures r.Tag? ==> |r.rest| < |s|
    ensures r.TagEnd? && s != [] ==> |r.rest| < |s|
  {
    if s == [] then TagEnd([])
    else match Dec32(s)
      case Fail => TagFail
      case Got(word, rest) => if word == 0 then TagEnd(rest) else Tag(word / 8, word % 8, rest)
  }

  /** pb_encode_tag */
  function EncTag(wt: nat, tag: nat): bytes { EncVarint(8 * tag + wt) }

  lemma {:induction false} ReadTagInverts(wt: nat, tag: nat, t: bytes)
    requires wt < 8 && 0 < tag < 0x2000_0000
    ensures ReadTag(EncTag(wt, tag) + t) == Tag(tag, wt, t)
  {
    hide Dec32, EncVarint;
    Dec32Inverts(8 * tag + wt, t);
  }

  // ---------------------------------------------------------------- locality

  lemma {:induction false} Dec64Local(x: bytes, y: bytes, bitpos: nat, acc: nat)
    requires Dec64From(x, bitpos, acc).Got?
    ensures Dec64From(x + y, bitpos, acc) == Got(Dec64From(x, bitpos, acc).value, Dec64From(x, bitpos, acc).rest + y)
  {
    hide BitOr, Shl;
    assert (x + y)[1..] == x[1..] + y;
    if x[0] >= 128 { Dec64Local(x[1..], y, bitpos + 7, BitOr(acc, Shl(x[0] % 128, bitpos) % TWO64)); }
  }

  lemma {:induction false} Dec32FromLocal(x: bytes, y: bytes, bitpos: nat, acc: nat)
    requires bitpos < 256 && Dec32From(x, bitpos, acc).Got?
    ensures Dec32From(x + y, bitpos, acc) == Got(Dec32From(x, bitpos, acc).value, Dec32From(x, bitpos, acc).rest + y)
  {
    hide Reg32, HighByteOk;
    assert (x + y)[1..] == x[1..] + y;
    if x[0] >= 128 { Dec32FromLocal(x[1..], y, (bitpos + 7) % 256, Reg32(x[0], bitpos, acc)); }
  }

  lemma {:induction false} Dec32Local(x: bytes, y: bytes)
    requires Dec32(x).Got?
    ensures Dec32(x + y) == Got(Dec32(x).value, Dec32(x).rest + y)
  {
    assert (x + y)[1..] == x[1..] + y;
    if x[0] >= 128 { Dec32FromLocal(x[1..], y, 7, x[0] % 128); }
  }

  lemma {:induction false} TakeLocal(x: bytes, y: bytes, n: nat)
    requires n <= |x|
    ensures Take(x + y, n) == Got(x[..n], x[n..] + y)
  {
    assert (x + y)[..n] == x[..n] && (x + y)[n..] == x[n..] + y;
  }

  lemma {:induction false} DelimitedLocal(x: bytes, y: bytes)
    requires Delimited(x).Got?
    ensures Delimited(x + y) == Got(Delimited(x).value, Delimited(x).rest + y)
  {
    hide Dec32;
    Dec32Local(x, y);
    TakeLocal(Dec32(x).rest, y, Dec32(x).value);
  }

  lemma {:induction false} SkipVarintLocal(x: bytes, y: bytes)
    requires SkipVarint(x).Got?
    ensures SkipVarint(x + y) == Got((), SkipVarint(x).rest + y)
  {
    assert (x + y)[1..] == x[1..] + y;
    if x[0] >= 128 { SkipVarintLocal(x[1..], y); }
  }

  lemma {:induction false} SkipFieldLocal(wt: nat, x: bytes, y: bytes)
    requires SkipField(wt, x).Got?
    ensures SkipField(wt, x + y) == Got((), SkipField(wt, x).rest + y)
  {
    hide SkipVarint, Delimited;
    if wt == WT_VARINT { SkipVarintLocal(x, y); }
    else if wt == WT_64BIT { TakeLocal(x, y, 8); }
    else if wt == WT_STRING { DelimitedLocal(x, y); }
    else { TakeLocal(x, y, 4); }
  }

  lemma {:induction false} ReadTagLocal(x: bytes, y: bytes)
    requires x != [] && !ReadTag(x).TagFail?
    ensures ReadTag(x + y) == match ReadTag(x)
                              case Tag(tag, wt, rest) => Tag(tag, wt, rest + y)
                              case TagEnd(rest) => TagEnd(rest + y)
                              case TagFail => TagFail
  {
    hide Dec32;
    Dec32Local(x, y);
  }

  lemma {:induction false} Dec32OfLength(n: nat, t: bytes)
    requires n < TWO32
    ensures Dec32(EncVarint(n) + t) == Got(n, t)
  {
    hide Dec32, EncVarint;
    Dec32Inverts(n, t);
    SmallMod(n, TWO32);
  }

  /** Reading back a length-delimited string. */
  lemma {:induction false} DelimitedInverts(b: bytes, t: bytes)
    requires |b| < TWO32
    ensures Delimited(EncVarint(|b|) + b + t) == Got(b, t)
  {
    hide Dec32, EncVarint;
    var e := EncVarint(|b|);
    assert e + b + t == e + (b + t);
    Dec32OfLength(|b|, b + t);
    assert Take(b + t, |b|) == Got(b, t) by { TakeLocal(b, t, |b|); assert b[..|b|] == b && b[|b|..] + t == t; }
  }
}
