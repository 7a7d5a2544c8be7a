/**
  Handshake fragments on the wire (section 4.2.2 of RFC 6347): the twelve-byte header and the
  bytes of the fragment, as dtls1_parse_fragment reads them and seal_next_message writes them.
 */
module DtlsFragment {
  import opened Words

  const DTLS1_HM_HEADER_LENGTH := 12
  const U8 := 0x100
  const U16 := 0x1_0000
  const U24 := 0x100_0000

  /** A fragment: bytes [off, off + |body|) of handshake message number `num`. */
  datatype Fragment = Fragment(typ: nat, len: nat, num: nat, off: nat, body: bytes)
  {
    /** The fields fit the header. */
    predicate Wire() { typ < U8 && len < U24 && num < U16 && off < U24 && |body| < U24 }
  }

  function PutU16(v: nat): bytes requires v < U16 { [v / 0x100, v % 0x100] }
  function PutU24(v: nat): bytes requires v < U24 { [v / 0x1_0000, v / 0x100 % 0x100, v % 0x100] }
  function GetU16(b: bytes): nat requires |b| >= 2 { b[0] as nat * 0x100 + b[1] }
  function GetU24(b: bytes): nat requires |b| >= 3 { b[0] as nat * 0x1_0000 + b[1] as nat * 0x100 + b[2] }

  function Header(typ: nat, len: nat, num: nat, off: nat, fragLen: nat): (h: bytes)
    requires typ < U8 && len < U24 && num < U16 && off < U24 && fragLen < U24
    ensures |h| == DTLS1_HM_HEADER_LENGTH
  {
    [typ] + PutU24(len) + PutU16(num) + PutU24(off) + PutU24(fragLen)
  }

  function Serialize(f: Fragment): bytes
    requires f.Wire()
  {
    Header(f.typ, f.len, f.num, f.off, |f.body|) + f.body
  }

  /** dtls1_parse_fragment: the fragment at the front and the bytes after it. */
  function Parse(s: bytes): Option<(Fragment, bytes)>
  {
    if |s| < DTLS1_HM_HEADER_LENGTH then None
    else
      var fragLen := GetU24(s[9..12]);
      if |s| < DTLS1_HM_HEADER_LENGTH + fragLen then None
      else Some((Fragment(s[0], GetU24(s[1..4]), GetU16(s[4..6]), GetU24(s[6..9]), s[12..12 + fragLen]), s[12 + fragLen..]))
  }

  lemma {:induction false} FieldsInverse(v: nat)
    ensures v < U16 ==> GetU16(PutU16(v)) == v
    ensures v < U24 ==> GetU24(PutU24(v)) == v
  {}

  /** A fragment is read back as it was written, whatever follows it in the record. */
  lemma {:induction false} ParseInverts(f: Fragment, rest: bytes)
    requires f.Wire()
    ensures Parse(Serialize(f) + rest) == Some((f, rest))
  {
    hide PutU16, PutU24, GetU16, GetU24;
    var n := |f.body|;
    var s := Serialize(f) + rest;
    HeaderParts(f.typ, f.len, f.num, f.off, n);
    var h := Header(f.typ, f.len, f.num, f.off, n);
    assert s[..12] == h;
    assert s[1..4] == h[1..4] && s[4..6] == h[4..6] && s[6..9] == h[6..9] && s[9..12] == h[9..12];
    FieldsInverse(f.len); FieldsInverse(f.num); FieldsInverse(f.off); FieldsInverse(n);
    assert s[12..12 + n] == f.body && s[12 + n..] == rest;
  }

  lemma {:induction false} HeaderParts(typ: nat, len: nat, num: nat, off: nat, fragLen: nat)
    requires typ < U8 && len < U24 && num < U16 && off < U24 && fragLen < U24
    ensures var h := Header(typ, len, num, off, fragLen);
            h[0] == typ && h[1..4] == PutU24(len) && h[4..6] == PutU16(num) && h[6..9] == PutU24(off) && h[9..12] == PutU24(fragLen)
  {}

  /** What is parsed was written that way: parsing loses nothing. */
  lemma {:induction false} SerializeInverts(s: bytes)
    requires Parse(s).Some?
    ensures Parse(s).value.0.Wire() && Serialize(Parse(s).value.0) + Parse(s).value.1 == s
  {
    var f := Parse(s).value.0;
    Rebuild(s[1..4]); Rebuild(s[6..9]); Rebuild(s[9..12]); Rebuild2(s[4..6]);
    assert s == [s[0]] + s[1..4] + s[4..6] + s[6..9] + s[9..12] + s[12..];
  }

  lemma {:induction false} Rebuild(b: bytes)
    requires |b| == 3
    ensures GetU24(b) < U24 && PutU24(GetU24(b)) == b
  {
    var v, high: nat := GetU24(b), b[0] as nat * 0x100 + b[1];
    assert v == high * 0x100 + b[2];
    assert v / 0x100 == high && v % 0x100 == b[2];
    assert v / 0x1_0000 == high / 0x100 == b[0] && high % 0x100 == b[1];
    assert PutU24(v) == [b[0], b[1], b[2]];
  }

  lemma {:induction false} Rebuild2(b: bytes)
    requires |b| == 2
    ensures GetU16(b) < U16 && PutU16(GetU16(b)) == b
  {}
}
