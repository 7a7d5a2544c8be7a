/**
  Replay detection (section 4.1.2.6 of RFC 6347): the 64-entry window as a refinement of the set of
  record numbers received, and the records that pass it.
 */
module DtlsReplay {
  import opened Words

  const WINDOW_SIZE := 64
  const DTLS1_RT_HEADER_LENGTH := 13
  const SSL3_RT_MAX_PLAIN_LENGTH := 16384
  const SSL3_RT_MAX_ENCRYPTED_LENGTH := 16384 + 320
  const SSL3_RT_CHANGE_CIPHER_SPEC: byte := 20
  const SSL3_RT_ALERT: byte := 21
  const SSL3_RT_HANDSHAKE: byte := 22
  const SSL3_RT_APPLICATION_DATA: byte := 23
  const SSL3_MT_CCS: byte := 1
  const EPOCHS := 0x1_0000
  const TWO48 := 0x1_0000_0000_0000

  /** Whether a record number has been received or is too old to tell. */
  ghost predicate Stale(seen: set<nat>, n: nat)
  {
    n in seen || exists m :: m in seen && Older(n, m)
  }

  predicate Older(n: nat, m: nat) { n + WINDOW_SIZE <= m }

  /** to_u64_be */
  method ToU64Be(sequence: bytes) returns (ret: nat)
    requires |sequence| == 8
    ensures ret == BigEndian(sequence) < TWO64
  {
    hide Shl, BitOr, Low;
    ret := 0;
    var i := 0;
    while i < 8
      invariant 0 <= i <= 8 && ret == BigEndian(sequence[..i])
    {
      ByteAppended(sequence[..i], sequence[i]);
      assert sequence[..i + 1] == sequence[..i] + [sequence[i]];
      ret := Low(Shl(ret, 8), 64);
      ret := BitOr(ret, sequence[i]);
      i := i + 1;
    }
    assert sequence[..8] == sequence;
    BigEndianBound(sequence);
    assert Values(8) == TWO64;
  }

  /** One turn of the loop of to_u64_be, with no bit lost as long as seven bytes came before. */
  lemma {:induction false} ByteAppended(b: bytes, c: byte)
    requires |b| < 8
    ensures BitOr(Low(Shl(BigEndian(b), 8), 64), c) == BigEndian(b + [c])
  {
    hide BitOr, BigEndian, Values;
    var x := BigEndian(b);
    assert (b + [c])[..|b|] == b;
    assert BigEndian(b + [c]) == 0x100 * x + c by { BigEndianSplit(b, [c]); BigEndianOne(c); }
    BigEndianBound(b); ValuesUpTo(|b|);
    ShlEight(x); ShlEight(1); Shl32();
    LowFits(Shl(x, 8), 64);
    BitOrDisjoint(c, x, 8);
    BitOrCommutes(Shl(x, 8), c);
  }

  lemma {:induction false} BigEndianOne(c: byte)
    ensures BigEndian([c]) == c && Values(1) == 0x100
  {
    assert [c][..0] == [];
  }

  lemma {:induction false} ValuesUpTo(n: nat)
    requires n < 8
    ensures Values(n) <= 0x100_0000_0000_0000
  {
    assert Values(0) == 1 && Values(1) == 0x100 && Values(2) == 0x1_0000 && Values(3) == 0x100_0000;
    assert Values(4) == 0x1_0000_0000 && Values(5) == 0x100_0000_0000 && Values(6) == 0x1_0000_0000_0000;
  }

  lemma {:induction false} ShlEight(x: nat)
    ensures Shl(x, 8) == 0x100 * x
  {
    ShlGroup(x, 0); ShlNext(x, 7); ShlZero(x);
  }

  class Bitmap {
    var mask: nat           // 64 bits
    var maxSeqNum: nat      // 64 bits
    ghost var seen: set<nat>

    /** Bit i stands for the record i before the largest one. */
    ghost predicate Valid()
      reads this
    {
      && mask < Shl(1, WINDOW_SIZE) && maxSeqNum < TWO64
      && (forall n :: n in seen ==> n <= maxSeqNum)
      && (if seen == {} then maxSeqNum == 0 else maxSeqNum in seen)
      && (forall n: nat :: n <= maxSeqNum && maxSeqNum - n < WINDOW_SIZE ==> (Bit(mask, maxSeqNum - n) <==> n in seen))
      && (forall i: nat :: Bit(mask, i) ==> i <= maxSeqNum)
    }

    constructor ()
      ensures Valid() && seen == {}
    {
      mask, maxSeqNum, seen := 0, 0, {};
      new;
      forall i: nat ensures !Bit(0, i) { ZeroBits(i); }
    }

    /** dtls1_bitmap_should_discard: a number is turned away exactly when it was recorded or is too old to tell. */
    method ShouldDiscard(seqNum: bytes) returns (discard: bool)
      requires Valid() && |seqNum| == 8
      ensures discard <==> Stale(seen, BigEndian(seqNum))
    {
      hide Bit, Shl;
      var n := ToU64Be(seqNum);
      if n > maxSeqNum {
        assert !exists m :: m in seen && Older(n, m);
        return false;
      }
      var idx := maxSeqNum - n;
      if idx >= WINDOW_SIZE {
        assert seen != {} ==> Older(n, maxSeqNum);
        return true;
      }
      return Bit(mask, idx);
    }

    /** dtls1_bitmap_record */
    method Record(seqNum: bytes)
      requires Valid() && |seqNum| == 8
      modifies this
      ensures Valid() && seen == old(seen) + {BigEndian(seqNum)}
    {
      hide Bit, Shl, BitOr;
      var n := ToU64Be(seqNum);
      seen := seen + {n};
      if n > maxSeqNum {
        var shift := n - maxSeqNum;
        if shift >= WINDOW_SIZE {
          mask := 0;
        } else {
          mask := Low(Shl(mask, shift), WINDOW_SIZE);
        }
        maxSeqNum := n;
        forall j: nat ensures Bit(mask, j) <==> j < WINDOW_SIZE && shift <= j && Bit(old(mask), j - shift) {
          if shift >= WINDOW_SIZE { ZeroBits(j); NoBit(j); } else { LowBits(Shl(old(mask), shift), WINDOW_SIZE, j); ShlBits(old(mask), shift, j); }
        }
      }
      var idx := maxSeqNum - n;
      if idx < WINDOW_SIZE {
        ghost var before := mask;
        assert Shl(1, idx) < Shl(1, WINDOW_SIZE) by { ShlLonger(idx + 1, WINDOW_SIZE); ShlNext(1, idx); }
        BitOrBound(mask, Shl(1, idx), WINDOW_SIZE);
        mask := Mark(mask, idx);
        forall j: nat ensures Bit(mask, j) <==> Bit(before, j) || j == idx { MarkSets(before, idx, j); }
      }
    }
  }

  lemma {:induction false} NoBit(j: nat)
    ensures !Bit(0, j)
  {
    ZeroBits(j);
  }

  // ---------------------------------------------------------------- whole runs of the window

  /** The numbers that get through when `ns` arrive in this order, starting with an empty window. */
  ghost function Through(ns: seq<nat>): set<nat>
  {
    if ns == [] then {}
    else
      var seen := Through(ns[..|ns| - 1]);
      if Stale(seen, ns[|ns| - 1]) then seen else seen + {ns[|ns| - 1]}
  }

  /** Every arrival leaves a number at least as large in the window. */
  lemma {:induction false} LargestGotThrough(ns: seq<nat>, j: nat)
    requires j < |ns|
    ensures exists m :: m in Through(ns) && ns[j] <= m
    decreases |ns|
  {
    var before := ns[..|ns| - 1];
    if j < |ns| - 1 {
      LargestGotThrough(before, j);
      var m :| m in Through(before) && ns[j] <= m;
      assert m in Through(ns);
    } else if Stale(Through(before), ns[j]) {
      var m :| m in Through(before) && (m == ns[j] || Older(ns[j], m));
      assert m in Through(ns);
    } else {
      assert ns[j] in Through(ns);
    }
  }

  /** Number n arrives at i before anything 64 or more ahead of it. */
  predicate ArrivesInTime(ns: seq<nat>, n: nat, i: nat)
  {
    i < |ns| && ns[i] == n && forall j :: 0 <= j < i ==> ns[j] < n + 64
  }

  /** A number gets through exactly when it first arrives less than 64 behind all the earlier arrivals. */
  lemma {:induction false} ThroughExactly(ns: seq<nat>, n: nat)
    ensures n in Through(ns) <==> exists i: nat :: ArrivesInTime(ns, n, i)
    decreases |ns|
  {
    if ns != [] {
      var k := |ns| - 1;
      var before := ns[..k];
      ThroughExactly(before, n);
      if n in Through(ns) && n !in Through(before) {
        forall j | 0 <= j < k ensures !Older(n, ns[j]) {
          LargestGotThrough(before, j);
          var m :| m in Through(before) && before[j] <= m;
          assert !Older(n, m);
        }
        assert ArrivesInTime(ns, n, k);
      }
      if n in Through(before) {
        var i: nat :| ArrivesInTime(before, n, i);
        assert ArrivesInTime(ns, n, i);
      }
      if exists i: nat :: ArrivesInTime(ns, n, i) {
        var i: nat :| ArrivesInTime(ns, n, i);
        if i < k { assert ArrivesInTime(before, n, i); } else { NothingLarger(before, n); }
      }
    }
  }

  lemma {:induction false} NothingLarger(ns: seq<nat>, n: nat)
    requires forall j :: 0 <= j < |ns| ==> !Older(n, ns[j])
    ensures forall m :: m in Through(ns) ==> !Older(n, m)
  {
    if ns != [] { NothingLarger(ns[..|ns| - 1], n); }
  }

  /** No number gets through twice. */
  lemma {:induction false} ThroughOnce(ns: seq<nat>, i: nat, j: nat)
    requires i < j < |ns| && ns[i] == ns[j]
    ensures Stale(Through(ns[..j]), ns[j])
  {
    ThroughGrows(ns, i + 1, j);
    LargestGotThrough(ns[..i + 1], i);
    assert ns[..i + 1][..i] == ns[..i];
    if !Stale(Through(ns[..i]), ns[i]) {
      assert ns[i] in Through(ns[..i + 1]);
    } else {
      var m :| m in Through(ns[..i]) && (m == ns[i] || Older(ns[i], m));
      ThroughGrows(ns, i, j);
    }
  }

  lemma {:induction false} ThroughGrows(ns: seq<nat>, i: nat, j: nat)
    requires i <= j <= |ns|
    ensures Through(ns[..i]) <= Through(ns[..j])
    decreases j
  {
    if i < j {
      ThroughGrows(ns, i, j - 1);
      assert ns[..j][..j - 1] == ns[..j - 1];
    }
  }

  /** Nothing equal to arrival i, and nothing 64 or more ahead of it, has come before. */
  predicate Unseen(ns: seq<nat>, i: nat)
    requires i < |ns|
  {
    forall j :: 0 <= j < i ==> ns[j] != ns[i] && ns[j] < ns[i] + 64
  }

  /** Whether an arrival gets through depends on the earlier arrivals alone, whatever became of them. */
  lemma {:induction false} GetsThroughExactly(ns: seq<nat>, i: nat)
    requires i < |ns|
    ensures !Stale(Through(ns[..i]), ns[i]) <==> Unseen(ns, i)
  {
    hide Through;
    var before := ns[..i];
    if Unseen(ns, i) {
      NothingLarger(before, ns[i]);
      ThroughExactly(before, ns[i]);
    } else {
      var j :| 0 <= j < i && (ns[j] == ns[i] || ns[j] >= ns[i] + 64);
      if ns[j] == ns[i] {
        ThroughOnce(ns, j, i);
      } else {
        LargestGotThrough(before, j);
        var m :| m in Through(before) && before[j] <= m;
        assert ns[j] == before[j] && Older(ns[i], m);
      }
    }
  }

  function Numbers(sequences: seq<bytes>): (ns: seq<nat>)
    ensures |ns| == |sequences|
  {
    seq(|sequences|, i requires 0 <= i < |sequences| => BigEndian(sequences[i]))
  }

  /** The window over a whole run: records that arrive one after the other, and which of them are let through. */
  method LetThrough(sequences: seq<bytes>) returns (through: seq<bool>)
    requires forall i :: 0 <= i < |sequences| ==> |sequences[i]| == 8
    ensures |through| == |sequences| && forall i :: 0 <= i < |sequences| ==> (through[i] <==> Unseen(Numbers(sequences), i))
  {
    hide BigEndian, Bit, Unseen, Stale, Bitmap.Valid;
    ghost var ns := Numbers(sequences);
    var bitmap := new Bitmap();
    through := [];
    var i := 0;
    while i < |sequences|
      invariant 0 <= i <= |sequences| && |through| == i && bitmap.Valid() && fresh(bitmap) && bitmap.seen == Through(ns[..i])
      invariant forall k :: 0 <= k < i ==> (through[k] <==> Unseen(ns, k))
    {
      var discard := bitmap.ShouldDiscard(sequences[i]);
      GetsThroughExactly(ns, i);
      assert ns[..i + 1][..i] == ns[..i] && ns[..i + 1][i] == BigEndian(sequences[i]);
      if !discard {
        bitmap.Record(sequences[i]);
      }
      through := through + [!discard];
      i := i + 1;
    }
  }

  // ---------------------------------------------------------------- records off the wire

  datatype Wire = Wire(typ: nat, version: nat, sequence: bytes, body: bytes, rest: bytes)

  /** The thirteen-byte record header and its body. */
  function ParseRecord(input: bytes): (w: Option<Wire>)
    ensures w.Some? ==> |w.value.sequence| == 8 && |w.value.rest| < |input|
  {
    if |input| < DTLS1_RT_HEADER_LENGTH then None
    else
      var len := input[11] as nat * 0x100 + input[12];
      if |input| < DTLS1_RT_HEADER_LENGTH + len || len > SSL3_RT_MAX_ENCRYPTED_LENGTH then None
      else Some(Wire(input[0], input[1] as nat * 0x100 + input[2], input[3..11],
                     input[DTLS1_RT_HEADER_LENGTH..DTLS1_RT_HEADER_LENGTH + len], input[DTLS1_RT_HEADER_LENGTH + len..]))
  }

  /** A header of thirteen bytes, of which the last two are the length of what follows, and all of that. */
  predicate Framed(input: bytes)
  {
    |input| >= 13 && var len := input[11] as nat * 0x100 + input[12]; len <= 16384 + 320 && 13 + len <= |input|
  }

  /** In the clear any version of DTLS will do, under keys it has to be the one in use. */
  predicate RightVersion(input: bytes, clear: bool, version: nat)
    requires |input| >= 13
  {
    if clear then input[1] == 0xfe else input[1] as nat * 0x100 + input[2] == version
  }

  function EpochField(input: bytes): nat
    requires |input| >= 13
  {
    input[3] as nat * 0x100 + input[4]
  }

  /** Epoch and sequence number as the replay window takes them. */
  function NumberField(input: bytes): nat
    requires |input| >= 13
  {
    BigEndian(input[3..11])
  }

  /** What a reader accepts: whole records of its version and epoch whose number its window does not turn away. */
  ghost predicate Accepts(epoch: nat, clear: bool, version: nat, seen: set<nat>, input: bytes)
  {
    Framed(input) && RightVersion(input, clear, version) && EpochField(input) == epoch && !Stale(seen, NumberField(input))
  }

  lemma {:induction false} ParsedFields(input: bytes)
    ensures ParseRecord(input).Some? <==> Framed(input)
    ensures Framed(input) ==>
              var w := ParseRecord(input).value;
              && w.typ == input[0] && w.version == input[1] as nat * 0x100 + input[2] && w.sequence == input[3..11]
              && |w.rest| == |input| - 13 - (input[11] as nat * 0x100 + input[12])
              && (w.version / 0x100 == 0xfe <==> input[1] == 0xfe) && w.sequence[0] == input[3] && w.sequence[1] == input[4]
  {}

  /** Epoch and sequence number as one number: the epoch in the top sixteen bits. */
  lemma {:induction false} RecordNumber(sequence: bytes)
    requires |sequence| == 8
    ensures BigEndian(sequence) == BigEndian(sequence[..2]) * TWO48 + BigEndian(sequence[2..])
    ensures BigEndian(sequence[2..]) < TWO48 && BigEndian(sequence[..2]) == sequence[0] as nat * 0x100 + sequence[1] < EPOCHS
  {
    BigEndianSplit(sequence[..2], sequence[2..]);
    assert sequence[..2] + sequence[2..] == sequence;
    BigEndianBound(sequence[2..]);
    assert Values(6) == TWO48;
    assert sequence[..2][..1] == [sequence[0]];
    BigEndianOne(sequence[0]);
  }

  function Epoch(n: nat): nat { n / TWO48 }

  /** Different epochs never share a number. */
  lemma {:induction false} EpochOf(n: nat, epoch: nat, num: nat)
    requires n == epoch * TWO48 + num && num < TWO48
    ensures Epoch(n) == epoch
  {}

  datatype Outcome = CloseNotify | NeedMore | Discarded | TooLong | Opened(typ: nat, body: bytes)

  ghost predicate AllDistinct<T>(s: seq<T>)
  {
    forall i, j :: 0 <= i < j < |s| ==> s[i] != s[j]
  }

  class RecordReader {
    var rEpoch: nat                   // 16 bits
    var bitmap: Bitmap
    var nullCipher: bool
    var recordVersion: nat
    ghost var accepted: seq<nat>      // the numbers of the records handed on, over all epochs
    ghost var wrapped: bool           // the epoch has come round to zero again

    /** As long as the epoch has not wrapped, no record number has been accepted twice. */
    ghost predicate Valid()
      reads this, bitmap
    {
      && bitmap.Valid() && rEpoch < EPOCHS
      && (!wrapped ==>
            && AllDistinct(accepted)
            && (forall i :: 0 <= i < |accepted| ==> Epoch(accepted[i]) <= rEpoch)
            && (forall i :: 0 <= i < |accepted| && Epoch(accepted[i]) == rEpoch ==> accepted[i] in bitmap.seen))
    }

    constructor (recordVersion: nat)
      ensures Valid() && rEpoch == 0 && nullCipher && accepted == [] && !wrapped && fresh(bitmap) && bitmap.seen == {}
      ensures this.recordVersion == recordVersion
    {
      rEpoch, nullCipher, accepted, wrapped := 0, true, [], false;
      this.recordVersion := recordVersion;
      bitmap := new Bitmap();
    }

    /** The version test of dtls_open_record. */
    predicate VersionOk(version: nat)
      reads this
    {
      if nullCipher then version / 0x100 == 0xfe else version == recordVersion
    }

    /** A record of this version and epoch that is no replay. */
    ghost predicate Acceptable(input: bytes)
      reads this, bitmap
    {
      Accepts(rEpoch, nullCipher, recordVersion, bitmap.seen, input)
    }

    /**
      dtls_open_record. `closed` says that close_notify was received, and `plain` is what decrypting the
      record gives.
     */
    method OpenRecord(input: bytes, closed: bool, plain: Option<bytes>) returns (outcome: Outcome, consumed: nat)
      requires Valid()
      modifies this`accepted, bitmap
      ensures Valid() && bitmap == old(bitmap)
      ensures outcome.Opened? <==> !closed && old(Acceptable(input)) && plain.Some? && |plain.value| <= 16384
      ensures if outcome.Opened?
              then
                && outcome == Opened(input[0], plain.value)
                && accepted == old(accepted) + [NumberField(input)]
                && bitmap.seen == old(bitmap.seen) + {NumberField(input)}
              else accepted == old(accepted) && bitmap.seen == old(bitmap.seen)
      ensures outcome.CloseNotify? <==> closed
      ensures outcome.NeedMore? <==> !closed && input == []
      ensures outcome.TooLong? <==> !closed && old(Acceptable(input)) && plain.Some? && |plain.value| > 16384
      ensures consumed == if closed || input == [] then 0
                          else if !Framed(input) || !RightVersion(input, nullCipher, recordVersion) then |input|
                          else 13 + input[11] as nat * 0x100 + input[12]
    {
      hide Bit, BigEndian, Epoch, ParseRecord, Framed;
      ParsedFields(input);
      if closed {
        return CloseNotify, 0;
      }
      if |input| == 0 {
        return NeedMore, 0;
      }
      match ParseRecord(input)
      case None => return Discarded, |input|;
      case Some(w) =>
        if !VersionOk(w.version) {
          return Discarded, |input|;
        }
        RecordNumber(w.sequence);
        var epoch := w.sequence[0] as nat * 0x100 + w.sequence[1];
        if epoch != rEpoch {
          return Discarded, |input| - |w.rest|;
        }
        var discard := bitmap.ShouldDiscard(w.sequence);
        if discard || plain.None? {
          return Discarded, |input| - |w.rest|;
        }
        if |plain.value| > SSL3_RT_MAX_PLAIN_LENGTH {
          return TooLong, |input| - |w.rest|;
        }
        EpochOf(BigEndian(w.sequence), epoch, BigEndian(w.sequence[2..]));
        accepted := accepted + [BigEndian(w.sequence)];
        bitmap.Record(w.sequence);
        return Opened(w.typ, plain.value), |input| - |w.rest|;
    }

    /** dtls1_set_read_state: the next epoch starts with an empty window. */
    method SetReadState(recordVersion: nat, unprocessed: bool) returns (ok: bool)
      requires Valid()
      modifies this
      ensures Valid() && accepted == old(accepted) && ok == !unprocessed
      ensures ok ==> rEpoch == (old(rEpoch) + 1) % EPOCHS && bitmap.seen == {} && fresh(bitmap) && (wrapped <==> old(wrapped) || rEpoch == 0)
      ensures ok ==> !nullCipher && this.recordVersion == recordVersion
      ensures !ok ==> rEpoch == old(rEpoch) && bitmap == old(bitmap) && wrapped == old(wrapped)
    {
      hide Bit, Epoch, Bitmap.Valid;
      if unprocessed {
        return false;
      }
      rEpoch := (rEpoch + 1) % EPOCHS;
      wrapped := wrapped || rEpoch == 0;
      bitmap := new Bitmap();
      nullCipher := false;
      this.recordVersion := recordVersion;
      return true;
    }
  }
}
