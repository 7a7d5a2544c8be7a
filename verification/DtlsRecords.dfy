/**
  Sealing records under two live epochs (section 4.1 of RFC 6347): the write sequence numbers of
  the current epoch and of the one before it, which retransmissions still use.
 */
module DtlsRecords {
  import opened Words
  import opened DtlsReplay

  /** ssl_record_sequence_update on `seq[from..]`: counts up, and fails when the counter comes round to zero. */
  method SequenceUpdate(sequence: array<byte>, from: nat) returns (ok: bool)
    requires from < sequence.Length
    modifies sequence
    ensures sequence[..from] == old(sequence[..from])
    ensures ok <==> BigEndian(old(sequence[from..])) + 1 < Values(sequence.Length - from)
    ensures BigEndian(sequence[from..]) == if ok then BigEndian(old(sequence[from..])) + 1 else 0
  {
    hide BigEndian, Values;
    ghost var before := sequence[..];
    ghost var b := sequence[from..];
    assert b == before[from..];
    var i := sequence.Length;
    while i > from
      invariant from <= i <= sequence.Length
      invariant sequence[..i] == before[..i]
      invariant forall k :: i <= k < sequence.Length ==> before[k] == 0xff && sequence[k] == 0
    {
      i := i - 1;
      var next: nat := sequence[i] as nat + 1;
      sequence[i] := next % 0x100;
      assert sequence[..i] == before[..i];
      if sequence[i] != 0 {
        Carry(b, i - from);
        assert sequence[from..] == b[..i - from] + [b[i - from] + 1] + seq(|b| - (i - from) - 1, _ => 0);
        return true;
      }
    }
    Overflow(b);
    assert sequence[from..] == seq(|b|, _ => 0);
    return false;
  }

  /** Adding one behind a run of 0xff bytes. */
  lemma {:induction false} Carry(b: bytes, k: nat)
    requires k < |b| && b[k] < 0xff && forall j :: k < j < |b| ==> b[j] == 0xff
    ensures BigEndian(b[..k] + [b[k] + 1] + seq(|b| - k - 1, _ => 0)) == BigEndian(b) + 1 < Values(|b|)
    decreases |b|
  {
    var c := b[..k] + [b[k] + 1] + seq(|b| - k - 1, _ => 0);
    BigEndianBound(c);
    if k == |b| - 1 {
      assert c[..k] == b[..k];
    } else {
      var d := b[..|b| - 1];
      Carry(d, k);
      assert c[..|b| - 1] == d[..k] + [d[k] + 1] + seq(|d| - k - 1, _ => 0);
    }
  }

  lemma {:induction false} Overflow(b: bytes)
    requires forall j :: 0 <= j < |b| ==> b[j] == 0xff
    ensures BigEndian(b) + 1 == Values(|b|) && BigEndian(seq(|b|, _ => 0)) == 0
  {
    if b != [] {
      Overflow(b[..|b| - 1]);
      assert seq(|b|, _ => 0)[..|b| - 1] == seq(|b| - 1, _ => 0);
    }
  }

  lemma {:induction false} Zeros(n: nat)
    ensures BigEndian(seq(n, _ => 0)) == 0
  {
    if n > 0 {
      Zeros(n - 1);
      assert seq(n, _ => 0)[..n - 1] == seq(n - 1, _ => 0);
    }
  }

  lemma {:induction false} LastOfSix(b: bytes)
    requires |b| == 6 && BigEndian(b) + 1 >= Values(6)
    ensures BigEndian(b) == 0xffff_ffff_ffff
  {
    hide BigEndian;
    BigEndianBound(b);
    assert Values(3) == 0x100_0000 && Values(6) == 0x1_0000_0000_0000;
  }

  /** A record that was sealed: its number, the plaintext it protects, and its bytes. */
  datatype Sealed = Sealed(epoch: nat, num: nat, typ: byte, plaintext: bytes, wire: bytes)

  /** The header says what the record is. */
  predicate Labelled(s: Sealed, version: nat)
  {
    && |s.wire| >= 13 && s.wire[0] == s.typ && s.wire[1] as nat * 0x100 + s.wire[2] == version
    && EpochField(s.wire) == s.epoch && NumberField(s.wire) == s.epoch * TWO48 + s.num
    && s.wire[11] as nat * 0x100 + s.wire[12] == |s.wire| - 13
  }

  /** The log of a sender: every record is labelled with what it is. */
  ghost predicate AllLabelled(log: seq<Sealed>)
  {
    forall k :: 0 <= k < |log| ==> HasLabel(log[k])
  }

  ghost predicate HasLabel(s: Sealed) { exists version: nat :: Labelled(s, version) }

  lemma {:induction false} OneMoreLabelled(log: seq<Sealed>, s: Sealed, version: nat)
    requires AllLabelled(log) && Labelled(s, version)
    ensures AllLabelled(log + [s])
  {
    hide Labelled;
    assert HasLabel(s);
  }

  lemma {:induction false} HeaderLabels(s: Sealed, version: nat, sequence: bytes, ciphertext: bytes)
    requires version < 0x1_0000 && s.epoch < EPOCHS && |sequence| == 6 && |ciphertext| < 0x1_0000 && BigEndian(sequence) == s.num
    requires s.wire == RecordHeader(s.typ, version, s.epoch, sequence, |ciphertext|) + ciphertext
    ensures Labelled(s, version) && s.wire[0] == s.typ && s.wire[1] as nat * 256 + s.wire[2] as nat == version
  {
    hide BigEndian;
    var q := [s.epoch / 0x100, s.epoch % 0x100] + sequence;
    assert s.wire[3..11] == q;
    RecordNumber(q);
    assert q[2..] == sequence;
  }

  ghost predicate NumbersDistinct(log: seq<Sealed>)
  {
    forall i, j :: 0 <= i < j < |log| ==> (log[i].epoch, log[i].num) != (log[j].epoch, log[j].num)
  }

  /** Within an epoch, later records have larger numbers. */
  ghost predicate NumbersGrow(log: seq<Sealed>)
  {
    forall i, j :: 0 <= i < j < |log| && log[i].epoch == log[j].epoch ==> log[i].num < log[j].num
  }

  lemma {:induction false} GrowingIsDistinct(log: seq<Sealed>)
    requires NumbersGrow(log)
    ensures NumbersDistinct(log)
  {}

  /** Different records look different to the receiver's replay window. */
  lemma {:induction false} DistinctToReceiver(a: Sealed, b: Sealed)
    requires (a.epoch, a.num) != (b.epoch, b.num) && a.num < TWO48 && b.num < TWO48
    ensures a.epoch * TWO48 + a.num != b.epoch * TWO48 + b.num
  {
    EpochOf(a.epoch * TWO48 + a.num, a.epoch, a.num);
    EpochOf(b.epoch * TWO48 + b.num, b.epoch, b.num);
  }

  function RecordHeader(typ: byte, version: nat, epoch: nat, sequence: bytes, len: nat): (h: bytes)
    requires version < 0x1_0000 && epoch < EPOCHS && |sequence| == 6 && len < 0x1_0000
    ensures |h| == DTLS1_RT_HEADER_LENGTH
  {
    [typ, version / 0x100, version % 0x100, epoch / 0x100, epoch % 0x100] + sequence + [len / 0x100, len % 0x100]
  }

  /** What the receiver reads off a record: the fields, and the number under which it was sealed. */
  lemma {:induction false} HeaderInverts(typ: byte, version: nat, epoch: nat, sequence: bytes, ciphertext: bytes, rest: bytes)
    requires version < 0x1_0000 && epoch < EPOCHS && |sequence| == 6 && |ciphertext| <= SSL3_RT_MAX_ENCRYPTED_LENGTH
    ensures var s := [epoch / 0x100, epoch % 0x100] + sequence;
            && ParseRecord(RecordHeader(typ, version, epoch, sequence, |ciphertext|) + ciphertext + rest) == Some(Wire(typ, version, s, ciphertext, rest))
            && BigEndian(s) == epoch * TWO48 + BigEndian(sequence) && BigEndian(s[..2]) == epoch
  {
    hide BigEndian;
    var input := RecordHeader(typ, version, epoch, sequence, |ciphertext|) + ciphertext + rest;
    var s := [epoch / 0x100, epoch % 0x100] + sequence;
    assert input[3..11] == s && input[13..13 + |ciphertext|] == ciphertext && input[13 + |ciphertext|..] == rest;
    assert input[11] as nat * 0x100 + input[12] == |ciphertext| && input[1] as nat * 0x100 + input[2] == version;
    RecordNumber(s);
    assert s[2..] == sequence;
  }

  class RecordWriter {
    var wEpoch: nat                         // 16 bits
    const writeSequence: array<byte>        // 8 bytes, of which the last 6 count
    const lastWriteSequence: array<byte>
    var recordVersion: nat
    var overhead: nat                       // of the current cipher
    var lastOverhead: nat
    var nonceLen: nat                       // the part of the overhead in front of the ciphertext
    var lastNonceLen: nat
    ghost var sealed: seq<Sealed>           // every record sealed, in order
    ghost var exhausted: bool               // a sequence number or the epoch has come round to zero
    ghost var refusals: nat                 // how often the cipher has failed

    ghost function Next(): nat
      reads this, writeSequence
      requires writeSequence.Length == 8
    {
      BigEndian(writeSequence[2..])
    }

    ghost function Last(): nat
      reads this, lastWriteSequence
      requires lastWriteSequence.Length == 8
    {
      BigEndian(lastWriteSequence[2..])
    }

    /** Until a counter has come round, the numbers of an epoch only grow, so that none is used twice. */
    ghost predicate Valid()
      reads this, writeSequence, lastWriteSequence
    {
      && writeSequence.Length == 8 && lastWriteSequence.Length == 8 && writeSequence != lastWriteSequence
      && AllLabelled(sealed) && wEpoch < EPOCHS && recordVersion < 0x1_0000 && nonceLen <= overhead && lastNonceLen <= lastOverhead
      && (!exhausted ==> NumbersGrow(sealed) && forall i :: 0 <= i < |sealed| ==> Behind(sealed[i], wEpoch, Next(), Last()))
    }

    constructor (recordVersion: nat)
      requires recordVersion < 0x1_0000
      ensures Valid() && fresh(writeSequence) && fresh(lastWriteSequence) && sealed == [] && !exhausted && wEpoch == 0
      ensures overhead == lastOverhead == 0 && refusals == 0 && this.recordVersion == recordVersion
      ensures Next() == 0 && Last() == 0
    {
      wEpoch, overhead, lastOverhead, nonceLen, lastNonceLen, sealed, exhausted, refusals := 0, 0, 0, 0, 0, [], false, 0;
      this.recordVersion := recordVersion;
      writeSequence := new byte[8](_ => 0);
      lastWriteSequence := new byte[8](_ => 0);
      new;
      assert writeSequence[2..] == seq(6, _ => 0) == lastWriteSequence[2..];
      Zeros(6);
    }

    /** dtls_max_seal_overhead */
    function Overhead(previous: bool): nat
      reads this
    {
      DTLS1_RT_HEADER_LENGTH + if previous then lastOverhead else overhead
    }

    /** dtls_seal_prefix_len */
    function PrefixLen(previous: bool): nat
      reads this
    {
      DTLS1_RT_HEADER_LENGTH + if previous then lastNonceLen else nonceLen
    }

    lemma {:induction false} PrefixFits(previous: bool)
      requires Valid()
      ensures PrefixLen(previous) <= Overhead(previous)
    {}

    /** The cipher, which may fail. What it gives fits the room and is at most its overhead longer than the plaintext. */
    method Seal(room: nat, limit: nat) returns (ciphertext: Option<bytes>)
      modifies this`refusals
      ensures refusals == old(refusals) + if ciphertext.Some? then 0 else 1
      ensures ciphertext.Some? ==> |ciphertext.value| <= room && |ciphertext.value| <= limit
    {
      var works: bool, c: bytes := *, *;
      if !works || |c| > room || |c| > limit {
        refusals := refusals + 1;
        return None;
      }
      return Some(c);
    }

    /**
      dtls_seal_record, for input and output that do not overlap. Sealing may fail; what it gives is bytes
      that fit the buffer and are at most the cipher's overhead longer than the plaintext.
     */
    method SealRecord(typ: byte, plaintext: bytes, previous: bool, maxOut: nat) returns (record: Option<bytes>)
      requires Valid() && (previous ==> wEpoch >= 1)
      modifies this`sealed, this`exhausted, this`refusals, writeSequence, lastWriteSequence
      ensures Valid() && (old(exhausted) ==> exhausted) && old(refusals) <= refusals
      ensures record.None? ==> sealed == old(sealed)
      ensures record.None? ==>
                maxOut < 13 || refusals > old(refusals) || exhausted || |plaintext| + Overhead(previous) - 13 >= 0x1_0000
      ensures exhausted ==> old(exhausted) || (if previous then old(Last()) else old(Next())) == 0xffff_ffff_ffff
      ensures record.Some? ==>
                var epoch, num := if previous then wEpoch - 1 else wEpoch, if previous then old(Last()) else old(Next());
                && sealed == old(sealed) + [Sealed(epoch, num, typ, plaintext, record.value)] && exhausted == old(exhausted)
                && refusals == old(refusals)
                && |record.value| <= maxOut && DTLS1_RT_HEADER_LENGTH <= |record.value| <= |plaintext| + Overhead(previous)
                && Labelled(Sealed(epoch, num, typ, plaintext, record.value), recordVersion)
                && record.value[0] == typ && record.value[1] as nat * 256 + record.value[2] as nat == recordVersion
    {
      hide BigEndian, Values, Labelled, AllLabelled;
      record := None;
      var epoch, sequence := wEpoch, writeSequence;
      if previous {
        epoch, sequence := wEpoch - 1, lastWriteSequence;
      }
      if maxOut < DTLS1_RT_HEADER_LENGTH {
        return;
      }
      var number := sequence[2..];
      var given := Seal(maxOut - DTLS1_RT_HEADER_LENGTH, |plaintext| + Overhead(previous) - DTLS1_RT_HEADER_LENGTH);
      if given.None? {
        return;
      }
      var ciphertext := given.value;
      ghost var other := if previous then writeSequence[2..] else lastWriteSequence[2..];
      var ok := SequenceUpdate(sequence, 2);
      assert other == if previous then writeSequence[2..] else lastWriteSequence[2..];
      if !ok {
        LastOfSix(number);
        exhausted := true;
        return;
      }
      if |ciphertext| >= 0x1_0000 {
        return;
      }
      record := Some(RecordHeader(typ, recordVersion, epoch, number, |ciphertext|) + ciphertext);
      ghost var s := Sealed(epoch, BigEndian(number), typ, plaintext, record.value);
      HeaderLabels(s, recordVersion, number, ciphertext);
      OneMoreLabelled(sealed, s, recordVersion);
      sealed := sealed + [s];
      assert |record.value| == DTLS1_RT_HEADER_LENGTH + |ciphertext|;
      assert Overhead(previous) == old(Overhead(previous));
    }

    /** dtls1_set_write_state: the current epoch becomes the previous one, and counting starts over. */
    method SetWriteState(newOverhead: nat, newNonceLen: nat, newVersion: nat)
      requires Valid() && newVersion < 0x1_0000 && newNonceLen <= newOverhead
      modifies this`wEpoch, this`exhausted, this`recordVersion, this`overhead, this`lastOverhead, this`nonceLen, this`lastNonceLen,
               writeSequence, lastWriteSequence
      ensures Valid() && wEpoch == (old(wEpoch) + 1) % EPOCHS && Last() == old(Next()) && Next() == 0
      ensures lastOverhead == old(overhead) && overhead == newOverhead && recordVersion == newVersion
      ensures exhausted <==> old(exhausted) || wEpoch == 0
    {
      hide BigEndian, NumbersGrow, AllLabelled;
      wEpoch := (wEpoch + 1) % EPOCHS;
      exhausted := exhausted || wEpoch == 0;
      for i := 0 to 8
        invariant writeSequence[..] == old(writeSequence[..])
        invariant lastWriteSequence[..i] == writeSequence[..i]
        modifies lastWriteSequence
      {
        lastWriteSequence[i] := writeSequence[i];
      }
      assert lastWriteSequence[2..] == old(writeSequence[2..]);
      for i := 0 to 8
        invariant forall k :: 0 <= k < i ==> writeSequence[k] == 0
        invariant lastWriteSequence[2..] == old(writeSequence[2..])
        modifies writeSequence
      {
        writeSequence[i] := 0;
      }
      assert writeSequence[2..] == seq(6, _ => 0);
      ZeroCounter(6);
      lastOverhead, overhead, recordVersion := overhead, newOverhead, newVersion;
      lastNonceLen, nonceLen := nonceLen, newNonceLen;
    }
  }

  predicate Behind(s: Sealed, epoch: nat, next: nat, last: nat)
  {
    && s.epoch <= epoch && (s.epoch == epoch ==> s.num < next) && (s.epoch + 1 == epoch ==> s.num < last)
  }

  lemma {:induction false} ZeroCounter(n: nat)
    ensures BigEndian(seq(n, _ => 0)) == 0
  {
    if n > 0 {
      ZeroCounter(n - 1);
      assert seq(n, _ => 0)[..n - 1] == seq(n - 1, _ => 0);
    }
  }
}
