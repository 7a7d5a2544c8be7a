/**
  The TLS write path: bytes of sealed records wait in the pending flight or in the write buffer, the
  transport takes any part of them or none, and calls are repeated until they get through.
 */
module TlsWrite {
  import opened Words
  import opened TlsBuffer

  const SSL3_RT_MAX_PLAIN_LENGTH := 16384
  const CHANGE_CIPHER_SPEC := 20
  const ALERT := 21
  const HANDSHAKE := 22
  const APPLICATION_DATA := 23
  const INT_MAX := 0x7fff_ffff

  /** A record that was sealed: what it protects, and its bytes. */
  datatype Record = Record(typ: nat, plaintext: bytes, ciphertext: bytes)

  /** The bytes of the records, in the order in which they were sealed. */
  function Stream(records: seq<Record>): bytes
  {
    if records == [] then [] else Stream(records[..|records| - 1]) + records[|records| - 1].ciphertext
  }

  /** What the records of a type protect. */
  function Plain(records: seq<Record>, typ: nat): bytes
  {
    if records == [] then []
    else Plain(records[..|records| - 1], typ) + if records[|records| - 1].typ == typ then records[|records| - 1].plaintext else []
  }

  lemma {:induction false} Appended(records: seq<Record>, r: Record)
    ensures Stream(records + [r]) == Stream(records) + r.ciphertext
    ensures forall typ :: Plain(records + [r], typ) == Plain(records, typ) + if r.typ == typ then r.plaintext else []
  {
    assert (records + [r])[..|records|] == records;
  }

  lemma {:induction false} Behind(w: bytes, c: bytes, u: bytes, x: bytes)
    ensures w + c + (u + x) == (w + c + u) + x
  {}

  predicate FullRecord(r: Record, max: nat) { r.typ == 23 && |r.plaintext| == max }

  /** Records of application data, each of them full but perhaps the last. */
  predicate FullRecords(records: seq<Record>, max: nat)
  {
    && (forall i :: 0 <= i < |records| - 1 ==> FullRecord(records[i], max))
    && (records != [] ==> records[|records| - 1].typ == 23 && |records[|records| - 1].plaintext| <= max)
  }

  lemma {:induction false} NoRecords(records: seq<Record>, max: nat)
    ensures FullRecords(records[|records|..], max)
  {}

  /** Bytes that move from the front of one queue to the end of the one before. */
  lemma {:induction false} Moved(w: bytes, c: bytes, n: nat, u: bytes)
    requires n <= |c|
    ensures (w + c[..n]) + c[n..] + u == w + c + u
  {
    assert c[..n] + c[n..] == c;
  }

  class Writer {
    const writeBuffer: SSLBuffer
    var pendingFlight: Option<bytes>
    var pendingFlightOffset: nat
    var wnum: nat                       // bytes of the interrupted write that were reported to be sent
    var wpendPending: bool
    var wpendTot: nat
    var wpendBuf: nat                   // an address
    var wpendType: nat
    var wpendRet: nat
    var writeShutdown: bool
    const maxSendFragment: nat
    const overhead: nat                 // SSL_max_seal_overhead
    const partialWrite: bool            // SSL_MODE_ENABLE_PARTIAL_WRITE
    const movingBuffer: bool            // SSL_MODE_ACCEPT_MOVING_WRITE_BUFFER
    ghost var wire: bytes               // what the transport took
    ghost var records: seq<Record>      // every record sealed
    ghost var settled: bytes            // application bytes sealed by writes that are over
    ghost var unsettled: bytes          // application bytes sealed by the write that is to be repeated
    ghost var refused: nat              // how often the transport took nothing
    ghost var unsealed: nat             // how often the cipher failed

    ghost function Repr(): set<object>
      reads this, writeBuffer
    {
      {this} + writeBuffer.Repr()
    }

    /** How often the transport, the cipher or the allocator has failed: nothing else may be to blame for a failure. */
    ghost function Failures(): nat
      reads this`refused, this`unsealed, writeBuffer`denied
    {
      refused + unsealed + writeBuffer.denied
    }

    function Unsent(): bytes
      reads this`pendingFlight, this`pendingFlightOffset
    {
      if pendingFlight.Some? && pendingFlightOffset <= |pendingFlight.value| then pendingFlight.value[pendingFlightOffset..] else []
    }

    /** Nothing is lost, repeated or reordered between sealing and the transport. */
    ghost predicate Base()
      reads this`pendingFlight, this`pendingFlightOffset, this`wire, this`records, this`wpendPending, this`wpendRet, this`wpendTot
      reads writeBuffer, writeBuffer.buf
    {
      && writeBuffer.Valid() && this !in writeBuffer.Repr() && 512 <= maxSendFragment <= SSL3_RT_MAX_PLAIN_LENGTH
      && pendingFlightOffset <= (if pendingFlight.Some? then |pendingFlight.value| else 0)
      && wire + writeBuffer.Contents() + Unsent() == Stream(records)
      && (wpendPending ==> wpendRet == wpendTot && 0 < wpendRet <= SSL3_RT_MAX_PLAIN_LENGTH)
    }

    lemma {:induction false} Sizes()
      requires Base()
      ensures 512 <= maxSendFragment <= SSL3_RT_MAX_PLAIN_LENGTH
    {}

    /** How many application bytes are in the record that waits. */
    function Waiting(): nat
      reads this
    {
      if wpendPending && wpendType == APPLICATION_DATA then wpendRet else 0
    }

    ghost predicate Valid()
      reads this, writeBuffer, writeBuffer.buf
    {
      Base() && Plain(records, 23) == settled + unsettled && |unsettled| == wnum + Waiting()
    }

    constructor (maxSendFragment: nat, overhead: nat, partialWrite: bool, movingBuffer: bool)
      requires 512 <= maxSendFragment <= SSL3_RT_MAX_PLAIN_LENGTH
      ensures Valid() && records == [] && wire == [] && fresh(Repr())
      ensures !writeShutdown && wnum == 0 && !wpendPending && pendingFlight == None && writeBuffer.Contents() == []
      ensures this.maxSendFragment == maxSendFragment && this.overhead == overhead && this.partialWrite == partialWrite && this.movingBuffer == movingBuffer
    {
      writeBuffer := new SSLBuffer();
      pendingFlight, pendingFlightOffset := None, 0;
      wnum, wpendPending, wpendTot, wpendBuf, wpendType, wpendRet := 0, false, 0, 0, 0, 0;
      writeShutdown := false;
      this.maxSendFragment, this.overhead, this.partialWrite, this.movingBuffer := maxSendFragment, overhead, partialWrite, movingBuffer;
      wire, records, settled, unsettled, refused, unsealed := [], [], [], [], 0, 0;
    }

    // -------------------------------------------------------------- the transport and the cipher

    /** BIO_write: the transport takes some of the bytes, or fails. */
    method BioWrite(data: bytes) returns (ret: int)
      requires |data| > 0
      modifies this`wire, this`refused
      ensures ret <= |data| && wire == old(wire) + if ret > 0 then data[..ret] else []
      ensures refused == old(refused) + if ret > 0 then 0 else 1
    {
      ret :| ret <= |data|;
      if ret > 0 {
        wire := wire + data[..ret];
      } else {
        refused := refused + 1;
      }
    }

    /** tls_seal_record, which may fail. */
    method Seal(maxOut: nat, plaintext: bytes) returns (ciphertext: Option<bytes>)
      modifies this`unsealed
      ensures unsealed == old(unsealed) + if ciphertext.Some? then 0 else 1
      ensures ciphertext.Some? ==> |ciphertext.value| <= maxOut && |ciphertext.value| <= |plaintext| + overhead
    {
      var works: bool := *;
      var c: bytes := *;
      if !works || |c| > maxOut || |c| > |plaintext| + overhead {
        unsealed := unsealed + 1;
        return None;
      }
      return Some(c);
    }

    // -------------------------------------------------------------- flushing

    /** One turn of the loop of tls_write_buffer_flush. */
    method PushBuffer() returns (ret: int)
      requires Base() && writeBuffer.size > 0
      modifies this`wire, this`refused, writeBuffer`offset, writeBuffer`size, writeBuffer`cap
      ensures Base() && old(wire) <= wire && (ret > 0 ==> writeBuffer.size < old(writeBuffer.size))
      ensures refused == old(refused) + if ret > 0 then 0 else 1
    {
      hide Stream, Plain;
      ghost var w, c, u := wire, writeBuffer.Contents(), Unsent();
      ret := BioWrite(writeBuffer.Contents());
      if ret <= 0 {
        assert w + [] == w;
        return;
      }
      writeBuffer.Consume(ret);
      Moved(w, c, ret, u);
    }

    /** tls_write_buffer_flush */
    method FlushBuffer() returns (ret: int)
      requires Base()
      modifies this`wire, this`refused, writeBuffer`buf, writeBuffer`offset, writeBuffer`size, writeBuffer`cap
      ensures Base() && old(wire) <= wire && (writeBuffer.buf == null || writeBuffer.buf == old(writeBuffer.buf))
      ensures ret > 0 ==> ret == 1 && writeBuffer.Contents() == []
      ensures refused == old(refused) + if ret > 0 then 0 else 1
    {
      hide Stream, Plain;
      while writeBuffer.size > 0
        invariant Base() && writeBuffer.buf == old(writeBuffer.buf) && old(wire) <= wire && refused == old(refused)
        decreases writeBuffer.size
      {
        ret := PushBuffer();
        if ret <= 0 {
          return;
        }
      }
      assert writeBuffer.Contents() == [];
      writeBuffer.Clear();
      return 1;
    }

    /** One turn of the loop of ssl3_flush_flight. */
    method PushFlight() returns (ret: int)
      requires Base() && writeBuffer.Contents() == [] && pendingFlight.Some? && pendingFlightOffset < |pendingFlight.value|
      modifies this`wire, this`refused, this`pendingFlightOffset
      ensures Base() && old(wire) <= wire && (ret > 0 ==> pendingFlightOffset > old(pendingFlightOffset))
      ensures refused == old(refused) + if ret > 0 then 0 else 1
    {
      hide Stream, Plain;
      ghost var w, u := wire, Unsent();
      ret := BioWrite(pendingFlight.value[pendingFlightOffset..]);
      if ret <= 0 {
        assert w + [] == w;
        return;
      }
      pendingFlightOffset := pendingFlightOffset + ret;
      assert Unsent() == u[ret..];
      Moved(w, u, ret, []);
      assert wire + [] == wire && w + [] == w && w + u + [] == w + u && wire + Unsent() + [] == wire + Unsent();
    }

    /** Releases a flight all of which was written. */
    method ReleaseFlight()
      requires Base() && writeBuffer.Contents() == [] && pendingFlight.Some? && pendingFlightOffset >= |pendingFlight.value|
      modifies this`pendingFlight, this`pendingFlightOffset
      ensures Base() && pendingFlight == None && wire == Stream(records)
    {
      hide Stream, Plain, SSLBuffer.Valid, SSLBuffer.Contents;
      assert Unsent() == [] && wire + [] + [] == wire;
      pendingFlight, pendingFlightOffset := None, 0;
    }

    /** ssl3_flush_flight. `flushed` is what BIO_flush answers. */
    method FlushFlight(flushed: bool) returns (ret: int)
      requires Valid()
      modifies this`wire, this`refused, this`pendingFlight, this`pendingFlightOffset,
               writeBuffer`buf, writeBuffer`offset, writeBuffer`size, writeBuffer`cap
      ensures Valid() && old(wire) <= wire && (writeBuffer.buf == null || writeBuffer.buf == old(writeBuffer.buf))
      ensures old(pendingFlight).None? ==> ret == 1 && wire == old(wire) && refused == old(refused) && writeBuffer.Contents() == old(writeBuffer.Contents())
      ensures old(pendingFlight).Some? ==>
                (ret > 0 <==> !writeShutdown && |old(pendingFlight).value| <= 0x7fff_ffff && refused == old(refused) && flushed)
      ensures ret > 0 ==> ret == 1 && pendingFlight == None && (old(pendingFlight).Some? ==> wire == Stream(records) && writeBuffer.Contents() == [])
      ensures ret <= 0 ==> pendingFlight == old(pendingFlight)
      ensures writeShutdown && old(pendingFlight).Some? ==> ret == -1 && wire == old(wire)
    {
      hide Stream, Plain, Base, SSLBuffer.Valid, SSLBuffer.Contents, Unsent;
      if pendingFlight.None? {
        return 1;
      }
      if writeShutdown {
        return -1;
      }
      if |pendingFlight.value| > INT_MAX {
        return -1;
      }
      BufferOk();
      if writeBuffer.size > 0 {
        ret := FlushBuffer();
        if ret <= 0 {
          return;
        }
      }
      BufferOk();
      while pendingFlightOffset < |pendingFlight.value|
        invariant Base() && writeBuffer.Valid() && pendingFlight.Some? && pendingFlight == old(pendingFlight)
        invariant writeBuffer.Contents() == [] && old(wire) <= wire && refused == old(refused)
        decreases |pendingFlight.value| - pendingFlightOffset
        modifies this`wire, this`refused, this`pendingFlightOffset
      {
        ret := PushFlight();
        if ret <= 0 {
          return;
        }
      }
      if !flushed {
        return -1;
      }
      ReleaseFlight();
      return 1;
    }

    lemma {:induction false} BufferOk()
      requires Base()
      ensures writeBuffer.Valid() && (writeBuffer.size == 0 <==> writeBuffer.Contents() == [])
    {}

    // -------------------------------------------------------------- handshake records

    /** add_record_to_flight */
    method AddRecordToFlight(typ: nat, data: bytes) returns (ok: bool)
      requires Valid() && pendingFlightOffset == 0 && typ != APPLICATION_DATA
      modifies this`pendingFlight, this`records, this`unsealed
      ensures Valid() && unchanged(writeBuffer) && pendingFlight.Some? && unsealed == old(unsealed) + if ok then 0 else 1
      ensures if ok then |records| == |old(records)| + 1 && old(records) <= records
                         && records[|old(records)|].typ == typ && records[|old(records)|].plaintext == data
              else records == old(records)
    {
      hide Stream, Plain, SSLBuffer.Valid, SSLBuffer.Contents;
      var flight := if pendingFlight.Some? then pendingFlight.value else [];
      assert Unsent() == flight;
      pendingFlight := Some(flight);
      var sealed := Seal(|data| + overhead, data);
      if sealed.None? {
        return false;
      }
      ghost var r := Record(typ, data, sealed.value);
      Appended(records, r);
      Behind(wire, writeBuffer.Contents(), flight, sealed.value);
      records := records + [r];
      pendingFlight := Some(flight + sealed.value);
      assert Unsent() == flight + sealed.value;
      return true;
    }

    /** ssl3_add_message: the message in records of at most maxSendFragment bytes. */
    method AddMessage(msg: bytes) returns (ok: bool)
      requires Valid() && pendingFlightOffset == 0
      modifies this`pendingFlight, this`records, this`unsealed
      ensures Valid() && old(records) <= records && unsealed == old(unsealed) + if ok then 0 else 1
      ensures forall i :: |old(records)| <= i < |records| - 1 ==> |records[i].plaintext| == maxSendFragment
      ensures ok ==> |records| > |old(records)| && (msg != [] ==> records[|records| - 1].plaintext != [])
      ensures forall i :: |old(records)| <= i < |records| ==> records[i].typ == 22 && |records[i].plaintext| <= maxSendFragment
      ensures ok ==> Plain(records, 22) == Plain(old(records), 22) + msg
      ensures Plain(old(records), 22) <= Plain(records, 22) <= Plain(old(records), 22) + msg
    {
      hide Stream, Plain, Base, Unsent, Waiting, SSLBuffer.Valid, SSLBuffer.Contents;
      Sizes();
      var rest := msg;
      ghost var n: nat := 0;
      while true
        invariant Valid() && old(records) <= records && pendingFlightOffset == 0 && unsealed == old(unsealed)
        invariant forall i :: |old(records)| <= i < |records| ==> |records[i].plaintext| == maxSendFragment
        invariant n > 0 ==> rest != []
        invariant n <= |msg| && rest == msg[n..] && Plain(records, HANDSHAKE) == Plain(old(records), HANDSHAKE) + msg[..n]
        invariant forall i :: |old(records)| <= i < |records| ==> records[i].typ == HANDSHAKE && |records[i].plaintext| <= maxSendFragment
        decreases |rest|
        modifies this`pendingFlight, this`records, this`unsealed
      {
        var chunk := if |rest| <= maxSendFragment then rest else rest[..maxSendFragment];
        rest := rest[|chunk|..];
        ghost var before := records;
        ok := AddRecordToFlight(HANDSHAKE, chunk);
        if !ok {
          return;
        }
        assert records == before + [records[|before|]];
        Appended(before, records[|before|]);
        assert msg[..n] + chunk == msg[..n + |chunk|];
        n := n + |chunk|;
        if |rest| == 0 {
          assert msg[..n] == msg;
          return;
        }
      }
    }

    // -------------------------------------------------------------- writing a record

    /** Not the retry that the waiting record needs: fewer bytes, another buffer or another type. */
    predicate BadRetry(typ: nat, len: nat, address: nat)
      reads this
    {
      wpendTot > len || (!movingBuffer && wpendBuf != address) || wpendType != typ
    }

    /** ssl3_write_pending */
    method WritePending(typ: nat, len: nat, address: nat) returns (ret: int)
      requires Base() && wpendPending
      modifies this`wire, this`refused, this`wpendPending, writeBuffer`buf, writeBuffer`offset, writeBuffer`size, writeBuffer`cap
      ensures ret > 0 <==> !old(BadRetry(typ, len, address)) && refused == old(refused)
      ensures Base() && old(refused) <= refused && (ret > 0 ==> writeBuffer.Contents() == []) && (writeBuffer.buf == null || writeBuffer.buf == old(writeBuffer.buf)) && old(wire) <= wire
      ensures ret > 0 ==> !wpendPending && ret == wpendRet <= len && wpendType == typ
      ensures ret <= 0 ==> wpendPending
      ensures old(BadRetry(typ, len, address)) ==>
                ret == -1 && wire == old(wire) && writeBuffer.Contents() == old(writeBuffer.Contents())
    {
      hide Stream, Plain, SSLBuffer.Valid, SSLBuffer.Contents;
      if wpendTot > len || (!movingBuffer && wpendBuf != address) || wpendType != typ {
        return -1;
      }
      ret := FlushBuffer();
      if ret <= 0 {
        return;
      }
      wpendPending := false;
      return wpendRet;
    }

    /** The unflushed handshake records go in front. */
    method MoveFlight()
      requires Base() && writeBuffer.Contents() == [] && |Unsent()| <= writeBuffer.cap
      modifies this`pendingFlight, this`pendingFlightOffset, writeBuffer`size, writeBuffer.buf
      ensures Base() && pendingFlight == None && writeBuffer.buf == old(writeBuffer.buf)
      ensures writeBuffer.cap == old(writeBuffer.cap) && writeBuffer.size == |old(Unsent())|
    {
      hide Stream, Plain, SSLBuffer.Valid, SSLBuffer.Contents;
      BufferOk();
      ghost var u := Unsent();
      if pendingFlight.Some? {
        var flight := pendingFlight.value[pendingFlightOffset..];
        writeBuffer.Write(flight);
        pendingFlight, pendingFlightOffset := None, 0;
        assert flight == u && wire + ([] + u) + [] == wire + [] + u;
      }
    }

    /** A record sealed onto the end of the buffer, with no flight behind it. */
    method SealIntoBuffer(typ: nat, data: bytes, room: nat) returns (ok: bool)
      requires Base() && pendingFlight == None && room <= writeBuffer.cap - writeBuffer.size
      modifies this`records, this`unsealed, writeBuffer`size, writeBuffer.buf
      ensures Base() && writeBuffer.buf == old(writeBuffer.buf) && unsealed == old(unsealed) + if ok then 0 else 1
      ensures if ok then OneMore(old(records), records, typ, data) else records == old(records)
    {
      hide Stream, Plain, SSLBuffer.Valid, SSLBuffer.Contents;
      BufferOk();
      var sealed := Seal(room, data);
      if sealed.None? {
        return false;
      }
      ghost var r, c := Record(typ, data, sealed.value), writeBuffer.Contents();
      Appended(records, r);
      writeBuffer.Write(sealed.value);
      records := records + [r];
      assert wire + (c + sealed.value) + [] == (wire + c + []) + sealed.value;
      return true;
    }

    /** The sealing half of do_ssl3_write: the flight that waits and a new record go into the empty buffer. */
    method SealNext(typ: nat, data: bytes) returns (ok: bool)
      requires Base() && writeBuffer.Contents() == []
      modifies this`records, this`unsealed, this`pendingFlight, this`pendingFlightOffset, writeBuffer.Repr()
      ensures Base() && fresh(Repr() - old(Repr())) && Failures() >= old(Failures())
      ensures ok <==> |data| + overhead + |old(Unsent())| <= 0xffff && Failures() == old(Failures())
      ensures ok ==> pendingFlight == None
      ensures if ok then OneMore(old(records), records, typ, data) else records == old(records)
    {
      hide Stream, Plain, SSLBuffer.Valid, SSLBuffer.Contents, Unsent;
      BufferOk();
      var flightLen := |Unsent()|;
      var granted := writeBuffer.EnsureCap(|data| + overhead + flightLen);
      if !granted {
        return false;
      }
      assert Base();
      MoveFlight();
      ok := SealIntoBuffer(typ, data, writeBuffer.cap - writeBuffer.size);
    }

    /** Sealing a record and memorizing the arguments, by which a bad retry is detected later. */
    method SealAndRemember(typ: nat, data: bytes, address: nat) returns (ok: bool)
      requires Base() && !wpendPending && writeBuffer.Contents() == [] && 0 < |data| <= SSL3_RT_MAX_PLAIN_LENGTH
      modifies this`records, this`unsealed, this`pendingFlight, this`pendingFlightOffset, this`wpendPending, this`wpendTot, this`wpendBuf,
               this`wpendType, this`wpendRet, writeBuffer.Repr()
      ensures Base() && fresh(Repr() - old(Repr())) && Failures() >= old(Failures())
      ensures ok <==> |data| + overhead + |old(Unsent())| <= 0xffff && Failures() == old(Failures())
      ensures if ok then OneMore(old(records), records, typ, data) else records == old(records) && !wpendPending
      ensures ok ==>
                pendingFlight == None && wpendPending && wpendRet == wpendTot == |data| && wpendBuf == address && wpendType == typ
    {
      hide Stream, Plain, SSLBuffer.Valid, SSLBuffer.Contents, Unsent, OneMore;
      ok := SealNext(typ, data);
      if ok {
        wpendTot, wpendBuf, wpendType, wpendRet, wpendPending := |data|, address, typ, |data|, true;
      }
    }

    /** What do_ssl3_write demands: the right retry, or a record of a legal size, an empty buffer, and room for it all. */
    ghost predicate Writable(typ: nat, len: nat, address: nat)
      reads this, writeBuffer
    {
      if wpendPending then !BadRetry(typ, len, address)
      else 0 < len <= 16384 && writeBuffer.size == 0 && len + overhead + |Unsent()| <= 0xffff
    }

    /** do_ssl3_write: writes a record, or goes on writing the one that waits. */
    method DoWrite(typ: nat, data: bytes, address: nat) returns (ret: int)
      requires Base()
      modifies this`wire, this`refused, this`unsealed, this`records, this`pendingFlight, this`pendingFlightOffset, this`wpendPending, this`wpendTot, this`wpendBuf,
               this`wpendType, this`wpendRet, writeBuffer.Repr()
      ensures Base() && fresh(Repr() - old(Repr())) && ret <= |data| && Failures() >= old(Failures())
      ensures ret > 0 <==> old(Writable(typ, |data|, address)) && Failures() == old(Failures())
      ensures ret > 0 ==> writeBuffer.Contents() == [] && pendingFlight == if old(wpendPending) then old(pendingFlight) else None
      ensures ret > 0 && old(wpendPending) ==> Unsent() == old(Unsent())
      ensures if old(wpendPending)
              then
                && records == old(records) && wpendType == old(wpendType) && wpendRet == old(wpendRet)
                && (if ret > 0 then !wpendPending && ret == wpendRet && wpendType == typ else wpendPending)
              else if ret > 0 then !wpendPending && ret == |data| && OneMore(old(records), records, typ, data)
              else if wpendPending then OneMore(old(records), records, typ, data) && wpendRet == |data| && wpendType == typ
              else records == old(records)
    {
      hide Stream, Plain, SSLBuffer.Valid, SSLBuffer.Contents, Unsent, OneMore;
      if wpendPending {
        ret := WritePending(typ, |data|, address);
        return;
      }
      BufferOk();
      if |data| > SSL3_RT_MAX_PLAIN_LENGTH || writeBuffer.size > 0 {
        return -1;
      }
      if |data| == 0 {
        return 0;
      }
      var ok := SealAndRemember(typ, data, address);
      if !ok {
        return -1;
      }
      ret := WritePending(typ, |data|, address);
    }

    /**
      ssl3_dispatch_alert, up to the flush of the transport. While a record of another type waits, the alert
      cannot be written, even if the bytes of that record have left with a flight.
     */
    method DispatchAlert(alert: bytes, address: nat) returns (ret: int)
      requires Valid() && |alert| == 2
      modifies this`wire, this`refused, this`unsealed, this`records, this`pendingFlight, this`pendingFlightOffset, this`wpendPending, this`wpendTot, this`wpendBuf,
               this`wpendType, this`wpendRet, writeBuffer.Repr()
      ensures Valid() && fresh(Repr() - old(Repr()))
      ensures old(wpendPending) && old(wpendType) != ALERT ==> ret <= 0
      ensures Failures() >= old(Failures()) && (ret > 0 <==> old(Writable(ALERT, 2, address)) && Failures() == old(Failures()))
      ensures if !old(wpendPending) && (ret > 0 || wpendPending) then OneMore(old(records), records, 21, alert) else records == old(records)
    {
      hide Stream, Plain, Base, Unsent;
      ghost var before := records;
      ret := DoWrite(ALERT, alert, address);
      if records != before { OneMoreOther(before, records, ALERT, alert); }
    }

    /** With tot bytes of the current write sent, what was sealed is accounted for. */
    ghost predicate Accounts(tot: nat)
      reads this
    {
      Plain(records, APPLICATION_DATA) == settled + unsettled && |unsettled| == tot + Waiting()
    }

    /** One turn of the loop of ssl3_write_app_data. */
    method WriteChunk(data: bytes, tot: nat, nw: nat, address: nat) returns (ret: int)
      requires Base() && Accounts(tot) && tot + nw <= |data|
      modifies this`wire, this`refused, this`unsealed, this`records, this`pendingFlight, this`pendingFlightOffset, this`wpendPending, this`wpendTot, this`wpendBuf,
               this`wpendType, this`wpendRet, this`unsettled, writeBuffer.Repr()
      ensures Base() && fresh(Repr() - old(Repr())) && ret <= nw && Failures() >= old(Failures())
      ensures ret > 0 <==> old(Writable(APPLICATION_DATA, nw, address)) && Failures() == old(Failures())
      ensures ret > 0 ==> !wpendPending && writeBuffer.Valid() && writeBuffer.Contents() == [] && |Unsent()| <= old(|Unsent()|)
      ensures Accounts(if ret > 0 then tot + ret else tot) && (ret > 0 ==> Waiting() == 0)
      ensures old(unsettled) <= unsettled && (old(unsettled) <= data ==> unsettled <= data)
      ensures ret > 0 ==> ret == if old(wpendPending) then old(wpendRet) else nw
      ensures records == old(records) || (!old(wpendPending) && OneMore(old(records), records, 23, data[tot..tot + nw]))
    {
      hide Stream, Plain, Base, SSLBuffer.Valid, SSLBuffer.Contents, Writable;
      ghost var before := records;
      ret := DoWrite(APPLICATION_DATA, data[tot..tot + nw], address);
      BufferOk();
      if records != before {
        OneMoreSealed(before, records, data[tot..tot + nw]);
        assert data[..tot] + data[tot..tot + nw] == data[..tot + nw];
        assert (settled + unsettled) + data[tot..tot + nw] == settled + (unsettled + data[tot..tot + nw]);
        unsettled := unsettled + data[tot..tot + nw];
      }
    }

    /** The first record of a call gets through the tests, and so does one with as much behind a flight. */
    ghost predicate Ready(n: nat, address: nat)
      reads this, writeBuffer
    {
      && Writable(APPLICATION_DATA, if n > maxSendFragment then maxSendFragment else n, address)
      && maxSendFragment + overhead + |Unsent()| <= 0xffff
    }

    /** The loop of ssl3_write_app_data: `sent` counts the bytes of the records that were written. */
    method WriteRest(data: bytes, tot: nat, address: nat) returns (ret: int, sent: nat)
      requires Base() && Accounts(tot) && tot <= |data|
      modifies this`wire, this`refused, this`unsealed, this`records, this`pendingFlight, this`pendingFlightOffset, this`wpendPending, this`wpendTot, this`wpendBuf,
               this`wpendType, this`wpendRet, this`unsettled, writeBuffer.Repr()
      ensures Base() && fresh(Repr() - old(Repr())) && Accounts(sent) && tot <= sent <= |data|
      ensures ret > 0 ==> Waiting() == 0 && sent > 0 && (partialWrite || sent == |data|)
      ensures Failures() >= old(Failures()) && (ret > 0 ==> Failures() == old(Failures()))
      ensures old(Ready(|data| - tot, address + tot)) && Failures() == old(Failures()) ==> ret > 0
      ensures old(unsettled) <= unsettled && (old(unsettled) <= data ==> unsettled <= data)
      ensures ret > 0 && partialWrite ==>
                sent == tot + if old(wpendPending) then old(wpendRet) else if |data| - tot > maxSendFragment then maxSendFragment else |data| - tot
      ensures old(records) <= records && FullRecords(records[|old(records)|..], maxSendFragment)
    {
      hide Stream, Plain, Base, Unsent, Accounts, SSLBuffer.Valid, SSLBuffer.Contents;
      sent := tot;
      var n: nat := |data| - tot;
      Sizes();
      while true
        invariant Base() && sent + n == |data| && tot <= sent && fresh(Repr() - old(Repr())) && Accounts(sent)
        invariant old(unsettled) <= unsettled && (old(unsettled) <= data ==> unsettled <= data)
        invariant Failures() == old(Failures()) && (old(Ready(|data| - tot, address + tot)) ==> Ready(n, address + sent))
        invariant partialWrite ==> sent == tot && wpendPending == old(wpendPending) && wpendRet == old(wpendRet)
        invariant old(records) <= records && forall i :: |old(records)| <= i < |records| ==> FullRecord(records[i], maxSendFragment)
        decreases n
      {
        var max := maxSendFragment;
        var nw := if n > max then max else n;
        ret := WriteChunk(data, sent, nw, address + sent);
        if ret <= 0 {
          return;
        }
        sent := sent + ret;
        if ret == n || partialWrite {
          return;
        }
        n := n - ret;
        BufferOk();
      }
    }

    /**
      ssl3_write_app_data, without early data. As long as the caller repeats its bytes, each of them is sealed
      exactly once and in order, over any number of interrupted calls: what the calls so far have sealed is
      always a beginning of the bytes, and exactly the bytes that a call reports once it succeeds.
     */
    method WriteAppData(data: bytes, len: int, address: nat) returns (ret: int)
      requires Valid() && (len >= 0 ==> len == |data|)
      modifies this`wire, this`refused, this`unsealed, this`records, this`pendingFlight, this`pendingFlightOffset, this`wnum, this`wpendPending, this`wpendTot,
               this`wpendBuf, this`wpendType, this`wpendRet, this`settled, this`unsettled, writeBuffer.Repr()
      ensures Valid() && fresh(Repr() - old(Repr()))
      ensures ret > 0 ==> unsettled == [] && ret <= len && (partialWrite || ret == len) && Failures() == old(Failures())
      ensures ret > 0 && partialWrite ==>
                ret == old(wnum) + if old(wpendPending) then old(wpendRet) else if len - old(wnum) > maxSendFragment then maxSendFragment else len - old(wnum)
      ensures old(records) <= records && FullRecords(records[|old(records)|..], maxSendFragment)
      ensures !writeShutdown && len >= old(wnum) && old(Ready(len - wnum, address + wnum)) && Failures() == old(Failures()) ==> ret > 0
      ensures ret > 0 && old(unsettled) <= data ==> settled == old(settled) + data[..ret]
      ensures ret <= 0 && old(unsettled) <= data && len >= old(wnum) ==> settled == old(settled) && old(unsettled) <= unsettled <= data
      ensures writeShutdown ==> ret == -1 && wire == old(wire) && records == old(records) && wnum == old(wnum) && wpendPending == old(wpendPending)
      ensures !writeShutdown && (len < 0 || len < old(wnum)) ==>
                ret == -1 && wnum == 0 && records == old(records) && settled == old(settled) + old(unsettled[..wnum])
    {
      hide Stream, Plain, Base, Unsent, FullRecords, SSLBuffer.Valid, SSLBuffer.Contents;
      NoRecords(records, maxSendFragment);
      if writeShutdown {
        return -1;
      }
      var tot: nat := wnum;
      wnum := 0;
      if len < 0 || len < tot {
        // How much was sent already is forgotten here.
        settled, unsettled := settled + unsettled[..tot], unsettled[tot..];
        return -1;
      }
      ret, tot := WriteRest(data, tot, address);
      if ret <= 0 {
        wnum := tot;
        return;
      }
      settled, unsettled := settled + unsettled, [];
      return tot;
    }
  }

  lemma {:induction false} OneMoreOther(before: seq<Record>, after: seq<Record>, typ: nat, data: bytes)
    requires OneMore(before, after, typ, data) && typ != APPLICATION_DATA
    ensures Plain(after, APPLICATION_DATA) == Plain(before, APPLICATION_DATA)
  {
    assert after == before + [after[|before|]];
    Appended(before, after[|before|]);
  }

  lemma {:induction false} OneMoreSealed(before: seq<Record>, after: seq<Record>, data: bytes)
    requires OneMore(before, after, APPLICATION_DATA, data)
    ensures Plain(after, APPLICATION_DATA) == Plain(before, APPLICATION_DATA) + data
  {
    assert after == before + [after[|before|]];
    Appended(before, after[|before|]);
  }

  /** One record of this type and content was sealed. */
  ghost predicate OneMore(before: seq<Record>, after: seq<Record>, typ: nat, data: bytes)
  {
    |after| == |before| + 1 && before <= after && after[|before|].typ == typ && after[|before|].plaintext == data
  }
}
