/**
  SSLBuffer: a queue of bytes in memory that is granted when needed, filled at the end and consumed
  from the front.
 */
module TlsBuffer {
  import opened Words

  const SSL3_ALIGN_PAYLOAD := 8
  const MAX_CAP := 0xffff

  class SSLBuffer {
    var buf: array?<byte>
    var offset: nat
    var size: nat
    var cap: nat
    ghost var denied: nat     // how often memory was asked for and not granted

    ghost predicate Valid()
      reads this, buf
    {
      && size <= cap <= MAX_CAP
      && (if buf == null then offset == 0 && size == 0 && cap == 0 else offset + cap <= buf.Length)
    }

    ghost function Repr(): set<object>
      reads this
    {
      if buf == null then {this} else {this, buf}
    }

    /** The bytes in the queue. */
    function Contents(): bytes
      requires Valid()
      reads this, buf
    {
      if buf == null then [] else buf[offset..offset + size]
    }

    constructor ()
      ensures Valid() && Contents() == [] && buf == null && denied == 0
    {
      buf, offset, size, cap, denied := null, 0, 0, 0, 0;
    }

    /** Releases the memory. */
    method Clear()
      modifies this`buf, this`offset, this`size, this`cap
      ensures Valid() && Contents() == [] && buf == null && cap == 0
    {
      buf, offset, size, cap := null, 0, 0, 0;
    }

    /** malloc, which may fail. */
    method Allocate() returns (granted: bool)
      modifies this`denied
      ensures denied == old(denied) + if granted then 0 else 1
    {
      granted := *;
      if !granted {
        denied := denied + 1;
      }
    }

    /** Makes room without touching the contents. Allocation may fail, and where it aligns the data is its own business. */
    method EnsureCap(newCap: nat) returns (ok: bool)
      requires Valid()
      modifies this
      ensures Valid() && fresh(Repr() - old(Repr())) && Contents() == old(Contents())
      ensures old(denied) <= denied && (ok <==> newCap <= 0xffff && denied == old(denied))
      ensures ok ==> cap >= newCap
      ensures !ok ==> cap == old(cap) && buf == old(buf)
    {
      if newCap > MAX_CAP {
        return false;
      }
      if cap >= newCap {
        return true;
      }
      var granted := Allocate();
      if !granted {
        return false;
      }
      var newBuf := new byte[newCap + SSL3_ALIGN_PAYLOAD - 1](_ => 0);
      var newOffset: nat :| newOffset < SSL3_ALIGN_PAYLOAD;
      ghost var contents := Contents();
      if buf != null {
        CopyInto(newBuf, newOffset, buf[offset..offset + size]);
      }
      assert newBuf[newOffset..newOffset + size] == contents;
      buf, offset, cap := newBuf, newOffset, newCap;
      return true;
    }

    /** Filling the start of the remaining space, and DidWrite. */
    method Write(data: bytes)
      requires Valid() && |data| <= cap - size
      modifies this`size, buf
      ensures Valid() && buf == old(buf) && cap == old(cap) && Contents() == old(Contents()) + data && size == old(size) + |data|
    {
      if buf == null {
        return;
      }
      CopyInto(buf, offset + size, data);
      assert buf[offset..offset + size] == old(Contents());
      assert buf[offset + size..offset + size + |data|] == data;
      assert buf[offset..offset + size + |data|] == buf[offset..offset + size] + buf[offset + size..offset + size + |data|];
      size := size + |data|;
    }

    /** Takes bytes off the front; the lengths are 16-bit. */
    method Consume(len: nat)
      requires Valid() && len <= size
      modifies this`offset, this`size, this`cap
      ensures Valid() && Contents() == old(Contents())[len..] && size == old(size) - len
    {
      if buf == null {
        return;
      }
      offset := offset + len % 0x1_0000;
      size := size - len % 0x1_0000;
      cap := cap - len % 0x1_0000;
    }
  }
}
