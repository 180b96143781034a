// SSLBuffer: a window with 16-bit bounds onto allocated memory.
module SslBuffer {
  import opened Basics

  const U16: nat := 0x1_0000
  const ALIGN: nat := 8   // SSL3_ALIGN_PAYLOAD

  /** What an SSLBuffer stands for: its memory and the window onto it. */
  datatype Memory = Memory(bytes: seq<byte>, offset: nat, size: nat) {
    predicate Valid() {
      offset < U16 && size < U16 && offset + size <= |bytes|
    }

    predicate Whole() {
      offset + size <= U16
    }

    function Contents(): (s: seq<byte>)
      requires Valid()
    {
      bytes[offset..offset + size]
    }

    /** The arithmetic is done in 16 bits. */
    function Consumed(len: nat): (m: Memory)
      requires Valid() && len <= size
      ensures m.Valid()
    {
      Memory(bytes, (offset + len) % U16, size - len)
    }
  }

  class SSLBuffer {
    var buf: array?<byte>
    var offset: nat   // uint16_t, like the next two
    var size: nat
    var cap: nat

    ghost predicate Valid()
      reads this
    {
      && offset < U16 && cap < U16 && size <= cap
      && (if buf == null then cap == 0 else offset + cap <= buf.Length)
    }

    /** The window ends where 16 bits can still say. */
    predicate Whole()
      reads this
    {
      offset + size <= U16
    }

    ghost function Model(): (m: Memory)
      requires Valid()
      reads this, buf
      ensures m.Valid() && m.Contents() == Contents() && m.size == size && (size > 0 ==> m.offset == offset)
    {
      if buf == null then Memory([], 0, 0) else Memory(buf[..], offset, size)
    }

    ghost function Contents(): (s: seq<byte>)
      requires Valid()
      reads this, buf
      ensures |s| == size
    {
      if buf == null then [] else buf[offset..offset + size]
    }

    constructor ()
      ensures Valid() && Contents() == [] && buf == null && offset == 0
    {
      buf, offset, size, cap := null, 0, 0, 0;
    }

    /** The bytes from `data()` on. */
    method Data() returns (s: seq<byte>)
      requires Valid()
      ensures s == Contents()
    {
      s := if buf == null then [] else buf[offset..offset + size];
    }

    method Clear()
      modifies this
      ensures Valid() && Contents() == [] && buf == null && offset == 0
    {
      buf, offset, size, cap := null, 0, 0, 0;
    }

    /** `slack` is what the address of the new memory makes of the alignment. */
    method EnsureCap(newCap: nat, slack: nat) returns (ok: bool)
      requires Valid() && slack < ALIGN
      modifies this
      ensures Valid() && Contents() == old(Contents())
      ensures ok <==> newCap < U16
      ensures ok ==> cap >= newCap && size == old(size)
      ensures buf == old(buf) || fresh(buf)
      ensures offset == old(offset) || offset == slack
      ensures !ok ==> offset == old(offset) && cap == old(cap) && buf == old(buf)
    {
      if newCap >= U16 {
        return false;
      }
      if cap >= newCap {
        return true;
      }
      var newBuf := new byte[newCap + ALIGN - 1](_ => 0);
      if buf != null {
        for i := 0 to size
          invariant buf == old(buf) && offset == old(offset) && size == old(size) && cap == old(cap)
          invariant fresh(newBuf) && newBuf != buf
          invariant newBuf[slack..slack + i] == buf[offset..offset + i]
          modifies newBuf
        {
          newBuf[slack + i] := buf[offset + i];
        }
      }
      buf, offset, cap := newBuf, slack, newCap;
      ok := true;
    }

    /** Fills `remaining()` with `b` and records it with `DidWrite`. */
    method Append(b: seq<byte>)
      requires Valid() && |b| <= cap - size && buf != null
      modifies this`size, buf
      ensures Valid() && Contents() == old(Contents()) + b
    {
      var at := offset + size;
      for i := 0 to |b|
        invariant forall k :: 0 <= k < buf.Length ==> buf[k] == if at <= k < at + i then b[k - at] else old(buf[k])
        modifies buf
      {
        buf[at + i] := b[i];
      }
      size := size + |b|;
    }

    /** The three subtractions are done in 16 bits. */
    method Consume(len: nat)
      requires Valid() && len <= size && buf != null
      modifies this`offset, this`size, this`cap
      ensures Valid() && size == old(size) - len && cap == old(cap) - len
      ensures offset == (old(offset) + len) % U16
      ensures Model() == old(Model()).Consumed(len)
      ensures old(offset) + len < U16 || len == old(size) ==> Contents() == old(Contents())[len..]
    {
      ghost var m := Model();
      offset := (offset + len) % U16;
      size := size - len;
      cap := cap - len;
      assert Model() == m.Consumed(len);
      hide Model, Contents;
      assert Contents() == Model().Contents();
    }
  }

  function Window(memory: seq<byte>, offset: nat, size: nat): seq<byte>
    requires offset + size <= |memory|
  {
    memory[offset..offset + size]
  }

  /** Consuming `len` bytes leaves the rest of the contents, whatever the memory
      holds, exactly when the 16-bit offset does not wrap - or nothing is left. */
  lemma ConsumeIsExact(length: nat, offset: nat, size: nat, len: nat)
    requires len <= size && offset < U16 && size < U16 && offset + size <= length
    ensures (forall memory: seq<byte> | |memory| == length ::
               Window(memory, (offset + len) % U16, size - len) == Window(memory, offset, size)[len..])
            <==> offset + len < U16 || size == len
  {
    if offset + len >= U16 && len < size {
      var memory: seq<byte> := seq(length, k => if k == offset + len then 1 else 0);
      var wrapped := (offset + len) % U16;
      assert wrapped < offset + len;
      assert Window(memory, wrapped, size - len)[0] == 0;
      assert Window(memory, offset, size)[len..][0] == 1;
    }
  }
}
