/** The byte cursor: a read-only `[begin, end)` window on a byte buffer.

    In C the cursor is a pair of pointers into one buffer; here the buffer is an
    array and the two pointers are indices into it. */
module Cursor {
  import opened Bytes

  datatype CursorU8 = CursorU8(buf: array<byte>, begin: nat, end: nat) {

    /** Both pointers lie in the buffer, begin not after end. */
    predicate Valid()
    {
      begin <= end <= buf.Length
    }

    /** `end - begin`: the number of bytes the cursor can read. */
    function Size(): nat
      requires Valid()
    {
      end - begin
    }

    /** The bytes the cursor can read, in order. */
    function View(): (v: seq<byte>)
      reads buf
      requires Valid()
      ensures |v| == Size()
    {
      buf[begin..end]
    }
  }

  /** `Cursor_u8_from(buf, sz)`: begin is the start of buf and end is `buf + sz`,
      so the cursor sees exactly the first sz bytes of the buffer. */
  function From(buf: array<byte>, sz: nat): (c: CursorU8)
    reads buf
    requires sz <= buf.Length
    ensures c.Valid() && c.buf == buf && c.begin == 0
    ensures c.Size() == sz && c.View() == buf[..sz]
  {
    CursorU8(buf, 0, sz)
  }
}
