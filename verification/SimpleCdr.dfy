/** SimpleCdr of rosserial_server: the little-endian writer of frame parts into a buffer of fixed size. */
module SimpleCdr {
  import opened Bytes
  import opened Frames

  class Writer {
    const buffer: array<byte>
    var offset: nat

    ghost predicate Valid()
      reads this
    {
      offset <= buffer.Length
    }

    ghost function Written(): (s: seq<byte>)
      requires Valid()
      reads this, buffer
    {
      buffer[..offset]
    }

    constructor (size: nat)
      ensures Valid() && fresh(buffer) && buffer.Length == size && offset == 0 && Written() == []
    {
      buffer := new byte[size](_ => 0);
      offset := 0;
    }

    /** operator<< of a vector.  `ok` is false when check_space throws; then nothing is written. */
    method PutBytes(data: seq<byte>) returns (ok: bool)
      requires Valid()
      modifies this, buffer
      ensures Valid() && ok == (old(offset) + |data| <= buffer.Length)
      ensures Written() == if ok then old(Written()) + data else old(Written())
      ensures offset == if ok then old(offset) + |data| else old(offset)
    {
      ok := offset + |data| <= buffer.Length;
      if ok {
        var k := 0;
        while k < |data|
          invariant 0 <= k <= |data|
          invariant buffer[..offset + k] == old(Written()) + data[..k]
          modifies buffer
        {
          buffer[offset + k] := data[k];
          k := k + 1;
        }
        offset := offset + |data|;
      }
    }

    /** operator<< of a byte. */
    method PutByte(b: byte) returns (ok: bool)
      requires Valid()
      modifies this, buffer
      ensures Valid() && ok == (old(offset) + 1 <= buffer.Length)
      ensures Written() == if ok then old(Written()) + [b] else old(Written())
      ensures offset == if ok then old(offset) + 1 else old(offset)
    {
      ok := offset + 1 <= buffer.Length;
      if ok {
        buffer[offset] := b;
        offset := offset + 1;
      }
    }

    /** operator<< of a 16-bit value. */
    method PutU16(v: u16) returns (ok: bool)
      requires Valid()
      modifies this, buffer
      ensures Valid() && ok == (old(offset) + 2 <= buffer.Length)
      ensures Written() == if ok then old(Written()) + [Lo(v), Hi(v)] else old(Written())
      ensures offset == if ok then old(offset) + 2 else old(offset)
    {
      ok := offset + 2 <= buffer.Length;
      if ok {
        buffer[offset] := v % 256;
        buffer[offset + 1] := v / 256;
        offset := offset + 2;
      }
    }
  }
}
