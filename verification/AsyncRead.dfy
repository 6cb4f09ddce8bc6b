/**
 AsyncReadBuffer of rosserial_server: a window that slides over a fixed memory and is refilled by
 hardware reads of whatever size.  Asynchronous completion is a method of its own: `Read` says what
 it would do next, and `Completed` is the callback of the hardware read it asked for.
 */
module AsyncRead {
  import opened Bytes

  /** What a read ends in: an error callback, a hardware read of at least `atLeast` and at most `room`
      bytes, or the success callback on `len` bytes of the memory from `start`. */
  datatype Reading =
    | NotPermitted
    | NoBufferSpace
    | Transfer(atLeast: nat, room: nat)
    | Ready(start: nat, len: nat)

  class AsyncReadBuffer {
    const mem: array<byte>
    var readIndex: nat
    var writeIndex: nat
    var requested: nat
    var refused: nat

    /** All bytes that the hardware has put into the memory, and all that were handed out. */
    ghost var received: seq<byte>
    ghost var delivered: seq<byte>

    ghost predicate Valid()
      reads `readIndex, `writeIndex
    {
      readIndex <= writeIndex <= mem.Length
    }

    /** The bytes received and not yet delivered. */
    ghost function Fifo(): (q: seq<byte>)
      requires Valid()
      reads `readIndex, `writeIndex, mem
      ensures |q| == writeIndex - readIndex
    {
      mem[readIndex..writeIndex]
    }

    /** Nothing is lost, duplicated or reordered: what was handed out and what is still queued is what came in. */
    ghost predicate Conserved()
      requires Valid()
      reads `readIndex, `writeIndex, `received, `delivered, mem
    {
      delivered + Fifo() == received
    }

    /** A hardware read is under way that will satisfy the request. */
    ghost predicate Pending()
      reads this
    {
      && Valid() && 0 < requested <= mem.Length
      && writeIndex - readIndex < requested <= mem.Length - readIndex
    }

    constructor (capacity: nat)
      ensures Valid() && fresh(mem) && mem.Length == capacity && Fifo() == []
      ensures requested == 0 && refused == 0 && received == [] && Conserved()
    {
      mem := new byte[capacity](_ => 0);
      readIndex, writeIndex, requested, refused := 0, 0, 0, 0;
      received, delivered := [], [];
    }

    /** memmove of the window to the start of the memory. */
    method Shift()
      requires Valid()
      modifies `readIndex, `writeIndex, mem
      ensures Valid() && Fifo() == old(Fifo()) && readIndex == 0 && (old(Conserved()) ==> Conserved())
      ensures requested == old(requested) && refused == old(refused)
    {
      var n, k := writeIndex - readIndex, 0;
      ghost var was := mem[..];
      while k < n
        invariant 0 <= k <= n
        invariant mem[..k] == was[readIndex..readIndex + k]
        invariant mem[readIndex + k..writeIndex] == was[readIndex + k..writeIndex]
        modifies mem
      {
        assert mem[readIndex + k] == was[readIndex + k..writeIndex][0];
        mem[k] := mem[readIndex + k];
        k := k + 1;
        assert mem[..k] == mem[..k - 1] + [was[readIndex + k - 1]];
      }
      writeIndex := n;
      readIndex := 0;
    }

    /** callSuccessCallback: hand out the requested bytes, clear the request, rewind an empty window. */
    method Succeed() returns (r: Reading)
      requires Valid() && requested <= writeIndex - readIndex
      modifies `readIndex, `writeIndex, `requested, `delivered
      ensures Valid() && requested == 0 && r.Ready? && r.len == old(requested) && r.start + r.len <= mem.Length
      ensures delivered == old(delivered) + old(Fifo())[..r.len] && (old(Conserved()) ==> Conserved())
      ensures mem[r.start..r.start + r.len] == old(Fifo())[..r.len]
      ensures Fifo() == old(Fifo())[r.len..]
    {
      ghost var q := Fifo();
      r := Ready(readIndex, requested);
      assert mem[readIndex..readIndex + requested] == q[..requested];
      assert mem[readIndex + requested..writeIndex] == q[requested..];
      assert delivered + q == delivered + q[..requested] + q[requested..];
      delivered := delivered + q[..requested];
      readIndex := readIndex + requested;
      requested := 0;
      if readIndex == writeIndex {
        readIndex, writeIndex := 0, 0;
      }
    }

    /** AsyncReadBuffer::read.  Bytes are neither lost nor reordered, a hardware read always has room for
        what is still needed, and what is delivered is the front of the queue. */
    method Read(n: nat) returns (r: Reading)
      requires Valid()
      modifies this, mem
      ensures Valid()
      ensures r.NotPermitted? <==> old(requested) != 0
      ensures r.NoBufferSpace? <==> old(requested) == 0 && n > mem.Length
      ensures r.Transfer? <==> old(requested) == 0 && |old(Fifo())| < n <= mem.Length
      ensures old(Conserved()) && !(r.NotPermitted? && refused > 3) ==> Conserved()
      ensures received == old(received)
      ensures delivered == if r.Ready? then old(delivered) + old(Fifo())[..n] else old(delivered)
      ensures r.NotPermitted? ==> refused == old(refused) + 1
      ensures r.NotPermitted? && refused <= 3 ==> requested == old(requested) && Fifo() == old(Fifo())
      ensures r.NotPermitted? && refused > 3 ==> requested == 0 && Fifo() == []
      ensures r.NoBufferSpace? ==> requested == n && Fifo() == old(Fifo())
      ensures r.Transfer? ==>
                && Pending() && requested == n && Fifo() == old(Fifo())
                && 0 < r.atLeast == n - |Fifo()| <= r.room == mem.Length - writeIndex
      ensures r.Ready? ==>
                && requested == 0 && r.len == n && r.start + n <= mem.Length && mem[..] == old(mem[..])
                && mem[r.start..r.start + n] == old(Fifo())[..n] && Fifo() == old(Fifo())[n..]
    {
      hide Conserved, Fifo;
      if requested != 0 {
        refused := refused + 1;
        if refused > 3 {
          requested := 0;
          readIndex, writeIndex := 0, 0;
        }
        return NotPermitted;
      }
      refused := 0;
      requested := n;
      if n > mem.Length {
        return NoBufferSpace;
      }
      var available := writeIndex - readIndex;
      if n > available {
        if mem.Length - writeIndex < n - available {
          Shift();
        }
        r := Transfer(n - available, mem.Length - writeIndex);
      } else {
        r := Succeed();
      }
    }

    /** AsyncReadBuffer::callback without an error: the hardware has put `chunk` behind the window. */
    method Completed(chunk: seq<byte>) returns (r: Reading)
      requires Pending()
      requires requested - (writeIndex - readIndex) <= |chunk| <= mem.Length - writeIndex
      modifies this, mem
      ensures Valid() && requested == 0 && refused == old(refused) && r.Ready? && r.len == old(requested)
      ensures received == old(received) + chunk && (old(Conserved()) ==> Conserved())
      ensures delivered == old(delivered) + (old(Fifo()) + chunk)[..r.len]
      ensures r.start + r.len <= mem.Length
      ensures var q := old(Fifo()) + chunk;
              mem[r.start..r.start + r.len] == q[..r.len] && Fifo() == q[r.len..]
    {
      hide Conserved, Fifo;
      Receive(chunk);
      r := Succeed();
    }

    /** The bytes of a hardware read. */
    method Receive(chunk: seq<byte>)
      requires Valid() && |chunk| <= mem.Length - writeIndex
      modifies `writeIndex, `received, mem
      ensures Valid() && Fifo() == old(Fifo()) + chunk && received == old(received) + chunk
      ensures old(Conserved()) ==> Conserved()
    {
      ghost var q, was := Fifo(), mem[..];
      var k := 0;
      while k < |chunk|
        invariant 0 <= k <= |chunk| && mem[readIndex..writeIndex + k] == q + chunk[..k]
        modifies mem
      {
        mem[writeIndex + k] := chunk[k];
        k := k + 1;
        assert mem[readIndex..writeIndex + k] == mem[readIndex..writeIndex + k - 1] + [chunk[k - 1]];
      }
      writeIndex := writeIndex + |chunk|;
      received := received + chunk;
      assert delivered + (q + chunk) == delivered + q + chunk;
    }

    /** AsyncReadBuffer::callback with an error; `aborted` is asio's operation_aborted, after which the owner
        is no longer told. */
    method Failed(aborted: bool) returns (report: bool)
      requires Valid()
      modifies `requested
      ensures Valid() && requested == 0 && Fifo() == old(Fifo()) && report == !aborted
    {
      requested := 0;
      report := !aborted;
    }
  }
}
