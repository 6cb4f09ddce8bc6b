/**
 The receiving half of rosserial_server's Session: the read chain driven by AsyncReadBuffer, and the
 sending half, write_message.
 */
module Session {
  import opened Bytes
  import opened Frames
  import opened ServerChain
  import opened AsyncRead
  import opened SimpleCdr

  class Receiver {
    const buffer: AsyncReadBuffer
    var stage: Stage
    var active: bool

    /** What read_body handed to the callbacks. */
    var log: seq<Delivery>

    /** How many bytes the callbacks have taken. */
    var consumed: nat

    /** All bytes that came from the hardware. */
    ghost var received: seq<byte>

    ghost predicate Shape()
      reads this, buffer
    {
      && buffer.Valid() && 5 <= buffer.mem.Length < 0x1_0000 && Waiting(stage, buffer.mem.Length)
    }

    /** Whatever pieces the bytes came in, stage, queue and log are those of the pure chain on the whole
        stream. */
    ghost predicate Valid()
      reads this, buffer, buffer.mem
    {
      && Shape()
      && var r := Chain(SyncFirst, received, 0, buffer.mem.Length);
         && r.stage == stage && r.log == log
         && (active <==> !stage.Stopped?) && consumed == |received| - |r.left|
         && (active ==> r.left == buffer.Fifo() && buffer.Pending() && buffer.requested == Need(stage))
    }

    /** Session::start: the first read_sync_header. */
    constructor (capacity: nat)
      requires 5 <= capacity < 0x1_0000
      ensures Valid() && active && received == [] && log == []
      ensures fresh(buffer) && fresh(buffer.mem) && buffer.mem.Length == capacity
    {
      var b := new AsyncReadBuffer(capacity);
      var r := b.Read(1);
      buffer, stage, active, log, consumed, received := b, SyncFirst, true, [], 0, [];
    }

    /** A hardware read completes with `chunk`; the callbacks run until one needs the hardware again. */
    method OnBytes(chunk: seq<byte>)
      requires Valid() && active
      requires buffer.requested - |buffer.Fifo()| <= |chunk| <= buffer.mem.Length - buffer.writeIndex
      modifies this, buffer, buffer.mem
      ensures Valid() && received == old(received) + chunk
    {
      hide Chain, Then, Served, AsyncReadBuffer.Fifo, AsyncReadBuffer.Valid, AsyncReadBuffer.Pending, Valid;
      var r, queue := Arrive(chunk);
      ghost var whole := Chain(SyncFirst, received, 0, buffer.mem.Length);
      while r.Ready?
        invariant Shape() && received == old(received) + chunk && consumed + |queue| == |received|
        invariant Served(r, queue) && whole == Then(log, Chain(stage, queue, consumed, buffer.mem.Length))
        decreases |queue|
      {
        r, queue := Round(r, queue, whole);
      }
      Finish(r, queue);
    }

    /** The callback of AsyncReadBuffer takes the bytes in. */
    method Arrive(chunk: seq<byte>) returns (r: Reading, ghost queue: seq<byte>)
      requires Valid() && active
      requires buffer.requested - |buffer.Fifo()| <= |chunk| <= buffer.mem.Length - buffer.writeIndex
      modifies `received, buffer, buffer.mem
      ensures Shape() && received == old(received) + chunk && consumed + |queue| == |received|
      ensures Served(r, queue)
      ensures Chain(SyncFirst, received, 0, buffer.mem.Length) == Then(log, Chain(stage, queue, consumed, buffer.mem.Length))
    {
      hide Chain, Then;
      queue := buffer.Fifo() + chunk;
      ChunksAreInvisible(SyncFirst, received, chunk, 0, buffer.mem.Length);
      received := received + chunk;
      r := buffer.Completed(chunk);
    }

    /** One callback of the chain and the read it asks for. */
    method Round(r: Reading, ghost queue: seq<byte>, ghost whole: Outcome) returns (r': Reading, ghost rest: seq<byte>)
      requires Shape() && r.Ready? && Served(r, queue)
      requires whole == Then(log, Chain(stage, queue, consumed, buffer.mem.Length))
      modifies `stage, `active, `log, `consumed, buffer, buffer.mem
      ensures Shape() && |rest| < |queue| && consumed + |rest| == old(consumed) + |queue|
      ensures Served(r', rest) && whole == Then(log, Chain(stage, rest, consumed, buffer.mem.Length))
    {
      hide Chain, Then, React;
      var s := buffer.mem[r.start..r.start + r.len];
      rest := queue[r.len..];
      ghost var log0 := log;
      Split(queue, s, rest);
      ChainStep(stage, s, rest, consumed, buffer.mem.Length);
      ghost var (st', d) := React(stage, s, consumed, buffer.mem.Length);
      ThenThen(log, d, Chain(st', rest, consumed + |s|, buffer.mem.Length));
      hide Served, Waiting;
      var want := Callback(s);
      assert buffer.Fifo() == rest;
      r' := Ask(want);
    }

    /** When the hardware is needed again, the session has done what the pure chain does. */
    lemma Finish(r: Reading, queue: seq<byte>)
      requires Shape() && !r.Ready? && Served(r, queue) && consumed + |queue| == |received|
      requires Chain(SyncFirst, received, 0, buffer.mem.Length) == Then(log, Chain(stage, queue, consumed, buffer.mem.Length))
      ensures Valid()
    {
      hide Chain, React;
      ChainShort(stage, queue, consumed, buffer.mem.Length);
      assert log + [] == log;
    }

    /** Where a round of the chain stands: bytes handed out, more wanted from the hardware, or stopped. */
    ghost predicate Served(r: Reading, queue: seq<byte>)
      requires buffer.Valid()
      reads this, buffer, buffer.mem
    {
      match r
      case Ready(start, len) =>
        && active && !stage.Stopped? && buffer.requested == 0 && len == Need(stage) <= |queue|
        && start + len <= buffer.mem.Length
        && buffer.mem[start..start + len] == queue[..len] && buffer.Fifo() == queue[len..]
      case Transfer(_, _) =>
        && active && !stage.Stopped? && buffer.Pending() && buffer.requested == Need(stage)
        && buffer.Fifo() == queue && |queue| < Need(stage)
      case NotPermitted => stage.Stopped? && !active
      case NoBufferSpace => false
    }

    /** Runs the callback that waits at the current stage; what it wants to read next. */
    method Callback(s: seq<byte>) returns (want: Stage)
      requires Shape() && !stage.Stopped? && |s| == Need(stage)
      modifies `log, `consumed
      ensures var (st', d) := React(stage, s, old(consumed), buffer.mem.Length);
              st' == Fitting(want, buffer.mem.Length) && log == old(log) + d
      ensures consumed == old(consumed) + |s| && Askable(want)
    {
      ghost var at := consumed;
      consumed := consumed + |s|;
      match stage
      case SyncFirst => want := if s[0] == 0xff then SyncSecond else SyncFirst; assert log + [] == log;
      case SyncSecond => want := if s[0] == 0xfe then IdLength else SyncFirst; assert log + [] == log;
      case IdLength => want := ReadIdLength(s); assert log + [] == log;
      case Body(topic, n) => want := ReadBody(s, topic);
    }

    /** read_id_length. */
    method ReadIdLength(s: seq<byte>) returns (want: Stage)
      requires Shape() && |s| == 5
      ensures React(IdLength, s, consumed, buffer.mem.Length) == (Fitting(want, buffer.mem.Length), []) && Askable(want)
    {
      FromLoHi(s[0], s[1]);
      FromLoHi(s[3], s[4]);
      var length: u16 := s[0] as int + 256 * s[1] as int;
      if s[2] as nat + Checksum16(length) != 0xff {
        return SyncFirst;
      }
      var topic: u16 := s[3] as int + 256 * s[4] as int;
      want := Body(topic, length + 1);
    }

    /** read_body. */
    method ReadBody(s: seq<byte>, topic: u16) returns (want: Stage)
      requires Shape() && 1 <= |s| <= 0x1_0000 && |s| <= buffer.mem.Length && |s| <= consumed
      modifies `log
      ensures want == SyncFirst
      ensures React(Body(topic, |s|), s, consumed - |s|, buffer.mem.Length).0 == SyncFirst
      ensures log == old(log) + React(Body(topic, |s|), s, consumed - |s|, buffer.mem.Length).1
    {
      want := SyncFirst;
      var sum := ChecksumOf(s);
      if (sum as nat + Checksum16(topic)) % 256 == 0xff {
        log := log + [Delivery(consumed, topic, s[..|s| - 1])];
      } else {
        assert log + [] == log;
      }
    }

    /** async_read_buffer_.read for the next callback.  When the buffer is too small, read_failed asks for a
        sync byte instead, which is refused because the failed request is still recorded, and that stops
        the session. */
    method Ask(want: Stage) returns (r: Reading)
      requires Shape() && buffer.requested == 0 && active && Askable(want)
      modifies `stage, `active, buffer, buffer.mem
      ensures Shape() && stage == Fitting(want, buffer.mem.Length)
      ensures Served(r, old(buffer.Fifo()))
    {
      stage := want;
      r := buffer.Read(Need(want));
      if r.NoBufferSpace? {
        r := buffer.Read(1);
        stage, active := Stopped, false;
      }
    }
  }

  lemma Split(q: seq<byte>, a: seq<byte>, b: seq<byte>)
    requires |a| <= |q| && a == q[..|a|] && b == q[|a|..]
    ensures q == a + b
  {
  }

  predicate Askable(want: Stage) { !want.Stopped? && 1 <= Need(want) <= 0x1_0000 }

  function Fitting(want: Stage, capacity: nat): Stage {
    if Need(want) > capacity then Stopped else want
  }

  /** The loop of Session::checksum after `k` rounds, or where it ended before: its counter, a uint16_t, and the sum. */
  function Rounds(s: seq<byte>, k: nat): (u16, byte) {
    if k == 0 then (0, 0) else
    var (i, sum) := Rounds(s, k - 1);
    if i < |s| then ((i + 1) % 0x1_0000, (sum as nat + s[i]) % 256) else (i, sum)
  }

  lemma {:induction false} CounterCounts(s: seq<byte>, k: nat)
    requires k <= |s| < 0x1_0000
    ensures Rounds(s, k).0 == k
  {
    if k > 0 { CounterCounts(s, k - 1); }
  }

  /** The loop ends if and only if the buffer has fewer than 65536 bytes: otherwise the counter wraps around before it gets
      to the end. */
  lemma ChecksumEndsIff(s: seq<byte>)
    ensures (exists k: nat :: Rounds(s, k).0 >= |s|) <==> |s| < 0x1_0000
  {
    hide Rounds;
    if |s| < 0x1_0000 {
      CounterCounts(s, |s|);
      assert Rounds(s, |s|).0 >= |s|;
    }
  }

  /** Session::checksum of a buffer on which it ends: a byte that wraps around. */
  method ChecksumOf(s: seq<byte>) returns (sum: byte)
    requires |s| < 0x1_0000
    ensures sum == Sum(s) % 256 && sum == Rounds(s, |s|).1
  {
    sum := 0;
    var i: u16 := 0;
    assert s[..0] == [];
    while i < |s|
      invariant 0 <= i <= |s| && sum == Sum(s[..i]) % 256 && (i, sum) == Rounds(s, i)
      decreases |s| - i
    {
      SumOneMore(s, i);
      sum := (sum as nat + s[i]) % 256;
      i := (i + 1) % 0x1_0000;
    }
    assert s[..i] == s;
  }

  lemma SumOneMore(s: seq<byte>, i: nat)
    requires i < |s|
    ensures Sum(s[..i + 1]) % 256 == (Sum(s[..i]) % 256 + s[i]) % 256
  {
    assert s[..i + 1] == s[..i] + [s[i]];
    SumAppend(s[..i], [s[i]]);
    assert Sum([s[i]]) == s[i];
    ModOfSum(Sum(s[..i]), s[i]);
  }

  /** Session::write_message: what it hands to the socket, or nothing when SimpleCdr throws.  The length of
      the frame is kept in 16 bits, so that the buffer made for a message of 65528 bytes or more is too
      small for its frame.  On messages of 65536 bytes or more checksum does not end; see ChecksumEndsIff. */
  method WriteMessage(message: seq<byte>, topic: u16) returns (wire: seq<byte>, thrown: bool)
    requires |message| < 0x1_0000
    ensures thrown <==> |message| + 8 >= 0x1_0000
    ensures !thrown ==> wire == Frame(topic, message)
  {
    hide Complement, Checksum16, Header, Sum, BodySum;
    var length: u16 := (8 + |message|) % 0x1_0000;
    var sum := ChecksumOf(message);
    BodyCheck(message, topic, sum);
    var stream := new Writer(length);
    wire := [];
    var ok := StreamHeader(stream, |message|, topic);
    if !ok { return [], true; }
    ok := stream.PutBytes(message);
    if !ok { return [], true; }
    ok := stream.PutByte((255 - (sum as int + Checksum16(topic) as int)) % 256);
    if !ok { return [], true; }
    assert stream.buffer[..] == stream.Written();
    return stream.buffer[..], false;
  }

  /** The parts of the stream before the message. */
  method StreamHeader(stream: Writer, n: u16, topic: u16) returns (ok: bool)
    requires stream.Valid() && stream.offset == 0
    modifies stream, stream.buffer
    ensures stream.Valid() && ok == (7 <= stream.buffer.Length)
    ensures ok ==> stream.offset == 7 && stream.Written() == Header(n, topic)
  {
    assert Lo(0xfeff) == 0xff && Hi(0xfeff) == 0xfe;
    LengthCheck(n);
    hide Complement, Checksum16, Lo, Hi;
    Parts(0xff, 0xfe, Lo(n), Hi(n), 255 - Checksum16(n), Lo(topic), Hi(topic));
    ok := stream.PutU16(0xfeff);
    if !ok { return; }
    ok := stream.PutU16(n);
    if !ok { return; }
    ok := stream.PutByte(255 - Checksum16(n));
    if !ok { return; }
    ok := stream.PutU16(topic);
  }

  lemma Parts(a: byte, b: byte, c: byte, d: byte, e: byte, f: byte, g: byte)
    ensures [] + [a, b] + [c, d] + [e] + [f, g] == [a, b, c, d, e, f, g]
  {
  }

  lemma LengthCheck(n: u16)
    ensures 255 - Checksum16(n) == Complement(Lo(n) as nat + Hi(n))
  {
    Checksum16Is(n);
  }

  lemma BodyCheck(message: seq<byte>, topic: u16, sum: byte)
    requires sum == Sum(message) % 256
    ensures (255 - (sum as int + Checksum16(topic) as int)) % 256 == Complement(BodySum(topic, message))
  {
    Checksum16Is(topic);
    hide Lo, Hi, Checksum16, Sum;
    var x := sum as nat + Checksum16(topic);
    ModOfSum(Sum(message), Lo(topic) as nat + Hi(topic));
    assert (255 - x) % 256 == 255 - x % 256;
  }
}
