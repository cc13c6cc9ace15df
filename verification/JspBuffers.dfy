/** The two circular buffers of the JTAG serial port server. */
module JspBuffers {
  import opened Common

  const SIZE: nat := 256

  // ------------------------------------------------------------------ windows of a circular buffer

  /** The index `i` places behind `start`. */
  function Slot(start: nat, i: nat): (s: nat)
    ensures s < SIZE
  {
    (start + i) % SIZE
  }

  /** The `n` bytes from `start` on, around the end of the buffer. */
  function Window(b: seq<byte>, start: nat, n: nat): (w: seq<byte>)
    requires |b| == SIZE
    ensures |w| == n
  {
    seq(n, i requires 0 <= i => b[Slot(start, i)])
  }

  lemma SlotsDistinct(start: nat, i: nat, j: nat)
    requires i < j < i + SIZE
    ensures Slot(start, i) != Slot(start, j)
  {
  }

  lemma SlotOnwards(start: nat, k: nat, i: nat)
    ensures Slot(Slot(start, k), i) == Slot(start, k + i)
  {
  }

  lemma WindowAppend(b: seq<byte>, start: nat, n: nat, x: byte)
    requires |b| == SIZE && n < SIZE
    ensures Window(b[Slot(start, n) := x], start, n + 1) == Window(b, start, n) + [x]
  {
    forall i | 0 <= i < n ensures Slot(start, i) != Slot(start, n) {
      SlotsDistinct(start, i, n);
    }
  }

  lemma WindowDrop(b: seq<byte>, start: nat, n: nat, k: nat)
    requires |b| == SIZE && k <= n
    ensures Window(b, Slot(start, k), n - k) == Window(b, start, n)[k..]
  {
    forall i | 0 <= i < n - k ensures Slot(Slot(start, k), i) == Slot(start, k + i) {
      SlotOnwards(start, k, i);
    }
  }

  /** A piece of the array that does not reach around its end is the front of the window. */
  lemma WindowFront(b: seq<byte>, start: nat, n: nat, k: nat)
    requires |b| == SIZE && k <= n && start + k <= SIZE
    ensures b[start..start + k] == Window(b, start, n)[..k]
  {
    forall i | 0 <= i < k ensures b[start..start + k][i] == Window(b, start, n)[..k][i] {
      InFront(start, i);
    }
  }

  lemma InFront(start: nat, i: nat)
    requires start + i < SIZE
    ensures Slot(start, i) == start + i
  {
  }

  // ------------------------------------------------------------------ overrun

  /** What a queue of bytes reads as when it has been put through one buffer: a byte is overwritten
      by the one `SIZE` places behind it. */
  function Seen(q: seq<byte>, i: nat): byte
    requires i < |q|
    decreases |q| - i
  {
    if i + SIZE >= |q| then q[i] else Seen(q, i + SIZE)
  }

  function Overrun(q: seq<byte>): (r: seq<byte>)
    ensures |r| == |q|
  {
    seq(|q|, i requires 0 <= i < |q| => Seen(q, i))
  }

  /** Every byte that is overwritten equals the one that takes its place. */
  predicate NothingLost(q: seq<byte>) {
    forall i :: 0 <= i < |q| - 256 ==> q[i] == q[i + 256]
  }

  lemma {:induction false} SeenIsLatest(q: seq<byte>, i: nat)
    requires i < |q| && NothingLost(q)
    ensures Seen(q, i) == q[i]
    decreases |q| - i
  {
    if i + SIZE < |q| {
      SeenIsLatest(q, i + SIZE);
    }
  }

  /** A queue comes through unchanged exactly if it fits or every overwritten byte equals its
      successor. */
  lemma ConservedExactly(q: seq<byte>)
    ensures Overrun(q) == q <==> NothingLost(q)
    ensures |q| <= 256 ==> NothingLost(q)
  {
    if NothingLost(q) {
      forall i | 0 <= i < |q| ensures Overrun(q)[i] == q[i] {
        SeenIsLatest(q, i);
      }
    }
    if Overrun(q) == q {
      forall i | 0 <= i < |q| - SIZE ensures q[i] == q[i + SIZE] {
        assert Overrun(q)[i] == Seen(q, i) == Seen(q, i + SIZE) == Overrun(q)[i + SIZE];
      }
    }
  }

  /** An overrun by at most one buffer replaces exactly the oldest bytes, as many as there are too
      many, by the newest ones. */
  lemma OldestReplaced(q: seq<byte>)
    requires 256 < |q| <= 512
    ensures Overrun(q) == q[256..] + q[|q| - 256..]
  {
    forall i | 0 <= i < |q| ensures Overrun(q)[i] == (q[SIZE..] + q[|q| - SIZE..])[i] {
      assert i + SIZE < |q| ==> Seen(q, i) == q[i + SIZE];
    }
  }

  /** For example, one byte too many takes the place of the first one. */
  lemma ByteLost()
    ensures var q := seq(256, _ => 0) + [1];
            Overrun(q)[0] == 1 && q[0] == 0 && Overrun(q) != q
  {
    var q := seq(256, _ => 0) + [1];
    OldestReplaced(q);
  }

  /** The buffer holds the newest bytes of the queue, each in its place. */
  ghost predicate Newest(b: seq<byte>, start: nat, q: seq<byte>) {
    |b| == SIZE && forall i :: 0 <= i < |q| && i + SIZE >= |q| ==> b[Slot(start, i)] == q[i]
  }

  lemma NewestPut(b: seq<byte>, start: nat, q: seq<byte>, x: byte)
    requires Newest(b, start, q)
    ensures Newest(b[Slot(start, |q|) := x], start, q + [x])
  {
    forall i | 0 <= i < |q| && i + SIZE > |q| ensures Slot(start, i) != Slot(start, |q|) {
      SlotsDistinct(start, i, |q|);
    }
  }

  lemma {:induction false} NewestSeen(b: seq<byte>, start: nat, q: seq<byte>, i: nat)
    requires Newest(b, start, q) && i < |q|
    ensures b[Slot(start, i)] == Seen(q, i)
    decreases |q| - i
  {
    if i + SIZE < |q| {
      NewestSeen(b, start, q, i + SIZE);
      assert Slot(start, i + SIZE) == Slot(start, i);
    }
  }

  lemma WindowIsOverrun(b: seq<byte>, start: nat, q: seq<byte>)
    requires Newest(b, start, q)
    ensures Window(b, start, |q|) == Overrun(q)
  {
    forall i | 0 <= i < |q| ensures Window(b, start, |q|)[i] == Overrun(q)[i] {
      NewestSeen(b, start, q, i);
    }
  }

  function Min(a: nat, b: nat): nat {
    if a < b then a else b
  }

  /** The room behind `wr` in one piece: up to the end of the array or up to the read index. */
  function RoomAt(wr: nat, count: nat): nat
    requires wr < SIZE && count <= SIZE
  {
    Min(SIZE - wr, SIZE - count)
  }

  class Ring {
    const buf: array<byte>
    var rd: nat
    var wr: nat
    var count: nat

    ghost predicate Valid()
      reads this
    {
      buf.Length == SIZE && rd < SIZE && wr == Slot(rd, count)
    }

    /** Not overrun. */
    predicate Sound()
      reads this
    {
      count <= SIZE
    }

    ghost function Contents(): seq<byte>
      requires Valid()
      reads this, buf
    {
      Window(buf[..], rd, count)
    }

    constructor ()
      ensures Valid() && fresh(buf) && Contents() == []
    {
      buf := new byte[SIZE](_ => 0);
      rd, wr, count := 0, 0, 0;
    }

    /** One received byte; nobody looks whether there is room. */
    method Put(x: byte)
      requires Valid()
      modifies `wr, `count, buf
      ensures Valid() && count == old(count) + 1
      ensures buf[..] == old(buf[..])[Slot(rd, old(count)) := x]
    {
      SlotOnwards(rd, count, 1);
      buf[wr] := x;
      wr := (wr + 1) % SIZE;
      count := count + 1;
    }

    /** The bytes that a `recv` into the buffer may deliver at once. */
    function Room(): nat
      requires Sound() && wr < SIZE
      reads this
    {
      RoomAt(wr, count)
    }

    /** `recv` of what is pending, as much as fits in one piece. */
    method Receive(pending: seq<byte>) returns (n: nat)
      requires Valid() && Sound()
      modifies `wr, `count, buf
      ensures Valid() && Sound()
      ensures n == Min(|pending|, old(Room()))
      ensures Contents() == old(Contents()) + pending[..n]
      ensures count == old(count) + n
      ensures wr == Slot(old(wr), n)
    {
      n := Min(|pending|, Room());
      CopyIn(pending[..n]);
      SlotOnwards(rd, count, n);
      wr := (wr + n) % SIZE;
      count := count + n;
    }

    /** Bytes copied behind the write index, in one piece. */
    method CopyIn(bytes: seq<byte>)
      requires Valid() && count + |bytes| <= SIZE && wr + |bytes| <= SIZE
      modifies buf
      ensures Window(buf[..], rd, count + |bytes|) == old(Contents()) + bytes
    {
      ghost var was := Contents();
      for i := 0 to |bytes|
        invariant Window(buf[..], rd, count + i) == was + bytes[..i]
      {
        CopyByte(i, bytes[i], was + bytes[..i]);
        Associative(was, bytes[..i], [bytes[i]]);
        assert bytes[..i + 1] == bytes[..i] + [bytes[i]];
      }
      assert bytes[..|bytes|] == bytes;
    }

    method CopyByte(i: nat, x: byte, ghost before: seq<byte>)
      requires Valid() && count + i < SIZE && wr + i < SIZE
      requires Window(buf[..], rd, count + i) == before
      modifies buf
      ensures Window(buf[..], rd, count + i + 1) == before + [x]
    {
      SlotOnwards(rd, count, i);
      WindowAppend(buf[..], rd, count + i, x);
      ghost var b := buf[..];
      buf[wr + i] := x;
      assert buf[..] == b[wr + i := x];
    }

    /** Take `n` bytes out at the front. */
    method Drop(n: nat)
      requires Valid() && n <= count
      modifies `rd, `count
      ensures Valid() && count == old(count) - n
      ensures rd == Slot(old(rd), n)
      ensures Contents() == old(Contents())[n..]
    {
      WindowDrop(buf[..], rd, count, n);
      SlotOnwards(rd, n, count - n);
      count := count - n;
      rd := (rd + n) % SIZE;
    }

    /** One `send` from the buffer; the socket takes at most `limit` bytes. */
    method Send(limit: nat) returns (sent: seq<byte>)
      requires Valid()
      modifies `rd, `count
      ensures Valid()
      ensures |sent| == Min(limit, Min(old(count), SIZE - old(rd))) && count == old(count) - |sent|
      ensures rd == Slot(old(rd), |sent|)
      ensures old(Contents()) == sent + Contents()
    {
      var available := Min(count, SIZE - rd);
      var n := Min(limit, available);
      sent := buf[rd..rd + n];
      WindowFront(buf[..], rd, count, n);
      ghost var before := Contents();
      Drop(n);
      assert before == before[..n] + before[n..];
    }

    /** The loop that collects up to eight bytes for the hardware. */
    method Peek() returns (bytes: seq<byte>)
      requires Valid() && Sound()
      ensures bytes == Contents()[..Min(count, 8)]
    {
      var n := Min(count, 8);
      var j := rd;
      bytes := [];
      for i := 0 to n
        invariant j == Slot(rd, i) && bytes == Contents()[..i]
      {
        SlotOnwards(rd, i, 1);
        bytes := bytes + [buf[j]];
        j := (j + 1) % SIZE;
      }
    }
  }

  // ------------------------------------------------------------------ the server

  class JspServer {
    const toHw: Ring
    const fromHw: Ring
    /** Everything that has passed each end so far. */
    ghost var clientSent: seq<byte>
    ghost var hardwareGot: seq<byte>
    ghost var hardwareSent: seq<byte>
    ghost var clientGot: seq<byte>

    ghost predicate Valid()
      reads this, toHw, fromHw
    {
      toHw != fromHw && toHw.buf != fromHw.buf && toHw.Valid() && toHw.Sound() && fromHw.Valid()
    }

    /** Towards the hardware no byte is lost, added or reordered. */
    ghost predicate Outbound()
      requires Valid()
      reads this, toHw, toHw.buf, fromHw
    {
      clientSent == hardwareGot + toHw.Contents()
    }

    /** Towards the client none is lost, added or reordered. */
    ghost predicate Inbound()
      requires Valid()
      reads this, toHw, fromHw, fromHw.buf
    {
      hardwareSent == clientGot + fromHw.Contents()
    }

    constructor ()
      ensures Valid() && Outbound() && Inbound()
    {
      toHw := new Ring();
      fromHw := new Ring();
      clientSent, hardwareGot, hardwareSent, clientGot := [], [], [], [];
    }

    /** `jsp_queue_data_from_client`; the arguments are what the two calls of `recv` find pending,
        none for an error. */
    method QueueDataFromClient(first: Option<seq<byte>>, second: Option<seq<byte>>)
      requires Valid() && Outbound()
      modifies this`clientSent, toHw`wr, toHw`count, toHw.buf
      ensures Valid() && Outbound()
      ensures clientSent == old(clientSent) + Taken(old(toHw.wr), old(toHw.count), first, second)
      ensures first.Some? && second.Some? && |first.value| >= SIZE && |second.value| >= SIZE ==> toHw.count == SIZE
    {
      if first.Some? {
        Accept(first.value);
        if second.Some? {
          ghost var n := Min(|first.value|, RoomAt(old(toHw.wr), old(toHw.count)));
          Associative(old(clientSent), first.value[..n], second.value[..Min(|second.value|, toHw.Room())]);
          Accept(second.value);
        }
      }
    }

    /** One `recv`. */
    method Accept(pending: seq<byte>)
      requires Valid() && Outbound()
      modifies this`clientSent, toHw`wr, toHw`count, toHw.buf
      ensures Valid() && Outbound()
      ensures clientSent == old(clientSent) + pending[..Min(|pending|, old(toHw.Room()))]
      ensures toHw.count == old(toHw.count) + Min(|pending|, old(toHw.Room()))
      ensures toHw.wr == Slot(old(toHw.wr), Min(|pending|, old(toHw.Room())))
    {
      ghost var was := toHw.Contents();
      var n := toHw.Receive(pending);
      clientSent := clientSent + pending[..n];
      Associative(hardwareGot, was, pending[..n]);
    }

    /** `jsp_hardware_transact`: the hardware takes at most `accepted` of the bytes offered and hands
        over `received`; a failed transaction changes nothing. */
    method HardwareTransact(accepted: nat, received: seq<byte>, failed: bool)
      requires Valid() && Outbound()
      modifies this`hardwareGot, this`hardwareSent, toHw`rd, toHw`count, fromHw`wr, fromHw`count, fromHw.buf
      ensures Valid() && Outbound()
      ensures failed ==> hardwareGot == old(hardwareGot) && hardwareSent == old(hardwareSent)
      ensures !failed ==> |hardwareGot| == |old(hardwareGot)| + Min(accepted, Min(old(toHw.count), 8))
      ensures !failed ==> hardwareSent == old(hardwareSent) + received
      ensures failed ==> fromHw.Contents() == old(fromHw.Contents())
      ensures !failed ==> fromHw.Contents() == Overrun(old(fromHw.Contents()) + received)
      ensures old(Inbound()) ==> (Inbound() <==> failed || NothingLost(old(fromHw.Contents()) + received))
    {
      var offered := toHw.Peek();
      if failed {
        return;
      }
      ghost var queue := fromHw.Contents() + received;
      Deliver(offered[..Min(accepted, |offered|)]);
      Collect(received);
      ConservedExactly(queue);
      SameTail(hardwareSent, clientGot, fromHw.Contents(), queue);
      Associative(clientGot, old(fromHw.Contents()), received);
    }

    /** The accepted bytes leave the buffer. */
    method Deliver(bytes: seq<byte>)
      requires Valid() && Outbound() && bytes <= toHw.Contents()
      modifies this`hardwareGot, toHw`rd, toHw`count
      ensures Valid() && Outbound() && hardwareGot == old(hardwareGot) + bytes
    {
      ghost var was := toHw.Contents();
      toHw.Drop(|bytes|);
      assert was == bytes + toHw.Contents();
      Associative(hardwareGot, bytes, toHw.Contents());
      hardwareGot := hardwareGot + bytes;
    }

    /** The received bytes are queued. */
    method Collect(received: seq<byte>)
      requires Valid()
      modifies this`hardwareSent, fromHw`wr, fromHw`count, fromHw.buf
      ensures Valid() && hardwareSent == old(hardwareSent) + received
      ensures fromHw.Contents() == Overrun(old(fromHw.Contents()) + received)
    {
      ghost var was := fromHw.Contents();
      for i := 0 to |received|
        invariant Valid() && fromHw.count == |was| + i && hardwareSent == old(hardwareSent)
        invariant Newest(fromHw.buf[..], fromHw.rd, was + received[..i])
      {
        NewestPut(fromHw.buf[..], fromHw.rd, was + received[..i], received[i]);
        fromHw.Put(received[i]);
        assert received[..i + 1] == received[..i] + [received[i]];
        Associative(was, received[..i], [received[i]]);
      }
      assert received[..|received|] == received;
      WindowIsOverrun(fromHw.buf[..], fromHw.rd, was + received);
      hardwareSent := hardwareSent + received;
    }

    /** `jsp_send_data_to_client`; the arguments are what the socket takes in the two calls. */
    method SendDataToClient(first: nat, second: nat)
      requires Valid()
      modifies this`clientGot, fromHw`rd, fromHw`count
      ensures Valid() && clientGot + fromHw.Contents() == old(clientGot + fromHw.Contents())
      ensures first >= SIZE && second >= SIZE && old(fromHw.Sound()) ==> fromHw.count == 0
    {
      if fromHw.count > 0 {
        Hand(first);
      }
      if fromHw.count > 0 {
        Hand(second);
      }
    }

    /** One `send`. */
    method Hand(limit: nat)
      requires Valid()
      modifies this`clientGot, fromHw`rd, fromHw`count
      ensures Valid() && clientGot + fromHw.Contents() == old(clientGot + fromHw.Contents())
      ensures fromHw.count == old(fromHw.count) - Min(limit, Min(old(fromHw.count), SIZE - old(fromHw.rd)))
      ensures fromHw.rd == Slot(old(fromHw.rd), Min(limit, Min(old(fromHw.count), SIZE - old(fromHw.rd))))
    {
      var sent := fromHw.Send(limit);
      Associative(clientGot, sent, fromHw.Contents());
      clientGot := clientGot + sent;
    }
  }

  lemma SameTail<T>(whole: seq<T>, a: seq<T>, b: seq<T>, c: seq<T>)
    requires |b| == |c|
    ensures whole == a + c ==> (whole == a + b <==> b == c)
  {
    if whole == a + c && whole == a + b {
      assert b == whole[|a|..] == c;
    }
  }

  /** The bytes that two receives take out of what is pending. */
  function Taken(wr: nat, count: nat, first: Option<seq<byte>>, second: Option<seq<byte>>): seq<byte>
    requires wr < SIZE && count <= SIZE
  {
    if first.None? then []
    else
      var n := Min(|first.value|, RoomAt(wr, count));
      first.value[..n] +
      if second.None? then [] else second.value[..Min(|second.value|, RoomAt(Slot(wr, n), count + n))]
  }

}
