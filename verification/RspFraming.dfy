/** Packets of the GDB Remote Serial Protocol: `$<escaped data>#<checksum>`. */
module RspFraming {
  import opened Common

  const GDB_BUF_MAX: nat := 16384

  const DOLLAR: byte := 0x24
  const HASH: byte := 0x23
  const STAR: byte := 0x2a
  const BRACE: byte := 0x7d
  const PLUS: byte := 0x2b
  const MINUS: byte := 0x2d
  const BREAK: byte := 0x03

  // ------------------------------------------------------------------ characters

  /** `ch ^ 0x20` */
  function Flip(ch: byte): byte {
    if ch / 32 % 2 == 1 then ch - 32 else ch + 32
  }

  predicate IsSpecial(ch: byte) {
    ch == DOLLAR || ch == HASH || ch == STAR || ch == BRACE
  }

  /** `hexchars[d]` */
  function HexDigit(d: nat): byte
    requires d < 16
  {
    if d < 10 then 0x30 + d else 0x61 + d - 10
  }

  /** The value of a hex digit, -1 if it is none. */
  function Hex(c: byte): int {
    if 0x61 <= c <= 0x66 then c - 0x61 + 10
    else if 0x30 <= c <= 0x39 then c - 0x30
    else if 0x41 <= c <= 0x46 then c - 0x41 + 10
    else -1
  }

  function Checksum(body: seq<byte>): byte {
    if |body| == 0 then 0 else (Checksum(body[..|body| - 1]) + body[|body| - 1]) % 256
  }

  // ------------------------------------------------------------------ sending

  function EscapeByte(ch: byte): seq<byte> {
    if IsSpecial(ch) then [BRACE, Flip(ch)] else [ch]
  }

  function Escape(data: seq<byte>): seq<byte> {
    if |data| == 0 then [] else Escape(data[..|data| - 1]) + EscapeByte(data[|data| - 1])
  }

  function Trailer(body: seq<byte>): seq<byte> {
    [HASH, HexDigit(Checksum(body) / 16), HexDigit(Checksum(body) % 16)]
  }

  function Frame(body: seq<byte>): seq<byte> {
    [DOLLAR] + body + Trailer(body)
  }

  // ------------------------------------------------------------------ receiving

  /** What one call of `get_packet` does: the packet it returns (none if the connection closes),
      the acknowledgements it sends and the input it leaves unread. */
  datatype Receipt = Receipt(packet: Option<seq<byte>>, acks: seq<byte>, rest: seq<byte>)

  function WithAck(ack: byte, r: Receipt): Receipt {
    r.(acks := [ack] + r.acks)
  }

  /** Waiting for the start character. */
  function Receive(input: seq<byte>): Receipt
    decreases |input|, 1
  {
    if |input| == 0 then Receipt(None, [], [])
    else if input[0] == DOLLAR then ReceiveBody(input[1..], [])
    else if input[0] == BREAK then Receipt(Some([BREAK]), [], input[1..])
    else Receive(input[1..])
  }

  /** Reading the body; `body` is what the buffer holds. */
  function ReceiveBody(input: seq<byte>, body: seq<byte>): Receipt
    decreases |input|, 2
  {
    if |body| >= GDB_BUF_MAX - 1 then Receive(input)
    else if |input| == 0 then Receipt(None, [], [])
    else if input[0] == DOLLAR then ReceiveBody(input[1..], [])
    else if input[0] == HASH then ReceiveTrailer(input[1..], body)
    else ReceiveBody(input[1..], body + [input[0]])
  }

  /** Checking the two checksum digits. */
  function ReceiveTrailer(input: seq<byte>, body: seq<byte>): Receipt
    decreases |input|, 2
  {
    if |input| < 2 then Receipt(None, [], [])
    else if Checksum(body) != Transmitted(input[0], input[1]) then WithAck(MINUS, Receive(input[2..]))
    else Receipt(Some(body), [PLUS], input[2..])
  }

  /** The checksum two characters stand for, in unsigned char arithmetic. */
  function Transmitted(hi: byte, lo: byte): byte {
    (Hex(hi) * 16 % 256 + Hex(lo)) % 256
  }

  // ------------------------------------------------------------------ unescaping

  /** `rsp_unescape` from offset `from`; a final escape character takes the byte behind it. */
  function Unescape(data: seq<byte>, from: nat, len: nat): seq<byte>
    requires len < |data|
    decreases len - from
  {
    if from >= len then []
    else if data[from] == BRACE then [Flip(data[from + 1])] + Unescape(data, from + 2, len)
    else [data[from]] + Unescape(data, from + 1, len)
  }

  // ------------------------------------------------------------------ the server's connection

  datatype Progress = Closed | Break | Start | EndOfBody | Overrun

  class Connection {
    /** Characters not yet read from the client, and characters written to it. */
    var input: seq<byte>
    var output: seq<byte>
    /** The static packet buffer. */
    const data: array<byte>
    var len: nat

    ghost predicate Valid()
      reads this, data
    {
      data.Length == GDB_BUF_MAX && len < GDB_BUF_MAX
    }

    constructor (stream: seq<byte>)
      ensures Valid() && fresh(data) && input == stream && output == []
    {
      input, output, len := stream, [], 0;
      data := new byte[GDB_BUF_MAX];
    }

    method PutRspChar(c: byte)
      modifies this`output
      ensures output == old(output) + [c]
    {
      output := output + [c];
    }

    /** The next character, or -1 when the connection is closed. */
    method GetRspChar() returns (ch: int)
      modifies this`input
      ensures old(input) == [] ==> ch == -1 && input == []
      ensures old(input) != [] ==> ch == old(input)[0] && input == old(input)[1..]
    {
      if |input| == 0 {
        return -1;
      }
      ch := input[0];
      input := input[1..];
    }

    /** One transmission of `put_packet`. */
    method PutFrame(buf: seq<byte>)
      modifies this`output
      ensures output == old(output) + Frame(Escape(buf))
    {
      var checksum: byte := 0;
      PutRspChar(DOLLAR);
      ghost var start := output;
      for count := 0 to |buf|
        invariant output == start + Escape(buf[..count])
        invariant checksum == Checksum(Escape(buf[..count]))
      {
        EscapeNext(buf, count);
        Associative(start, Escape(buf[..count]), EscapeByte(buf[count]));
        checksum := PutEscaped(buf[count], checksum, Escape(buf[..count]));
      }
      assert buf[..|buf|] == buf;
      PutRspChar(HASH);
      PutRspChar(HexDigit(checksum / 16));
      PutRspChar(HexDigit(checksum % 16));
      Assembled(old(output), Escape(buf), start, output);
    }

    /** The loop body of `put_packet`. */
    method PutEscaped(data: byte, sum: byte, ghost sent: seq<byte>) returns (checksum: byte)
      requires sum == Checksum(sent)
      modifies this`output
      ensures output == old(output) + EscapeByte(data)
      ensures checksum == Checksum(sent + EscapeByte(data))
    {
      ChecksumEscaped(sent, data);
      checksum := sum;
      var ch := data;
      if ch == DOLLAR || ch == HASH || ch == STAR || ch == BRACE {
        ch := Flip(ch);
        checksum := (checksum + BRACE) % 256;
        PutRspChar(BRACE);
      }
      checksum := (checksum + ch) % 256;
      PutRspChar(ch);
    }

    /** Send the packet until the client acknowledges it or the connection fails. */
    method PutPacket(buf: seq<byte>)
      modifies this`input, this`output
      ensures output == old(output) + Repeated(Frame(Escape(buf)), Transmissions(old(input)))
      ensures input == AfterAck(old(input))
    {
      ghost var frame, total := Frame(Escape(buf)), old(output) + Repeated(Frame(Escape(buf)), Transmissions(input));
      PutFrame(buf);
      var ch := GetRspChar();
      FrameSent(old(output), frame, old(input), total);
      while ch != -1 && ch != PLUS
        invariant Answered(ch, input, old(input))
        invariant output + Repeated(frame, Pending(ch, input)) == total
        decreases if ch == -1 then 0 else |input| + 1
      {
        ghost var before := output;
        ghost var answers := input;
        PutFrame(buf);
        ch := GetRspChar();
        FrameSent(before, frame, answers, total);
      }
    }

    /** Wait for the start character. */
    method SkipToStart() returns (p: Progress)
      modifies this`input
      ensures p == Closed || p == Break || p == Start
      ensures p == Closed ==> Receive(old(input)) == Receipt(None, [], []) && input == []
      ensures p == Break ==> Receive(old(input)) == Receipt(Some([BREAK]), [], input)
      ensures p == Start ==> Receive(old(input)) == ReceiveBody(input, []) && |input| < |old(input)|
    {
      var ch := GetRspChar();
      while ch != DOLLAR
        invariant ch == -1 ==> Receive(old(input)) == Receipt(None, [], []) && input == []
        invariant ch != -1 ==> 0 <= ch < 256 && |input| < |old(input)|
        invariant ch != -1 ==> Receive(old(input)) == Receive([ch] + input)
        decreases if ch == -1 then 0 else |input| + 1
      {
        if ch == -1 {
          return Closed;
        }
        if ch == BREAK {
          assert ([ch] + input)[1..] == input;
          return Break;
        }
        ghost var before := input;
        assert ([ch] + before)[1..] == before;
        ch := GetRspChar();
        assert before != [] ==> before == [ch] + input;
      }
      assert ([ch] + input)[1..] == input;
      return Start;
    }

    /** Put a character of the body into the buffer. */
    method StoreChar(count: nat, ch: byte, sum: byte) returns (checksum: byte)
      requires count < data.Length && sum == Checksum(data[..count])
      modifies data
      ensures data[..count + 1] == old(data[..count]) + [ch]
      ensures checksum == Checksum(data[..count + 1])
    {
      data[count] := ch;
      assert data[..count] == old(data[..count]);
      assert data[..count + 1][..count] == data[..count];
      checksum := (sum + ch) % 256;
    }

    /** Read until the end character or until the buffer is full. */
    method ReadBody() returns (p: Progress, checksum: byte)
      requires Valid()
      modifies this`input, this`len, data
      ensures Valid() && |input| <= |old(input)|
      ensures p == Closed || p == EndOfBody || p == Overrun
      ensures p == Closed ==> ReceiveBody(old(input), []) == Receipt(None, [], []) && input == []
      ensures p == Overrun ==> ReceiveBody(old(input), []) == Receive(input)
      ensures p == EndOfBody ==> ReceiveBody(old(input), []) == ReceiveTrailer(input, data[..len])
      ensures p == EndOfBody ==> checksum == Checksum(data[..len])
    {
      checksum := 0;
      var count := 0;
      p := Overrun;
      while count < GDB_BUF_MAX - 1
        invariant 0 <= count <= GDB_BUF_MAX - 1 && |input| <= |old(input)| && len < GDB_BUF_MAX
        invariant ReceiveBody(old(input), []) == ReceiveBody(input, data[..count])
        invariant checksum == Checksum(data[..count])
        decreases |input|
      {
        var ch := GetRspChar();
        if ch == -1 {
          return Closed, checksum;
        }
        if ch == DOLLAR {
          checksum := 0;
          count := 0;
          continue;
        }
        if ch == HASH {
          p := EndOfBody;
          break;
        }
        checksum := StoreChar(count, ch, checksum);
        count := count + 1;
      }
      ghost var body := data[..count];
      data[count] := 0;
      assert data[..count] == body;
      len := count;
    }

    /** `get_packet`: keep reading until a packet has a valid checksum. */
    method GetPacket() returns (ok: bool)
      requires Valid()
      modifies this`input, this`output, this`len, data
      ensures Valid()
      ensures var r := Receive(old(input));
              && input == r.rest && output == old(output) + r.acks
              && ok == r.packet.Some? && (ok ==> data[..len] == r.packet.value)
    {
      while true
        invariant Valid()
        invariant Agrees(Receive(old(input)), output, old(output), Receive(input))
        decreases |input|
      {
        var p := SkipToStart();
        if p == Closed {
          return false;
        }
        if p == Break {
          data[0] := BREAK;
          len := 1;
          assert data[..1] == [BREAK];
          return true;
        }
        ghost var body0 := input;
        var checksum;
        p, checksum := ReadBody();
        if p == Closed {
          return false;
        }
        if p == EndOfBody {
          ghost var trailer := input;
          var hi := GetRspChar();
          if hi == -1 {
            return false;
          }
          var lo := GetRspChar();
          if lo == -1 {
            return false;
          }
          assert trailer[1..][1..] == trailer[2..];
          if checksum != Transmitted(hi, lo) {
            PutRspChar(MINUS);
          } else {
            PutRspChar(PLUS);
            return true;
          }
        }
      }
    }
  }

  /** After sending `sent - before`, what remains to be done is `now`. */
  ghost predicate Agrees(total: Receipt, sent: seq<byte>, before: seq<byte>, now: Receipt) {
    && total.packet == now.packet && total.rest == now.rest
    && before + total.acks == sent + now.acks
  }

  // ------------------------------------------------------------------ round trips

  /** Nothing in `noise` starts a packet or a break. */
  predicate Quiet(noise: seq<byte>) {
    DOLLAR !in noise && BREAK !in noise
  }

  predicate Plain(body: seq<byte>) {
    DOLLAR !in body && HASH !in body
  }

  predicate Fits(body: seq<byte>) {
    |body| <= GDB_BUF_MAX - 2
  }

  lemma {:induction false} SkipQuiet(noise: seq<byte>, input: seq<byte>)
    requires Quiet(noise)
    ensures Receive(noise + input) == Receive(input)
  {
    if |noise| == 0 {
      assert noise + input == input;
    } else {
      assert (noise + input)[1..] == noise[1..] + input;
      SkipQuiet(noise[1..], input);
    }
  }

  /** A body without start and end characters goes into the buffer as it is. */
  lemma {:induction false} ReadPlain(body: seq<byte>, input: seq<byte>, got: seq<byte>)
    requires Plain(body) && Fits(got + body)
    ensures ReceiveBody(body + input, got) == ReceiveBody(input, got + body)
  {
    if |body| == 0 {
      assert body + input == input && got + body == got;
    } else {
      assert (body + input)[1..] == body[1..] + input;
      assert got + [body[0]] + body[1..] == got + body;
      ReadPlain(body[1..], input, got + [body[0]]);
    }
  }

  lemma HexRoundTrip(b: byte)
    ensures Transmitted(HexDigit(b / 16), HexDigit(b % 16)) == b
  {
    HexOfDigit(b / 16);
    HexOfDigit(b % 16);
  }

  lemma HexOfDigit(d: nat)
    requires d < 16
    ensures Hex(HexDigit(d)) == d
  {
  }

  /** From the start character on, a body is read up to its end character. */
  lemma BodyReceived(body: seq<byte>, tail: seq<byte>)
    requires Plain(body) && Fits(body)
    ensures Receive([DOLLAR] + body + [HASH] + tail) == ReceiveTrailer(tail, body)
  {
    var input := [DOLLAR] + body + [HASH] + tail;
    assert input[1..] == body + ([HASH] + tail);
    assert [] + body == body;
    ReadPlain(body, [HASH] + tail, []);
    assert ([HASH] + tail)[1..] == tail;
  }

  /** A framed body is received and acknowledged. */
  lemma ReceiveFrame(body: seq<byte>, rest: seq<byte>)
    requires Plain(body) && Fits(body)
    ensures Receive(Frame(body) + rest) == Receipt(Some(body), [PLUS], rest)
  {
    var tail := Trailer(body)[1..] + rest;
    assert Frame(body) + rest == [DOLLAR] + body + [HASH] + tail;
    BodyReceived(body, tail);
    assert tail[2..] == rest;
    HexRoundTrip(Checksum(body));
  }

  lemma {:induction false} EscapedIsPlain(data: seq<byte>)
    ensures Plain(Escape(data))
  {
    if |data| > 0 {
      EscapedIsPlain(data[..|data| - 1]);
    }
  }

  /** What `put_packet` writes, `get_packet` returns, also behind characters that start nothing. */
  lemma PacketRoundTrip(data: seq<byte>, noise: seq<byte>, rest: seq<byte>)
    requires Fits(Escape(data)) && Quiet(noise)
    ensures Receive(noise + Frame(Escape(data)) + rest) == Receipt(Some(Escape(data)), [PLUS], rest)
  {
    EscapedIsPlain(data);
    assert noise + Frame(Escape(data)) + rest == noise + (Frame(Escape(data)) + rest);
    SkipQuiet(noise, Frame(Escape(data)) + rest);
    ReceiveFrame(Escape(data), rest);
  }

  /** A packet whose checksum arrives wrong is refused and the retransmission is accepted. */
  lemma RetransmissionAccepted(body: seq<byte>, hi: byte, lo: byte, data: seq<byte>, rest: seq<byte>)
    requires Plain(body) && Fits(body) && Transmitted(hi, lo) != Checksum(body)
    requires Fits(Escape(data))
    ensures Receive([DOLLAR] + body + [HASH, hi, lo] + Frame(Escape(data)) + rest)
         == Receipt(Some(Escape(data)), [MINUS, PLUS], rest)
  {
    var again := Frame(Escape(data)) + rest;
    BodyReceived(body, [hi, lo] + again);
    assert [DOLLAR] + body + [HASH] + ([hi, lo] + again) == [DOLLAR] + body + [HASH, hi, lo] + Frame(Escape(data)) + rest;
    assert ([hi, lo] + again)[2..] == again;
    EscapedIsPlain(data);
    ReceiveFrame(Escape(data), rest);
  }

  /** The part of a body that comes after the buffer is full and is skipped like noise. */
  function Overflow(junk: seq<byte>): seq<byte> {
    if |junk| < 16383 then [] else junk[16383..]
  }

  /** Up to the overflow, the body of a packet that is not ended is read and forgotten. */
  lemma UnendedBody(junk: seq<byte>, again: seq<byte>)
    requires Plain(junk) && |again| > 0 && again[0] == DOLLAR
    ensures Receive([DOLLAR] + junk + again) == Receive(Overflow(junk) + again)
  {
    var input := [DOLLAR] + junk + again;
    var m := if Fits(junk) then |junk| else GDB_BUF_MAX - 2;
    var head, tail := junk[..m], junk[m..];
    assert input[1..] == head + (tail + again);
    assert [] + head == head;
    ReadPlain(head, tail + again, []);
    if Fits(junk) {
      assert tail + again == again && Overflow(junk) + again == again;
    } else {
      // one more character fills the buffer
      assert (tail + again)[1..] == tail[1..] + again;
      assert tail[1..] == Overflow(junk);
    }
  }

  /** A break character among noise is returned as a packet of its own. */
  lemma {:induction false} BreakReturned(noise: seq<byte>, input: seq<byte>)
    requires DOLLAR !in noise && BREAK in noise
    ensures Receive(noise + input).packet == Some([BREAK]) && Receive(noise + input).acks == []
  {
    assert (noise + input)[1..] == noise[1..] + input;
    if noise[0] != BREAK {
      BreakReturned(noise[1..], input);
    }
  }

  /** A packet cut off before its end character is dropped when the next one starts, if and only if
      no break character comes after it has filled the buffer. */
  lemma InterruptedPacketDropped(junk: seq<byte>, data: seq<byte>, rest: seq<byte>)
    requires Plain(junk) && Fits(Escape(data))
    ensures Receive([DOLLAR] + junk + Frame(Escape(data)) + rest) == Receipt(Some(Escape(data)), [PLUS], rest)
       <==> BREAK !in Overflow(junk)
  {
    var again := Frame(Escape(data)) + rest;
    assert [DOLLAR] + junk + Frame(Escape(data)) + rest == [DOLLAR] + junk + again;
    UnendedBody(junk, again);
    if BREAK !in Overflow(junk) {
      SkipQuiet(Overflow(junk), again);
      EscapedIsPlain(data);
      ReceiveFrame(Escape(data), rest);
    } else {
      BreakReturned(Overflow(junk), again);
    }
  }

  /** For example, a break right behind a body that fills the buffer is taken for a packet, and the
      next packet is not read. */
  lemma InterruptedPacketBreaks(data: seq<byte>)
    ensures var junk := seq(16383, _ => 0x61) + [BREAK];
            && Plain(junk)
            && Receive([DOLLAR] + junk + Frame(Escape(data))) == Receipt(Some([BREAK]), [], Frame(Escape(data)))
  {
    var junk := seq(GDB_BUF_MAX - 1, _ => 0x61) + [BREAK];
    var again := Frame(Escape(data));
    UnendedBody(junk, again);
    assert Overflow(junk) == [BREAK];
    assert ([BREAK] + again)[1..] == again;
  }

  /** Reading on after a full buffer never yields a packet of more than one byte, as long as no
      start character follows. */
  lemma {:induction false} NoStartNoPacket(input: seq<byte>)
    requires DOLLAR !in input
    ensures var r := Receive(input); r.packet == None || r.packet == Some([BREAK])
  {
    if |input| > 0 && input[0] != BREAK {
      NoStartNoPacket(input[1..]);
    }
  }

  /** The size limit is exact: a packet comes through if and only if its escaped body is at most
      two bytes smaller than the buffer. */
  lemma RoundTripExactly(data: seq<byte>)
    ensures Receive(Frame(Escape(data))).packet == Some(Escape(data)) <==> |Escape(data)| <= 16382
  {
    var body, input := Escape(data), Frame(Escape(data));
    EscapedIsPlain(data);
    assert input + [] == input;
    if Fits(body) {
      ReceiveFrame(body, []);
    } else {
      var m := GDB_BUF_MAX - 2;
      var tail := body[m..] + Trailer(body);
      assert input[1..] == body[..m] + tail;
      assert [] + body[..m] == body[..m];
      ReadPlain(body[..m], tail, []);
      assert ReceiveBody(tail, body[..m]) == Receive(tail[1..]);
      assert DOLLAR !in Trailer(body);
      NoStartNoPacket(tail[1..]);
    }
  }

  // ------------------------------------------------------------------ unescaping

  lemma {:induction false} EscapeFront(data: seq<byte>)
    requires |data| > 0
    ensures Escape(data) == EscapeByte(data[0]) + Escape(data[1..])
  {
    var n := |data| - 1;
    if n == 0 {
      assert data[..0] == [] && data[1..] == [];
    } else {
      EscapeFront(data[..n]);
      assert data[..n][1..] == data[1..][..n - 1];
    }
  }

  lemma SplitStretch<T>(buf: seq<T>, from: nat, a: seq<T>, b: seq<T>)
    requires from + |a + b| <= |buf| && buf[from..from + |a + b|] == a + b
    ensures buf[from + |a|..from + |a| + |b|] == b
    ensures forall k :: 0 <= k < |a| ==> buf[from + k] == a[k]
  {
    var stretch := buf[from..from + |a + b|];
    assert stretch[|a|..] == b;
    forall k | 0 <= k < |a| ensures buf[from + k] == a[k] {
      assert buf[from + k] == stretch[k];
    }
  }

  lemma UnescapeByte(buf: seq<byte>, from: nat, ch: byte, len: nat)
    requires from + |EscapeByte(ch)| <= len < |buf|
    requires forall k :: 0 <= k < |EscapeByte(ch)| ==> buf[from + k] == EscapeByte(ch)[k]
    ensures Unescape(buf, from, len) == [ch] + Unescape(buf, from + |EscapeByte(ch)|, len)
  {
    assert buf[from + 0] == EscapeByte(ch)[0];
    if IsSpecial(ch) {
      assert buf[from + 1] == EscapeByte(ch)[1];
    }
  }

  lemma UnescapeFront(buf: seq<byte>, from: nat, ch: byte, more: seq<byte>)
    requires from + |EscapeByte(ch) + more| < |buf|
    requires buf[from..from + |EscapeByte(ch) + more|] == EscapeByte(ch) + more
    ensures var next, len := from + |EscapeByte(ch)|, from + |EscapeByte(ch) + more|;
            && Unescape(buf, from, len) == [ch] + Unescape(buf, next, len)
            && buf[next..next + |more|] == more
  {
    SplitStretch(buf, from, EscapeByte(ch), more);
    UnescapeByte(buf, from, ch, from + |EscapeByte(ch) + more|);
  }

  /** Unescaping an escaped stretch of a buffer gives the original data. */
  lemma {:induction false} UnescapeStretch(buf: seq<byte>, from: nat, data: seq<byte>)
    requires from + |Escape(data)| < |buf|
    requires buf[from..from + |Escape(data)|] == Escape(data)
    ensures Unescape(buf, from, from + |Escape(data)|) == data
    decreases |data|
  {
    if |data| > 0 {
      var first, others := data[0], data[1..];
      EscapeFront(data);
      UnescapeFront(buf, from, first, Escape(others));
      UnescapeStretch(buf, from + |EscapeByte(first)|, others);
      assert [first] + others == data;
    }
  }

  /** Any byte string survives sending, receiving and unescaping. */
  lemma DataRoundTrip(data: seq<byte>, noise: seq<byte>, rest: seq<byte>, terminator: byte)
    requires Fits(Escape(data)) && Quiet(noise)
    ensures var r := Receive(noise + Frame(Escape(data)) + rest);
            && r.packet.Some? && r.acks == [PLUS] && r.rest == rest
            && Unescape(r.packet.value + [terminator], 0, |r.packet.value|) == data
  {
    PacketRoundTrip(data, noise, rest);
    var e := Escape(data);
    assert (e + [terminator])[0..|e|] == e;
    UnescapeStretch(e + [terminator], 0, data);
  }

  /** `rsp_unescape`, in place: the write offset never passes the read offset. */
  method RspUnescape(data: array<byte>, len: nat) returns (toOff: nat)
    requires len < data.Length
    modifies data
    ensures toOff <= len
    ensures data[..toOff] == Unescape(old(data[..]), 0, len)
    ensures forall k :: len <= k < data.Length ==> data[k] == old(data[k])
  {
    ghost var packet := data[..];
    var fromOff := 0;
    toOff := 0;
    while fromOff < len
      invariant toOff <= fromOff <= len + 1 && toOff <= len
      invariant data[..toOff] + Unescape(packet, fromOff, len) == Unescape(packet, 0, len)
      invariant forall k :: (fromOff <= k || len <= k) && k < data.Length ==> data[k] == packet[k]
      decreases len - fromOff
    {
      ghost var done, from := data[..toOff], fromOff;
      var ch := data[fromOff];
      if ch == BRACE {
        fromOff := fromOff + 1;
        ch := Flip(data[fromOff]);
      }
      WriteBack(data, toOff, ch);
      fromOff := fromOff + 1;
      toOff := toOff + 1;
      assert Unescape(packet, from, len) == [ch] + Unescape(packet, fromOff, len);
      Associative(done, [ch], Unescape(packet, fromOff, len));
    }
  }

  method WriteBack(data: array<byte>, at: nat, ch: byte)
    requires at < data.Length
    modifies data
    ensures data[..at + 1] == old(data[..at]) + [ch]
    ensures forall k :: at < k < data.Length ==> data[k] == old(data[k])
  {
    data[at] := ch;
  }

  /** The character read last is the verdict on the packet sent last. */
  ghost predicate Answered(ch: int, input: seq<byte>, answers: seq<byte>) {
    AfterAck(answers) == if ch == -1 || ch == PLUS then input else AfterAck(input)
  }

  /** Transmissions still to come after the answer `ch`. */
  ghost function Pending(ch: int, input: seq<byte>): nat {
    if ch == -1 || ch == PLUS then 0 else Transmissions(input)
  }

  lemma FrameSent(before: seq<byte>, frame: seq<byte>, answers: seq<byte>, total: seq<byte>)
    requires before + Repeated(frame, Transmissions(answers)) == total
    ensures answers == [] ==> before + frame + Repeated(frame, 0) == total
    ensures answers != [] ==> before + frame + Repeated(frame, Pending(answers[0], answers[1..])) == total
  {
    Associative(before, frame, Repeated(frame, Transmissions(answers) - 1));
  }

  /** How often a packet is sent when the client answers with `answers`. */
  function Transmissions(answers: seq<byte>): nat {
    if |answers| == 0 || answers[0] == PLUS then 1 else 1 + Transmissions(answers[1..])
  }

  function AfterAck(answers: seq<byte>): seq<byte> {
    if |answers| == 0 then [] else if answers[0] == PLUS then answers[1..] else AfterAck(answers[1..])
  }

  function Repeated(s: seq<byte>, k: nat): seq<byte> {
    if k == 0 then [] else s + Repeated(s, k - 1)
  }

  lemma Assembled(before: seq<byte>, body: seq<byte>, start: seq<byte>, after: seq<byte>)
    requires start == before + [DOLLAR]
    requires after == start + body + [HASH] + [HexDigit(Checksum(body) / 16)] + [HexDigit(Checksum(body) % 16)]
    ensures after == before + Frame(body)
  {
  }

  lemma EscapeNext(buf: seq<byte>, k: nat)
    requires k < |buf|
    ensures Escape(buf[..k + 1]) == Escape(buf[..k]) + EscapeByte(buf[k])
  {
    assert buf[..k + 1][..k] == buf[..k];
  }

  lemma ChecksumEscaped(sent: seq<byte>, ch: byte)
    ensures Checksum(sent + EscapeByte(ch))
         == if IsSpecial(ch) then ((Checksum(sent) + BRACE) % 256 + Flip(ch)) % 256
            else (Checksum(sent) + ch) % 256
  {
    var e := EscapeByte(ch);
    if IsSpecial(ch) {
      assert (sent + e)[..|sent| + 1] == sent + [BRACE];
      assert (sent + [BRACE])[..|sent|] == sent;
    } else {
      assert (sent + e)[..|sent|] == sent;
    }
  }
}
