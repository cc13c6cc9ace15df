/** The bytes of the GDB Remote Serial Protocol as they appear on the wire. */
module Wire {
  import opened Common
  import opened Words
  import opened RspFraming

  // ------------------------------------------------------------------ escaping

  lemma {:induction false} DifferZero(x: nat, k: nat)
    requires x < Pow2(k)
    ensures Bitwise(Differ, x, 0, k) == x
  {
    if k > 0 {
      DifferZero(x / 2, k - 1);
    }
  }

  lemma {:induction false} DifferShifted(x: nat, m: nat, k: nat)
    requires m < k && x < Pow2(k)
    ensures Bitwise(Differ, x, Pow2(m), k) == if TestBit(x, m) then x - Pow2(m) else x + Pow2(m)
  {
    if m == 0 {
      DifferZero(x / 2, k - 1);
    } else {
      HalfBit(x, m - 1);
      DifferShifted(x / 2, m - 1, k - 1);
    }
  }

  /** The second byte of an escape is the exclusive or with 0x20. */
  lemma FlipIsXor(ch: byte)
    ensures Flip(ch) == BitXor(ch, 0x20)
  {
    assert Pow2(5) == 0x20;
    PowersOfTwo();
    DifferShifted(ch, 5, 32);
    FifthBit(ch);
  }

  lemma FifthBit(ch: byte)
    ensures TestBit(ch, 5) <==> ch / 32 % 2 == 1
  {
    assert Shr(ch, 1) == ch / 2;
    assert Shr(ch, 2) == ch / 4;
    assert Shr(ch, 3) == ch / 8;
    assert Shr(ch, 4) == ch / 16;
  }

  /** `$`, `#`, `*` and `}` are escaped, and nothing else. */
  lemma EscapedBytes(ch: byte)
    ensures EscapeByte(ch) == if ch == 0x24 then [0x7d, 0x04]
                              else if ch == 0x23 then [0x7d, 0x03]
                              else if ch == 0x2a then [0x7d, 0x0a]
                              else if ch == 0x7d then [0x7d, 0x5d]
                              else [ch]
  {
  }

  /** What is received behind `}` has bit 5 flipped, whatever it is. */
  lemma UnescapedByte(b: byte, terminator: byte)
    ensures Unescape([0x7d, b, terminator], 0, 2) == [BitXor(b, 0x20)]
    ensures b != 0x7d ==> Unescape([b, terminator], 0, 1) == [b]
  {
    FlipIsXor(b);
    var escaped := [0x7d, b, terminator];
    assert Unescape(escaped, 0, 2) == [Flip(escaped[1])] + Unescape(escaped, 2, 2);
  }

  // ------------------------------------------------------------------ frames

  function Sum(body: seq<byte>): nat {
    if |body| == 0 then 0 else body[0] + Sum(body[1..])
  }

  /** The hexadecimal digit `d` in ASCII. */
  function Digit(d: nat): byte
    requires d < 16
  {
    if d < 10 then 48 + d else 87 + d
  }

  lemma {:induction false} SumLast(body: seq<byte>)
    requires |body| > 0
    ensures Sum(body) == Sum(body[..|body| - 1]) + body[|body| - 1]
  {
    var n := |body| - 1;
    if n > 0 {
      SumLast(body[1..]);
      assert body[1..][..n - 1] == body[..n][1..];
    }
  }

  lemma AddModulo(sum: nat, b: byte)
    ensures (sum % 256 + b) % 256 == (sum + b) % 256
  {
  }

  lemma {:induction false} ChecksumIsSum(body: seq<byte>)
    ensures Checksum(body) == Sum(body) % 256
  {
    if |body| > 0 {
      var n := |body| - 1;
      SumLast(body);
      ChecksumIsSum(body[..n]);
      AddModulo(Sum(body[..n]), body[n]);
    }
  }

  /** A frame is `$`, the body, `#` and the sum of the body modulo 256 in two lower-case hexadecimal digits. */
  lemma FrameBytes(body: seq<byte>)
    ensures Frame(body) == [0x24] + body + [0x23, Digit(Sum(body) / 16 % 16), Digit(Sum(body) % 16)]
  {
    ChecksumIsSum(body);
    SumDigits(Sum(body));
  }

  lemma SumDigits(sum: nat)
    ensures sum % 256 / 16 == sum / 16 % 16 && sum % 256 % 16 == sum % 16
  {
    DivModUnique(sum, 256, sum / 256, sum % 256);
    DivModUnique(sum, 16, sum / 256 * 16 + sum % 256 / 16, sum % 256 % 16);
  }

  /** Data without the four special characters is sent as it is. */
  lemma {:induction false} PlainData(data: seq<byte>)
    requires 0x24 !in data && 0x23 !in data && 0x2a !in data && 0x7d !in data
    ensures Escape(data) == data
  {
    if |data| > 0 {
      PlainData(data[..|data| - 1]);
      assert data[|data| - 1] in data;
    }
  }

  /** `$OK#9a`. */
  lemma OkFrame()
    ensures Frame(Escape([0x4f, 0x4b])) == [0x24, 0x4f, 0x4b, 0x23, 0x39, 0x61]
  {
    PlainData([0x4f, 0x4b]);
    OkSum();
    FrameBytes([0x4f, 0x4b]);
  }

  lemma OkSum()
    ensures Sum([0x4f, 0x4b]) == 0x9a
  {
    assert [0x4f, 0x4b][1..] == [0x4b];
  }

  /** The character `c` is the hexadecimal digit `d`, in either case. */
  predicate IsDigit(c: byte, d: nat) {
    (d < 10 && c == 48 + d) || (10 <= d < 16 && (c == 87 + d || c == 55 + d))
  }

  /** A frame is received if its digits are the sum of its body, and acknowledged with `+`; if they are not, it
      is answered with `-` and the next one is waited for. */
  lemma FrameReceived(body: seq<byte>, hi: byte, lo: byte, h: nat, l: nat, rest: seq<byte>)
    requires 0x24 !in body && 0x23 !in body && |body| <= 16382 && IsDigit(hi, h) && IsDigit(lo, l)
    ensures var input := [0x24] + body + [0x23, hi, lo] + rest;
            if h * 16 + l == Sum(body) % 256 then Receive(input) == Receipt(Some(body), [0x2b], rest)
            else Receive(input) == Receive(rest).(acks := [0x2d] + Receive(rest).acks)
  {
    BodyReceived(body, [hi, lo] + rest);
    assert [0x24] + body + [0x23] + ([hi, lo] + rest) == [0x24] + body + [0x23, hi, lo] + rest;
    assert ([hi, lo] + rest)[2..] == rest;
    ChecksumIsSum(body);
    Digits(hi, lo, h, l);
  }

  lemma Digits(hi: byte, lo: byte, h: nat, l: nat)
    requires IsDigit(hi, h) && IsDigit(lo, l)
    ensures Transmitted(hi, lo) == h * 16 + l
  {
    DigitValue(hi, h);
    DigitValue(lo, l);
  }

  lemma DigitValue(c: byte, d: nat)
    requires IsDigit(c, d)
    ensures Hex(c) == d && d < 16
  {
  }

  /** A break character is a packet by itself. */
  lemma BreakReceived(rest: seq<byte>)
    ensures Receive([0x03] + rest) == Receipt(Some([0x03]), [], rest)
  {
    assert ([0x03] + rest)[1..] == rest;
  }

  // ------------------------------------------------------------------ acknowledgements

  /** A packet is sent once more for every answer in front of the first `+`, which is the last one read. */
  lemma {:induction false} Acknowledged(refusals: seq<byte>, rest: seq<byte>)
    requires 0x2b !in refusals
    ensures Transmissions(refusals + [0x2b] + rest) == |refusals| + 1
    ensures AfterAck(refusals + [0x2b] + rest) == rest
    ensures Transmissions(refusals) == |refusals| + 1 && AfterAck(refusals) == []
  {
    var answers := refusals + [0x2b] + rest;
    if |refusals| > 0 {
      Acknowledged(refusals[1..], rest);
      assert answers[1..] == refusals[1..] + [0x2b] + rest;
    }
  }
}
