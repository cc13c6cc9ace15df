/** The JTAG chain: TAP controller (IEEE 1149.1 section 6.1), data-register scans past devices in
    BYPASS (section 10.1), and discovery of the chain by identification codes (section 12.1). */
module Jtag {
  // ------------------------------------------------------------------ the hardware

  datatype Tap =
    | TestLogicReset | RunTestIdle
    | SelectDr | CaptureDr | ShiftDr | Exit1Dr | PauseDr | Exit2Dr | UpdateDr
    | SelectIr | CaptureIr | ShiftIr | Exit1Ir | PauseIr | Exit2Ir | UpdateIr

  function Next(t: Tap, tms: bool): Tap {
    match t
    case TestLogicReset => if tms then TestLogicReset else RunTestIdle
    case RunTestIdle => if tms then SelectDr else RunTestIdle
    case SelectDr => if tms then SelectIr else CaptureDr
    case CaptureDr => if tms then Exit1Dr else ShiftDr
    case ShiftDr => if tms then Exit1Dr else ShiftDr
    case Exit1Dr => if tms then UpdateDr else PauseDr
    case PauseDr => if tms then Exit2Dr else PauseDr
    case Exit2Dr => if tms then UpdateDr else ShiftDr
    case UpdateDr => if tms then SelectDr else RunTestIdle
    case SelectIr => if tms then TestLogicReset else CaptureIr
    case CaptureIr => if tms then Exit1Ir else ShiftIr
    case ShiftIr => if tms then Exit1Ir else ShiftIr
    case Exit1Ir => if tms then UpdateIr else PauseIr
    case PauseIr => if tms then Exit2Ir else PauseIr
    case Exit2Ir => if tms then UpdateIr else ShiftIr
    case UpdateIr => if tms then SelectDr else RunTestIdle
  }

  /** The state after a sequence of TMS values. */
  function Walk(t: Tap, tms: seq<bool>): Tap {
    if |tms| == 0 then t else Next(Walk(t, tms[..|tms| - 1]), tms[|tms| - 1])
  }

  function Ones(n: nat): seq<bool> {
    seq(n, _ => true)
  }

  lemma WalkLast(t: Tap, n: nat)
    ensures Walk(t, Ones(n + 1)) == Next(Walk(t, Ones(n)), true)
  {
    assert Ones(n + 1)[..n] == Ones(n);
  }

  /** How many ones lead to Test-Logic-Reset. */
  function Height(t: Tap): nat {
    match t
    case TestLogicReset => 0
    case SelectIr => 1
    case SelectDr => 2
    case RunTestIdle | UpdateDr | UpdateIr => 3
    case Exit1Dr | Exit2Dr | Exit1Ir | Exit2Ir => 4
    case _ => 5
  }

  lemma OneStepDown(t: Tap)
    ensures Height(Next(t, true)) == if Height(t) == 0 then 0 else Height(t) - 1
  {
  }

  lemma {:induction false} OnesLower(t: Tap, n: nat)
    ensures Height(Walk(t, Ones(n))) == if Height(t) <= n then 0 else Height(t) - n
  {
    if n > 0 {
      OnesLower(t, n - 1);
      WalkLast(t, n - 1);
      OneStepDown(Walk(t, Ones(n - 1)));
    }
  }

  /** Five ones or more reach Test-Logic-Reset from every state. */
  lemma OnesReset(t: Tap, n: nat)
    requires n >= 5
    ensures Walk(t, Ones(n)) == TestLogicReset
  {
    OnesLower(t, n);
  }

  /** The state of the instruction column next to one of the data column. */
  function Beside(t: Tap): Tap {
    match t
    case CaptureDr => CaptureIr
    case ShiftDr => ShiftIr
    case Exit1Dr => Exit1Ir
    case PauseDr => PauseIr
    case Exit2Dr => Exit2Ir
    case UpdateDr => UpdateIr
    case _ => t
  }

  /** The two columns are alike: from their capture states the same TMS values lead to neighbouring states, as
      long as the update state is not left. */
  lemma {:induction false} ColumnsAlike(tms: seq<bool>)
    requires forall i :: 0 <= i < |tms| ==> Walk(CaptureDr, tms[..i]) != UpdateDr
    ensures Walk(CaptureIr, tms) == Beside(Walk(CaptureDr, tms))
    ensures Walk(CaptureDr, tms) in {CaptureDr, ShiftDr, Exit1Dr, PauseDr, Exit2Dr, UpdateDr}
  {
    if |tms| > 0 {
      var n := |tms| - 1;
      forall i | 0 <= i < n ensures Walk(CaptureDr, tms[..n][..i]) != UpdateDr {
        assert tms[..n][..i] == tms[..i];
      }
      ColumnsAlike(tms[..n]);
    }
  }

  /** The controllers and the data registers of the whole chain.  `path` is the shift path with
      the bit next to TDO first; `capture` is what Capture-DR loads into it; `updated` is what the
      last Update-DR made visible to the devices. */
  datatype Port = Port(tap: Tap, path: seq<bool>, capture: seq<bool>, updated: seq<bool>)

  /** One pulse of TCK. */
  function Tick(p: Port, tms: bool, tdi: bool): Port {
    var path := if p.tap == CaptureDr then p.capture
                else if p.tap == ShiftDr then (p.path + [tdi])[1..]
                else p.path;
    var tap := Next(p.tap, tms);
    Port(tap, path, p.capture, if tap == UpdateDr then path else p.updated)
  }

  /** The bit on TDO before the pulse; an empty path is a wire from TDI. */
  function Tdo(p: Port, tdi: bool): bool {
    (p.path + [tdi])[0]
  }

  // ------------------------------------------------------------------ streams

  function Zeros(n: nat): seq<bool> {
    seq(n, _ => false)
  }

  /** A stream shifted into a path. */
  function Shifted(path: seq<bool>, bits: seq<bool>): (r: seq<bool>)
    ensures |r| == |path|
  {
    (path + bits)[|bits|..]
  }

  lemma ShiftedAppend(path: seq<bool>, x: seq<bool>, y: seq<bool>)
    ensures Shifted(Shifted(path, x), y) == Shifted(path, x + y)
  {
    assert (path + x)[|x|..] + y == (path + (x + y))[|x|..];
  }

  class Driver {
    var port: Port
    /** Devices between TDI and the target, and between the target and TDO, all in BYPASS. */
    var prefixBits: nat
    var postfixBits: nat

    constructor (port: Port, prefixBits: nat, postfixBits: nat)
      ensures this.port == port && this.prefixBits == prefixBits && this.postfixBits == postfixBits
    {
      this.port, this.prefixBits, this.postfixBits := port, prefixBits, postfixBits;
    }

    method WriteBit(tms: bool, tdi: bool)
      modifies this`port
      ensures port == Tick(old(port), tms, tdi)
    {
      port := Tick(port, tms, tdi);
    }

    method ReadWriteBit(tms: bool, tdi: bool) returns (bit: bool)
      modifies this`port
      ensures port == Tick(old(port), tms, tdi) && bit == Tdo(old(port), tdi)
    {
      bit := Tdo(port, tdi);
      port := Tick(port, tms, tdi);
    }

    /** The cable's bit-banged transfers; the last bit may leave Shift-DR. */
    method CableReadWriteStream(bits: seq<bool>, setLast: bool) returns (read: seq<bool>)
      requires port.tap == ShiftDr && |bits| > 0
      modifies this`port
      ensures port == old(port).(path := Shifted(old(port).path, bits), tap := if setLast then Exit1Dr else ShiftDr)
      ensures read == (old(port).path + bits)[..|bits|]
    {
      read := [];
      ghost var p := port;
      assert Shifted(p.path, bits[..0]) == p.path;
      for i := 0 to |bits| - 1
        invariant port == p.(path := Shifted(p.path, bits[..i]))
        invariant read == (p.path + bits)[..i]
      {
        ShiftOne(p.path, bits, i);
        var bit := ReadWriteBit(false, bits[i]);
        read := read + [bit];
      }
      var last := |bits| - 1;
      ShiftOne(p.path, bits, last);
      assert bits[..last + 1] == bits;
      var bit := ReadWriteBit(setLast, bits[last]);
      read := read + [bit];
    }

    method CableWriteStream(bits: seq<bool>, setLast: bool)
      requires port.tap == ShiftDr && |bits| > 0
      modifies this`port
      ensures port == old(port).(path := Shifted(old(port).path, bits), tap := if setLast then Exit1Dr else ShiftDr)
    {
      var _ := CableReadWriteStream(bits, setLast);
    }

    /** The TRST line: it resets the controllers if the hardware has it, and is a pulse with TMS low if not. */
    method PulseReset(supported: bool)
      modifies this`port
      ensures port == if supported then old(port).(tap := TestLogicReset) else Tick(old(port), false, false)
    {
      port := if supported then port.(tap := TestLogicReset) else Tick(port, false, false);
    }

    /** `tap_reset`: from any state to Run-Test/Idle, with or without TRST. */
    method TapReset(supported: bool)
      modifies this`port
      ensures port.tap == RunTestIdle && port.capture == old(port).capture
    {
      WriteBit(false, false);
      ghost var p := port;
      for i := 0 to 8
        invariant port.tap == Walk(p.tap, Ones(i)) && port.capture == p.capture
      {
        WalkLast(p.tap, i);
        WriteBit(true, false);
      }
      OnesReset(p.tap, 8);
      PulseReset(supported);
      WriteBit(false, false);
    }

    /** From Run-Test/Idle to Shift-DR. */
    method TapSetShiftDr()
      requires port.tap == RunTestIdle
      modifies this`port
      ensures port == old(port).(tap := ShiftDr, path := old(port).capture)
    {
      WriteBit(true, false);
      WriteBit(false, false);
      WriteBit(false, false);
    }

    /** From Exit1-DR to Run-Test/Idle. */
    method TapExitToIdle()
      requires port.tap == Exit1Dr
      modifies this`port
      ensures port == old(port).(tap := RunTestIdle, updated := old(port).path)
    {
      WriteBit(true, false);
      WriteBit(false, false);
    }

    /** Push the data through the bypass bits in front of the target. */
    method PushPrefix()
      requires port.tap == ShiftDr && prefixBits > 0
      modifies this`port
      ensures port == old(port).(path := Shifted(old(port).path, Zeros(prefixBits)), tap := Exit1Dr)
    {
      ghost var p := port;
      assert Shifted(p.path, Zeros(0)) == p.path;
      for i := 0 to prefixBits - 1
        invariant port == p.(path := Shifted(p.path, Zeros(i)))
      {
        ShiftZero(p.path, i);
        WriteBit(false, false);
      }
      ShiftZero(p.path, prefixBits - 1);
      WriteBit(true, false);
    }

    method JtagWriteStream(outData: seq<bool>, setTms: bool)
      requires port.tap == ShiftDr && |outData| > 0
      modifies this`port
      ensures port == old(port).(path := Shifted(old(port).path, Sent(outData, setTms, prefixBits)),
                                 tap := if setTms then Exit1Dr else ShiftDr)
    {
      if !setTms {
        CableWriteStream(outData, false);
      } else if prefixBits == 0 {
        assert outData + Zeros(0) == outData;
        CableWriteStream(outData, true);
      } else {
        ghost var path := port.path;
        CableWriteStream(outData, false);
        PushPrefix();
        ShiftedAppend(path, outData, Zeros(prefixBits));
      }
    }

    /** Shift the bypass bits behind the target out of the way. */
    method SkipPostfix()
      requires port.tap == ShiftDr
      modifies this`port
      ensures port == old(port).(path := Shifted(old(port).path, Zeros(postfixBits)))
    {
      ghost var p := port;
      assert Shifted(p.path, Zeros(0)) == p.path;
      for i := 0 to postfixBits
        invariant port == p.(path := Shifted(p.path, Zeros(i)))
      {
        ShiftZero(p.path, i);
        WriteBit(false, false);
      }
    }

    method JtagReadWriteStream(outData: seq<bool>, adjust: bool, setTms: bool) returns (inData: seq<bool>)
      requires port.tap == ShiftDr && |outData| > 0
      modifies this`port
      ensures port == old(port).(path := Shifted(old(port).path, Skipped(adjust, postfixBits) + Sent(outData, setTms, prefixBits)),
                                 tap := if setTms then Exit1Dr else ShiftDr)
      ensures var skip := Skipped(adjust, postfixBits);
              inData == (old(port).path + skip + outData)[|skip|..][..|outData|]
    {
      ghost var path := port.path;
      ghost var skip := Skipped(adjust, postfixBits);
      assert Shifted(path, []) == path;
      if adjust && postfixBits > 0 {
        SkipPostfix();
      }
      ShiftedAppend(path, skip, Sent(outData, setTms, prefixBits));
      assert Shifted(path, skip) + outData == (path + skip + outData)[|skip|..];
      if !setTms {
        inData := CableReadWriteStream(outData, false);
      } else if prefixBits == 0 {
        assert outData + Zeros(0) == outData;
        inData := CableReadWriteStream(outData, true);
      } else {
        inData := CableReadWriteStream(outData, false);
        PushPrefix();
        ShiftedAppend(Shifted(path, skip), outData, Zeros(prefixBits));
      }
    }

    /** A whole write transaction, as module selection and burst commands do it: whatever the
        number of devices around the target, the data ends up at the TDI end of its register. */
    method WriteTarget(data: seq<bool>, ghost n: nat)
      requires port.tap == RunTestIdle && 0 < |data| <= n
      requires |port.capture| == postfixBits + n + prefixBits
      modifies this`port
      ensures port.tap == RunTestIdle && port.capture == old(port).capture
      ensures |port.updated| == |port.capture| && TargetOf(port.updated, postfixBits, n)[n - |data|..] == data
    {
      TapSetShiftDr();
      assert [] + data + Zeros(prefixBits) == data + Zeros(prefixBits);
      JtagWriteStream(data, true);
      ScanPlaces(port.capture, [], data, postfixBits, n, prefixBits);
      TapExitToIdle();
    }

    /** `adbg_ctrl_write`: two streams in one transaction. */
    method WriteTwoStreams(first: seq<bool>, second: seq<bool>, ghost n: nat)
      requires port.tap == RunTestIdle && 0 < |first| && 0 < |second| && |first| + |second| <= n
      requires |port.capture| == postfixBits + n + prefixBits
      modifies this`port
      ensures port.tap == RunTestIdle && port.capture == old(port).capture
      ensures |port.updated| == |port.capture|
      ensures TargetOf(port.updated, postfixBits, n)[n - |first| - |second|..] == first + second
    {
      TapSetShiftDr();
      JtagWriteStream(first, false);
      JtagWriteStream(second, true);
      ShiftedAppend(port.capture, first, second + Zeros(prefixBits));
      assert first + (second + Zeros(prefixBits)) == [] + (first + second) + Zeros(prefixBits);
      ScanPlaces(port.capture, [], first + second, postfixBits, n, prefixBits);
      TapExitToIdle();
    }

    /** A whole read transaction, as `jtag_get_idcode` does it: the bits read are those that the
        target captured, and the bits written still reach the target. */
    method ReadTarget(outData: seq<bool>, ghost n: nat) returns (inData: seq<bool>)
      requires port.tap == RunTestIdle && 0 < |outData| <= n
      requires |port.capture| == postfixBits + n + prefixBits
      modifies this`port
      ensures port.tap == RunTestIdle && port.capture == old(port).capture
      ensures inData == TargetOf(port.capture, postfixBits, n)[..|outData|]
      ensures |port.updated| == |port.capture| && TargetOf(port.updated, postfixBits, n)[n - |outData|..] == outData
    {
      TapSetShiftDr();
      inData := JtagReadWriteStream(outData, true, true);
      assert Zeros(postfixBits) + (outData + Zeros(prefixBits)) == Zeros(postfixBits) + outData + Zeros(prefixBits);
      ScanReads(port.capture, outData, postfixBits, n, prefixBits);
      ScanPlaces(port.capture, Zeros(postfixBits), outData, postfixBits, n, prefixBits);
      TapExitToIdle();
    }

    /** `adbg_ctrl_read`: read the data, then push an opcode into the target. */
    method ReadThenCommand(outData: seq<bool>, opcode: seq<bool>, ghost n: nat) returns (inData: seq<bool>)
      requires port.tap == RunTestIdle && 0 < |outData| <= n && 0 < |opcode| <= n
      requires |port.capture| == postfixBits + n + prefixBits
      modifies this`port
      ensures port.tap == RunTestIdle && port.capture == old(port).capture
      ensures inData == TargetOf(port.capture, postfixBits, n)[..|outData|]
      ensures |port.updated| == |port.capture| && TargetOf(port.updated, postfixBits, n)[n - |opcode|..] == opcode
    {
      TapSetShiftDr();
      inData := JtagReadWriteStream(outData, true, false);
      JtagWriteStream(opcode, true);
      ghost var skip := Zeros(postfixBits) + outData;
      ShiftedAppend(port.capture, skip, opcode + Zeros(prefixBits));
      assert skip + (opcode + Zeros(prefixBits)) == skip + opcode + Zeros(prefixBits);
      ScanReads(port.capture, outData, postfixBits, n, prefixBits);
      ScanPlaces(port.capture, skip, opcode, postfixBits, n, prefixBits);
      TapExitToIdle();
    }
  }

  /** The part of the path that lies in the target's register of `n` bits. */
  function TargetOf(path: seq<bool>, postfixBits: nat, n: nat): (r: seq<bool>)
    requires postfixBits + n <= |path|
    ensures |r| == n
  {
    path[postfixBits..postfixBits + n]
  }

  /** After any earlier bits, data followed by one bit per prefix device fills the target. */
  lemma ScanPlaces(capture: seq<bool>, earlier: seq<bool>, data: seq<bool>, post: nat, n: nat, pre: nat)
    requires |capture| == post + n + pre && |data| <= n
    ensures TargetOf(Shifted(capture, earlier + data + Zeros(pre)), post, n)[n - |data|..] == data
  {
    var sent := earlier + data + Zeros(pre);
    var r := TargetOf(Shifted(capture, sent), post, n);
    var k := n - |data|;
    forall i | 0 <= i < |data|
      ensures r[k..][i] == data[i]
    {
      assert Shifted(capture, sent)[post + k + i] == (capture + sent)[|sent| + post + k + i];
      assert |sent| + post + k + i == |capture| + |earlier| + i;
    }
  }

  /** Skipping one bit per postfix device, the next bits out are those the target captured. */
  lemma ScanReads(capture: seq<bool>, outData: seq<bool>, post: nat, n: nat, pre: nat)
    requires |capture| == post + n + pre && |outData| <= n
    ensures (capture + Zeros(post) + outData)[post..][..|outData|] == TargetOf(capture, post, n)[..|outData|]
  {
  }

  /** What `jtag_write_stream` puts on TDI. */
  function Sent(data: seq<bool>, setTms: bool, prefixBits: nat): seq<bool> {
    if setTms then data + Zeros(prefixBits) else data
  }

  /** What an adjusted read shifts first. */
  function Skipped(adjust: bool, postfixBits: nat): seq<bool> {
    if adjust then Zeros(postfixBits) else []
  }

  /** Shifting one more bit of a stream. */
  lemma ShiftOne(path: seq<bool>, bits: seq<bool>, i: nat)
    requires i < |bits|
    ensures Shifted(path, bits[..i + 1]) == (Shifted(path, bits[..i]) + [bits[i]])[1..]
    ensures (Shifted(path, bits[..i]) + [bits[i]])[0] == (path + bits)[i]
    ensures (path + bits)[..i + 1] == (path + bits)[..i] + [(path + bits)[i]]
  {
    assert path + bits[..i + 1] == path + bits[..i] + [bits[i]];
  }

  lemma ShiftZero(path: seq<bool>, i: nat)
    ensures Shifted(path, Zeros(i + 1)) == (Shifted(path, Zeros(i)) + [false])[1..]
  {
    ShiftOne(path, Zeros(i + 1), i);
    assert Zeros(i + 1)[..i] == Zeros(i) && Zeros(i + 1)[..i + 1] == Zeros(i + 1);
  }
}
