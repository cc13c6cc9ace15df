/** Discovery of the devices on a JTAG chain of unknown length: after a reset every device shows a
    zero bit (no identification register) or its 32-bit code, low bit one.  A marker that no
    device may use is shifted in behind them; its echo ends the search. */
module ChainDiscovery {
  import opened Common
  import opened Words
  import opened Jtag

  const ALLOC_SIZE: nat := 64
  const MAX_DEVICES: nat := 1024
  const MARKER: nat := 0x7f
  const DONE_CODE: nat := 0x3f

  // ------------------------------------------------------------------ numbers as bit streams

  /** The low `k` bits of a number, low bit first. */
  function NatBits(n: nat, k: nat): (r: seq<bool>)
    ensures |r| == k
  {
    if k == 0 then [] else [n % 2 == 1] + NatBits(n / 2, k - 1)
  }

  lemma {:induction false} FromNatBits(n: nat, k: nat)
    requires n < Pow2(k)
    ensures FromBits(NatBits(n, k)) == n
  {
    if k > 0 {
      FromNatBits(n / 2, k - 1);
      assert NatBits(n, k)[1..] == NatBits(n / 2, k - 1);
    }
  }

  /** `n >> k`, low bits dropped one after the other. */
  function Drop(n: nat, k: nat): nat {
    if k == 0 then n else Drop(n / 2, k - 1)
  }

  lemma {:induction false} NatBitsAppend(n: nat, j: nat, k: nat)
    ensures NatBits(n, j + k) == NatBits(n, j) + NatBits(Drop(n, j), k)
  {
    if j > 0 {
      NatBitsAppend(n / 2, j - 1, k);
    }
  }

  lemma {:induction false} DropAdd(n: nat, j: nat, k: nat)
    ensures Drop(n, j + k) == Drop(Drop(n, j), k)
  {
    if j > 0 {
      DropAdd(n / 2, j - 1, k);
    }
  }

  // ------------------------------------------------------------------ devices

  datatype Device = Bypass | IdCode(code: nat)

  predicate ValidDevice(d: Device) {
    d.IdCode? ==> d.code % 2 == 1 && d.code < WORD
  }

  function DeviceBits(d: Device): seq<bool> {
    if d.Bypass? then [false] else NatBits(d.code, 32)
  }

  /** The path of the chain, the device next to TDO first. */
  function ChainBits(devs: seq<Device>): seq<bool> {
    if |devs| == 0 then [] else DeviceBits(devs[0]) + ChainBits(devs[1..])
  }

  /** The entry stored for a device. */
  function Entry(d: Device): nat {
    if d.Bypass? then 0xffff_ffff else d.code
  }

  /** The device's manufacturer field, bits 1 to 11 of its code, is the one reserved for the marker. */
  predicate LooksLikeMarker(d: Device) {
    d.IdCode? && d.code / 2 % 2048 == 0x3f
  }

  /** What the search reports: the devices up to the first that looks like the marker, at most
      `limit` of them. */
  function Reported(devs: seq<Device>, limit: nat): seq<nat> {
    if |devs| == 0 || limit == 0 || LooksLikeMarker(devs[0]) then []
    else [Entry(devs[0])] + Reported(devs[1..], limit - 1)
  }

  /** The search is right exactly when no device looks like the marker and the limit is not
      exceeded. */
  lemma {:induction false} ReportedExactly(devs: seq<Device>, limit: nat)
    ensures |Reported(devs, limit)| == |devs| <==> |devs| <= limit && forall d :: d in devs ==> !LooksLikeMarker(d)
    ensures |Reported(devs, limit)| <= |devs|
    ensures forall i :: 0 <= i < |Reported(devs, limit)| ==> Reported(devs, limit)[i] == Entry(devs[i])
  {
    if |devs| > 0 && limit > 0 && !LooksLikeMarker(devs[0]) {
      ReportedExactly(devs[1..], limit - 1);
      assert devs == [devs[0]] + devs[1..];
    } else if |devs| > 0 {
      assert devs[0] in devs;
    }
  }

  /** `found` are the entries of the devices up to the first with the marker's field, at most 1024: the code of
      each device, or 0xffffffff if it has none. */
  ghost predicate Finds(devs: seq<Device>, found: seq<nat>) {
    && |found| <= |devs| && |found| <= 1024
    && (forall i :: 0 <= i < |found| ==>
          !LooksLikeMarker(devs[i]) && found[i] == if devs[i].Bypass? then 0xffff_ffff else devs[i].code)
    && (|found| == |devs| || |found| == 1024 || LooksLikeMarker(devs[|found|]))
  }

  lemma {:induction false} ReportedPrefix(devs: seq<Device>, limit: nat)
    ensures var found := Reported(devs, limit);
            && |found| <= |devs| && |found| <= limit
            && (forall i :: 0 <= i < |found| ==> !LooksLikeMarker(devs[i]) && found[i] == Entry(devs[i]))
            && (|found| == |devs| || |found| == limit || LooksLikeMarker(devs[|found|]))
  {
    if |devs| > 0 && limit > 0 && !LooksLikeMarker(devs[0]) {
      ReportedPrefix(devs[1..], limit - 1);
    }
  }

  lemma ReportedFinds(devs: seq<Device>)
    ensures Finds(devs, Reported(devs, MAX_DEVICES))
  {
    ReportedPrefix(devs, MAX_DEVICES);
  }

  lemma ReportedNext(devs: seq<Device>, limit: nat)
    requires |devs| > 0 && limit > 0 && !LooksLikeMarker(devs[0])
    ensures Reported(devs, limit) == [Entry(devs[0])] + Reported(devs[1..], limit - 1)
    ensures |ChainBits(devs)| == |DeviceBits(devs[0])| + |ChainBits(devs[1..])|
  {
  }

  // ------------------------------------------------------------------ one step of the search

  /** The path while `t` marker bits have been shifted in and `devs` are still to come. */
  function Remaining(devs: seq<Device>, t: nat): seq<bool> {
    ChainBits(devs) + NatBits(MARKER, t)
  }

  /** Shifting `k` more marker bits in pushes the first `k` bits out. */
  lemma FeedMarker(path: seq<bool>, bits: seq<bool>, t: nat, k: nat)
    requires path == bits + NatBits(MARKER, t) && |bits| >= k
    ensures var outData := NatBits(Drop(MARKER, t), k);
            && Shifted(path, outData) == bits[k..] + NatBits(MARKER, t + k)
            && (path + outData)[..k] == bits[..k]
  {
    NatBitsAppend(MARKER, t, k);
  }

  /** With no device left the marker itself comes out. */
  lemma EchoMarker(t: nat, k: nat)
    ensures var outData := NatBits(Drop(MARKER, t), k);
            (NatBits(MARKER, t) + outData)[..k] == NatBits(MARKER, k)
  {
    NatBitsAppend(MARKER, t, k);
    assert t + k == k + t;
    NatBitsAppend(MARKER, k, t);
  }

  lemma {:induction false} FromBitsAppend(a: seq<bool>, b: seq<bool>)
    ensures FromBits(a + b) == FromBits(a) + Shl(FromBits(b), |a|)
  {
    if |a| == 0 {
      assert a + b == b;
    } else {
      assert (a + b)[1..] == a[1..] + b;
      FromBitsAppend(a[1..], b);
    }
  }

  lemma ShlEleven(x: nat)
    ensures Shl(x, 11) == 2048 * x
  {
    assert Shl(x, 1) == 2 * x;
    assert Shl(x, 2) == 4 * x;
    assert Shl(x, 4) == 16 * x;
    assert Shl(x, 6) == 64 * x;
    assert Shl(x, 8) == 256 * x;
    assert Shl(x, 10) == 1024 * x;
  }

  /** The fields of an identification code on the wire: start bit, manufacturer, rest. */
  lemma IdFields(code: nat)
    requires code % 2 == 1 && code < WORD
    ensures var bits := NatBits(code, 32);
            && bits[0]
            && FromBits(bits[1..12]) == code / 2 % 2048
            && FromBits(bits[12..]) * 4096 + FromBits(bits[1..12]) * 2 + 1 == code
  {
    var bits := NatBits(code, 32);
    PowersOfTwo();
    FromNatBits(code, 32);
    assert bits[1..] == bits[1..12] + bits[12..];
    FromBitsAppend(bits[1..12], bits[12..]);
    ShlEleven(FromBits(bits[12..]));
    Pow2Eleven();
    SplitCode(code, FromBits(bits[1..12]), FromBits(bits[12..]));
  }

  lemma SplitCode(code: nat, manuf: nat, rest: nat)
    requires manuf < 2048 && code == 1 + 2 * (manuf + 2048 * rest)
    ensures manuf == code / 2 % 2048 && rest * 4096 + manuf * 2 + 1 == code
  {
  }

  lemma Pow2Eleven()
    ensures Pow2(11) == 2048
  {
  }

  /** Reading past a device without a code. */
  lemma ProbeBypass(devs: seq<Device>, t: nat)
    requires |devs| > 0 && devs[0].Bypass?
    ensures var path, out := Remaining(devs, t), NatBits(Drop(MARKER, t), 1);
            !(path + out)[0] && Shifted(path, out) == Remaining(devs[1..], t + 1)
  {
    FeedMarker(Remaining(devs, t), ChainBits(devs), t, 1);
    assert ChainBits(devs)[1..] == ChainBits(devs[1..]);
  }

  /** Reading a code in three parts. */
  lemma ProbeCode(devs: seq<Device>, t: nat)
    requires |devs| > 0 && devs[0].IdCode? && ValidDevice(devs[0])
    ensures var p0, o1 := Remaining(devs, t), NatBits(Drop(MARKER, t), 1);
            var p1, o2 := Shifted(p0, o1), NatBits(Drop(MARKER, t + 1), 11);
            var p2, o3 := Shifted(p1, o2), NatBits(Drop(MARKER, t + 12), 20);
            var code := devs[0].code;
            && (p0 + o1)[0]
            && FromBits((p1 + o2)[..11]) == code / 2 % 2048
            && FromBits((p2 + o3)[..20]) * 4096 + code / 2 % 2048 * 2 + 1 == code
            && Shifted(p2, o3) == Remaining(devs[1..], t + 32)
  {
    var chain, id := ChainBits(devs), DeviceBits(devs[0]);
    IdFields(devs[0].code);
    assert chain[..1] == id[..1] && chain[1..][..11] == id[1..12] && chain[12..][..20] == id[12..];
    assert chain[1..][11..] == chain[12..] && chain[12..][20..] == ChainBits(devs[1..]);
    var p0, o1 := Remaining(devs, t), NatBits(Drop(MARKER, t), 1);
    FeedMarker(p0, chain, t, 1);
    var p1, o2 := Shifted(p0, o1), NatBits(Drop(MARKER, t + 1), 11);
    FeedMarker(p1, chain[1..], t + 1, 11);
    FeedMarker(Shifted(p1, o2), chain[12..], t + 12, 20);
    assert (p0 + o1)[0] == (p0 + o1)[..1][0];
  }

  /** Behind the last device comes the marker. */
  lemma ProbeEnd(t: nat)
    ensures var p0, o1 := Remaining([], t), NatBits(Drop(MARKER, t), 1);
            var p1, o2 := Shifted(p0, o1), NatBits(Drop(MARKER, t + 1), 11);
            (p0 + o1)[0] && FromBits((p1 + o2)[..11]) == DONE_CODE
  {
    var p0, o1 := NatBits(MARKER, t), NatBits(Drop(MARKER, t), 1);
    var o2 := NatBits(Drop(MARKER, t + 1), 11);
    assert Remaining([], t) == p0;
    EchoMarker(t, 1);
    EchoMarker(t, 12);
    NatBitsAppend(Drop(MARKER, t), 1, 11);
    DropAdd(MARKER, t, 1);
    SplitRead(p0, o1, o2);
    MarkerField();
  }

  lemma SplitRead(p: seq<bool>, x: seq<bool>, y: seq<bool>)
    requires |x| == 1 && |y| == 11
    ensures (Shifted(p, x) + y)[..11] == (p + (x + y))[..12][1..]
    ensures (p + x)[0] == (p + (x + y))[..12][0]
  {
    assert Shifted(p, x) + y == (p + (x + y))[1..];
  }

  lemma MarkerField()
    ensures NatBits(MARKER, 12)[0] && FromBits(NatBits(MARKER, 12)[1..]) == DONE_CODE
  {
    assert NatBits(MARKER, 12)[1..] == NatBits(DONE_CODE, 11);
    Pow2Eleven();
    FromNatBits(DONE_CODE, 11);
  }

  // ------------------------------------------------------------------ the search

  /** One bit of the search. */
  method ProbeBit(d: Driver, invalidCode: nat) returns (startBit: bool, shiftedCode: nat)
    requires d.port.tap == ShiftDr
    modifies d`port
    ensures var out := NatBits(invalidCode, 1);
            && d.port == old(d.port).(path := Shifted(old(d.port).path, out))
            && startBit == (old(d.port).path + out)[0]
    ensures shiftedCode == Drop(invalidCode, 1)
  {
    ghost var p := d.port;
    assert NatBits(invalidCode, 1) == [invalidCode % 2 == 1];
    startBit := d.ReadWriteBit(false, invalidCode % 2 == 1);
    shiftedCode := invalidCode / 2;
  }

  /** A field of `k` bits. */
  method ProbeField(d: Driver, invalidCode: nat, k: nat) returns (field: nat, shiftedCode: nat)
    requires d.port.tap == ShiftDr && k > 0
    modifies d`port
    ensures var out := NatBits(invalidCode, k);
            && d.port == old(d.port).(path := Shifted(old(d.port).path, out))
            && field == FromBits((old(d.port).path + out)[..k])
    ensures shiftedCode == Drop(invalidCode, k)
  {
    ghost var path, out := d.port.path, NatBits(invalidCode, k);
    assert [] + out == out && (path + [] + out)[0..] == path + out;
    var bits := d.JtagReadWriteStream(NatBits(invalidCode, k), false, false);
    field := FromBits(bits);
    shiftedCode := Drop(invalidCode, k);
  }

  /** Store an entry, doubling the array first when it is full. */
  method Store(ids: array<nat>, used: nat, reallocs: nat, id: nat) returns (ids': array<nat>, reallocs': nat)
    requires used <= ids.Length == Shl(ALLOC_SIZE, reallocs)
    modifies ids
    ensures used < ids'.Length == Shl(ALLOC_SIZE, reallocs')
    ensures ids'[..used + 1] == old(ids[..used]) + [id]
    ensures ids' == ids || fresh(ids')
  {
    ids', reallocs' := Enlarge(ids, used, reallocs);
    ghost var before := ids'[..used];
    ids'[used] := id;
    assert ids'[..used + 1] == before + [id];
  }

  /** Room for one more entry. */
  method Enlarge(ids: array<nat>, used: nat, reallocs: nat) returns (bigger: array<nat>, count: nat)
    requires used <= ids.Length == Shl(ALLOC_SIZE, reallocs)
    ensures used < bigger.Length == Shl(ALLOC_SIZE, count)
    ensures bigger[..used] == ids[..used]
    ensures bigger == ids || fresh(bigger)
  {
    bigger, count := ids, reallocs;
    if used >= Shl(ALLOC_SIZE, reallocs) {
      count := reallocs + 1;
      ShlPositive(reallocs);
      bigger := new nat[Shl(ALLOC_SIZE, count)](i => 0);
      for i := 0 to used
        invariant forall j :: 0 <= j < i ==> bigger[j] == ids[j]
      {
        bigger[i] := ids[i];
      }
    }
  }

  lemma {:induction false} ShlPositive(k: nat)
    ensures Shl(ALLOC_SIZE, k) > 0
  {
    if k > 0 {
      ShlPositive(k - 1);
    }
  }

  /** One turn of the search: read the next device, or recognise the marker. */
  method ProbeDevice(d: Driver, code: nat, ghost left: seq<Device>, ghost t: nat)
    returns (done: bool, tempId: nat, invalidCode: nat, ghost shifts: nat)
    requires d.port.tap == ShiftDr && d.port.path == Remaining(left, t) && code == Drop(MARKER, t)
    requires |left| > 0 ==> ValidDevice(left[0])
    modifies d`port
    ensures d.port.tap == ShiftDr && d.port.capture == old(d.port).capture
    ensures done <==> |left| == 0 || LooksLikeMarker(left[0])
    ensures |left| == 0 ==> shifts == t + 12
    ensures !done ==> tempId == Entry(left[0]) && shifts == t + |DeviceBits(left[0])|
    ensures !done ==> d.port.path == Remaining(left[1..], shifts) && invalidCode == Drop(MARKER, shifts)
  {
    StartBit(left, t);
    DropAdd(MARKER, t, 1);
    var startBit;
    startBit, invalidCode := ProbeBit(d, code);
    shifts := t + 1;
    if !startBit {
      return false, 0xffff_ffff, invalidCode, shifts;
    }
    done, tempId, invalidCode, shifts := ProbeIdentity(d, invalidCode, left, t);
  }

  lemma StartBit(left: seq<Device>, t: nat)
    requires |left| > 0 ==> ValidDevice(left[0])
    ensures var path, out := Remaining(left, t), NatBits(Drop(MARKER, t), 1);
            && (!(path + out)[0] <==> |left| > 0 && left[0].Bypass?)
            && (|left| > 0 && left[0].Bypass? ==> Shifted(path, out) == Remaining(left[1..], t + 1))
  {
    if |left| == 0 {
      ProbeEnd(t);
    } else if left[0].Bypass? {
      ProbeBypass(left, t);
    } else {
      ProbeCode(left, t);
    }
  }

  /** What the manufacturer field reads as behind a start bit. */
  lemma ManufacturerField(left: seq<Device>, t: nat)
    requires |left| > 0 ==> left[0].IdCode? && ValidDevice(left[0])
    ensures Drop(Drop(MARKER, t + 1), 11) == Drop(MARKER, t + 12)
    ensures var path, out := Shifted(Remaining(left, t), NatBits(Drop(MARKER, t), 1)), NatBits(Drop(MARKER, t + 1), 11);
            && FromBits((path + out)[..11]) == (if |left| == 0 then DONE_CODE else left[0].code / 2 % 2048)
            && (FromBits((path + out)[..11]) == DONE_CODE <==> |left| == 0 || LooksLikeMarker(left[0]))
  {
    DropAdd(MARKER, t + 1, 11);
    if |left| == 0 {
      ProbeEnd(t);
    } else {
      ProbeCode(left, t);
    }
  }

  /** After a start bit: the manufacturer field decides between a code and the marker. */
  method ProbeIdentity(d: Driver, code: nat, ghost left: seq<Device>, ghost t: nat)
    returns (done: bool, tempId: nat, invalidCode: nat, ghost shifts: nat)
    requires d.port.tap == ShiftDr && code == Drop(MARKER, t + 1)
    requires d.port.path == Shifted(Remaining(left, t), NatBits(Drop(MARKER, t), 1))
    requires |left| > 0 ==> left[0].IdCode? && ValidDevice(left[0])
    modifies d`port
    ensures d.port.tap == ShiftDr && d.port.capture == old(d.port).capture
    ensures done <==> |left| == 0 || LooksLikeMarker(left[0])
    ensures |left| == 0 ==> shifts == t + 12
    ensures !done ==> tempId == Entry(left[0]) && shifts == t + 32
    ensures !done ==> d.port.path == Remaining(left[1..], shifts) && invalidCode == Drop(MARKER, shifts)
  {
    ManufacturerField(left, t);
    var manufCode;
    manufCode, invalidCode := ProbeField(d, code, 11);
    shifts := t + 12;
    if manufCode == DONE_CODE {
      return true, 0, invalidCode, shifts;
    }
    tempId, invalidCode := ProbeRest(d, invalidCode, manufCode, left, t);
    return false, tempId, invalidCode, t + 32;
  }

  /** The last 20 bits of a code. */
  method ProbeRest(d: Driver, code: nat, manufCode: nat, ghost left: seq<Device>, ghost t: nat)
    returns (tempId: nat, invalidCode: nat)
    requires d.port.tap == ShiftDr && code == Drop(MARKER, t + 12)
    requires |left| > 0 && left[0].IdCode? && ValidDevice(left[0]) && manufCode == left[0].code / 2 % 2048
    requires d.port.path == Shifted(Shifted(Remaining(left, t), NatBits(Drop(MARKER, t), 1)), NatBits(Drop(MARKER, t + 1), 11))
    modifies d`port
    ensures d.port.tap == ShiftDr && d.port.capture == old(d.port).capture
    ensures tempId == left[0].code
    ensures d.port.path == Remaining(left[1..], t + 32) && invalidCode == Drop(MARKER, t + 32)
  {
    ProbeCode(left, t);
    DropAdd(MARKER, t + 12, 20);
    var restCode;
    restCode, invalidCode := ProbeField(d, code, 20);
    tempId := restCode * 4096 + manufCode * 2 + 1;
  }

  /** The search has reported `found`; the devices `left` are still on the path. */
  ghost predicate Searching(devs: seq<Device>, left: seq<Device>, found: seq<nat>, shifts: nat) {
    && |found| <= |devs| && |found| <= MAX_DEVICES && left == devs[|found|..]
    && Reported(devs, MAX_DEVICES) == found + Reported(left, MAX_DEVICES - |found|)
    && shifts + |ChainBits(left)| == |ChainBits(devs)|
  }

  lemma SearchStep(devs: seq<Device>, left: seq<Device>, found: seq<nat>, shifts: nat)
    requires Searching(devs, left, found, shifts)
    requires |found| < MAX_DEVICES && |left| > 0 && !LooksLikeMarker(left[0])
    ensures Searching(devs, left[1..], found + [Entry(left[0])], shifts + |DeviceBits(left[0])|)
  {
    ReportedNext(left, MAX_DEVICES - |found|);
    Associative(found, [Entry(left[0])], Reported(left[1..], MAX_DEVICES - |found| - 1));
    Associative(devs[..|found|], [left[0]], left[1..]);
  }

  lemma SearchEnd(devs: seq<Device>, left: seq<Device>, found: seq<nat>, shifts: nat)
    requires Searching(devs, left, found, shifts)
    requires |found| == MAX_DEVICES || |left| == 0 || LooksLikeMarker(left[0])
    ensures found == Reported(devs, MAX_DEVICES)
    ensures |found| == |devs| ==> shifts == |ChainBits(devs)|
  {
    assert Reported(left, MAX_DEVICES - |found|) == [];
  }

  /** From Shift-DR to Run-Test/Idle. */
  method LeaveShiftDr(d: Driver)
    requires d.port.tap == ShiftDr
    modifies d`port
    ensures d.port.tap == RunTestIdle
  {
    d.WriteBit(true, false);
    d.WriteBit(true, false);
    d.WriteBit(false, false);
  }

  /** `jtag_enumerate_chain`: the report is exact, the array is never overrun, and with every
      device found the search stops at the echo of its own marker, twelve bits behind the chain. */
  method EnumerateChain(d: Driver, ghost devs: seq<Device>) returns (ids: array<nat>, numDevices: nat, ghost shifts: nat)
    requires d.port.tap == RunTestIdle && d.port.capture == ChainBits(devs)
    requires forall dev :: dev in devs ==> ValidDevice(dev)
    modifies d`port
    ensures d.port.tap == RunTestIdle
    ensures numDevices <= ids.Length && Finds(devs, ids[..numDevices])
    ensures numDevices == |devs| < 1024 ==> shifts == |ChainBits(devs)| + 12
    ensures ids[..numDevices] == Reported(devs, MAX_DEVICES)
  {
    var invalidCode := MARKER;
    var devindex, reallocs := 0, 0;
    ids := new nat[ALLOC_SIZE](i => 0);
    shifts := 0;
    d.TapSetShiftDr();
    ghost var left, consumed := devs, 0;
    assert Remaining(left, 0) == ChainBits(devs);
    while devindex < MAX_DEVICES
      invariant devindex <= ids.Length == Shl(ALLOC_SIZE, reallocs) && fresh(ids)
      invariant d.port.tap == ShiftDr && d.port.path == Remaining(left, shifts)
      invariant invalidCode == Drop(MARKER, shifts)
      invariant devindex <= MAX_DEVICES && consumed == shifts && Searching(devs, left, ids[..devindex], consumed)
    {
      var done, tempId;
      done, tempId, invalidCode, shifts := ProbeDevice(d, invalidCode, left, shifts);
      if done {
        break;
      }
      SearchStep(devs, left, ids[..devindex], consumed);
      ids, reallocs := Store(ids, devindex, reallocs, tempId);
      left, devindex, consumed := left[1..], devindex + 1, shifts;
    }
    SearchEnd(devs, left, ids[..devindex], consumed);
    LeaveShiftDr(d);
    numDevices := devindex;
    ReportedFinds(devs);
  }

  /** For example, a device of manufacturer 0x3f hides itself and everything behind it. */
  lemma MarkerHidesDevices()
    ensures var devs := [Bypass, IdCode(0x7f), IdCode(0x1)];
            && (forall dev :: dev in devs ==> ValidDevice(dev))
            && Reported(devs, 1024) == [0xffff_ffff]
  {
    var devs := [Bypass, IdCode(0x7f), IdCode(0x1)];
    assert devs[1..] == [IdCode(0x7f), IdCode(0x1)];
    assert Reported(devs[1..], MAX_DEVICES - 1) == [];
  }
}
