/** Matchpoints of the RSP server: software breakpoints written over program memory and hardware
    watchpoint units granted by the HWP server.

    The server's state as seen by a Z or z packet is a `Target`; the packets act on it through
    `Apply`.  The class at the end performs the same packets on the real structures. */
module Matchpoints {
  import opened MatchpointHash

  const HWP_MAX_WP: nat := 8
  const TRAP: nat := 0x2100_0001

  type Memory = map<nat, nat>

  /** A word of program memory (absent words read zero). */
  function Read(mem: Memory, addr: nat): nat {
    if addr in mem then mem[addr] else 0
  }

  /** Debug registers; DMR1 and DMR2 are kept as the set of their bits that are one. */
  datatype DebugRegs = DebugRegs(dvr: map<nat, nat>, dcr: map<nat, nat>, dmr1: set<nat>, dmr2: set<nat>)

  datatype Target = Target(table: map<Key, nat>, mem: Memory, inUse: seq<bool>, regs: DebugRegs)

  /** `Z<kind>,<addr>,<len>` and `z<kind>,<addr>,<len>`; the length is ignored. */
  datatype Packet = Insert(kind: nat, addr: nat) | Remove(kind: nat, addr: nat)

  datatype Reply = Ok | Unsupported | Error

  // ------------------------------------------------------------------ watchpoint units

  function FirstFrom(inUse: seq<bool>, i: nat): int
    requires i <= |inUse|
    decreases |inUse| - i
  {
    if i == |inUse| then -1 else if !inUse[i] then i else FirstFrom(inUse, i + 1)
  }

  /** The first unit not in use, -1 if there is none. */
  function FirstFree(inUse: seq<bool>): int {
    FirstFrom(inUse, 0)
  }

  lemma {:induction false} FirstFromIsFree(inUse: seq<bool>, i: nat)
    requires i <= |inUse|
    ensures var u := FirstFrom(inUse, i);
            && -1 <= u < |inUse|
            && (u >= 0 ==> i <= u && !inUse[u] && forall j :: i <= j < u ==> inUse[j])
            && (u == -1 ==> forall j :: i <= j < |inUse| ==> inUse[j])
    decreases |inUse| - i
  {
    if i < |inUse| && inUse[i] {
      FirstFromIsFree(inUse, i + 1);
    }
  }

  function Release(inUse: seq<bool>, u: nat): seq<bool> {
    if u < |inUse| then inUse[u := false] else inUse
  }

  /** The DCR value for a matchpoint type: compare with the fetch, store, load or any address. */
  function CompareCode(kind: nat): nat {
    if kind == 1 then 0x23 else if kind == 2 then 0x63 else if kind == 3 then 0x43 else 0xc3
  }

  function EnableBit(u: nat): nat {
    12 + u
  }

  function Arm(r: DebugRegs, u: nat, kind: nat, addr: nat): DebugRegs {
    DebugRegs(r.dvr[u := addr], r.dcr[u := CompareCode(kind)], r.dmr1 - {2 * u, 2 * u + 1}, r.dmr2 + {EnableBit(u)})
  }

  function Disarm(r: DebugRegs, u: nat): DebugRegs {
    r.(dcr := r.dcr[u := 1], dmr2 := r.dmr2 - {EnableBit(u)})
  }

  // ------------------------------------------------------------------ packets

  function AddEntry(m: map<Key, nat>, k: Key, v: nat): map<Key, nat> {
    if k in m then m else m[k := v]
  }

  function ApplyInsert(t: Target, kind: nat, addr: nat): Target {
    if kind == 0 then
      t.(table := AddEntry(t.table, Key(kind, addr), Read(t.mem, addr)), mem := t.mem[addr := TRAP])
    else if kind <= 4 then
      var u := FirstFree(t.inUse);
      FirstFromIsFree(t.inUse, 0);
      if u == -1 then t
      else t.(table := AddEntry(t.table, Key(kind, addr), u),
              inUse := t.inUse[u := true],
              regs := Arm(t.regs, u, kind, addr))
    else t
  }

  function ApplyRemove(t: Target, kind: nat, addr: nat): Target {
    var k := Key(kind, addr);
    if k !in t.table || kind > 4 then t
    else if kind == 0 then t.(table := t.table - {k}, mem := t.mem[addr := t.table[k]])
    else t.(table := t.table - {k}, inUse := Release(t.inUse, t.table[k]), regs := Disarm(t.regs, t.table[k]))
  }

  function Apply(t: Target, p: Packet): Target {
    match p
    case Insert(kind, addr) => ApplyInsert(t, kind, addr)
    case Remove(kind, addr) => ApplyRemove(t, kind, addr)
  }

  function ReplyTo(t: Target, p: Packet): Reply {
    if p.kind > 4 then Error
    else if p.Insert? && p.kind > 0 && FirstFree(t.inUse) == -1 then Unsupported
    else Ok
  }

  function Run(t: Target, ps: seq<Packet>): Target {
    if |ps| == 0 then t else Apply(Run(t, ps[..|ps| - 1]), ps[|ps| - 1])
  }

  /** Ok means that the packet has done what it asks for, Unsupported that no unit was free and nothing has
      changed, Error that the type is unknown and nothing has changed. */
  lemma RepliesTruthfully(t: Target, p: Packet)
    ensures ReplyTo(t, p) == Error <==> p.kind > 4
    ensures ReplyTo(t, p) == Unsupported
       <==> p.Insert? && 1 <= p.kind <= 4 && forall u :: 0 <= u < |t.inUse| ==> t.inUse[u]
    ensures ReplyTo(t, p) != Ok ==> Apply(t, p) == t
    ensures ReplyTo(t, p) == Ok ==> (Key(p.kind, p.addr) in Apply(t, p).table <==> p.Insert?)
  {
    FirstFromIsFree(t.inUse, 0);
  }

  // ------------------------------------------------------------------ breakpoints over memory

  /** Whether the last packet about a software breakpoint at `addr` inserted it. */
  predicate Planted(ps: seq<Packet>, addr: nat) {
    |ps| > 0 &&
    var last := ps[|ps| - 1];
    if last.kind == 0 && last.addr == addr then last.Insert? else Planted(ps[..|ps| - 1], addr)
  }

  /** Memory is the original image with traps over it, and the table can undo it. */
  ghost predicate Overlay(image: Memory, t: Target) {
    && (forall a: nat :: Read(t.mem, a) == if Key(0, a) in t.table then 0x2100_0001 else Read(image, a))
    && (forall a: nat :: Key(0, a) in t.table ==> t.table[Key(0, a)] == Read(image, a))
  }

  lemma OverlayStep(image: Memory, t: Target, p: Packet)
    requires Overlay(image, t)
    ensures Overlay(image, Apply(t, p))
  {
  }

  lemma TableStep(t: Target, p: Packet, a: nat)
    ensures Key(0, a) in Apply(t, p).table
       <==> if p.kind == 0 && p.addr == a then p.Insert? else Key(0, a) in t.table
  {
  }

  /** Over any run of packets on word addresses, with repeated insertions and removals of what is
      not there: memory holds an l.trap 1 exactly where a breakpoint is planted and the original
      instruction everywhere else, and the table remembers the original instructions. */
  lemma {:induction false} OverlayRun(t: Target, ps: seq<Packet>)
    requires forall a: nat :: Key(0, a) !in t.table
    ensures Overlay(t.mem, Run(t, ps))
    ensures forall a: nat :: Key(0, a) in Run(t, ps).table <==> Planted(ps, a)
    ensures forall a: nat :: Read(Run(t, ps).mem, a) == if Planted(ps, a) then 0x2100_0001 else Read(t.mem, a)
  {
    if |ps| > 0 {
      var n := |ps| - 1;
      OverlayRun(t, ps[..n]);
      OverlayStep(t.mem, Run(t, ps[..n]), ps[n]);
      forall a: nat
        ensures Key(0, a) in Run(t, ps).table <==> Planted(ps, a)
      {
        TableStep(Run(t, ps[..n]), ps[n], a);
      }
    }
  }

  /** When every breakpoint has been removed, memory reads as before. */
  lemma RemovingAllRestores(t: Target, ps: seq<Packet>)
    requires forall a: nat :: Key(0, a) !in t.table
    requires forall a: nat :: !Planted(ps, a)
    ensures forall a: nat :: Read(Run(t, ps).mem, a) == Read(t.mem, a)
  {
    OverlayRun(t, ps);
  }

  // ------------------------------------------------------------------ conservation of units

  predicate IsUnitKey(k: Key) {
    1 <= k.kind <= 4
  }

  /** Some live matchpoint holds unit `u`. */
  ghost predicate Held(t: Target, u: nat) {
    exists k :: k in t.table && IsUnitKey(k) && t.table[k] == u
  }

  /** Live hardware matchpoints hold distinct units; the units in use are those in use at the
      start and the held ones; the debug registers are armed for exactly the held ones. */
  ghost predicate Conserved(base: Target, t: Target) {
    && |t.inUse| == |base.inUse| == 8
    && (forall k :: k in t.table && IsUnitKey(k) ==> UnitOk(base, t, k))
    && (forall k, k' :: k in t.table && k' in t.table && IsUnitKey(k) && IsUnitKey(k') && k != k' ==>
          t.table[k] != t.table[k'])
    && (forall u :: 0 <= u < 8 ==> (t.inUse[u] <==> base.inUse[u] || Held(t, u)))
    && (forall u :: 0 <= u < 8 ==> EnableOk(base, t, u))
    && (forall b :: b < 12 || b >= 20 ==> (b in t.regs.dmr2 <==> b in base.regs.dmr2))
  }

  /** The control register of a unit is valid and compares for equality, unsigned, with the address that the
      matchpoint type is about: a fetch (1), a store (2), a load (3), a load or a store (4). */
  predicate Watches(dcr: nat, kind: nat) {
    && dcr % 32 == 3
    && (kind == 1 ==> dcr / 32 == 1) && (kind == 2 ==> dcr / 32 == 3)
    && (kind == 3 ==> dcr / 32 == 2) && (kind == 4 ==> dcr / 32 == 6)
  }

  /** A live matchpoint holds a unit that was free at the start, armed for its address and type, enabled by
      bit 12 + u of DMR2 and not chained to others by bits 2u and 2u + 1 of DMR1. */
  ghost predicate UnitOk(base: Target, t: Target, k: Key)
    requires k in t.table && |base.inUse| == 8
  {
    var u := t.table[k];
    && u < 8 && !base.inUse[u]
    && 12 + u in t.regs.dmr2 && 2 * u !in t.regs.dmr1 && 2 * u + 1 !in t.regs.dmr1
    && u in t.regs.dvr && t.regs.dvr[u] == k.addr
    && u in t.regs.dcr && Watches(t.regs.dcr[u], k.kind)
  }

  /** The enable bit of a unit in use elsewhere is never touched; that of a free unit is never
      newly set. */
  ghost predicate EnableOk(base: Target, t: Target, u: nat)
    requires |base.inUse| == 8 && u < 8
  {
    && (base.inUse[u] ==> (12 + u in t.regs.dmr2 <==> 12 + u in base.regs.dmr2))
    && (!Held(t, u) && 12 + u in t.regs.dmr2 ==> 12 + u in base.regs.dmr2)
  }

  /** Software breakpoints do not touch the units. */
  lemma SoftwareConserves(base: Target, t: Target, p: Packet)
    requires Conserved(base, t) && !(1 <= p.kind <= 4)
    ensures Conserved(base, Apply(t, p))
  {
    var t' := Apply(t, p);
    forall k | IsUnitKey(k)
      ensures k in t'.table <==> k in t.table
      ensures k in t.table ==> t'.table[k] == t.table[k]
    {
    }
    forall u ensures Held(t', u) <==> Held(t, u) {
      SameHeld(t, t', u);
    }
    forall k | k in t'.table && IsUnitKey(k)
      ensures UnitOk(base, t', k)
    {
      assert UnitOk(base, t, k);
    }
    forall u: nat | u < HWP_MAX_WP
      ensures EnableOk(base, t', u)
    {
      assert EnableOk(base, t, u);
    }
  }

  lemma SameHeld(t: Target, t': Target, u: nat)
    requires forall k :: IsUnitKey(k) ==> (k in t'.table <==> k in t.table) && (k in t.table ==> t'.table[k] == t.table[k])
    ensures Held(t', u) <==> Held(t, u)
  {
  }

  /** A new key gets a unit of its own. */
  lemma InsertConserves(base: Target, t: Target, kind: nat, addr: nat)
    requires Conserved(base, t) && 1 <= kind <= 4
    requires Key(kind, addr) !in t.table || FirstFree(t.inUse) == -1
    ensures Conserved(base, ApplyInsert(t, kind, addr))
  {
    var u := FirstFree(t.inUse);
    FirstFromIsFree(t.inUse, 0);
    if u >= 0 {
      var k0, t' := Key(kind, addr), ApplyInsert(t, kind, addr);
      assert !Held(t, u) && !base.inUse[u];
      forall v: nat ensures Held(t', v) <==> Held(t, v) || v == u {
        HeldInsert(t, t', k0, u, v);
      }
      forall k | k in t'.table && IsUnitKey(k)
        ensures UnitOk(base, t', k)
      {
        if k != k0 {
          assert UnitOk(base, t, k) && Held(t, t.table[k]);
        }
      }
      forall v: nat | v < HWP_MAX_WP
        ensures EnableOk(base, t', v)
      {
        assert EnableOk(base, t, v);
      }
      forall k | k in t.table && IsUnitKey(k)
        ensures t.table[k] != u
      {
        assert Held(t, t.table[k]);
      }
    }
  }

  lemma HeldInsert(t: Target, t': Target, k0: Key, u: nat, v: nat)
    requires k0 !in t.table && IsUnitKey(k0) && t'.table == t.table[k0 := u]
    ensures Held(t', v) <==> Held(t, v) || v == u
  {
    if Held(t, v) {
      var k :| k in t.table && IsUnitKey(k) && t.table[k] == v;
      assert k in t'.table && t'.table[k] == v;
    }
    if v == u {
      assert k0 in t'.table && t'.table[k0] == v;
    }
  }

  /** A repeated insertion of a live matchpoint takes a unit that nothing holds. */
  lemma DuplicateLeaks(base: Target, t: Target, kind: nat, addr: nat)
    requires Conserved(base, t) && 1 <= kind <= 4
    requires Key(kind, addr) in t.table && FirstFree(t.inUse) != -1
    ensures !Conserved(base, ApplyInsert(t, kind, addr))
  {
    var u, t' := FirstFree(t.inUse), ApplyInsert(t, kind, addr);
    FirstFromIsFree(t.inUse, 0);
    SameHeld(t, t', u);
    assert t'.inUse[u] && !base.inUse[u] && !Held(t, u);
  }

  /** Removal gives the unit back, disabled, with 1 in its control register. */
  lemma RemoveConserves(base: Target, t: Target, kind: nat, addr: nat)
    requires Conserved(base, t) && 1 <= kind <= 4
    ensures Conserved(base, ApplyRemove(t, kind, addr))
    ensures Key(kind, addr) in t.table ==>
              var u, t' := t.table[Key(kind, addr)], ApplyRemove(t, kind, addr);
              u < |t'.inUse| && !t'.inUse[u] && 12 + u !in t'.regs.dmr2 && u in t'.regs.dcr && t'.regs.dcr[u] == 1
  {
    var k0 := Key(kind, addr);
    if k0 in t.table {
      var u, t' := t.table[k0], ApplyRemove(t, kind, addr);
      assert UnitOk(base, t, k0);
      forall v: nat ensures Held(t', v) <==> Held(t, v) && v != u {
        HeldRemove(base, t, t', k0, v);
      }
      forall k | k in t'.table && IsUnitKey(k)
        ensures UnitOk(base, t', k)
      {
        assert UnitOk(base, t, k);
      }
      forall v: nat | v < HWP_MAX_WP
        ensures EnableOk(base, t', v)
      {
        assert EnableOk(base, t, v);
      }
    }
  }

  lemma HeldRemove(base: Target, t: Target, t': Target, k0: Key, v: nat)
    requires Conserved(base, t) && k0 in t.table && IsUnitKey(k0) && t'.table == t.table - {k0}
    ensures Held(t', v) <==> Held(t, v) && v != t.table[k0]
  {
    if Held(t, v) && v != t.table[k0] {
      var k :| k in t.table && IsUnitKey(k) && t.table[k] == v;
      assert k in t'.table && t'.table[k] == v;
    }
  }

  /** The packet does not insert a hardware matchpoint that is live while a unit is free. */
  predicate Clean(t: Target, p: Packet) {
    p.Insert? && 1 <= p.kind <= 4 ==> Key(p.kind, p.addr) !in t.table || FirstFree(t.inUse) == -1
  }

  /** One packet conserves the units if and only if it is clean. */
  lemma ConservedExactly(base: Target, t: Target, p: Packet)
    requires Conserved(base, t)
    ensures Conserved(base, Apply(t, p)) <==> Clean(t, p)
  {
    if !(1 <= p.kind <= 4) {
      SoftwareConserves(base, t, p);
    } else if p.Remove? {
      RemoveConserves(base, t, p.kind, p.addr);
    } else if Clean(t, p) {
      InsertConserves(base, t, p.kind, p.addr);
    } else {
      DuplicateLeaks(base, t, p.kind, p.addr);
    }
  }

  /** The state before packet `n` of a run. */
  function Before(t: Target, ps: seq<Packet>, n: nat): Target
    requires n <= |ps|
  {
    Run(t, ps[..n])
  }

  lemma RunStep(t: Target, ps: seq<Packet>, n: nat)
    requires n < |ps|
    ensures Before(t, ps, n + 1) == Apply(Before(t, ps, n), ps[n])
  {
    assert ps[..n + 1][..n] == ps[..n];
  }

  lemma {:induction false} CleanPrefixConserved(t: Target, ps: seq<Packet>, n: nat)
    requires n <= |ps| && Conserved(t, t)
    requires forall i :: 0 <= i < n ==> Clean(Before(t, ps, i), ps[i])
    ensures Conserved(t, Before(t, ps, n))
  {
    if n > 0 {
      CleanPrefixConserved(t, ps, n - 1);
      RunStep(t, ps, n - 1);
      ConservedExactly(t, Before(t, ps, n - 1), ps[n - 1]);
    }
  }

  /** Over any run, from a server without hardware matchpoints: the units are conserved after
      every packet if and only if every packet is clean. */
  lemma ConservedRun(t: Target, ps: seq<Packet>)
    requires |t.inUse| == HWP_MAX_WP && forall k :: k in t.table ==> !IsUnitKey(k)
    ensures (forall n :: 0 <= n <= |ps| ==> Conserved(t, Before(t, ps, n)))
       <==> (forall n :: 0 <= n < |ps| ==> Clean(Before(t, ps, n), ps[n]))
  {
    assert Conserved(t, t);
    if forall n :: 0 <= n < |ps| ==> Clean(Before(t, ps, n), ps[n]) {
      forall n | 0 <= n <= |ps|
        ensures Conserved(t, Before(t, ps, n))
      {
        CleanPrefixConserved(t, ps, n);
      }
    } else {
      var n :| 0 <= n < |ps| && !Clean(Before(t, ps, n), ps[n]);
      RunStep(t, ps, n);
      if Conserved(t, Before(t, ps, n)) {
        ConservedExactly(t, Before(t, ps, n), ps[n]);
      }
    }
  }

  /** For example, inserting the same watchpoint twice from the start leaves unit 1 in use for nobody. */
  lemma DuplicateLeaksFromStart(mem: Memory, regs: DebugRegs)
    ensures var t := Target(map[], mem, seq(HWP_MAX_WP, _ => false), regs);
            var r := Run(t, [Insert(2, 0x100), Insert(2, 0x100)]);
            && |r.inUse| == HWP_MAX_WP && r.inUse[1] && !Held(r, 1) && !Conserved(t, r)
  {
    var t := Target(map[], mem, seq(HWP_MAX_WP, _ => false), regs);
    var ps := [Insert(2, 0x100), Insert(2, 0x100)];
    var first := Apply(t, ps[0]);
    assert FirstFree(t.inUse) == 0;
    assert first.inUse[0] && !first.inUse[1];
    assert FirstFrom(first.inUse, 1) == 1;
    assert FirstFree(first.inUse) == 1;
    assert ps[..1][..0] == [] && ps[..1] == [ps[0]];
    assert Run(t, ps[..1]) == first;
    assert Run(t, ps) == Apply(first, ps[1]);
  }

  // ------------------------------------------------------------------ the servers

  /** The HWP server's record of the watchpoint units. */
  class HwpServer {
    const inUse: array<bool>

    constructor (absent: seq<bool>)
      requires |absent| == HWP_MAX_WP
      ensures fresh(inUse) && inUse[..] == absent
    {
      inUse := new bool[HWP_MAX_WP](i requires 0 <= i < HWP_MAX_WP => absent[i]);
    }

    method GetAvailableWatchpoint() returns (ret: int)
      modifies inUse
      ensures ret == FirstFree(old(inUse[..]))
      ensures -1 <= ret < inUse.Length
      ensures inUse[..] == if ret == -1 then old(inUse[..]) else old(inUse[..])[ret := true]
    {
      var i := 0;
      FirstFromIsFree(inUse[..], 0);
      while i < inUse.Length
        invariant 0 <= i <= inUse.Length
        invariant FirstFree(inUse[..]) == FirstFrom(inUse[..], i)
        invariant inUse[..] == old(inUse[..])
      {
        if !inUse[i] {
          inUse[i] := true;
          return i;
        }
        i := i + 1;
      }
      return -1;
    }

    method ReturnWatchpoint(wp: nat)
      modifies inUse
      ensures inUse[..] == Release(old(inUse[..]), wp)
    {
      if wp < inUse.Length && inUse[wp] {
        inUse[wp] := false;
      }
    }
  }

  class RspServer {
    const hash: MpHash
    const hwp: HwpServer
    var mem: Memory
    var regs: DebugRegs

    ghost predicate Valid()
      reads this, hash, hash.buckets, hash.nodes, hwp, hwp.inUse
    {
      hash.Valid() && hwp.inUse.Length == HWP_MAX_WP
    }

    constructor (absent: seq<bool>, mem: Memory, regs: DebugRegs)
      requires |absent| == HWP_MAX_WP
      ensures Valid() && State() == Target(map[], mem, absent, regs)
    {
      hash := new MpHash();
      hwp := new HwpServer(absent);
      this.mem, this.regs := mem, regs;
    }

    ghost function State(): Target
      reads this, hash, hwp, hwp.inUse
    {
      Target(hash.table, mem, hwp.inUse[..], regs)
    }

    /** `rsp_insert_matchpoint` after the packet has been parsed. */
    method InsertMatchpoint(kind: nat, addr: nat) returns (reply: Reply)
      requires Valid()
      modifies this, hash, hash.buckets, hwp.inUse
      ensures Valid()
      ensures State() == Apply(old(State()), Insert(kind, addr))
      ensures reply == ReplyTo(old(State()), Insert(kind, addr))
    {
      if kind == 0 {
        var instr := Read(mem, addr);
        hash.Add(kind, addr, instr);
        mem := mem[addr := TRAP];
        reply := Ok;
      } else if kind <= 4 {
        var u := hwp.GetAvailableWatchpoint();
        if u == -1 {
          reply := Unsupported;
        } else {
          hash.Add(kind, addr, u);
          regs := Arm(regs, u, kind, addr);
          reply := Ok;
        }
      } else {
        reply := Error;
      }
    }

    /** `rsp_remove_matchpoint` after the packet has been parsed. */
    method RemoveMatchpoint(kind: nat, addr: nat) returns (reply: Reply)
      requires Valid()
      modifies this, hash, hash.buckets, hash.nodes, hwp.inUse
      ensures Valid()
      ensures State() == Apply(old(State()), Remove(kind, addr))
      ensures reply == ReplyTo(old(State()), Remove(kind, addr))
    {
      if kind > 4 {
        return Error;
      }
      var mpe := hash.Delete(kind, addr);
      if mpe != null {
        if kind == 0 {
          mem := mem[addr := mpe.instr];
        } else {
          regs := Disarm(regs, mpe.instr);
          hwp.ReturnWatchpoint(mpe.instr);
        }
      } else {
        assert hash.table == old(hash.table);
      }
      reply := Ok;
    }
  }
}
