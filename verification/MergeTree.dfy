/** The generator of the assertion fabric's merge tree: it prints levels of 6-input blocks until
    one block is left.  A printed instance is a `Line`; a `mergeBlock` is read as an OR gate. */
module MergeTree {
  import opened Common

  const LUT_INPUTS: nat := 6

  /** `assertionBlock_<id>_result` and `mergeBlock_<level>_<id>_result`. */
  datatype Wire = Assertion(id: nat) | Merge(level: nat, id: nat)

  /** An input of a block: a wire or `1'b0`. */
  datatype Pin = Ground | Net(wire: Wire)

  datatype Line =
    | Lut(level: nat, id: nat, pins: seq<Pin>)
    | AssignZero
    | AssignMasked(level: nat)

  /** The wires a level reads: the level below, or the assertion results. */
  function Lower(level: nat, id: nat): Wire {
    if level == 0 then Assertion(id) else Merge(level - 1, id)
  }

  // ------------------------------------------------------------------ what is printed

  function PinAt(level: nat, id: nat, used: nat, k: nat): Pin {
    if k < used then Net(Lower(level, id * LUT_INPUTS + k)) else Ground
  }

  function LutLine(id: nat, level: nat, used: nat): Line {
    Lut(level, id, seq(LUT_INPUTS, k requires 0 <= k => PinAt(level, id, used, k)))
  }

  /** Inputs over six, rounded up. */
  function LutCount(n: nat): nat {
    if n % LUT_INPUTS == 0 then n / LUT_INPUTS else n / LUT_INPUTS + 1
  }

  /** The inputs used by block `id` of a level with `n` inputs. */
  function UsedInputs(n: nat, id: nat): nat {
    if id == LutCount(n) - 1 && n % LUT_INPUTS != 0 then n % LUT_INPUTS else LUT_INPUTS
  }

  /** The first `count` blocks of a level with `n` inputs. */
  function Luts(n: nat, level: nat, count: nat): (r: seq<Line>)
    ensures |r| == count
  {
    if count == 0 then [] else Luts(n, level, count - 1) + [LutLine(count - 1, level, UsedInputs(n, count - 1))]
  }

  function Netlist(n: nat, level: nat): seq<Line>
    decreases n
  {
    var count := LutCount(n);
    var above := if count == 0 then [AssignZero]
                 else if count != 1 then Netlist(count, level + 1)
                 else [AssignMasked(level)];
    Luts(n, level, count) + above
  }

  /** What follows the first level. */
  function Above(n: nat, level: nat): seq<Line> {
    var count := LutCount(n);
    if count == 0 then [AssignZero]
    else if count != 1 then Netlist(count, level + 1)
    else [AssignMasked(level)]
  }

  lemma Unfold(n: nat, level: nat)
    ensures Netlist(n, level) == Luts(n, level, LutCount(n)) + Above(n, level)
  {
  }

  class StitchFabric {
    var lines: seq<Line>

    constructor ()
      ensures lines == []
    {
      lines := [];
    }

    method PrintMergeBlock(numInputs: nat)
      modifies this
      ensures lines == old(lines) + Netlist(numInputs, 0)
    {
      PrintLevelOfLuts(numInputs, 0);
    }

    method PrintLevelOfLuts(numInputs: nat, level: nat)
      modifies this
      ensures lines == old(lines) + Netlist(numInputs, level)
      decreases numInputs
    {
      var lutCount := PrintLevel(numInputs, level);
      Unfold(numInputs, level);
      Associative(old(lines), Luts(numInputs, level, lutCount), Above(numInputs, level));
      if lutCount == 0 {
        lines := lines + [AssignZero];
      } else if lutCount != 1 {
        PrintLevelOfLuts(lutCount, level + 1);
      } else {
        lines := lines + [AssignMasked(level)];
      }
    }

    /** The loop of `PrintLevelOfLuts`. */
    method PrintLevel(numInputs: nat, level: nat) returns (lutCount: nat)
      modifies this
      ensures lutCount == LutCount(numInputs)
      ensures lines == old(lines) + Luts(numInputs, level, lutCount)
    {
      lutCount := numInputs / 6;
      lutCount := if numInputs % LUT_INPUTS == 0 then lutCount else lutCount + 1;
      for count := 0 to lutCount
        invariant lines == old(lines) + Luts(numInputs, level, count)
      {
        if count == lutCount - 1 && numInputs % LUT_INPUTS != 0 {
          PrintLut(count, level, numInputs % LUT_INPUTS);
        } else {
          PrintLut(count, level, LUT_INPUTS);
        }
      }
    }

    method PrintLut(id: nat, level: nat, usedInputs: nat)
      modifies this
      ensures lines == old(lines) + [LutLine(id, level, usedInputs)]
    {
      var pins: seq<Pin> := [];
      for inCount := 0 to LUT_INPUTS
        invariant |pins| == inCount
        invariant forall k :: 0 <= k < inCount ==> pins[k] == PinAt(level, id, usedInputs, k)
      {
        var inputId := id * LUT_INPUTS + inCount;
        if inCount < usedInputs {
          pins := pins + [Net(if level == 0 then Assertion(inputId) else Merge(level - 1, inputId))];
        } else {
          pins := pins + [Ground];
        }
      }
      assert pins == LutLine(id, level, usedInputs).pins;
      lines := lines + [Lut(level, id, pins)];
    }
  }

  // ------------------------------------------------------------------ what it computes

  predicate PinValue(v: Wire -> bool, p: Pin) {
    p.Net? && v(p.wire)
  }

  /** The valuation respects every printed block. */
  ghost predicate Consistent(lines: seq<Line>, v: Wire -> bool) {
    forall k :: 0 <= k < |lines| && lines[k].Lut? ==>
      v(Merge(lines[k].level, lines[k].id)) ==
      exists p :: 0 <= p < |lines[k].pins| && PinValue(v, lines[k].pins[p])
  }

  /** The signal that the final line assigns. */
  ghost predicate Violated(lines: seq<Line>, v: Wire -> bool, anyConfigInvalid: bool) {
    && |lines| > 0
    && lines[|lines| - 1].AssignMasked?
    && v(Merge(lines[|lines| - 1].level, 0)) && !anyConfigInvalid
  }

  ghost predicate AnyLower(v: Wire -> bool, level: nat, n: nat) {
    exists i: nat :: i < n && v(Lower(level, i))
  }

  lemma {:induction false} LutsAt(n: nat, level: nat, count: nat, k: nat)
    requires k < count
    ensures Luts(n, level, count)[k] == LutLine(k, level, UsedInputs(n, k))
  {
    if k < count - 1 {
      LutsAt(n, level, count - 1, k);
    }
  }

  /** Every input of a level has one place: pin `i % 6` of block `i / 6`. */
  lemma PlaceOf(n: nat, level: nat, i: nat)
    requires i < n
    ensures i / 6 < LutCount(n) && i % 6 < UsedInputs(n, i / 6)
    ensures PinAt(level, i / 6, UsedInputs(n, i / 6), i % 6) == Net(Lower(level, i))
  {
  }

  /** A pin that is not grounded carries an input of the level. */
  lemma PinReads(n: nat, level: nat, k: nat, p: nat)
    requires k < LutCount(n) && p < UsedInputs(n, k)
    ensures k * 6 + p < n
  {
  }

  /** One level neither loses nor invents a violation. */
  lemma LevelIsOr(n: nat, level: nat, v: Wire -> bool)
    requires Consistent(Luts(n, level, LutCount(n)), v)
    ensures AnyLower(v, level, n) == AnyLower(v, level + 1, LutCount(n))
  {
    var luts := Luts(n, level, LutCount(n));
    if AnyLower(v, level, n) {
      var i: nat :| i < n && v(Lower(level, i));
      PlaceOf(n, level, i);
      LutsAt(n, level, LutCount(n), i / 6);
      assert PinValue(v, luts[i / 6].pins[i % 6]);
      assert v(Lower(level + 1, i / 6));
    }
    if AnyLower(v, level + 1, LutCount(n)) {
      var k: nat :| k < LutCount(n) && v(Lower(level + 1, k));
      LutsAt(n, level, LutCount(n), k);
      var p :| 0 <= p < |luts[k].pins| && PinValue(v, luts[k].pins[p]);
      PinReads(n, level, k, p);
      assert v(Lower(level, k * 6 + p));
    }
  }

  lemma ConsistentSplit(a: seq<Line>, b: seq<Line>, v: Wire -> bool)
    requires Consistent(a + b, v)
    ensures Consistent(a, v) && Consistent(b, v)
  {
    forall k | 0 <= k < |a|
      ensures (a + b)[k] == a[k]
    {
    }
    forall k | 0 <= k < |b|
      ensures (a + b)[|a| + k] == b[k]
    {
    }
  }

  /** In every valuation of the wires that respects the printed blocks, the output is the OR of
      all `n` inputs, masked by a configuration error. */
  lemma {:induction false} MergeTreeIsOr(n: nat, level: nat, v: Wire -> bool, anyConfigInvalid: bool)
    requires Consistent(Netlist(n, level), v)
    ensures Violated(Netlist(n, level), v, anyConfigInvalid) <==> AnyLower(v, level, n) && !anyConfigInvalid
    decreases n
  {
    var count := LutCount(n);
    var luts, rest := Luts(n, level, count), Above(n, level);
    Unfold(n, level);
    ConsistentSplit(luts, rest, v);
    LevelIsOr(n, level, v);
    if count > 1 {
      MergeTreeIsOr(count, level + 1, v, anyConfigInvalid);
    } else if count == 1 {
      assert rest == [AssignMasked(level)];
      assert Lower(level + 1, 0) == Merge(level, 0);
    } else {
      assert rest == [AssignZero];
    }
  }

  /** The whole merge block, for `n` assertion results. */
  lemma MergeBlockMeaning(results: seq<bool>, v: Wire -> bool, anyConfigInvalid: bool)
    requires Consistent(Netlist(|results|, 0), v)
    requires forall i :: 0 <= i < |results| ==> v(Assertion(i)) == results[i]
    ensures Violated(Netlist(|results|, 0), v, anyConfigInvalid)
       <==> true in results && !anyConfigInvalid
  {
    MergeTreeIsOr(|results|, 0, v, anyConfigInvalid);
    if true in results {
      var i :| 0 <= i < |results| && results[i];
      assert v(Lower(0, i));
    }
  }

  // ------------------------------------------------------------------ the values of its wires

  /** The level a wire can be read in. */
  function ReaderLevel(w: Wire): nat {
    if w.Assertion? then 0 else w.level + 1
  }

  /** The number of inputs of a level. */
  function Inputs(n: nat, level: nat): nat {
    if level == 0 then n else LutCount(Inputs(n, level - 1))
  }

  /** The value that the blocks drive onto a wire, from the assertion results up. */
  ghost predicate Driven(results: seq<bool>, w: Wire)
    decreases ReaderLevel(w)
  {
    match w
    case Assertion(id) => id < |results| && results[id]
    case Merge(level, id) =>
      exists i: nat :: i / LUT_INPUTS == id && i < Inputs(|results|, level) && Driven(results, Lower(level, i))
  }

  /** The netlist is not contradictory: the driven values respect every block. */
  lemma {:induction false} DrivenIsConsistent(results: seq<bool>, level: nat)
    ensures Consistent(Netlist(Inputs(|results|, level), level), w => Driven(results, w))
    decreases Inputs(|results|, level)
  {
    var n, v := Inputs(|results|, level), w => Driven(results, w);
    var luts := Luts(n, level, LutCount(n));
    Unfold(n, level);
    forall k | 0 <= k < |luts|
      ensures luts[k] == LutLine(k, level, UsedInputs(n, k))
      ensures v(Merge(level, k)) == exists p :: 0 <= p < |luts[k].pins| && PinValue(v, luts[k].pins[p])
    {
      LutsAt(n, level, LutCount(n), k);
      BlockDrives(results, level, k, luts[k].pins);
    }
    if LutCount(n) > 1 {
      assert Inputs(|results|, level + 1) == LutCount(n);
      DrivenIsConsistent(results, level + 1);
    }
    ConsistentJoin(luts, Above(n, level), v);
  }

  lemma ConsistentJoin(a: seq<Line>, b: seq<Line>, v: Wire -> bool)
    requires Consistent(a, v) && Consistent(b, v)
    ensures Consistent(a + b, v)
  {
  }

  lemma BlockDrives(results: seq<bool>, level: nat, k: nat, pins: seq<Pin>)
    requires k < LutCount(Inputs(|results|, level))
    requires pins == LutLine(k, level, UsedInputs(Inputs(|results|, level), k)).pins
    ensures var v := w => Driven(results, w);
            v(Merge(level, k)) == exists p :: 0 <= p < |pins| && PinValue(v, pins[p])
  {
    var n, v := Inputs(|results|, level), w => Driven(results, w);
    if v(Merge(level, k)) {
      var i: nat :| i / LUT_INPUTS == k && i < n && Driven(results, Lower(level, i));
      PlaceOf(n, level, i);
      assert PinValue(v, pins[i % 6]);
    }
    if p :| 0 <= p < |pins| && PinValue(v, pins[p]) {
      BlockInput(n, level, k, p);
      assert Driven(results, Lower(level, k * 6 + p));
    }
  }

  lemma BlockInput(n: nat, level: nat, k: nat, p: nat)
    requires k < LutCount(n) && p < LUT_INPUTS && PinAt(level, k, UsedInputs(n, k), p).Net?
    ensures k * 6 + p < n && (k * 6 + p) / LUT_INPUTS == k
    ensures PinAt(level, k, UsedInputs(n, k), p).wire == Lower(level, k * 6 + p)
  {
    PinReads(n, level, k, p);
  }

  // ------------------------------------------------------------------ how it is wired

  /** The number of pins that a wire is connected to. */
  function PinUses(pins: seq<Pin>, w: Wire): nat {
    if |pins| == 0 then 0
    else PinUses(pins[..|pins| - 1], w) + if pins[|pins| - 1] == Net(w) then 1 else 0
  }

  function Uses(lines: seq<Line>, w: Wire): nat {
    if |lines| == 0 then 0
    else
      var last := lines[|lines| - 1];
      Uses(lines[..|lines| - 1], w) + if last.Lut? then PinUses(last.pins, w) else 0
  }

  lemma {:induction false} UsesAppend(a: seq<Line>, b: seq<Line>, w: Wire)
    ensures Uses(a + b, w) == Uses(a, w) + Uses(b, w)
  {
    if |b| == 0 {
      assert a + b == a;
    } else {
      UsesAppend(a, b[..|b| - 1], w);
      assert (a + b)[..|a + b| - 1] == a + b[..|b| - 1];
    }
  }

  /** Pins `0..m` of one block. */
  lemma {:induction false} BlockUses(id: nat, level: nat, used: nat, w: Wire, m: nat)
    requires m <= LUT_INPUTS
    ensures PinUses(LutLine(id, level, used).pins[..m], w)
         == if exists i: nat :: w == Lower(level, i) && i / 6 == id && i % 6 < m && i % 6 < used then 1 else 0
  {
    var pins := LutLine(id, level, used).pins;
    if m > 0 {
      BlockUses(id, level, used, w, m - 1);
      assert pins[..m][..m - 1] == pins[..m - 1];
      assert (id * 6 + m - 1) / 6 == id && (id * 6 + m - 1) % 6 == m - 1;
      if pins[m - 1] == Net(w) {
        assert w == Lower(level, id * 6 + m - 1);
      }
    }
  }

  predicate InLevel(level: nat, w: Wire) {
    if level == 0 then w.Assertion? else w.Merge? && w.level == level - 1
  }

  /** The first `count` blocks of a level use each of their inputs once, and nothing else. */
  lemma {:induction false} LevelUses(n: nat, level: nat, count: nat, w: Wire)
    requires count <= LutCount(n)
    ensures Uses(Luts(n, level, count), w) == if InLevel(level, w) && w.id < n && w.id / 6 < count then 1 else 0
  {
    if count > 0 {
      var k := count - 1;
      LevelUses(n, level, k, w);
      WholeBlockUses(n, level, k, w);
      assert Luts(n, level, count)[..k] == Luts(n, level, k);
    }
  }

  /** Block `k` of a level with `n` inputs. */
  lemma WholeBlockUses(n: nat, level: nat, k: nat, w: Wire)
    requires k < LutCount(n)
    ensures PinUses(LutLine(k, level, UsedInputs(n, k)).pins, w)
         == if InLevel(level, w) && w.id < n && w.id / 6 == k then 1 else 0
  {
    var pins := LutLine(k, level, UsedInputs(n, k)).pins;
    BlockUses(k, level, UsedInputs(n, k), w, LUT_INPUTS);
    assert pins[..LUT_INPUTS] == pins;
    InputOf(n, level, k, w);
  }

  lemma InputOf(n: nat, level: nat, k: nat, w: Wire)
    requires k < LutCount(n)
    ensures (exists i: nat :: w == Lower(level, i) && i / 6 == k && i % 6 < 6 && i % 6 < UsedInputs(n, k))
       <==> InLevel(level, w) && w.id < n && w.id / 6 == k
  {
    if InLevel(level, w) && w.id < n && w.id / 6 == k {
      assert w == Lower(level, w.id);
      PlaceOf(n, level, w.id);
    }
    forall i: nat | w == Lower(level, i) && i / 6 == k && i % 6 < UsedInputs(n, k)
      ensures i < n
    {
      PinReads(n, level, k, i % 6);
    }
  }

  /** A netlist starting at `level` uses its own inputs exactly once, and no wire from further
      below. */
  lemma {:induction false} InputsUsedOnce(n: nat, level: nat, w: Wire)
    requires ReaderLevel(w) <= level
    ensures Uses(Netlist(n, level), w) == if ReaderLevel(w) == level && w.id < n then 1 else 0
    decreases n
  {
    var count := LutCount(n);
    assert count > 1 ==> Uses(Netlist(count, level + 1), w) == 0 by {
      if count > 1 {
        InputsUsedOnce(count, level + 1, w);
      }
    }
    SplitUses(n, level, w);
    WholeLevelUses(n, level, w);
  }

  lemma SplitUses(n: nat, level: nat, w: Wire)
    ensures Uses(Netlist(n, level), w)
         == Uses(Luts(n, level, LutCount(n)), w)
          + if LutCount(n) > 1 then Uses(Netlist(LutCount(n), level + 1), w) else 0
  {
    Unfold(n, level);
    UsesAppend(Luts(n, level, LutCount(n)), Above(n, level), w);
    if LutCount(n) <= 1 {
      assert |Above(n, level)| == 1 && Above(n, level)[..0] == [];
    }
  }

  lemma WholeLevelUses(n: nat, level: nat, w: Wire)
    ensures Uses(Luts(n, level, LutCount(n)), w) == if ReaderLevel(w) == level && w.id < n then 1 else 0
  {
    LevelUses(n, level, LutCount(n), w);
    if InLevel(level, w) && w.id < n {
      PlaceOf(n, level, w.id);
    }
  }

  /** Every printed block feeds exactly one pin, except the last one, which drives the output. */
  lemma {:induction false} BlocksFeedOnePin(n: nat, level: nat, k: nat)
    requires n > 0 && k < |Netlist(n, level)| - 1
    ensures var lines := Netlist(n, level);
            && lines[k].Lut? && lines[k].level >= level
            && Uses(lines, Merge(lines[k].level, lines[k].id)) == if k == |lines| - 2 then 0 else 1
    decreases n
  {
    var count := LutCount(n);
    var luts, rest := Luts(n, level, count), Above(n, level);
    Unfold(n, level);
    if count > 1 {
    } else {
      assert rest == [AssignMasked(level)] && rest[..0] == [];
    }
    if k < count {
      LutsAt(n, level, count, k);
      var w := Merge(level, k);
      UsesAppend(luts, rest, w);
      LevelUses(n, level, count, w);
      if count > 1 {
        InputsUsedOnce(count, level + 1, w);
        NetlistLength(count, level + 1);
      }
    } else {
      BlocksFeedOnePin(count, level + 1, k - count);
      var w := Merge(rest[k - count].level, rest[k - count].id);
      UsesAppend(luts, rest, w);
      LevelUses(n, level, count, w);
    }
  }

  lemma NetlistLength(n: nat, level: nat)
    requires n > 0
    ensures |Netlist(n, level)| >= 2
  {
  }
}
