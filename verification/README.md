# Verified models of the OR1K simulator, its debug bridge and its assertion fabric

This project models four parts of the repository and proves what they promise.

* **The OR1K instruction simulator** (`Common`, `Words`, `Arithmetic`, `Isa`, `Cpu`, `SubWords`, `Access`, `Runs`,
  `Restart`, `Fields`, `ControlTransfer`, `ExceptionEntry`, `Operations`, `ByteMemory`, `Sums`, `Bits`,
  `Encoding`).  `Arithmetic` holds the bit-serial loops.  `Isa` defines one
  instruction as a function on machine states; `Cpu.Processor` is the simulator as it is written,
  a structure whose fields every instruction updates, proved to refine `Isa`.  The other modules prove
  properties of whole runs: the delay-slot invariant, restart after a fault, the byte-memory view of
  sub-word accesses, multiword sums and the multiply-accumulate unit.  `ControlTransfer`,
  `ExceptionEntry`, `Operations` and `ByteMemory` say what every instruction word does to the whole state,
  in numbers of the word and of the state (`Fields`); `Bits` and `Encoding` say what shifts, decoding,
  special-purpose registers and the TLB mean.
* **The JTAG layer** (`Folds`, `Crc`, `LegacyCrc`, `Jtag`, `ChainDiscovery`): both CRC
  implementations, scans past bypassed devices with the TAP controller of IEEE 1149.1 section 6.1,
  and chain discovery.
* **The GDB server** (`RspFraming`, `Wire`, `MatchpointHash`, `Matchpoints`): packet framing, the chained hash
  table of matchpoints, breakpoints over program memory, and watchpoint units.
* **Small cores** (`StallMonitor`, `JspBuffers`, `MergeTree`): the stall protocol as a state machine
  over the steps at which its threads interleave, the circular buffers of the serial port server, and
  the generator of the merge tree.

## How to read the model

* Machine words are natural numbers below 2^32 (`u32`) or 2^64 (`u64`); every wrap-around is written
  out.  The CRC registers are bit vectors, as their laws are about bits.
* The simulator is modelled as built stand-alone with MMU support, where the TLBs are special-purpose
  registers of the real processor; these are the map `spr`.  Reset is taken from `cpu_init0` and
  `cpu_reset`.
* `outside` is what one instruction sees of the world beyond the model: the content of a local
  variable that was never written, or the byte that the bus returns at or above 0x08000000.
* An instruction on which the simulator hangs (`unimpl`) has no next state.
* SR is a record of its named flags; `Isa.WordRoundTrip` and `Isa.SrRoundTrip` show that nothing is
  lost.

## Properties that hold only with a condition

* Restart: `l.jalr r9` in front of a faulting delay slot overwrites its own target, and nothing else
  goes wrong (`Restart.RestartInRun`).
* `l.sub` with r0 as destination computes OV from the zero that r0 kept (`Sums.SubIntoZero`).
* The remainder output of the divider is the remainder modulo 2^31; no instruction uses it
  (`Arithmetic.CalcDivu`).  The comment at simulator.c:548 suspects a wrong sign there, which does not
  occur.
* Discovery stops early exactly at a device whose manufacturer field is the marker's, or at 1024
  devices (`ChainDiscovery.ReportedExactly`).
* A packet comes through exactly if its escaped body leaves two bytes of the buffer free
  (`RspFraming.RoundTripExactly`).
* A packet broken off before its end is dropped exactly if no break character follows the bytes that
  fill the buffer (`RspFraming.InterruptedPacketDropped`).
* Bytes from the hardware are conserved exactly if there is room for them or every byte that is
  overwritten equals the one that takes its place (`JspBuffers.JspServer.HardwareTransact`,
  `JspBuffers.ConservedExactly`).
* Watchpoint units leak exactly on a repeated insertion (`Matchpoints.ConservedRun`).
* The running flag is stale exactly while the control write of an unstall has reached the CPU, or the
  flag has been cleared after a stall whose control write failed, and since then neither has the flag
  been set again nor the CPU stopped by itself (`StallMonitor.StaleExactly`).  Being between the write
  and the assignment of an unstall is not enough (`StallMonitor.WindowNotAlwaysStale`), and no unstall
  is needed (`StallMonitor.FailedStallIsStale`).
* A special-purpose register reads back what was written to it, except that NPC and PPC have moved on
  and SR keeps its implemented bits (`Encoding.SprReadBack`).

## Model

| member | source | states |
|---|---|---|
| `Restart.RestartInRun` | system/software/sim_module/simulator.c:613-786 | In every run that starts settled: an instruction whose fetch, load, store or register jump faults, and whose branch in front, if any, is not itself in a delay slot, is resumed exactly (pc, npc, registers, accumulator, SR but for DSX) by any handler that preserves the registers, leaves the branch readable and ends in l.rfe, if and only if it is not in the slot of `l.jalr r9`; everything else, memory and TLBs included, is then as the handler left it |
| `Restart.ImmediateReturnInRun` | system/software/sim_module/simulator.c:2227-2236 | In every such run, if the handler is a single l.rfe, the whole state comes back, memory included, except DSX and the exception registers; exactly the `l.jalr r9` slot is excepted |
| `Restart.RestartBehindBranch` | system/software/sim_module/simulator.c:1453-1523 | The same for one taken branch of any kind and a fault behind it, including the target pc + 8 where no delay slot is recognised; memory and TLBs are those the handler left behind |
| `Restart.ImmediateReturn` | system/software/sim_module/simulator.c:2227-2236 | The same for one taken branch from any state |
| `Restart.RestartOutsideSlot` | system/software/sim_module/cpu.c:134-156 | A fault outside a delay slot resumes at the instruction itself |
| `Restart.FaultingStep` | system/software/sim_module/simulator.c:1490-1561 | A faulting fetch, access or register jump steps to the handler's first instruction with nothing changed but pc, npc, SR and the exception registers |
| `Restart.FetchFaults` | system/software/sim_module/simulator.c:2357-2371 | The faults of the fetch: TLB miss and page fault |
| `Restart.ReturnStep` | system/software/sim_module/simulator.c:2227-2236 | l.rfe after a preserved exception resumes at the instruction, or at the branch in front of it, with the interrupted SR plus DSX |
| `Restart.SysInSlotRepeats` | system/software/sim_module/simulator.c:2145-2174 | In every run, an l.sys in a delay slot is executed again after the return of its handler, because the branch in front is; exactly the `l.jalr r9` slot is excepted |
| `Restart.SysReturnStep` | system/software/sim_module/simulator.c:2145-2174 | Outside a delay slot a system call continues behind itself with its SR |
| `Restart.BranchStep` | system/software/sim_module/cpu.c:134-156 | A taken branch leads to its delay slot with npc at the target and, for l.jal and l.jalr, the link register set |
| `Restart.BranchAgain` | system/software/sim_module/simulator.c:1453-1523 | Executing the branch a second time leads to the same delay slot with the same target and link value |
| `Restart.BranchAstray` | system/software/sim_module/simulator.c:1490-1506 | `l.jalr r9` executed again after it overwrote r9 does not come back to its delay slot with its old target |
| `Restart.BranchInFront` | system/software/sim_module/cpu.h:173 | Being in a delay slot in such a run means that the state before is a taken branch and this one its successor |
| `Restart.BothOutcomes` | system/software/sim_module/simulator.c:1490-1523 | A concrete program: `l.jr r9` in front of a misaligned load resumes, `l.jalr r9` in its place does not |
| `ControlTransfer.PcRelative` | system/software/sim_module/simulator.c:1453-1488 | The whole next state of every word with opcode 0, 1, 3 or 4: pc is the delay slot and npc is pc plus four times the signed 26-bit offset always for 0 and 1, for 4 if and only if the flag is set, for 3 if and only if it is not, and else the word behind the slot; 1 puts pc + 8 into r9 |
| `ControlTransfer.RegisterJump` | system/software/sim_module/simulator.c:1490-1523 | The same for opcodes 0x11 and 0x12 with a word-aligned rB: npc is rB, and 0x12 puts pc + 8 into r9 |
| `ExceptionEntry.FetchFault` | system/software/sim_module/simulator.c:718-786 | The whole first state of the handler for a fetch: vector 0xa00 for a TLB miss and 0x400 for physical address 2, plus 0xf0000000 exactly under EPH; SM set, DME, IME, IEE and TEE clear, DSX telling the delay slot and every other bit of SR kept; EPCR, ESR and EEAR as numbers of the old state |
| `ExceptionEntry.AccessFaults` | system/software/sim_module/simulator.c:613-716 | The same for every load and store: 0x600 if rA plus the signed displacement is not a multiple of the width, else 0x900 if its translation misses |
| `ExceptionEntry.JumpFault` | system/software/sim_module/simulator.c:1490-1523 | The same for a register jump to a misaligned address, 0x600 |
| `ExceptionEntry.SystemCall` | system/software/sim_module/simulator.c:2145-2174 | The same for l.sys, 0xc00: ESR is SR before DSX is set, EPCR the next instruction or the branch in front |
| `ExceptionEntry.Trap` | system/software/sim_module/simulator.c:2177-2206 | The same for l.trap, 0xe00 |
| `ExceptionEntry.RangeChecked` | system/software/sim_module/simulator.c:788-821 | An arithmetic instruction enters 0xb00, on the state with its result and flags, if OV and OVE are set, and else the next instruction |
| `ExceptionEntry.Return` | system/software/sim_module/simulator.c:2227-2236 | l.rfe, opcode 9: the whole next state, with pc EPCR and SR ESR |
| `Fields.DecodeMatches` | system/software/sim_module/simulator.c:2575-2609 | Every field of a decoded word as a quotient and remainder of the word, the sub-opcodes included |
| `Fields.AddressMeaning` | system/software/sim_module/simulator.c:145-148 | A load or store accesses rA plus its immediate read as a signed 16-bit number, modulo 2^32 |
| `Fields.FetchMeaning` | system/software/sim_module/simulator.c:2357-2371 | The word executed is the one in memory at the translated pc, except below 3 and for the simulator's sentinel 0xdeadbeef |
| `Fields.InstructionTranslation` | system/software/sim_module/mmu_support.c:141-196 | With IME an instruction address goes to the frame that the TLB at 0x1200 and 0x1280 maps its page to, or misses; without it translates to itself |
| `Fields.DataTranslation` | system/software/sim_module/mmu_support.c:82-137 | With DME a data address goes to the frame that the TLB at 0xa00 and 0xa80 maps its page to, or misses; without it translates to itself |
| `Operations.HangsExactly` | system/software/sim_module/simulator.c:2423-2573 | The simulator hangs if and only if the word is none of the listed ones, with all opcodes and sub-opcodes as numbers |
| `Operations.Addition` | system/software/sim_module/simulator.c:1121-1152 | l.add (code 0x0) and l.addc (0x1) over a whole step: rD, carry out of 32 bits, signed overflow, and the range exception |
| `Operations.Subtraction` | system/software/sim_module/simulator.c:1154-1193 | l.sub (0x2): difference, borrow, and OV from the register written |
| `Operations.Multiplication` | system/software/sim_module/simulator.c:866-916 | l.mul (0x306) and l.mulu (0x30b) |
| `Operations.Division` | system/software/sim_module/simulator.c:918-985 | l.divu (0x30a) divides unsigned numbers and l.div (0x309) signed ones, rounding toward zero; a zero divisor sets the carry and keeps rD |
| `Operations.ImmediateArithmetic` | system/software/sim_module/simulator.c:847-864 | l.addi (0x27), l.addic (0x28) and l.muli (0x2c) with the sign-extended immediate |
| `Operations.Logic` | system/software/sim_module/simulator.c:1205-1243 | l.and (0x3), l.or (0x4) and l.xor (0x5), bit by bit |
| `Operations.LogicImmediate` | system/software/sim_module/simulator.c:1195-1233 | l.andi (0x29) and l.ori (0x2a) with the immediate as it is, l.xori (0x2b) with its sign extended |
| `Operations.Extension` | system/software/sim_module/simulator.c:1245-1355 | The four extensions by their codes, as signed or unsigned numbers, the two moves and l.cmov (0xe) |
| `Operations.FindOne` | system/software/sim_module/simulator.c:987-1026 | l.ff1 (0xf) and l.fl1 (0x10f): no bit below, or above, the one they find |
| `Operations.Shift` | system/software/sim_module/simulator.c:1357-1443 | All register and immediate shifts by their kind: where each bit comes from, or division by a power of two, rounding down |
| `Operations.Comparison` | system/software/sim_module/simulator.c:1964-2048 | The ten comparisons of opcodes 0x2f and 0x39 by their codes, unsigned and signed; the other codes hang |
| `Operations.MoveHigh` | system/software/sim_module/simulator.c:2051-2088 | Opcode 6: l.macrc delivers and clears the accumulator, every other word is l.movhi |
| `Operations.WriteSpecial` | system/software/sim_module/cpu.c:166-222 | l.mtspr to each special-purpose register by its number, over a whole step |
| `Operations.ReadSpecial` | system/software/sim_module/cpu.c:224-271 | l.mfspr from each of them |
| `Runs.DelaySlotInvariant` | system/software/sim_module/cpu.c:134-163 | In every run, npc differs from pc + 4 if and only if the instruction just executed was a taken branch to elsewhere; r0 is 0 and branch_pc is 0xffffffff between all instructions |
| `Runs.SlotFollowsBranch` | system/software/sim_module/cpu.h:173 | Unless the branch in front is itself in a delay slot, pc - 4 is the address of the branch whose slot is being executed, so EPCR points at it |
| `Runs.StepShape` | system/software/sim_module/simulator.c:2615-2643 | One instruction keeps r0 and branch_pc settled and leaves npc at the branch target or behind pc |
| `Runs.ExecuteKeeps` | system/software/sim_module/simulator.c:2423-2573 | Only a taken branch leaves a pending target, and no instruction makes r0 nonzero |
| `Runs.ExecuteReads` | system/software/sim_module/simulator.c:2423-2573 | Only sb, sh and sw write memory |
| `Runs.ResetSettled` | system/software/sim_module/cpu.c:54-82 | Reset establishes the start of such runs: pc 0x100, npc 0x104, SR 0x8001, registers and accumulator 0 |
| `Access.AccessShape` | system/software/sim_module/simulator.c:1563-1819 | A load or store faults exactly if its address is misaligned or else its translation yields 1; a fault changes nothing but the exception registers, a load otherwise changes only rD, a store only memory |
| `Access.WordTranslation` | system/software/sim_module/mmu_support.c:82-137 | Translation commutes with rounding down to a word, unless it misses |
| `ByteMemory.MemoryRefines` | system/software/sim_module/simulator.c:1719-1819 | In every run, word memory holds at every point, at all addresses in [4, 0x08000000), the bytes of a big-endian byte memory written by the same stores, whatever the run does elsewhere |
| `ByteMemory.LoadsRefine` | system/software/sim_module/simulator.c:1563-1717 | In every run each load from an address in that range puts the zero- or sign-extended big-endian bytes of that byte memory into rD |
| `ByteMemory.StoreOutOfRange` | system/software/sim_module/simulator.c:1742-1819 | A store outside the range changes no word below the byte bus: word 0 is never written, and sb to the byte bus leaves word memory alone |
| `ByteMemory.LoadMeaning` | system/software/sim_module/simulator.c:1563-1717 | A load over a whole step: rD gets the one, two or four bytes from rA plus the signed displacement on, translated, most significant first, and with their sign for opcodes 0x24 and 0x26; nothing else changes but pc and npc |
| `ByteMemory.StoreMeaning` | system/software/sim_module/simulator.c:1719-1819 | A store over a whole step: the low bytes of rB go to that address and the following ones, most significant first, and nothing else changes |
| `ByteMemory.ByteBus` | system/software/sim_module/simulator.c:1584-1659 | Byte accesses from 0x08000000 on leave word memory alone |
| `ByteMemory.AccessRefines` | system/software/sim_module/simulator.c:1563-1819 | Each single access that does not fault is the access to byte memory |
| `ByteMemory.StoreAgrees` | system/software/sim_module/simulator.c:1770-1787 | Replacing lanes of a word is storing big-endian bytes |
| `ByteMemory.LoadAgrees` | system/software/sim_module/simulator.c:1584-1717 | Reading lanes of a word is reading big-endian bytes |
| `ByteMemory.ByteReplaced` | system/software/sim_module/simulator.c:1776-1786 | Putting a byte into a word replaces exactly that byte |
| `SubWords.PutByteIsMasked` | system/software/sim_module/simulator.c:1776-1786 | `value & ~(0xff << shift) | b << shift` is that replacement |
| `SubWords.GetByteIsShifted` | system/software/sim_module/simulator.c:1613-1617 | `(value >> shift) & 0xff` is the byte in its lane |
| `ByteMemory.HalfReplaced` | system/software/sim_module/simulator.c:1810-1818 | Putting a half into a word replaces exactly two bytes |
| `SubWords.PutHalfIsMasked` | system/software/sim_module/simulator.c:1810-1818 | The masks and shifts of the half-word store are that replacement |
| `SubWords.GetHalfIsShifted` | system/software/sim_module/simulator.c:1680-1686 | The shift or mask of the half-word load is the half |
| `SubWords.BytesBitwise` | system/software/sim_module/simulator.c:1776-1786 | A bitwise operation on words is one on each of their bytes |
| `ByteMemory.WrittenByte` | system/software/sim_module/simulator.c:1742-1819 | What every byte reads after a big-endian store |
| `ByteMemory.WordZeroIsSpecial` | system/software/sim_module/mmu_support.c:202-247 | Why the range starts at 4: word 0 is neither loaded nor stored, and a byte access at address 1 is taken for a TLB miss |
| `Sums.LongSumInRun` | system/software/sim_module/simulator.c:1121-1152 | In every run, an l.add and any number of l.addc at later places, with no instruction in between that may change the carry, add numbers of any number of words exactly: destination words and last carry are the sum of the source words |
| `Sums.MultiwordSum` | system/software/sim_module/simulator.c:1121-1152 | The same for a list of additions each of which takes the carry of the one before |
| `Sums.ExecuteKeepsCarry` | system/software/sim_module/simulator.c:2423-2573 | No other instruction changes the carry |
| `Sums.AdditionExecutes` | system/software/sim_module/simulator.c:1121-1152 | Registers and carry of such an addition are those of the instruction, even if it raises a range exception |
| `Sums.SubFlags` | system/software/sim_module/simulator.c:1154-1193 | l.sub into a register other than r0 sets CY to the unsigned borrow and OV to signed overflow |
| `Sums.SubIntoZero` | system/software/sim_module/simulator.c:1154-1193 | With r0 as destination OV is right exactly if the operands' signs agree or the difference word is not negative |
| `Sums.SubIntoZeroWrong` | system/software/sim_module/simulator.c:1154-1193 | For example -1 - 0 into r0 sets OV without overflow |
| `Sums.MulFlags` | system/software/sim_module/simulator.c:570-595 | After a multiplication OV says that the signed reading of rD is not the whole product, CY that the unsigned one is not |
| `Sums.RunAccumulates` | system/software/sim_module/simulator.c:1028-1086 | In every run that does not overwrite the accumulator, machi:maclo is the initial value plus the products of l.mac and l.maci and minus those of l.msb, as signed numbers modulo 2^64 |
| `Sums.AccumulatorStep` | system/software/sim_module/simulator.c:1028-1086 | One l.mac (0x31 with 1), l.msb (with 2) or l.maci (0x13) adds the signed product, or its negation for l.msb, to the 64 bits of machi and maclo, and changes nothing else |
| `Sums.MacrcDelivers` | system/software/sim_module/simulator.c:2061-2075 | From one l.macrc to the next the accumulator is the signed sum of the products in between; the second one delivers its low word and clears it |
| `Sums.OthersKeepMac` | system/software/sim_module/simulator.c:2423-2573 | No other instruction touches the accumulator |
| `Arithmetic.CalcAdd` | system/software/sim_module/simulator.c:241-265 | The ripple adder: sum and carry are a + b + carry-in, overflow is signed overflow |
| `Arithmetic.CalcMulu` | system/software/sim_module/simulator.c:366-438 | Shift-and-add multiplication gives the exact 64-bit product |
| `Arithmetic.CalcMul` | system/software/sim_module/simulator.c:442-509 | Sign-magnitude multiplication gives the exact signed product, INT_MIN included |
| `Arithmetic.CalcDivu` | system/software/sim_module/simulator.c:512-563 | Restoring division gives the quotient; the remainder output is the remainder modulo 2^31 |
| `Arithmetic.TryDivisor` | system/software/sim_module/simulator.c:540-556 | One turn of the division loop keeps the packed 64-bit register invariant |
| `Arithmetic.DivInvariant` | system/software/sim_module/simulator.c:542 | The invariant left open in the source: after k turns the dividend's upper k bits are the covered part plus a partial remainder below the divisor |
| `Arithmetic.DivRoom` | system/software/sim_module/simulator.c:540-556 | No bit is lost from the 64-bit register before the last shift |
| `Arithmetic.DivResult` | system/software/sim_module/simulator.c:557-562 | Unpacking the register at the end |
| `Arithmetic.CalcDiv` | system/software/sim_module/simulator.c:949-985 | Signed division truncates toward zero modulo 2^32, INT_MIN included |
| `Arithmetic.TruncDivMeaning` | system/software/sim_module/simulator.c:949-985 | The truncated quotient leaves a remainder smaller than the divisor with the dividend's sign |
| `Arithmetic.OverflowMeaning` | system/software/sim_module/simulator.c:220-239 | The sign comparison is exactly signed overflow |
| `Arithmetic.TimesIsProduct` | system/software/sim_module/simulator.c:366-438 | The shift-and-add sum is the product |
| `Isa.WordRoundTrip` | system/software/sim_module/cpu.h:188-225 | Reading SR flag by flag loses no bit of the word |
| `Isa.SrRoundTrip` | system/software/sim_module/cpu.h:188-225 | and composing the word loses no flag |
| `Encoding.DecodesRegisters` | system/software/sim_module/simulator.c:2575-2609 | The fields of a register instruction are decoded as they were encoded |
| `Encoding.DecodesImmediate` | system/software/sim_module/simulator.c:2575-2609 | So are those of an immediate instruction |
| `Encoding.DecodesSplit` | system/software/sim_module/simulator.c:2575-2609 | and the split immediates of stores and l.mtspr |
| `Encoding.DecodesJump` | system/software/sim_module/simulator.c:2575-2609 | and the offset of a jump |
| `Encoding.BranchTargetMeaning` | system/software/sim_module/simulator.c:1453-1488 | A pc-relative branch goes to pc plus four times the signed 26-bit offset, modulo 2^32 |
| `Encoding.ImmediateMeaning` | system/software/sim_module/simulator.c:202-218 | An immediate operand is a signed 16-bit number |
| `Encoding.FlagPlaces` | system/software/sim_module/spr_defs.h:171-187 | The place of each flag in the word SR |
| `Encoding.SprReadBack` | system/software/sim_module/cpu.c:166-271 | An executed l.mtspr leaves the written value in its register, except that NPC reads 4 more, PPC the address of the next instruction and SR its implemented bits; all other registers but NPC and PPC are unchanged |
| `Encoding.WriteThenRead` | system/software/sim_module/simulator.c:2107-2128 | l.mtspr followed by l.mfspr of the same register delivers that value |
| `Encoding.SprIndependent` | system/software/sim_module/cpu.c:166-271 | Writing one special-purpose register changes no other, before the pc is advanced |
| `Encoding.SrReadBack` | system/software/sim_module/cpu.c:180-182 | SR reads back as its writable bits |
| `Encoding.WritableBits` | system/software/sim_module/cpu.c:180-182 | The mask on the word: bits 0 to 14, 16 and 28 to 31 kept, bit 15 set |
| `Encoding.TlbMeaning` | system/software/sim_module/mmu_support.c:82-137 | An address translates to the frame that the TLB maps its page to, and reports a miss if there is none |
| `Bits.LogicBits` | system/software/sim_module/simulator.c:1195-1243 | The bits of and, or and xor |
| `Bits.LowestOneMeaning` | system/software/sim_module/simulator.c:1009-1026 | Counting from below finds a one bit with none below it |
| `Bits.HighestOneMeaning` | system/software/sim_module/simulator.c:987-1007 | and from above one with none above it |
| `Bits.SignExtendMeaning` | system/software/sim_module/simulator.c:160-200 | Sign extension reads a two's complement number |
| `Bits.ArithmeticShift` | system/software/sim_module/simulator.c:1367-1419 | l.sra and l.srai divide by a power of two, rounding down |
| `Bits.ShiftRightBits` | system/software/sim_module/simulator.c:1357-1403 | Where each bit of a right shift comes from |
| `Bits.ShiftLeftBits` | system/software/sim_module/simulator.c:1380-1398 | Where each bit of a left shift comes from |
| `Bits.RotateBits` | system/software/sim_module/simulator.c:1421-1443 | Rotation moves every bit around the word |
| `Bits.RotateBack` | system/software/sim_module/simulator.c:1421-1443 | Rotating on by the rest of the word undoes a rotation |
| `Cpu.Processor.constructor` | system/software/sim_module/cpu.c:54-130 | Initialisation and reset give the reset state |
| `Cpu.Processor.RaiseException` | system/software/sim_module/simulator.c:788-821 | Exception entry: EPCR at the instruction or the branch in front, SR saved after DSX was set, vector by EPH |
| `Cpu.Processor.RaiseAddressException` | system/software/sim_module/simulator.c:613-786 | The exceptions that also save an address |
| `Cpu.Processor.Sys` | system/software/sim_module/simulator.c:2145-2174 | System call: EPCR behind the instruction, SR saved before DSX is set |
| `Cpu.Processor.CheckRange` | system/software/sim_module/simulator.c:1129-1134 | Range exception if OV and OVE are set |
| `Cpu.Processor.Add` | system/software/sim_module/simulator.c:598-611 | Adder result and flags as the state function says |
| `Cpu.Processor.Sub` | system/software/sim_module/simulator.c:1154-1193 | Adds the negation and computes the flags anew |
| `Cpu.Processor.MulShared` | system/software/sim_module/simulator.c:570-595 | Product and flags |
| `Cpu.Processor.Mulu` | system/software/sim_module/simulator.c:887-916 | Unsigned product and flags |
| `Cpu.Processor.Divu` | system/software/sim_module/simulator.c:918-947 | Unsigned quotient; division by zero only sets the carry |
| `Cpu.Processor.Or32Div` | system/software/sim_module/simulator.c:949-985 | Signed quotient; division by zero only sets the carry |
| `Cpu.Processor.Fl1` | system/software/sim_module/simulator.c:987-1007 | l.fl1 writes the position of the highest one bit |
| `Cpu.Processor.ScanDown` | system/software/sim_module/simulator.c:994-1004 | The loop finds the highest one bit from above |
| `Cpu.Processor.Ff1` | system/software/sim_module/simulator.c:1009-1026 | The loop finds the lowest one bit, 0 for none |
| `Cpu.Processor.AddToMac` | system/software/sim_module/cpu.h:180-181 | 64-bit accumulation in two halves |
| `Cpu.Processor.MultiplyAccumulate` | system/software/sim_module/simulator.c:1028-1086 | l.mac, l.msb and l.maci |
| `Cpu.Processor.MacrcMovhi` | system/software/sim_module/simulator.c:2051-2088 | l.macrc and l.movhi |
| `Cpu.Processor.WalkTlb` | system/software/sim_module/mmu_support.c:92-136 | The loop over the TLB ways finds the translation or reports a miss |
| `Cpu.Processor.VirtualToPhysicalD` | system/software/sim_module/mmu_support.c:82-137 | Data translation |
| `Cpu.Processor.VirtualToPhysicalI` | system/software/sim_module/mmu_support.c:141-196 | Instruction translation |
| `Cpu.Processor.GuestLoadD` | system/software/sim_module/mmu_support.c:202-215 | Return code and value of a guest load |
| `Cpu.Processor.GuestLoadI` | system/software/sim_module/mmu_support.c:253-266 | Return code and value of an instruction load |
| `Cpu.Processor.SimLoadData` | system/software/sim_module/simulator.c:1536-1548 | A TLB miss raises the exception and nothing else |
| `Cpu.Processor.SimStoreData` | system/software/sim_module/simulator.c:1550-1561 | Stores, or raises the TLB miss |
| `Cpu.Processor.Lwz` | system/software/sim_module/simulator.c:1563-1582 | Word load |
| `Cpu.Processor.Lb` | system/software/sim_module/simulator.c:1584-1659 | Byte loads |
| `Cpu.Processor.Lh` | system/software/sim_module/simulator.c:1661-1717 | Half-word loads |
| `Cpu.Processor.Sw` | system/software/sim_module/simulator.c:1719-1740 | Word store |
| `Cpu.Processor.Sb` | system/software/sim_module/simulator.c:1742-1788 | Byte store by read, modify and write |
| `Cpu.Processor.Sh` | system/software/sim_module/simulator.c:1790-1819 | Half-word store by read, modify and write |
| `Cpu.Processor.Branch` | system/software/sim_module/simulator.c:1453-1523 | The six control-transfer instructions with their alignment check |
| `Cpu.Processor.Alu` | system/software/sim_module/simulator.c:2261-2341 | The register-register instructions |
| `Cpu.Processor.Immediate` | system/software/sim_module/simulator.c:1089-1119 | The instructions with an immediate operand |
| `Cpu.Processor.CompareWith` | system/software/sim_module/simulator.c:1964-2048 | The comparisons |
| `Cpu.Processor.ExecuteOther` | system/software/sim_module/simulator.c:2423-2573 | The remaining instructions |
| `Cpu.Processor.Dispatch` | system/software/sim_module/simulator.c:2423-2571 | The whole instruction set, through the methods for register writes, l.rfe, special-purpose registers and traps, refines the state function; fails exactly where the simulator hangs |
| `Cpu.Processor.Fetch` | system/software/sim_module/simulator.c:2357-2371 | Instruction fetch with its two faults |
| `Cpu.Processor.ExecInst` | system/software/sim_module/simulator.c:2615-2643 | One instruction of the imperative simulator, with its fetch and the advance of the pc, is one step of the state function |
| `Cpu.HighestOneAt` | system/software/sim_module/simulator.c:987-1007 | The first one bit met from above is the highest |
| `Cpu.LowestOneAt` | system/software/sim_module/simulator.c:1009-1026 | The first one bit met from below is the lowest |
| `Crc.ComputeCrc` | system/hardware/cores/adv_debug_sys/Software/adv_jtag_bridge/adv_dbg_commands.c:61-75 | The loop computes the CRC of the low bits of the word, first bit first |
| `Crc.ShiftIn` | system/hardware/cores/adv_debug_sys/Software/adv_jtag_bridge/adv_dbg_commands.c:65-72 | The masked form of the loop body is the CRC step |
| `Crc.BurstDetected` | system/hardware/cores/adv_debug_sys/Software/adv_jtag_bridge/adv_dbg_commands.c:61-75 | Two streams of equal length that differ only inside a window of at most 32 bits have different CRCs, from any start value |
| `Crc.WiderBurstUndetected` | system/hardware/cores/adv_debug_sys/Software/adv_jtag_bridge/adv_dbg_commands.h:20 | The bound is tight: for every start value some two streams that differ within 33 bits collide |
| `Crc.Linear` | system/hardware/cores/adv_debug_sys/Software/adv_jtag_bridge/adv_dbg_commands.c:61-75 | The CRC is linear: for any two streams of equal length and any start values, the CRC of their difference from the difference of the start values is the difference of their CRCs |
| `Crc.Impulse` | system/hardware/cores/adv_debug_sys/Software/adv_jtag_bridge/adv_dbg_commands.h:20 | A single one bit from zero leaves 0xedb88320, so that linearity fixes the CRC of every stream |
| `Crc.WindowInjective` | system/hardware/cores/adv_debug_sys/Software/adv_jtag_bridge/adv_dbg_commands.c:61-75 | The CRC is injective on streams of at most 32 bits |
| `Crc.StepInjective` | system/hardware/cores/adv_debug_sys/Software/adv_jtag_bridge/adv_dbg_commands.c:61-75 | One step is injective in the register, because the polynomial's top bit is set |
| `Crc.StepBack` | system/hardware/cores/adv_debug_sys/Software/adv_jtag_bridge/adv_dbg_commands.c:61-75 | From agreement of the registers above bit j to agreement of the input one step before |
| `Crc.SelfZero` | system/hardware/cores/adv_debug_sys/Software/adv_jtag_bridge/adv_dbg_commands.c:513-527 | Feeding the register its own 32 bits gives 0 |
| `Crc.FrameCheck` | system/hardware/cores/adv_debug_sys/Software/adv_jtag_bridge/adv_dbg_commands.c:513-527 | The received CRC matches if and only if the CRC over data and CRC is 0 |
| `Crc.CorruptFrameRejected` | system/hardware/cores/adv_debug_sys/Software/adv_jtag_bridge/adv_dbg_commands.c:513-527 | A frame whose data and CRC are hit by one burst of at most 32 bits is rejected |
| `Crc.WordwiseIsBytewise` | system/hardware/cores/adv_debug_sys/Software/adv_jtag_bridge/adv_dbg_commands.c:458-461 | Feeding words equals feeding their little-endian bytes, for every buffer |
| `Crc.WordIsBytes` | system/hardware/cores/adv_debug_sys/Software/adv_jtag_bridge/adv_dbg_commands.c:458-461 | The same for one word |
| `Crc.CrcOfBytes` | system/hardware/cores/adv_debug_sys/Software/adv_jtag_bridge/adv_dbg_commands.c:458-461 | The bytewise loop over a buffer |
| `Crc.CrcOfWords` | system/hardware/cores/adv_debug_sys/Software/adv_jtag_bridge/adv_dbg_commands.c:506 | The wordwise loop over a buffer |
| `LegacyCrc.LegacyIsReversed` | system/hardware/cores/adv_debug_sys/Software/adv_jtag_bridge/legacy_dbg_commands.c:46-58 | For every stream the low half of the legacy register is the bit reversal of the other CRC |
| `LegacyCrc.ReverseStep` | system/hardware/cores/adv_debug_sys/Software/adv_jtag_bridge/legacy_dbg_commands.c:53-58 | The same for one bit |
| `LegacyCrc.ReverseInvolution` | system/hardware/cores/adv_debug_sys/Software/adv_jtag_bridge/legacy_dbg_commands.c:53-58 | Bit reversal undoes itself |
| `LegacyCrc.LegacyBurstDetected` | system/hardware/cores/adv_debug_sys/Software/adv_jtag_bridge/legacy_dbg_commands.c:53-58 | Bursts of at most 32 bits are detected by the legacy CRC as well |
| `LegacyCrc.LegacyImpulse` | system/hardware/cores/adv_debug_sys/Software/adv_jtag_bridge/legacy_dbg_commands.c:46-58 | A single one bit from zero leaves 0x04c11db7 in the legacy register |
| `LegacyCrc.WriteStream` | system/hardware/cores/adv_debug_sys/Software/adv_jtag_bridge/legacy_dbg_commands.c:61-104 | The bits on the wire are the word, most significant first, and all of them enter the CRC |
| `LegacyCrc.FeedHighFirst` | system/hardware/cores/adv_debug_sys/Software/adv_jtag_bridge/legacy_dbg_commands.c:107-162 | Received bits enter the CRC most significant first |
| `LegacyCrc.ReverseWord` | system/hardware/cores/adv_debug_sys/Software/adv_jtag_bridge/legacy_dbg_commands.c:107-162 | The in-place bit reversal loop |
| `LegacyCrc.PushedBits` | system/hardware/cores/adv_debug_sys/Software/adv_jtag_bridge/legacy_dbg_commands.c:107-162 | and its result read as a stream |
| `Jtag.ScanPlaces` | system/hardware/cores/adv_debug_sys/Software/adv_jtag_bridge/chain_commands.c:276-295 | Whatever was shifted before, data followed by one bit per prefix device lies in the target register |
| `Jtag.ScanReads` | system/hardware/cores/adv_debug_sys/Software/adv_jtag_bridge/chain_commands.c:300-330 | Past one bit per postfix device the bits read are those the target captured |
| `Jtag.OnesReset` | system/hardware/cores/adv_debug_sys/Software/adv_jtag_bridge/chain_commands.c:122-144 | Five pulses with TMS high, or more, reach Test-Logic-Reset from every state |
| `Jtag.ColumnsAlike` | system/hardware/cores/adv_debug_sys/Software/adv_jtag_bridge/chain_commands.c:233-254 | The data and the instruction column of the controller answer every sequence of TMS values alike |
| `Jtag.Driver.TapReset` | system/hardware/cores/adv_debug_sys/Software/adv_jtag_bridge/chain_commands.c:122-144 | The reset sequence ends in Run-Test/Idle from every state, with or without a TRST line |
| `Jtag.Driver.TapSetShiftDr` | system/hardware/cores/adv_debug_sys/Software/adv_jtag_bridge/chain_commands.c:233-244 | From Run-Test/Idle to Shift-DR with the captured path |
| `Jtag.Driver.TapExitToIdle` | system/hardware/cores/adv_debug_sys/Software/adv_jtag_bridge/chain_commands.c:246-254 | From Exit1-DR through Update-DR to Run-Test/Idle |
| `Jtag.Driver.JtagWriteStream` | system/hardware/cores/adv_debug_sys/Software/adv_jtag_bridge/chain_commands.c:276-295 | Shifts the data and, when leaving, one bit per prefix device |
| `Jtag.Driver.JtagReadWriteStream` | system/hardware/cores/adv_debug_sys/Software/adv_jtag_bridge/chain_commands.c:300-330 | Skips the postfix devices, then shifts and samples at once |
| `Jtag.Driver.PushPrefix` | system/hardware/cores/adv_debug_sys/Software/adv_jtag_bridge/chain_commands.c:290-292 | The prefix loop leaves Shift-DR on its last bit |
| `Jtag.Driver.SkipPostfix` | system/hardware/cores/adv_debug_sys/Software/adv_jtag_bridge/chain_commands.c:305-311 | The postfix loop |
| `Jtag.Driver.CableReadWriteStream` | system/hardware/cores/adv_debug_sys/Software/adv_jtag_bridge/chain_commands.c:316-321 | The cable samples each bit before it shifts; the last bit may leave Shift-DR |
| `Jtag.Driver.CableWriteStream` | system/hardware/cores/adv_debug_sys/Software/adv_jtag_bridge/chain_commands.c:281-286 | The same without sampling |
| `Jtag.Driver.WriteTarget` | system/hardware/cores/adv_debug_sys/Software/adv_jtag_bridge/adv_dbg_commands.c:82-104 | For any number of devices around the target a write transaction leaves exactly the data in its register at Update-DR and the TAP idle |
| `Jtag.Driver.WriteTwoStreams` | system/hardware/cores/adv_debug_sys/Software/adv_jtag_bridge/adv_dbg_commands.c:187-237 | The same for a command and its data in two streams |
| `Jtag.Driver.ReadTarget` | system/hardware/cores/adv_debug_sys/Software/adv_jtag_bridge/chain_commands.c:432-452 | A read transaction reads exactly what the target captured |
| `Jtag.Driver.ReadThenCommand` | system/hardware/cores/adv_debug_sys/Software/adv_jtag_bridge/adv_dbg_commands.c:243-296 | Reading, then pushing an opcode into the target |
| `ChainDiscovery.EnumerateChain` | system/hardware/cores/adv_debug_sys/Software/adv_jtag_bridge/chain_commands.c:343-428 | For any chain: the number found and each entry are the devices in order, with their codes or 0xffffffff, up to the first whose bits 1 to 11 are 0x3f, at most 1024; never past the doubling array; with all found the search ends exactly at the echo of its own marker |
| `ChainDiscovery.ReportedExactly` | system/hardware/cores/adv_debug_sys/Software/adv_jtag_bridge/chain_commands.c:343-428 | The report is complete if and only if there are at most 1024 devices and none looks like the marker |
| `ChainDiscovery.MarkerHidesDevices` | system/hardware/cores/adv_debug_sys/Software/adv_jtag_bridge/chain_commands.c:389-409 | For example, a device of manufacturer 0x3f hides itself and the device behind it |
| `ChainDiscovery.ProbeDevice` | system/hardware/cores/adv_debug_sys/Software/adv_jtag_bridge/chain_commands.c:373-410 | One turn of the search consumes exactly one device |
| `ChainDiscovery.ProbeIdentity` | system/hardware/cores/adv_debug_sys/Software/adv_jtag_bridge/chain_commands.c:388-410 | The manufacturer field decides between a device and the marker |
| `ChainDiscovery.ManufacturerField` | system/hardware/cores/adv_debug_sys/Software/adv_jtag_bridge/chain_commands.c:389-393 | What that field reads as, for every device and behind the last one |
| `ChainDiscovery.ProbeRest` | system/hardware/cores/adv_debug_sys/Software/adv_jtag_bridge/chain_commands.c:393-397 | The code is put together from its three fields |
| `ChainDiscovery.ProbeBit` | system/hardware/cores/adv_debug_sys/Software/adv_jtag_bridge/chain_commands.c:374-375 | The start bit |
| `ChainDiscovery.ProbeField` | system/hardware/cores/adv_debug_sys/Software/adv_jtag_bridge/chain_commands.c:389-396 | A field of several bits |
| `ChainDiscovery.Store` | system/hardware/cores/adv_debug_sys/Software/adv_jtag_bridge/chain_commands.c:398-406 | Storing with doubling keeps all entries and stays in bounds |
| `ChainDiscovery.IdFields` | system/hardware/cores/adv_debug_sys/Software/adv_jtag_bridge/chain_commands.c:389-397 | The three fields of a code on the wire |
| `ChainDiscovery.ProbeCode` | system/hardware/cores/adv_debug_sys/Software/adv_jtag_bridge/chain_commands.c:374-397 | Reading a code in three parts past any number of marker bits |
| `ChainDiscovery.ProbeEnd` | system/hardware/cores/adv_debug_sys/Software/adv_jtag_bridge/chain_commands.c:389-409 | Behind the last device the marker comes out |
| `Wire.FlipIsXor` | system/hardware/cores/adv_debug_sys/Software/adv_jtag_bridge/rsp-server.c:1017-1034 | The byte behind the escape character is the exclusive or with 0x20, bit by bit, for every byte |
| `Wire.EscapedBytes` | system/hardware/cores/adv_debug_sys/Software/adv_jtag_bridge/rsp-server.c:1017-1034 | $, #, * and } are sent as 7d 04, 7d 03, 7d 0a and 7d 5d, and every other byte as itself |
| `Wire.PlainData` | system/hardware/cores/adv_debug_sys/Software/adv_jtag_bridge/rsp-server.c:1017-1034 | Data without these four is sent as it is |
| `Wire.UnescapedByte` | system/hardware/cores/adv_debug_sys/Software/adv_jtag_bridge/rsp-server.c:1325-1351 | Whatever byte comes behind 7d is unescaped to its exclusive or with 0x20, and every other byte to itself |
| `Wire.FrameBytes` | system/hardware/cores/adv_debug_sys/Software/adv_jtag_bridge/rsp-server.c:1008-1044 | Every frame is 24, the body, 23 and the byte sum modulo 256 in two lower-case hexadecimal digits, high digit first |
| `Wire.OkFrame` | system/hardware/cores/adv_debug_sys/Software/adv_jtag_bridge/rsp-server.c:1008-1044 | For example $OK#9a, byte by byte |
| `Wire.FrameReceived` | system/hardware/cores/adv_debug_sys/Software/adv_jtag_bridge/rsp-server.c:1098-1214 | Every frame with a body of at most 16382 plain bytes and digits in either case is returned and answered with 2b if the digits are the sum, and otherwise answered with 2d and the next one is waited for |
| `Wire.BreakReceived` | system/hardware/cores/adv_debug_sys/Software/adv_jtag_bridge/rsp-server.c:1114-1130 | The byte 03 outside a frame is a packet by itself |
| `Wire.Acknowledged` | system/hardware/cores/adv_debug_sys/Software/adv_jtag_bridge/rsp-server.c:1001-1051 | A packet is sent once more for every answer in front of the first 2b, which is the last one read |
| `RspFraming.DataRoundTrip` | system/hardware/cores/adv_debug_sys/Software/adv_jtag_bridge/rsp-server.c:1325-1351 | Any byte string whose escaped form fits the buffer survives sending, receiving behind noise, and unescaping |
| `RspFraming.PacketRoundTrip` | system/hardware/cores/adv_debug_sys/Software/adv_jtag_bridge/rsp-server.c:1098-1214 | The parser returns the printed packet, acknowledges it and leaves the rest of the input |
| `RspFraming.RoundTripExactly` | system/hardware/cores/adv_debug_sys/Software/adv_jtag_bridge/rsp-server.c:1098-1214 | A packet comes through if and only if its escaped body is at most 16382 bytes |
| `RspFraming.InterruptedPacketDropped` | system/hardware/cores/adv_debug_sys/Software/adv_jtag_bridge/rsp-server.c:1110-1168 | A packet broken off before its # is dropped when the next one starts, if and only if no 0x03 comes after its first 16383 bytes |
| `RspFraming.InterruptedPacketBreaks` | system/hardware/cores/adv_debug_sys/Software/adv_jtag_bridge/rsp-server.c:1110-1168 | For example, a 0x03 right behind a body that fills the buffer is returned as a packet, and the next packet stays unread |
| `RspFraming.RetransmissionAccepted` | system/hardware/cores/adv_debug_sys/Software/adv_jtag_bridge/rsp-server.c:1183-1205 | A wrong checksum is answered with - and the next packet is accepted |
| `RspFraming.UnescapeStretch` | system/hardware/cores/adv_debug_sys/Software/adv_jtag_bridge/rsp-server.c:1325-1351 | Unescaping an escaped stretch gives the data back |
| `RspFraming.RspUnescape` | system/hardware/cores/adv_debug_sys/Software/adv_jtag_bridge/rsp-server.c:1325-1351 | The in-place loop; its write offset never passes the read offset |
| `RspFraming.EscapedIsPlain` | system/hardware/cores/adv_debug_sys/Software/adv_jtag_bridge/rsp-server.c:1017-1034 | An escaped body contains neither $ nor # |
| `RspFraming.Connection.PutFrame` | system/hardware/cores/adv_debug_sys/Software/adv_jtag_bridge/rsp-server.c:1008-1044 | One transmission is the frame of the escaped data |
| `RspFraming.Connection.PutEscaped` | system/hardware/cores/adv_debug_sys/Software/adv_jtag_bridge/rsp-server.c:1017-1034 | One character with its contribution to the checksum |
| `RspFraming.Connection.PutPacket` | system/hardware/cores/adv_debug_sys/Software/adv_jtag_bridge/rsp-server.c:1001-1051 | Sends until + or the end of the connection |
| `RspFraming.Connection.SkipToStart` | system/hardware/cores/adv_debug_sys/Software/adv_jtag_bridge/rsp-server.c:1114-1130 | Waits for $ or the break character |
| `RspFraming.Connection.ReadBody` | system/hardware/cores/adv_debug_sys/Software/adv_jtag_bridge/rsp-server.c:1132-1168 | Reads the body into the buffer, restarting at each $ |
| `RspFraming.Connection.GetPacket` | system/hardware/cores/adv_debug_sys/Software/adv_jtag_bridge/rsp-server.c:1099-1214 | The imperative parser computes the receive function: packet, acknowledgements and input left |
| `RspFraming.HexRoundTrip` | system/hardware/cores/adv_debug_sys/Software/adv_jtag_bridge/rsp-server.c:1510-1517 | The checksum digits printed are the checksum read |
| `MatchpointHash.MpHash.constructor` | system/hardware/cores/adv_debug_sys/Software/adv_jtag_bridge/rsp-server.c:1361-1369 | All chains empty |
| `MatchpointHash.MpHash.Add` | system/hardware/cores/adv_debug_sys/Software/adv_jtag_bridge/rsp-server.c:1385-1412 | Adds to the finite map unless the key is present; never overwrites |
| `MatchpointHash.MpHash.Lookup` | system/hardware/cores/adv_debug_sys/Software/adv_jtag_bridge/rsp-server.c:1425-1442 | Looks up the finite map |
| `MatchpointHash.MpHash.Delete` | system/hardware/cores/adv_debug_sys/Software/adv_jtag_bridge/rsp-server.c:1465-1497 | Removes exactly the key and returns its entry |
| `MatchpointHash.MpHash.Search` | system/hardware/cores/adv_debug_sys/Software/adv_jtag_bridge/rsp-server.c:1472-1496 | Walks the chain with the entry before |
| `MatchpointHash.MpHash.Unlink` | system/hardware/cores/adv_debug_sys/Software/adv_jtag_bridge/rsp-server.c:1477-1490 | Unlinks one entry at head or middle; all other chains stay as they are |
| `MatchpointHash.MpHash.Detach` | system/hardware/cores/adv_debug_sys/Software/adv_jtag_bridge/rsp-server.c:1477-1490 | and the invariant of the table holds again |
| `MatchpointHash.AddRepresents` | system/hardware/cores/adv_debug_sys/Software/adv_jtag_bridge/rsp-server.c:1385-1412 | Pushing an entry keeps chains duplicate-free and in their own bucket, for the larger map |
| `MatchpointHash.DeleteRepresents` | system/hardware/cores/adv_debug_sys/Software/adv_jtag_bridge/rsp-server.c:1465-1497 | Dropping an entry keeps that for the smaller map |
| `MatchpointHash.ChainsDisjoint` | system/hardware/cores/adv_debug_sys/Software/adv_jtag_bridge/rsp-server.c:1361-1497 | An entry occurs in one chain only, once |
| `Matchpoints.OverlayRun` | system/hardware/cores/adv_debug_sys/Software/adv_jtag_bridge/rsp-server.c:2813-2820 | Over any Z and z packets, with duplicates and absent removals: memory is 0x21000001 exactly where a breakpoint is planted and the original image elsewhere, and the table holds the original instructions |
| `Matchpoints.RemovingAllRestores` | system/hardware/cores/adv_debug_sys/Software/adv_jtag_bridge/rsp-server.c:2709-2723 | When no breakpoint is left, memory reads as before |
| `Matchpoints.OverlayStep` | system/hardware/cores/adv_debug_sys/Software/adv_jtag_bridge/rsp-server.c:2709-2723 | The overlay is kept by every packet |
| `Matchpoints.RepliesTruthfully` | system/hardware/cores/adv_debug_sys/Software/adv_jtag_bridge/rsp-server.c:2680-2957 | OK means that the matchpoint is there after Z and gone after z, an empty reply that all units are in use and nothing changed, E01 exactly an unknown type and nothing changed |
| `Matchpoints.ConservedRun` | system/hardware/cores/adv_debug_sys/Software/adv_jtag_bridge/rsp-server.c:2822-2947 | Over any run units are conserved after every packet if and only if no live hardware matchpoint is inserted again while a unit is free |
| `Matchpoints.ConservedExactly` | system/hardware/cores/adv_debug_sys/Software/adv_jtag_bridge/rsp-server.c:2822-2947 | The same for one packet: distinct units, in-use flags baseline plus held, and each held unit armed: its DVR the address, its DCR valid, equal and unsigned with field 1 (fetch), 3 (store), 2 (load) or 6 (both) for types 1 to 4, bit 12 + u of DMR2 set, bits 2u and 2u + 1 of DMR1 clear |
| `Matchpoints.InsertConserves` | system/hardware/cores/adv_debug_sys/Software/adv_jtag_bridge/rsp-server.c:2822-2947 | A new key gets a unit of its own |
| `Matchpoints.RemoveConserves` | system/hardware/cores/adv_debug_sys/Software/adv_jtag_bridge/rsp-server.c:2725-2759 | Removal gives the unit back, with its enable bit clear and 1 in its DCR |
| `Matchpoints.DuplicateLeaks` | system/hardware/cores/adv_debug_sys/Software/adv_jtag_bridge/rsp-server.c:2822-2947 | A repeated insertion takes a unit that nothing holds |
| `Matchpoints.DuplicateLeaksFromStart` | system/hardware/cores/adv_debug_sys/Software/adv_jtag_bridge/rsp-server.c:2822-2947 | For example, inserting one watchpoint twice from the start leaves unit 1 in use for nobody |
| `Matchpoints.HwpServer.GetAvailableWatchpoint` | system/hardware/cores/adv_debug_sys/Software/adv_jtag_bridge/hwp_server.c:1018-1035 | Grants the first free unit |
| `Matchpoints.HwpServer.ReturnWatchpoint` | system/hardware/cores/adv_debug_sys/Software/adv_jtag_bridge/hwp_server.c:1041-1057 | Frees a unit |
| `Matchpoints.RspServer.InsertMatchpoint` | system/hardware/cores/adv_debug_sys/Software/adv_jtag_bridge/rsp-server.c:2783-2957 | The insertion on the real structures is the packet's effect on the abstract state, with the right reply |
| `Matchpoints.RspServer.RemoveMatchpoint` | system/hardware/cores/adv_debug_sys/Software/adv_jtag_bridge/rsp-server.c:2680-2768 | and so is the removal |
| `StallMonitor.StepKeepsInvExactly` | system/hardware/cores/adv_debug_sys/Software/adv_jtag_bridge/hardware_monitor.c:172-327 | Each step of servers, monitor or hardware keeps the protocol invariant if and only if it is not a failing stall write |
| `StallMonitor.StepKeepsConsistent` | system/hardware/cores/adv_debug_sys/Software/adv_jtag_bridge/hardware_monitor.c:172-327 | Each step keeps what the threads know of each other, whatever the hardware does |
| `StallMonitor.HaltedMeansStalled` | system/hardware/cores/adv_debug_sys/Software/adv_jtag_bridge/hardware_monitor.c:172-310 | In every interleaving in which every stall write reaches the running CPU: outside the window in which an unstall is carried out, target_is_running = 0 means the CPU is stalled |
| `StallMonitor.StaleExactly` | system/hardware/cores/adv_debug_sys/Software/adv_jtag_bridge/hardware_monitor.c:296-309 | In every interleaving, with control writes failing or not: the flag is stale, saying halted while the CPU runs, if and only if an unstall has reached the CPU, or the flag was cleared after a stall that did not, and since then neither has the flag been set again nor the CPU stopped by itself |
| `StallMonitor.StaleStep` | system/hardware/cores/adv_debug_sys/Software/adv_jtag_bridge/hardware_monitor.c:296-309 | One step makes the flag stale, or keeps it so, exactly in these cases |
| `StallMonitor.WindowExists` | system/hardware/cores/adv_debug_sys/Software/adv_jtag_bridge/hardware_monitor.c:237-309 | A run that ends between the control write of an unstall and the assignment, where the flag is stale |
| `StallMonitor.WindowNotAlwaysStale` | system/hardware/cores/adv_debug_sys/Software/adv_jtag_bridge/hardware_monitor.c:237-309 | A run that ends at the same place, where it is not, because the CPU has stopped again |
| `StallMonitor.FailedStallIsStale` | system/hardware/cores/adv_debug_sys/Software/adv_jtag_bridge/hardware_monitor.c:296-309 | A run without any unstall that ends with a stale flag, because the write of a stall failed |
| `StallMonitor.ServersAgree` | system/hardware/cores/adv_debug_sys/Software/adv_jtag_bridge/jsp_server.c:313-336 | In every interleaving, at every loop head: a server that was told something will, with its pending events read, believe what the monitor believes; a halt it believes in is real exactly if the flag is not stale, as it is not if every stall write reached the running CPU |
| `StallMonitor.InvExactly` | system/hardware/cores/adv_debug_sys/Software/adv_jtag_bridge/hardware_monitor.c:172-309 | In every interleaving the invariant holds up to a point if and only if no stall write to the running CPU has failed before it |
| `StallMonitor.RunKeepsConsistent` | system/hardware/cores/adv_debug_sys/Software/adv_jtag_bridge/hardware_monitor.c:172-295 | What the threads know of each other holds in every interleaving |
| `StallMonitor.CommandObeyed` | system/hardware/cores/adv_debug_sys/Software/adv_jtag_bridge/hardware_monitor.c:218-309 | A command writes the CPU exactly if the flag says that it has something to change, leaves the flag at what it asked for, and is answered to every registered server with one event, also when nothing had to be done |
| `StallMonitor.HaltReported` | system/hardware/cores/adv_debug_sys/Software/adv_jtag_bridge/hardware_monitor.c:266-285 | A timeout polls only a running target; a halt found clears the flag and is told to every server, and nothing else happens |
| `StallMonitor.ScanComplete` | system/hardware/cores/adv_debug_sys/Software/adv_jtag_bridge/hardware_monitor.c:218-266 | In every interleaving the monitor looks at every registered connection between a select that reports data and the next loop head |
| `StallMonitor.UnregisterDrops` | system/hardware/cores/adv_debug_sys/Software/adv_jtag_bridge/hardware_monitor.c:115-155 | Unregistering drops exactly the named server and keeps all others with their pipes |
| `StallMonitor.AtMostFive` | system/hardware/cores/adv_debug_sys/Software/adv_jtag_bridge/hardware_monitor.c:82-110 | In every interleaving at most five servers are registered |
| `StallMonitor.NotifyReachesAll` | system/hardware/cores/adv_debug_sys/Software/adv_jtag_bridge/hardware_monitor.c:312-327 | One round of notifications reaches every registered server |
| `JspBuffers.JspServer.QueueDataFromClient` | system/hardware/cores/adv_debug_sys/Software/adv_jtag_bridge/jsp_server.c:406-453 | Towards the hardware no byte is lost, added or reordered; two receives fill the buffer if enough is pending |
| `JspBuffers.JspServer.HardwareTransact` | system/hardware/cores/adv_debug_sys/Software/adv_jtag_bridge/jsp_server.c:504-550 | The accepted bytes leave in order; the received ones are queued with every byte overwritten by the one 256 places behind it, so that they are conserved if and only if each overwritten byte equals its successor, as is always so with room for all |
| `JspBuffers.ConservedExactly` | system/hardware/cores/adv_debug_sys/Software/adv_jtag_bridge/jsp_server.c:540-545 | A queue comes through the buffer unchanged if and only if every overwritten byte equals the one that takes its place; with room nothing is overwritten |
| `JspBuffers.OldestReplaced` | system/hardware/cores/adv_debug_sys/Software/adv_jtag_bridge/jsp_server.c:540-545 | An overrun by at most 256 bytes replaces exactly the oldest bytes, as many as there are too many, by the newest ones |
| `JspBuffers.ByteLost` | system/hardware/cores/adv_debug_sys/Software/adv_jtag_bridge/jsp_server.c:540-545 | For example, with a full buffer one byte more takes the place of the first one |
| `JspBuffers.WindowIsOverrun` | system/hardware/cores/adv_debug_sys/Software/adv_jtag_bridge/jsp_server.c:540-545 | A buffer that holds the newest bytes of a queue reads as the overrun queue |
| `JspBuffers.JspServer.SendDataToClient` | system/hardware/cores/adv_debug_sys/Software/adv_jtag_bridge/jsp_server.c:455-501 | What the client got and what is still queued stay the same in order; two sends empty a buffer that is not overrun if the socket takes all |
| `JspBuffers.Ring.Receive` | system/hardware/cores/adv_debug_sys/Software/adv_jtag_bridge/jsp_server.c:413-428 | One receive appends what fits in one piece behind the write index |
| `JspBuffers.Ring.Send` | system/hardware/cores/adv_debug_sys/Software/adv_jtag_bridge/jsp_server.c:464-478 | One send takes a piece up to the end of the array off the front |
| `JspBuffers.Ring.Put` | system/hardware/cores/adv_debug_sys/Software/adv_jtag_bridge/jsp_server.c:540-545 | One byte from the hardware goes behind the queued ones, whatever is there |
| `JspBuffers.Ring.Peek` | system/hardware/cores/adv_debug_sys/Software/adv_jtag_bridge/jsp_server.c:516-524 | The loop that collects up to eight bytes around the end of the array |
| `JspBuffers.WindowAppend` | system/hardware/cores/adv_debug_sys/Software/adv_jtag_bridge/jsp_server.c:406-453 | Writing behind a window that does not fill the buffer appends to it and changes nothing in it |
| `JspBuffers.WindowDrop` | system/hardware/cores/adv_debug_sys/Software/adv_jtag_bridge/jsp_server.c:532-534 | Moving the read index drops the front of the window |
| `MergeTree.MergeBlockMeaning` | system/hardware/cores/fabric/StitchFabric.java:272-333 | For every number of assertion results the generated netlist computes their OR, masked by a configuration error |
| `MergeTree.MergeTreeIsOr` | system/hardware/cores/fabric/StitchFabric.java:277-307 | The same from any level on, in every consistent valuation of the wires |
| `MergeTree.DrivenIsConsistent` | system/hardware/cores/fabric/StitchFabric.java:277-333 | A consistent valuation exists for all inputs |
| `MergeTree.LevelIsOr` | system/hardware/cores/fabric/StitchFabric.java:278-291 | One level neither loses nor invents a violation |
| `MergeTree.InputsUsedOnce` | system/hardware/cores/fabric/StitchFabric.java:312-333 | Every input of a level feeds exactly one pin, and no wire from further below is used |
| `MergeTree.BlocksFeedOnePin` | system/hardware/cores/fabric/StitchFabric.java:277-333 | Every block feeds exactly one pin, except the last, which drives the output |
| `MergeTree.StitchFabric.PrintMergeBlock` | system/hardware/cores/fabric/StitchFabric.java:272-274 | Appends exactly the netlist |
| `MergeTree.StitchFabric.PrintLevelOfLuts` | system/hardware/cores/fabric/StitchFabric.java:277-307 | The recursion terminates and appends the netlist of its level |
| `MergeTree.StitchFabric.PrintLut` | system/hardware/cores/fabric/StitchFabric.java:312-333 | One block, its unused pins grounded |

## Left out

- Sockets, poll and select, thread creation and allocation failures: pipes are queues and a thread is
  its sequence of steps.
- The bit layout of a serial transaction with the debug unit: its outcome, the bytes accepted and
  received, is a parameter of `JspBuffers.JspServer.HardwareTransact`.
- Burst transfers beyond their CRC: word sizes, buffers, bus error registers and the retry loop, whose
  number of retries is 0.
- Timer registers of the simulator, the counters and `BAIL`, which is empty, so that `can_execute` has
  no effect.
- The tests for supervisor mode in special-register accesses: they are assertions that the stand-alone
  build compiles away.
- Special-purpose registers of the real processor other than as stored words: no side effects of
  writing them, no cache flushes.
- C shifts by 32 or more, which C leaves undefined: l.srl takes its amount modulo 32, l.ror and l.rori
  by 0 give the operand back.
- The simulator's own code is never in simulated memory, so that a store cannot change it.
- Range exceptions and l.trap in the restart theorem: rD is written before a range exception is raised,
  and a trap is meant to come back to itself.
- Instruction-TAP scans and the Altera virtual JTAG and Xilinx variants.
- Packets that do not parse, breakpoint addresses that are not multiples of 4, and failing bus accesses
  in matchpoint packets: only their replies would differ.
- Verilog that is not netlist: routing, logic and assertion blocks of the fabric generator.
- Jtag.Driver.CableReadWriteStream: models the cable as ideal shifting of any number of bits; the
  32-bit shift in the original's mask is not modelled, and the cable drivers are not part of this model.
- Matchpoints.ConservedRun: says nothing about writes that an HWP client makes to the debug registers
  directly.
