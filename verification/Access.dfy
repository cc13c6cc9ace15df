/** Loads and stores: when they fault, and what they change if they do not. */
module Access {
  import opened Common
  import opened Words
  import opened Isa

  /** The exception of an access: its vector offset and the address it saves. */
  datatype Fault = Fault(offset: u32, address: u32)

  function Size(op: nat): (n: nat)
    ensures n > 0
  {
    if op == OP_LBZ || op == OP_LBS || op == OP_SB then 1
    else if op == OP_LHZ || op == OP_LHS || op == OP_SH then 2
    else 4
  }

  predicate IsStore(op: nat) {
    op == OP_SW || op == OP_SB || op == OP_SH
  }

  /** An access faults if its address is not a multiple of its size, or else if the translation
      fails. */
  function FaultOf(s: State, c: Control): Option<Fault> {
    FaultAt(s, EffectiveAddress(s, c), Size(c.opcode))
  }

  function FaultAt(s: State, ea: u32, size: nat): Option<Fault>
    requires size > 0
  {
    if ea % size != 0 then Some(Fault(0x600, ea))
    else if TranslateD(s, if size == 1 then ea else WordAddress(ea)) == 1
    then Some(Fault(0x900, if size == 1 then ea else WordAddress(ea)))
    else None
  }

  /** Translation works on whole words, unless physical address 1 is mistaken for a miss. */
  lemma WordTranslation(s: State, va: u32)
    ensures TranslateD(s, va) != 1 ==> TranslateD(s, WordAddress(va)) == WordAddress(TranslateD(s, va))
    ensures TranslateD(s, va) != 1 ==> TranslateD(s, va) % 4 == va % 4
  {
    if s.sr.dme {
      SamePage(va);
    }
  }

  lemma SamePage(va: u32)
    ensures WordAddress(va) / 8192 == va / 8192
    ensures WordAddress(va) % 8192 == va % 8192 - va % 4
  {
    var q, w, l := va / 8192, va % 8192 / 4, va % 8192 % 4;
    assert va == 4 * (2048 * q + w) + l;
    DivModUnique(va, 4, 2048 * q + w, l);
    DivModUnique(va - l, 8192, q, 4 * w);
  }

  /** A translation that does not miss keeps the alignment. */
  lemma AlignedTranslation(s: State, va: u32)
    requires va % 4 == 0
    ensures TranslateD(s, va) != 2
  {
    WordTranslation(s, va);
  }

  lemma LoadIntoShape(s: State, c: Control, va: u32, extract: u32 -> u32, outside: u32)
    requires va % 4 == 0
    ensures var r := LoadInto(s, c, va, extract, outside);
            if TranslateD(s, va) == 1 then r == AddressException(s, 0x900, va) else r == SetGpr(s, c.rD, r.gpr[c.rD])
  {
    AlignedTranslation(s, va);
  }

  lemma ReadModifyWriteShape(s: State, va: u32, change: u32 -> u32, outside: u32)
    requires va % 4 == 0
    ensures var r := ReadModifyWrite(s, va, change, outside);
            if TranslateD(s, va) == 1 then r == AddressException(s, 0x900, va) else r == s.(mem := r.mem)
  {
    AlignedTranslation(s, va);
  }

  /** The outcome of a load: a fault that changes nothing else, or a new value in rD. */
  ghost predicate Loads(s: State, fault: Option<Fault>, rD: Reg, r: State) {
    match fault
    case Some(f) => r == AddressException(s, f.offset, f.address)
    case None => r == SetGpr(s, rD, r.gpr[rD])
  }

  /** The outcome of a store: a fault that changes nothing else, or new memory. */
  ghost predicate Stores(s: State, fault: Option<Fault>, r: State) {
    match fault
    case Some(f) => r == AddressException(s, f.offset, f.address)
    case None => r == s.(mem := r.mem)
  }

  lemma LoadWordShape(s: State, c: Control, outside: u32)
    ensures Loads(s, FaultAt(s, EffectiveAddress(s, c), 4), c.rD, LoadWord(s, c, outside))
  {
    var ea := EffectiveAddress(s, c);
    if ea % 4 == 0 {
      LoadIntoShape(s, c, ea, Whole, outside);
    }
  }

  lemma LoadHalfShape(s: State, c: Control, signed: bool, outside: u32)
    ensures Loads(s, FaultAt(s, EffectiveAddress(s, c), 2), c.rD, LoadHalf(s, c, signed, outside))
  {
    var ea := EffectiveAddress(s, c);
    LoadIntoShape(s, c, WordAddress(ea), HalfExtract(ea, signed), outside);
  }

  lemma LoadByteShape(s: State, c: Control, signed: bool, outside: u32)
    ensures Loads(s, FaultAt(s, EffectiveAddress(s, c), 1), c.rD, LoadByte(s, c, signed, outside))
  {
    var ea := EffectiveAddress(s, c);
    if TranslateD(s, ea) != 1 && TranslateD(s, ea) < 0x800_0000 {
      assert TranslateD(s, WordAddress(ea)) != 1 by { WordTranslation(s, ea); }
      LoadIntoShape(s, c, WordAddress(ea), ByteExtract(ea, signed), outside);
    }
  }

  lemma StoreWordShape(s: State, c: Control)
    ensures Stores(s, FaultAt(s, EffectiveAddress(s, c), 4), StoreWord(s, c))
  {
    var ea := EffectiveAddress(s, c);
    if ea % 4 == 0 {
      AlignedTranslation(s, ea);
    }
  }

  lemma StoreHalfShape(s: State, c: Control, outside: u32)
    ensures Stores(s, FaultAt(s, EffectiveAddress(s, c), 2), StoreHalf(s, c, outside))
  {
    var ea := EffectiveAddress(s, c);
    ReadModifyWriteShape(s, WordAddress(ea), HalfChange(ea, s.gpr[c.rB]), outside);
  }

  lemma StoreByteShape(s: State, c: Control, outside: u32)
    ensures Stores(s, FaultAt(s, EffectiveAddress(s, c), 1), StoreByte(s, c, outside))
  {
    var ea := EffectiveAddress(s, c);
    if TranslateD(s, ea) != 1 && TranslateD(s, ea) < 0x800_0000 {
      assert TranslateD(s, WordAddress(ea)) != 1 by { WordTranslation(s, ea); }
      ReadModifyWriteShape(s, WordAddress(ea), ByteChange(ea, s.gpr[c.rB]), outside);
    }
  }

  /** A fault changes nothing but the exception registers; otherwise a load changes only rD and a
      store only memory. */
  lemma AccessShape(s: State, c: Control, outside: u32)
    ensures IsStore(c.opcode) ==> Stores(s, FaultOf(s, c), MemoryAccess(s, c, outside))
    ensures !IsStore(c.opcode) ==> Loads(s, FaultOf(s, c), c.rD, MemoryAccess(s, c, outside))
  {
    if c.opcode == OP_LBZ || c.opcode == OP_LBS {
      LoadByteShape(s, c, c.opcode == OP_LBS, outside);
    } else if c.opcode == OP_LHZ || c.opcode == OP_LHS {
      LoadHalfShape(s, c, c.opcode == OP_LHS, outside);
    } else if c.opcode == OP_SB {
      StoreByteShape(s, c, outside);
    } else if c.opcode == OP_SH {
      StoreHalfShape(s, c, outside);
    } else if c.opcode == OP_SW {
      StoreWordShape(s, c);
    } else {
      LoadWordShape(s, c, outside);
    }
  }
}
