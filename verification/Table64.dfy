/** The decoder's table, src/hde/table64.h, and what the relocator needs to know about it. */
module Table64 {
  import opened Words
  import opened Hde64
  import opened Hde64Laws

  // ---------------------------------------------------------------------
  // The table
  // ---------------------------------------------------------------------

  function Pick(j: int, b0: byte, b1: byte, b2: byte, b3: byte, b4: byte, b5: byte, b6: byte, b7: byte,
                b8: byte, b9: byte, b10: byte, b11: byte, b12: byte, b13: byte, b14: byte, b15: byte): byte
  {
    if j < 8 then
      if j < 4 then (if j < 2 then (if j < 1 then b0 else b1) else if j < 3 then b2 else b3)
      else if j < 6 then (if j < 5 then b4 else b5)
      else if j < 7 then b6 else b7
    else
      if j < 12 then (if j < 10 then (if j < 9 then b8 else b9) else if j < 11 then b10 else b11)
      else if j < 14 then (if j < 13 then b12 else b13)
      else if j < 15 then b14 else b15
  }

  /** Row i / 16, column i % 16. */
  function TableByte(i: int): byte
  {
    var j := i % 16;
    match i / 16
    case 0 => Pick(j, 0xa5, 0xaa, 0xa5, 0xb8, 0xa5, 0xaa, 0xa5, 0xaa, 0xa5, 0xb8, 0xa5, 0xb8, 0xa5, 0xb8, 0xa5, 0xb8)
    case 1 => Pick(j, 0xc0, 0xc0, 0xc0, 0xc0, 0xc0, 0xc0, 0xc0, 0xc0, 0xac, 0xc0, 0xcc, 0xc0, 0xa1, 0xa1, 0xa1, 0xa1)
    case 2 => Pick(j, 0xb1, 0xa5, 0xa5, 0xa6, 0xc0, 0xc0, 0xd7, 0xda, 0xe0, 0xc0, 0xe4, 0xc0, 0xea, 0xea, 0xe0, 0xe0)
    case 3 => Pick(j, 0x98, 0xc8, 0xee, 0xf1, 0xa5, 0xd3, 0xa5, 0xa5, 0xa1, 0xea, 0x9e, 0xc0, 0xc0, 0xc2, 0xc0, 0xe6)
    case 4 => Pick(j, 0x03, 0x7f, 0x11, 0x7f, 0x01, 0x7f, 0x01, 0x3f, 0x01, 0x01, 0xab, 0x8b, 0x90, 0x64, 0x5b, 0x5b)
    case 5 => Pick(j, 0x5b, 0x5b, 0x5b, 0x92, 0x5b, 0x5b, 0x76, 0x90, 0x92, 0x92, 0x5b, 0x5b, 0x5b, 0x5b, 0x5b, 0x5b)
    case 6 => Pick(j, 0x5b, 0x5b, 0x5b, 0x5b, 0x5b, 0x5b, 0x6a, 0x73, 0x90, 0x5b, 0x52, 0x52, 0x52, 0x52, 0x5b, 0x5b)
    case 7 => Pick(j, 0x5b, 0x5b, 0x77, 0x7c, 0x77, 0x85, 0x5b, 0x5b, 0x70, 0x5b, 0x7a, 0xaf, 0x76, 0x76, 0x5b, 0x5b)
    case 8 => Pick(j, 0x5b, 0x5b, 0x5b, 0x5b, 0x5b, 0x5b, 0x5b, 0x5b, 0x5b, 0x86, 0x01, 0x03, 0x01, 0x04, 0x03, 0xd5)
    case 9 => Pick(j, 0x03, 0xd5, 0x03, 0xcc, 0x01, 0xbc, 0x03, 0xf0, 0x03, 0x03, 0x04, 0x00, 0x50, 0x50, 0x50, 0x50)
    case 10 => Pick(j, 0xff, 0x20, 0x20, 0x20, 0x20, 0x01, 0x01, 0x01, 0x01, 0xc4, 0x02, 0x10, 0xff, 0xff, 0xff, 0x01)
    case 11 => Pick(j, 0x00, 0x03, 0x11, 0xff, 0x03, 0xc4, 0xc6, 0xc8, 0x02, 0x10, 0x00, 0xff, 0xcc, 0x01, 0x01, 0x01)
    case 12 => Pick(j, 0x00, 0x00, 0x00, 0x00, 0x01, 0x01, 0x03, 0x01, 0xff, 0xff, 0xc0, 0xc2, 0x10, 0x11, 0x02, 0x03)
    case 13 => Pick(j, 0x01, 0x01, 0x01, 0xff, 0xff, 0xff, 0x00, 0x00, 0x00, 0xff, 0x00, 0x00, 0xff, 0xff, 0xff, 0xff)
    case 14 => Pick(j, 0x10, 0x10, 0x10, 0x10, 0x02, 0x10, 0x00, 0x00, 0xc6, 0xc8, 0x02, 0x02, 0x02, 0x02, 0x06, 0x00)
    case 15 => Pick(j, 0x04, 0x00, 0x02, 0xff, 0x00, 0xc0, 0xc2, 0x01, 0x01, 0x03, 0x03, 0x03, 0xca, 0x40, 0x00, 0x0a)
    case 16 => Pick(j, 0x00, 0x04, 0x00, 0x00, 0x00, 0x00, 0x7f, 0x00, 0x33, 0x01, 0x00, 0x00, 0x00, 0x00, 0x00, 0x00)
    case 17 => Pick(j, 0xff, 0xbf, 0xff, 0xff, 0x00, 0x00, 0x00, 0x00, 0x07, 0x00, 0x00, 0xff, 0x00, 0x00, 0x00, 0x00)
    case 18 => Pick(j, 0x00, 0x00, 0x00, 0x00, 0x00, 0x00, 0x00, 0x00, 0x00, 0x00, 0xff, 0xff, 0x00, 0x00, 0x00, 0xbf)
    case 19 => Pick(j, 0x00, 0x00, 0x00, 0x00, 0x00, 0x00, 0x00, 0x00, 0x7f, 0x00, 0x00, 0xff, 0x40, 0x40, 0x40, 0x40)
    case 20 => Pick(j, 0x41, 0x49, 0x40, 0x40, 0x40, 0x40, 0x4c, 0x42, 0x40, 0x40, 0x40, 0x40, 0x40, 0x40, 0x40, 0x40)
    case 21 => Pick(j, 0x4f, 0x44, 0x53, 0x40, 0x40, 0x40, 0x44, 0x57, 0x43, 0x5c, 0x40, 0x60, 0x40, 0x40, 0x40, 0x40)
    case 22 => Pick(j, 0x40, 0x40, 0x40, 0x40, 0x40, 0x40, 0x40, 0x40, 0x40, 0x40, 0x64, 0x66, 0x6e, 0x6b, 0x40, 0x40)
    case 23 => Pick(j, 0x6a, 0x46, 0x40, 0x40, 0x44, 0x46, 0x40, 0x40, 0x5b, 0x44, 0x40, 0x40, 0x00, 0x00, 0x00, 0x00)
    case 24 => Pick(j, 0x06, 0x06, 0x06, 0x06, 0x01, 0x06, 0x06, 0x02, 0x06, 0x06, 0x00, 0x06, 0x00, 0x0a, 0x0a, 0x00)
    case 25 => Pick(j, 0x00, 0x00, 0x02, 0x07, 0x07, 0x06, 0x02, 0x0d, 0x06, 0x06, 0x06, 0x0e, 0x05, 0x05, 0x02, 0x02)
    case 26 => Pick(j, 0x00, 0x00, 0x04, 0x04, 0x04, 0x04, 0x05, 0x06, 0x06, 0x06, 0x00, 0x00, 0x00, 0x0e, 0x00, 0x00)
    case 27 => Pick(j, 0x08, 0x00, 0x10, 0x00, 0x18, 0x00, 0x20, 0x00, 0x28, 0x00, 0x30, 0x00, 0x80, 0x01, 0x82, 0x01)
    case 28 => Pick(j, 0x86, 0x00, 0xf6, 0xcf, 0xfe, 0x3f, 0xab, 0x00, 0xb0, 0x00, 0xb1, 0x00, 0xb3, 0x00, 0xba, 0xf8)
    case 29 => Pick(j, 0xbb, 0x00, 0xc0, 0x00, 0xc1, 0x00, 0xc7, 0xbf, 0x62, 0xff, 0x00, 0x8d, 0xff, 0x00, 0xc4, 0xff)
    case 30 => Pick(j, 0x00, 0xc5, 0xff, 0x00, 0xff, 0xff, 0xeb, 0x01, 0xff, 0x0e, 0x12, 0x08, 0x00, 0x13, 0x09, 0x00)
    case 31 => Pick(j, 0x16, 0x08, 0x00, 0x17, 0x09, 0x00, 0x2b, 0x09, 0x00, 0xae, 0xff, 0x07, 0xb2, 0xff, 0x00, 0xb4)
    case 32 => Pick(j, 0xff, 0x00, 0xb5, 0xff, 0x00, 0xc3, 0x01, 0x00, 0xc7, 0xff, 0xbf, 0xe7, 0x08, 0x00, 0xf0, 0x02)
    case 33 => Pick(j, 0x00, 0x00, 0x00, 0x00, 0x00, 0x00, 0x00, 0x00, 0x00, 0x00, 0x00, 0x00, 0x00, 0x00, 0x00, 0x00)
    case _ => 0
  }

  /** hde64_table. */
  function Hde64Table(): Table
  {
    seq(TABLE_SIZE, i requires 0 <= i < TABLE_SIZE => TableByte(i))
  }

  lemma AtTable(i: int)
    ensures At(Hde64Table(), i) == if 0 <= i < TABLE_SIZE then TableByte(i) else 0
  {
  }

  // ---------------------------------------------------------------------
  // Table facts
  // ---------------------------------------------------------------------

  /** The attribute pools of both opcode maps. */
  predicate InPool(i: int)
  {
    0x98 <= i < 0xfd
  }

  lemma OneByteIndex(op: byte)
    ensures InPool(TableByte(op / 4) + op % 4)
  {
    assert 0x98 <= TableByte(op / 4) <= 0xf1;
  }

  lemma TwoByteIndex(op: byte)
    ensures InPool(DELTA_OPCODES + TableByte(DELTA_OPCODES + op / 4) + op % 4)
  {
    assert 0x9c <= DELTA_OPCODES + TableByte(DELTA_OPCODES + op / 4) <= 0xf9;
  }

  lemma PrefixIndex(op: byte)
    ensures DELTA_PREFIXES <= DELTA_PREFIXES + TableByte(DELTA_PREFIXES + op / 4) + op % 4 < DELTA_OP_LOCK_OK
  {
    assert 0x40 <= TableByte(DELTA_PREFIXES + op / 4) <= 0x6e;
  }

  lemma PoolByte(i: int)
    requires InPool(i)
    ensures Bit(TableByte(i), 7) || !(Bit(TableByte(i), 1) && Bit(TableByte(i), 5))
  {
  }

  /** Every opcode lookup stays inside the table, and so does the group that it may lead to. */
  lemma LookupsInside(base: int, op: byte)
    requires base == 0 || base == DELTA_OPCODES || base == DELTA_PREFIXES
    ensures 0 <= base + op / 4 < |Hde64Table()|
    ensures 0 <= base + At(Hde64Table(), base + op / 4) + op % 4 < |Hde64Table()|
    ensures base + Lookup(Hde64Table(), base, op) % 128 + 1 < |Hde64Table()|
  {
    AtTable(base + op / 4);
    OneByteIndex(op);
    TwoByteIndex(op);
    PrefixIndex(op);
  }

  /** The FPU maps end where the prefix map starts, and the scanned lists hold whole entries up to the table's end. */
  lemma ListsInside(op: byte, modrm: byte, k: int)
    requires 0 <= k
    ensures 0xd9 <= op <= 0xdf ==> DELTA_FPU_REG <= DELTA_FPU_REG + (op - 0xd9) < DELTA_FPU_MODRM
    ensures 0xd9 <= op <= 0xdf ==> DELTA_FPU_MODRM <= DELTA_FPU_MODRM + (op - 0xd9) * 8 + Reg(modrm) < DELTA_PREFIXES
    ensures DELTA_OP_LOCK_OK + 2 * k < DELTA_OP2_LOCK_OK ==> DELTA_OP_LOCK_OK + 2 * k + 2 <= DELTA_OP2_LOCK_OK
    ensures DELTA_OP2_LOCK_OK + 2 * k < DELTA_OP_ONLY_MEM ==> DELTA_OP2_LOCK_OK + 2 * k + 2 <= DELTA_OP_ONLY_MEM
    ensures DELTA_OP_ONLY_MEM + 3 * k < DELTA_OP2_ONLY_MEM ==> DELTA_OP_ONLY_MEM + 3 * k + 3 <= DELTA_OP2_ONLY_MEM
    ensures DELTA_OP2_ONLY_MEM + 3 * k < |Hde64Table()| ==> DELTA_OP2_ONLY_MEM + 3 * k + 3 <= |Hde64Table()|
  {
  }

  predicate GroupByte(base: int, raw: byte)
  {
    Bit(raw, 7) && raw != 0xff ==>
      var c := TableByte(base + raw % 128); !(Bit(c, 1) && Bit(c, 5))
  }

  lemma OneByteGroups(op: byte)
    ensures GroupByte(0, TableByte(TableByte(op / 4) + op % 4))
  {
  }

  lemma TwoByteGroups(op: byte)
    ensures GroupByte(DELTA_OPCODES, TableByte(DELTA_OPCODES + TableByte(DELTA_OPCODES + op / 4) + op % 4))
  {
  }

  lemma TestOpcodes(base: int)
    requires base == 0 || base == DELTA_OPCODES
    ensures var raw := TableByte(base + TableByte(base + 0xf6 / 4) + 0xf6 % 4); !Bit(raw, 7) && !Bit(raw, 5)
  {
  }

  lemma LookupIs(base: int, op: byte)
    requires base == 0 || base == DELTA_OPCODES
    ensures Lookup(Hde64Table(), base, op) == TableByte(base + TableByte(base + op / 4) + op % 4)
    ensures InPool(base + TableByte(base + op / 4) + op % 4)
  {
    hide TableByte, Hde64Table, At;
    OneByteIndex(op);
    TwoByteIndex(op);
    AtTable(base + op / 4);
    AtTable(base + TableByte(base + op / 4) + op % 4);
  }

  lemma UnambiguousForm(h: Head, reg: int)
    ensures Unambiguous(TestForm(Attribute(Hde64Table(), h).form, h.op, reg))
  {
    hide TableByte, Hde64Table, At, Lookup;
    var base := OpcodeBase(h.opcode);
    var raw := Lookup(Hde64Table(), base, h.op);
    LookupIs(base, h.op);
    OneByteGroups(h.op);
    TwoByteGroups(h.op);
    PoolByte(base + TableByte(base + h.op / 4) + h.op % 4);
    AtTable(base + raw % 128);
    if h.op == 0xf6 {
      TestOpcodes(base);
    }
  }

  lemma TableConsistent()
    ensures Consistent(Hde64Table())
  {
    forall h: Head, reg: int
      ensures Unambiguous(TestForm(Attribute(Hde64Table(), h).form, h.op, reg))
    {
      UnambiguousForm(h, reg);
    }
  }

  lemma TemplateBytes(op: byte)
    ensures op == 0xff ==> TableByte(TableByte(op / 4) + op % 4) == 0xc8 && TableByte(0x48) == 1 && TableByte(0x49) == 1
    ensures op == 0xeb || op / 16 == 7 ==> TableByte(TableByte(op / 4) + op % 4) == 0x20
    ensures op == 0xe9 ==> TableByte(TableByte(op / 4) + op % 4) == 0x50
  {
  }

  lemma GroupTemplate(h: Head)
    requires !h.twoRex && h.opcode2 == 0 && h.opcode == h.op == 0xff
    ensures KnownAttributes(0xff, Attribute(Hde64Table(), h))
  {
    hide TableByte, Hde64Table, At, Lookup;
    LookupIs(0, h.op);
    TemplateBytes(h.op);
    AtTable(0x48);
    AtTable(0x49);
  }

  lemma BranchTemplate(h: Head)
    requires !h.twoRex && h.opcode2 == 0 && h.opcode == h.op
    requires h.op == 0xe9 || h.op == 0xeb || h.op / 16 == 7
    ensures KnownAttributes(h.op, Attribute(Hde64Table(), h))
  {
    hide TableByte, Hde64Table, At, Lookup;
    LookupIs(0, h.op);
    TemplateBytes(h.op);
  }

  lemma TableKnowsTemplates()
    ensures KnowsTemplates(Hde64Table())
  {
    hide Attribute;
    forall h: Head | !h.twoRex && h.opcode2 == 0 && h.opcode == h.op
      ensures KnownAttributes(h.op, Attribute(Hde64Table(), h))
    {
      if h.op == 0xff {
        GroupTemplate(h);
      } else if h.op == 0xe9 || h.op == 0xeb || h.op / 16 == 7 {
        BranchTemplate(h);
      }
    }
  }
}
