/** The shipped table read as the opcode maps of 64-bit mode: which opcodes are defined, what follows them, which prefixes
    and operands they take.  src/hde/table64.h. */
module OpcodeMap {
  import opened Words
  import opened Hde64
  import opened Hde64Laws
  import opened DecodedFields
  import opened Table64

  // ---------------------------------------------------------------------
  // What follows an opcode
  // ---------------------------------------------------------------------

  /** The attributes of a one-byte opcode; 0xff: undefined. */
  function OneByteOpcode(op: byte): byte
  {
    if op in {0x06, 0x07, 0x16, 0x17, 0x1e, 0x1f, 0x27, 0x2f, 0x37, 0x3f, 0x60, 0x61, 0x62, 0x82, 0x9a, 0x9e, 0x9f,
              0xc4, 0xc5, 0xce, 0xd4, 0xd5, 0xd6, 0xea} then 0xff
    else if op < 0x40 && op % 8 < 6 then if op % 8 < 4 then 0x01 else if op % 8 == 4 then 0x02 else 0x10
    else if op in {0x63, 0xf6, 0xf7, 0xfe, 0xff} || 0x84 <= op < 0x90 || 0xd0 <= op < 0xd4 || 0xd8 <= op < 0xe0 then 0x01
    else if op in {0x6b, 0x80, 0x83, 0xc0, 0xc1, 0xc6} then 0x03
    else if op in {0x69, 0x81, 0xc7} then 0x11
    else if op in {0x6a, 0xa8, 0xcd} || 0xb0 <= op < 0xb8 || 0xe4 <= op < 0xe8 then 0x02
    else if op in {0x68, 0xa9} || 0xa0 <= op < 0xa4 || 0xb8 <= op < 0xc0 then 0x10
    else if op in {0xc2, 0xca} then 0x04
    else if op == 0xc8 then 0x06
    else if 0x70 <= op < 0x80 || 0xe0 <= op < 0xe4 || op == 0xeb then 0x20
    else if op in {0xe8, 0xe9} then 0x50
    else 0x00
  }

  /** The same for the opcode byte behind 0F. */
  function TwoByteOpcodeMap(op: byte): byte
  {
    if op == 0x04 || 0x0a <= op < 0x0d || 0x24 <= op < 0x28 || 0x36 <= op < 0x40 || op in {0x7a, 0x7b, 0xa6, 0xa7, 0xb9, 0xff}
    then 0xff
    else if op in {0x0e, 0xb8} || 0x05 <= op < 0x0a || 0x30 <= op < 0x36 || 0x77 <= op < 0x7a || 0xa0 <= op < 0xa3
            || 0xa8 <= op < 0xab || 0xc8 <= op < 0xd0 then 0x00
    else if op in {0x0f, 0xa4, 0xac, 0xba, 0xc2} || 0x70 <= op < 0x74 || 0xc4 <= op < 0xc7 then 0x03
    else if 0x80 <= op < 0x90 then 0x50
    else 0x01
  }

  /** The table's byte c for an opcode gives the attributes `want`. */
  predicate Gives(base: int, c: byte, want: byte)
  {
    if c == 0xff || want == 0xff then c == want else want == if c < 0x80 then c else TableByte(base + c - 0x80)
  }


  lemma OneByteFrom00(op: byte, i: int, j: int)
    requires op == 4 * i + j && 0 <= j < 4 && 0 <= i < 8 && op != 0x0f
    ensures Gives(0, TableByte(TableByte(i) + j), OneByteOpcode(op))
  {
  }

  lemma OneByteFrom20(op: byte, i: int, j: int)
    requires op == 4 * i + j && 0 <= j < 4 && 8 <= i < 16
    ensures Gives(0, TableByte(TableByte(i) + j), OneByteOpcode(op))
  {
  }

  lemma OneByteFrom40(op: byte, i: int, j: int)
    requires op == 4 * i + j && 0 <= j < 4 && 16 <= i < 32
    ensures Gives(0, TableByte(TableByte(i) + j), OneByteOpcode(op))
  {
  }

  lemma OneByteFrom80(op: byte, i: int, j: int)
    requires op == 4 * i + j && 0 <= j < 4 && 32 <= i < 48
    ensures Gives(0, TableByte(TableByte(i) + j), OneByteOpcode(op))
  {
  }

  lemma OneByteFromC0(op: byte, i: int, j: int)
    requires op == 4 * i + j && 0 <= j < 4 && 48 <= i < 64
    ensures Gives(0, TableByte(TableByte(i) + j), OneByteOpcode(op))
  {
  }

  lemma TwoByteFrom00(op: byte, i: int, j: int)
    requires op == 4 * i + j && 0 <= j < 4 && 0 <= i < 16
    ensures Gives(0x4a, TableByte(0x4a + TableByte(0x4a + i) + j), TwoByteOpcodeMap(op))
  {
  }

  lemma TwoByteFrom40(op: byte, i: int, j: int)
    requires op == 4 * i + j && 0 <= j < 4 && 16 <= i < 32
    ensures Gives(0x4a, TableByte(0x4a + TableByte(0x4a + i) + j), TwoByteOpcodeMap(op))
  {
  }

  lemma TwoByteFrom80(op: byte, i: int, j: int)
    requires op == 4 * i + j && 0 <= j < 4 && 32 <= i < 48
    ensures Gives(0x4a, TableByte(0x4a + TableByte(0x4a + i) + j), TwoByteOpcodeMap(op))
  {
  }

  lemma TwoByteFromC0(op: byte, i: int, j: int)
    requires op == 4 * i + j && 0 <= j < 4 && 48 <= i < 64
    ensures Gives(0x4a, TableByte(0x4a + TableByte(0x4a + i) + j), TwoByteOpcodeMap(op))
  {
  }

  /** The table's attributes are the opcode map's. */
  lemma FollowsMap(op: byte, twoBytes: bool)
    requires !twoBytes ==> op != 0x0f
    ensures var base, want := if twoBytes then 0x4a else 0, if twoBytes then TwoByteOpcodeMap(op) else OneByteOpcode(op);
            && (Lookup(Hde64Table(), base, op) == 0xff <==> want == 0xff)
            && (want != 0xff ==> Cflags(Hde64Table(), op, twoBytes) == want)
  {
    hide TableByte, Hde64Table, At, OneByteOpcode, TwoByteOpcodeMap;
    var i, j := op / 4, op % 4;
    var base: int := if twoBytes then 0x4a else 0;
    LookupIs(base, op);
    if twoBytes {
      if i < 16 { TwoByteFrom00(op, i, j); } else if i < 32 { TwoByteFrom40(op, i, j); }
      else if i < 48 { TwoByteFrom80(op, i, j); } else { TwoByteFromC0(op, i, j); }
    } else {
      if i < 8 { OneByteFrom00(op, i, j); } else if i < 16 { OneByteFrom20(op, i, j); } else if i < 32 { OneByteFrom40(op, i, j); }
      else if i < 48 { OneByteFrom80(op, i, j); } else { OneByteFromC0(op, i, j); }
    }
    AtTable(base + Lookup(Hde64Table(), base, op) - 0x80);
  }

  // ---------------------------------------------------------------------
  // Undefined forms
  // ---------------------------------------------------------------------

  /** The prefixes that the opcode byte behind 0F does not take: 1 none at all, 2 F2, 4 F3, 8 66. */
  function NotWith(op: byte): byte
  {
    if op in {0xd6, 0xe6} then 1
    else if op in {0x16, 0x5b, 0x6f, 0x7e, 0x7f} then 2
    else if 0xba <= op < 0xc0 then 4
    else if op in {0x7c, 0x7d, 0xd0} then 5
    else if op in {0x6c, 0x6d} then 7
    else if op in {0x52, 0x53} then 10
    else if op == 0xf0 then 13
    else if op in {0x77, 0xc3} then 14
    else if op in {0x17, 0x28, 0x29, 0x2b, 0x2e, 0x2f, 0x50, 0x6e, 0xd7, 0xe7} || 0x13 <= op < 0x16 || 0x54 <= op < 0x58
            || 0x68 <= op < 0x6c || 0x71 <= op < 0x77 || 0xc4 <= op < 0xc7 || 0xd1 <= op < 0xd6 || 0xe0 <= op < 0xe6
            || 0xf1 <= op < 0xf8 then 6
    else 0
  }

  predicate Rejects(op: byte, pre: Prefixes)
  {
    var x := NotWith(op);
    (x % 2 == 1 && pre.none) || (x / 2 % 2 == 1 && pre.f2) || (x / 4 % 2 == 1 && pre.f3) || (x / 8 == 1 && pre.p66)
  }

  lemma NotWithFrom00(op: byte, i: int, j: int)
    requires op == 4 * i + j && 0 <= j < 4 && 0 <= i < 16
    ensures TableByte(0x13c + TableByte(0x13c + i) + j) == NotWith(op)
  {
  }

  lemma NotWithFrom40(op: byte, i: int, j: int)
    requires op == 4 * i + j && 0 <= j < 4 && 16 <= i < 32
    ensures TableByte(0x13c + TableByte(0x13c + i) + j) == NotWith(op)
  {
  }

  lemma NotWithFrom80(op: byte, i: int, j: int)
    requires op == 4 * i + j && 0 <= j < 4 && 32 <= i < 48
    ensures TableByte(0x13c + TableByte(0x13c + i) + j) == NotWith(op)
  {
  }

  lemma NotWithFromC0(op: byte, i: int, j: int)
    requires op == 4 * i + j && 0 <= j < 4 && 48 <= i < 64
    ensures TableByte(0x13c + TableByte(0x13c + i) + j) == NotWith(op)
  {
  }

  lemma ForbiddenIff(op: byte, pre: Prefixes)
    ensures Meets(Lookup(Hde64Table(), DELTA_PREFIXES, op), pre) <==> Rejects(op, pre)
  {
    hide TableByte, Hde64Table, At, NotWith;
    var i, j := op / 4, op % 4;
    PrefixIndex(op);
    AtTable(DELTA_PREFIXES + i);
    AtTable(DELTA_PREFIXES + TableByte(DELTA_PREFIXES + i) + j);
    if i < 16 { NotWithFrom00(op, i, j); } else if i < 32 { NotWithFrom40(op, i, j); }
    else if i < 48 { NotWithFrom80(op, i, j); } else { NotWithFromC0(op, i, j); }
    NotWithRange(op);
  }

  lemma NotWithRange(op: byte)
    ensures NotWith(op) < 16
  {
  }

  /** The members that a group opcode does not have. */
  predicate NoMember(op: byte, twoBytes: bool, reg: int)
  {
    if twoBytes then
      match op
      case 0x00 => reg >= 6
      case 0x01 => reg == 5
      case 0x71 => reg !in {2, 4, 6}
      case 0x72 => reg !in {2, 4, 6}
      case 0x73 => reg !in {2, 3, 6, 7}
      case 0xba => reg < 4
      case 0xc7 => reg !in {1, 6, 7}
      case _ => false
    else
      match op
      case 0x8f => reg != 0
      case 0xc6 => reg != 0
      case 0xc7 => reg != 0
      case 0xfe => reg > 1
      case 0xff => reg == 7
      case _ => false
  }

  function GroupMask(base: int, c: byte): byte
  {
    if c < 0x80 || c == 0xff then 0 else TableByte(base + c - 0x80 + 1)
  }

  predicate Masks(mask: byte, op: byte, twoBytes: bool)
  {
    forall reg :: 0 <= reg < 8 ==> ((mask != 0 && Bit(mask, 7 - reg)) <==> NoMember(op, twoBytes, reg))
  }

  lemma OneByteGroupsFrom00(op: byte, i: int, j: int)
    requires op == 4 * i + j && 0 <= j < 4 && 0 <= i < 32 && op != 0x0f
    ensures Masks(GroupMask(0, TableByte(TableByte(i) + j)), op, false)
  {
  }

  lemma OneByteGroupsFrom80(op: byte, i: int, j: int)
    requires op == 4 * i + j && 0 <= j < 4 && 32 <= i < 48
    ensures Masks(GroupMask(0, TableByte(TableByte(i) + j)), op, false)
  {
  }

  lemma OneByteGroupsFromC0(op: byte, i: int, j: int)
    requires op == 4 * i + j && 0 <= j < 4 && 48 <= i < 64
    ensures Masks(GroupMask(0, TableByte(TableByte(i) + j)), op, false)
  {
  }

  lemma TwoByteGroupsFrom00(op: byte, i: int, j: int)
    requires op == 4 * i + j && 0 <= j < 4 && 0 <= i < 16
    ensures Masks(GroupMask(0x4a, TableByte(0x4a + TableByte(0x4a + i) + j)), op, true)
  {
  }

  lemma TwoByteGroupsFrom40(op: byte, i: int, j: int)
    requires op == 4 * i + j && 0 <= j < 4 && 16 <= i < 32
    ensures Masks(GroupMask(0x4a, TableByte(0x4a + TableByte(0x4a + i) + j)), op, true)
  {
  }

  lemma TwoByteGroupsFrom80(op: byte, i: int, j: int)
    requires op == 4 * i + j && 0 <= j < 4 && 32 <= i < 48
    ensures Masks(GroupMask(0x4a, TableByte(0x4a + TableByte(0x4a + i) + j)), op, true)
  {
  }

  lemma TwoByteGroupsFromC0(op: byte, i: int, j: int)
    requires op == 4 * i + j && 0 <= j < 4 && 48 <= i < 64
    ensures Masks(GroupMask(0x4a, TableByte(0x4a + TableByte(0x4a + i) + j)), op, true)
  {
  }

  /** What the FPU does not have: memory forms, register forms. */
  predicate NoFpu(op: byte, modrm: byte)
  {
    var reg, rm := modrm / 8 % 8, modrm % 8;
    if modrm < 0xc0 then
      (op == 0xd9 && reg == 1) || (op == 0xdb && (reg == 4 || reg == 6)) || (op == 0xdd && reg == 5)
    else
      match op
      case 0xd9 => (reg == 2 && rm != 0) || (reg == 4 && rm in {2, 3, 6, 7}) || (reg == 5 && rm == 7)
      case 0xda => reg in {4, 6, 7} || (reg == 5 && rm != 1)
      case 0xdb => (reg == 4 && rm >= 5) || reg == 7
      case 0xdd => reg >= 6
      case 0xde => reg == 3 && rm != 1
      case 0xdf => (reg == 4 && rm != 0) || reg == 7
      case _ => false
  }

  lemma FpuMemory(op: byte, reg: int)
    requires 0xd9 <= op <= 0xdf && 0 <= reg < 8
    ensures Bit(TableByte(DELTA_FPU_REG + (op - 0xd9)), 7 - reg)
            <==> (op == 0xd9 && reg == 1) || (op == 0xdb && (reg == 4 || reg == 6)) || (op == 0xdd && reg == 5)
  {
  }

  lemma FpuRegisterLow(op: byte, modrm: byte)
    requires 0xd9 <= op < 0xdc && 0xc0 <= modrm
    ensures Bit(TableByte(DELTA_FPU_MODRM + (op - 0xd9) * 8 + modrm / 8 % 8), 7 - modrm % 8) <==> NoFpu(op, modrm)
  {
  }

  lemma FpuRegisterHigh(op: byte, modrm: byte)
    requires 0xdc <= op <= 0xdf && 0xc0 <= modrm
    ensures Bit(TableByte(DELTA_FPU_MODRM + (op - 0xd9) * 8 + modrm / 8 % 8), 7 - modrm % 8) <==> NoFpu(op, modrm)
  {
  }

  lemma FpuIff(h: Head, modrm: byte)
    requires IsFpu(h)
    ensures BadFpu(Hde64Table(), h, modrm) <==> NoFpu(h.op, modrm)
  {
    hide TableByte, Hde64Table, At;
    if modrm < 0xc0 {
      FpuMemory(h.op, Reg(modrm));
      AtTable(DELTA_FPU_REG + (h.op - 0xd9));
    } else {
      if h.op < 0xdc {
        FpuRegisterLow(h.op, modrm);
      } else {
        FpuRegisterHigh(h.op, modrm);
      }
      AtTable(DELTA_FPU_MODRM + (h.op - 0xd9) * 8 + Reg(modrm));
    }
  }

  // ---------------------------------------------------------------------
  // LOCK and register operands
  // ---------------------------------------------------------------------

  /** The instructions that take LOCK, with a memory operand: op is the last opcode byte. */
  predicate Lockable(op: byte, twoBytes: bool, reg: int)
  {
    if twoBytes then
      op in {0xab, 0xb0, 0xb1, 0xb3, 0xbb, 0xc0, 0xc1} || (op == 0xba && reg >= 5) || (op == 0xc7 && reg == 1)
    else
      || (op < 0x38 && op % 8 < 2) || (0x80 <= op < 0x84 && reg != 7) || op in {0x86, 0x87}
      || (op in {0xf6, 0xf7} && (reg == 2 || reg == 3)) || (op in {0xfe, 0xff} && reg <= 1)
  }

  /** The instructions that take no register operand. */
  predicate MemoryOnly(op: byte, twoBytes: bool, pre: Prefixes, reg: int)
  {
    if twoBytes then
      match op
      case 0x01 => reg !in {4, 5, 6}
      case 0x12 => pre.p66
      case 0x13 => pre.none || pre.p66
      case 0x16 => pre.p66
      case 0x17 => pre.none || pre.p66
      case 0x2b => pre.none || pre.p66
      case 0xae => reg < 5
      case 0xb2 => true
      case 0xb4 => true
      case 0xb5 => true
      case 0xc3 => pre.none
      case 0xc7 => reg == 1
      case 0xe7 => pre.p66
      case 0xf0 => pre.f2
      case _ => false
    else
      op in {0x62, 0x8d, 0xc4, 0xc5} || (op == 0xff && (reg == 3 || reg == 5))
  }

  /** The lists of the table: opcode, registers; opcode, prefixes, registers. */
  const LOCK_ONE: seq<byte> := [0x00, 0x00, 0x08, 0x00, 0x10, 0x00, 0x18, 0x00, 0x20, 0x00, 0x28, 0x00, 0x30, 0x00,
                                0x80, 0x01, 0x82, 0x01, 0x86, 0x00, 0xf6, 0xcf, 0xfe, 0x3f]

  lemma LockOne(i: int)
    requires 0x1ae <= i < 0x1c6
    ensures TableByte(i) == LOCK_ONE[i - 0x1ae]
  {
  }

  const LOCK_TWO: seq<byte> := [0xab, 0x00, 0xb0, 0x00, 0xb1, 0x00, 0xb3, 0x00, 0xba, 0xf8, 0xbb, 0x00, 0xc0, 0x00, 0xc1, 0x00,
                                0xc7, 0xbf]

  lemma LockTwo(i: int)
    requires 0x1c6 <= i < 0x1d8
    ensures TableByte(i) == LOCK_TWO[i - 0x1c6]
  {
  }

  const MEMORY_ONE: seq<byte> := [0x62, 0xff, 0x00, 0x8d, 0xff, 0x00, 0xc4, 0xff, 0x00, 0xc5, 0xff, 0x00, 0xff, 0xff, 0xeb]

  lemma MemoryOne(i: int)
    requires 0x1d8 <= i < 0x1e7
    ensures TableByte(i) == MEMORY_ONE[i - 0x1d8]
  {
  }

  /** The entries of the list of two-byte opcodes: opcode, prefixes, registers. */
  function PrefixesFor(op: byte): byte
  {
    if op == 0x12 || op == 0x16 || op == 0xe7 then 0x08
    else if op == 0x13 || op == 0x17 || op == 0x2b then 0x09
    else if op == 0xc3 then 0x01
    else if op == 0xf0 then 0x02
    else 0xff
  }

  function RegistersFor(op: byte): byte
  {
    if op == 0x01 then 0x0e else if op == 0xae then 0x07 else if op == 0xc7 then 0xbf else 0
  }

  function ListedOpcode(k: int): byte
  {
    if k < 7 then
      if k < 4 then (if k < 2 then (if k < 1 then 0x01 else 0x12) else if k < 3 then 0x13 else 0x16)
      else if k < 6 then (if k < 5 then 0x17 else 0x2b) else 0xae
    else
      if k < 11 then (if k < 9 then (if k < 8 then 0xb2 else 0xb4) else if k < 10 then 0xb5 else 0xc3)
      else if k < 13 then (if k < 12 then 0xc7 else 0xe7) else 0xf0
  }

  lemma MemoryTwo(k: int)
    requires 0 <= k < 14
    ensures var i, op := 0x1e7 + 3 * k, ListedOpcode(k);
            TableByte(i) == op && TableByte(i + 1) == PrefixesFor(op) && TableByte(i + 2) == RegistersFor(op)
  {
  }

  lemma LockStep(i: int, end: int, op: byte, reg: int)
    requires 0 <= i && end < TABLE_SIZE
    ensures LockListed(Hde64Table(), i, end, op, reg)
         == (i < end && if TableByte(i) == op then !Bit(TableByte(i + 1), 7 - reg)
                        else LockListed(Hde64Table(), i + 2, end, op, reg))
  {
    hide TableByte, Hde64Table, At;
    AtTable(i);
    AtTable(i + 1);
  }

  lemma RegisterBits(reg: int)
    requires 0 <= reg < 8
    ensures !Bit(0, 7 - reg) && (Bit(0x01, 7 - reg) <==> reg == 7)
    ensures !Bit(0xcf, 7 - reg) <==> reg == 2 || reg == 3
    ensures !Bit(0x3f, 7 - reg) <==> reg <= 1
    ensures !Bit(0xf8, 7 - reg) <==> reg >= 5
    ensures !Bit(0xbf, 7 - reg) <==> reg == 1
    ensures !Bit(0xeb, 7 - reg) <==> reg == 3 || reg == 5
    ensures !Bit(0x0e, 7 - reg) <==> reg !in {4, 5, 6}
    ensures !Bit(0x07, 7 - reg) <==> reg < 5
  {
  }

  lemma LockEntry(i: int, op: byte, reg: int)
    requires 0x1ae <= i < 0x1c6 && i % 2 == 0
    ensures LockListed(Hde64Table(), i, 0x1c6, op, reg)
         == if LOCK_ONE[i - 0x1ae] == op then !Bit(LOCK_ONE[i - 0x1ad], 7 - reg)
            else LockListed(Hde64Table(), i + 2, 0x1c6, op, reg)
  {
    hide TableByte, Hde64Table, LockListed, Bit, LOCK_ONE;
    LockStep(i, 0x1c6, op, reg);
    LockOne(i);
    LockOne(i + 1);
  }

  lemma LockOneByte(op: byte, reg: int)
    requires 0 <= reg < 8
    ensures LockListed(Hde64Table(), 0x1ae, 0x1c6, op - op % 2, reg) <==> Lockable(op, false, reg)
  {
    hide TableByte, Hde64Table, LockListed, Bit;
    var even := op - op % 2;
    LockStep(0x1c6, 0x1c6, even, reg);
    LockEntry(0x1c4, even, reg);
    LockEntry(0x1c2, even, reg);
    LockEntry(0x1c0, even, reg);
    LockEntry(0x1be, even, reg);
    LockEntry(0x1bc, even, reg);
    LockEntry(0x1ba, even, reg);
    LockEntry(0x1b8, even, reg);
    LockEntry(0x1b6, even, reg);
    LockEntry(0x1b4, even, reg);
    LockEntry(0x1b2, even, reg);
    LockEntry(0x1b0, even, reg);
    LockEntry(0x1ae, even, reg);
    RegisterBits(reg);
  }

  lemma LockTwoBytes(op: byte, reg: int)
    requires 0 <= reg < 8
    ensures LockListed(Hde64Table(), 0x1c6, 0x1d8, op, reg) <==> Lockable(op, true, reg)
  {
    hide TableByte, Hde64Table, LockListed, Bit;
    forall i {:trigger LockListed(Hde64Table(), i, 0x1d8, op, reg)} | 0x1c6 <= i <= 0x1d8
      ensures LockListed(Hde64Table(), i, 0x1d8, op, reg)
         == (i < 0x1d8 && if TableByte(i) == op then !Bit(TableByte(i + 1), 7 - reg)
                          else LockListed(Hde64Table(), i + 2, 0x1d8, op, reg))
    {
      LockStep(i, 0x1d8, op, reg);
    }
    forall i | 0x1c6 <= i < 0x1d8
      ensures TableByte(i) == LOCK_TWO[i - 0x1c6]
    {
      LockTwo(i);
    }
    RegisterBits(reg);
  }

  lemma MemoryStep(i: int, end: int, op: byte, pre: Prefixes, reg: int)
    requires 0 <= i && end <= TABLE_SIZE && (i < end ==> i + 3 <= end)
    ensures OnlyMemListed(Hde64Table(), i, end, op, pre, reg)
         == (i < end && if TableByte(i) == op then Meets(TableByte(i + 1), pre) && !Bit(TableByte(i + 2), 7 - reg)
                        else OnlyMemListed(Hde64Table(), i + 3, end, op, pre, reg))
  {
    hide TableByte, Hde64Table, At;
    AtTable(i);
    AtTable(i + 1);
    AtTable(i + 2);
  }

  predicate SomePrefix(pre: Prefixes)
  {
    pre.none || pre.f2 || pre.f3 || pre.lock || pre.p66 || pre.p67 || pre.seg != 0
  }

  lemma MaskMeets(pre: Prefixes)
    requires SomePrefix(pre)
    ensures Meets(0xff, pre)
    ensures Meets(0x08, pre) <==> pre.p66
    ensures Meets(0x09, pre) <==> pre.none || pre.p66
    ensures Meets(0x01, pre) <==> pre.none
    ensures Meets(0x02, pre) <==> pre.f2
  {
  }

  lemma MemoryOneByte(op: byte, pre: Prefixes, reg: int)
    requires 0 <= reg < 8 && SomePrefix(pre)
    ensures OnlyMemListed(Hde64Table(), 0x1d8, 0x1e7, op, pre, reg) <==> MemoryOnly(op, false, pre, reg)
  {
    hide TableByte, Hde64Table, OnlyMemListed, Bit, Meets;
    forall i {:trigger OnlyMemListed(Hde64Table(), i, 0x1e7, op, pre, reg)} | 0x1d8 <= i <= 0x1e7 && i % 3 == 1
      ensures OnlyMemListed(Hde64Table(), i, 0x1e7, op, pre, reg)
         == (i < 0x1e7 && if TableByte(i) == op then Meets(TableByte(i + 1), pre) && !Bit(TableByte(i + 2), 7 - reg)
                          else OnlyMemListed(Hde64Table(), i + 3, 0x1e7, op, pre, reg))
    {
      MemoryStep(i, 0x1e7, op, pre, reg);
    }
    forall i | 0x1d8 <= i < 0x1e7
      ensures TableByte(i) == MEMORY_ONE[i - 0x1d8]
    {
      MemoryOne(i);
    }
    RegisterBits(reg);
    MaskMeets(pre);
  }

  lemma MemoryEntry(k: int, op: byte, pre: Prefixes, reg: int)
    requires 0 <= k < 14 && 0 <= reg < 8 && SomePrefix(pre)
    ensures OnlyMemListed(Hde64Table(), 0x1e7 + 3 * k, 0x211, op, pre, reg)
         == if ListedOpcode(k) == op then MemoryOnly(op, true, pre, reg)
            else OnlyMemListed(Hde64Table(), 0x1ea + 3 * k, 0x211, op, pre, reg)
  {
    hide TableByte, Hde64Table, OnlyMemListed, Bit, Meets, MemoryOnly, SomePrefix, PrefixesFor, RegistersFor, ListedOpcode;
    MemoryStep(0x1e7 + 3 * k, 0x211, op, pre, reg);
    MemoryTwo(k);
    if ListedOpcode(k) == op {
      ListedMeans(k, op, pre, reg);
    }
  }

  lemma ListedMeans(k: int, op: byte, pre: Prefixes, reg: int)
    requires 0 <= reg < 8 && SomePrefix(pre) && ListedOpcode(k) == op
    ensures MemoryOnly(op, true, pre, reg) <==> Meets(PrefixesFor(op), pre) && !Bit(RegistersFor(op), 7 - reg)
  {
    hide Bit, Meets, SomePrefix;
    RegisterBits(reg);
    MaskMeets(pre);
  }

  lemma NothingElse(op: byte, pre: Prefixes, reg: int)
    requires MemoryOnly(op, true, pre, reg)
    ensures exists k :: 0 <= k < 14 && ListedOpcode(k) == op
  {
    assert ListedOpcode(0) == 0x01 && ListedOpcode(1) == 0x12 && ListedOpcode(2) == 0x13 && ListedOpcode(3) == 0x16;
    assert ListedOpcode(4) == 0x17 && ListedOpcode(5) == 0x2b && ListedOpcode(6) == 0xae && ListedOpcode(7) == 0xb2;
    assert ListedOpcode(8) == 0xb4 && ListedOpcode(9) == 0xb5 && ListedOpcode(10) == 0xc3 && ListedOpcode(11) == 0xc7;
    assert ListedOpcode(12) == 0xe7 && ListedOpcode(13) == 0xf0;
  }

  lemma MemoryTwoBytes(op: byte, pre: Prefixes, reg: int)
    requires 0 <= reg < 8 && SomePrefix(pre)
    ensures OnlyMemListed(Hde64Table(), 0x1e7, 0x211, op, pre, reg) <==> MemoryOnly(op, true, pre, reg)
  {
    hide TableByte, Hde64Table, OnlyMemListed, MemoryOnly, SomePrefix, PrefixesFor, RegistersFor, Bit, Meets;
    if MemoryOnly(op, true, pre, reg) {
      NothingElse(op, pre, reg);
    }
    MemoryStep(0x211, 0x211, op, pre, reg);
    MemoryEntry(13, op, pre, reg);
    MemoryEntry(12, op, pre, reg);
    MemoryEntry(11, op, pre, reg);
    MemoryEntry(10, op, pre, reg);
    MemoryEntry(9, op, pre, reg);
    MemoryEntry(8, op, pre, reg);
    MemoryEntry(7, op, pre, reg);
    MemoryEntry(6, op, pre, reg);
    MemoryEntry(5, op, pre, reg);
    MemoryEntry(4, op, pre, reg);
    MemoryEntry(3, op, pre, reg);
    MemoryEntry(2, op, pre, reg);
    MemoryEntry(1, op, pre, reg);
    MemoryEntry(0, op, pre, reg);
  }

  // ---------------------------------------------------------------------
  // Whole instructions
  // ---------------------------------------------------------------------

  function MapOf(op: byte, twoBytes: bool): byte
  {
    if twoBytes then TwoByteOpcodeMap(op) else OneByteOpcode(op)
  }

  function LastOpcode(d: Hde): byte
  {
    if d.opcode == 0x0f then d.opcode2 else d.opcode
  }

  lemma AttributeOf(h: Head)
    requires !h.twoRex && (if h.opcode == 0x0f then h.op == h.opcode2 else h.op == h.opcode && h.opcode2 == 0)
    ensures var two := h.opcode == 0x0f;
            var at := Attribute(Hde64Table(), h);
            && (at.bad <==> MapOf(h.op, two) == 0xff || (two && Rejects(h.op, h.pref)))
            && (MapOf(h.op, two) != 0xff ==>
                  at.form.modrm == (MapOf(h.op, two) % 2 == 1) && Cflags(Hde64Table(), h.op, two) == MapOf(h.op, two))
  {
    hide TableByte, Hde64Table, At, Lookup, OneByteOpcode, TwoByteOpcodeMap, Rejects, Meets;
    FollowsMap(h.op, h.opcode == 0x0f);
    ForbiddenIff(h.op, h.pref);
    NothingRejected(h.pref);
    if MapOf(h.op, h.opcode == 0x0f) != 0xff {
      CflagsModRm(h);
    }
  }

  lemma NothingRejected(pre: Prefixes)
    ensures !Rejects(0, pre)
  {
  }

  lemma CflagsModRm(h: Head)
    requires !h.twoRex && Lookup(Hde64Table(), OpcodeBase(h.opcode), h.op) != 0xff
    ensures Attribute(Hde64Table(), h).form.modrm <==> Cflags(Hde64Table(), h.op, h.opcode == 0x0f) % 2 == 1
  {
    hide TableByte, Hde64Table, At, Meets;
  }

  lemma MaskOf(h: Head)
    requires !h.twoRex && (if h.opcode == 0x0f then h.op == h.opcode2 else h.op == h.opcode && h.opcode2 == 0)
    ensures Masks(Attribute(Hde64Table(), h).mask, h.op, h.opcode == 0x0f)
  {
    hide TableByte, Hde64Table, At, Masks, Meets, Rejects;
    var i, j := h.op / 4, h.op % 4;
    var base: int := OpcodeBase(h.opcode);
    LookupIs(base, h.op);
    AtTable(base + Lookup(Hde64Table(), base, h.op) - 0x80 + 1);
    if base == 0 {
      if i < 32 { OneByteGroupsFrom00(h.op, i, j); } else if i < 48 { OneByteGroupsFrom80(h.op, i, j); }
      else { OneByteGroupsFromC0(h.op, i, j); }
    } else {
      if i < 16 { TwoByteGroupsFrom00(h.op, i, j); } else if i < 32 { TwoByteGroupsFrom40(h.op, i, j); }
      else if i < 48 { TwoByteGroupsFrom80(h.op, i, j); } else { TwoByteGroupsFromC0(h.op, i, j); }
    }
  }

  /** The attributes of an instruction without an opcode error. */
  lemma DecodesByMap(m: Mem, a: int)
    requires Legible(Hde64Table(), m, a)
    ensures var d := Decode(Hde64Table(), m, a);
            CflagsOf(Hde64Table(), d) == MapOf(LastOpcode(d), d.opcode == 0x0f) != 0xff
  {
    hide Decode, Hde64Table, MapOf, Cflags, Attribute, ReadOperand, ImmediateWidths, ReadImmediate, Assemble;
    var h, at, o, w := ParsedAs(Hde64Table(), m, a);
    AttributeOf(h);
  }

  /** Which opcodes, prefixes and forms the decoder calls undefined, whatever else is wrong. */
  lemma OpcodeErrorIff(m: Mem, a: int)
    requires CountPrefixes(m, a, a + 16) < 16
    ensures var d, p, q := Decode(Hde64Table(), m, a), RexAt(m, a), OpcodeAt(m, a);
            var two := m(q) == 0x0f;
            var op, modrm := if two then m(q + 1) else m(q), m(BehindOpcode(m, a));
            d.flags.badOpcode <==>
              || (q > p && 0x40 <= m(q) < 0x50)
              || MapOf(op, two) == 0xff
              || (two && Rejects(op, d.pre))
              || (MapOf(op, two) % 2 == 1
                  && (NoMember(op, two, modrm / 8 % 8) || (!two && 0xd9 <= op <= 0xdf && NoFpu(op, modrm))))
  {
    hide ScanPrefixes, Attribute, BadLock, BadOperand, CountPrefixes, Hde64Table, MapOf, NoMember, NoFpu, Rejects, ReadImmediate,
         ImmediateWidths, Load, PlainDispSize, Masks, BadFpu, Cflags;
    var t := Hde64Table();
    PrefixCount(m, a, a, NO_PREFIX);
    var s := ScanPrefixes(m, a, a, NO_PREFIX);
    var h := ReadHead(m, a, s);
    if !h.twoRex {
      HeadBytes(m, a);
      AttributeOf(h);
      var modrm := m(BehindOpcode(m, a));
      MaskOf(h);
      MaskAt(Attribute(t, h).mask, h.op, h.opcode == 0x0f, Reg(modrm));
      if IsFpu(h) {
        FpuIff(h, modrm);
      }
    } else {
      BadStays(m, a);
    }
  }

  lemma MaskAt(mask: byte, op: byte, twoBytes: bool, reg: int)
    requires Masks(mask, op, twoBytes) && 0 <= reg < 8
    ensures mask != 0 && Bit(mask, 7 - reg) <==> NoMember(op, twoBytes, reg)
  {
    hide Bit, NoMember;
  }

  lemma BadStays(m: Mem, a: int)
    requires ReadHead(m, a, ScanPrefixes(m, a, a, NO_PREFIX)).twoRex
    ensures Decode(Hde64Table(), m, a).flags.badOpcode
  {
    hide ScanPrefixes, ReadHead, BadLock, BadOperand, ImmediateWidths, ReadImmediate, BadModRmOpcode, Load, Hde64Table, Lookup, At;
  }

  lemma {:induction false} ScanNotEmpty(m: Mem, a: int, p: int, pre: Prefixes)
    requires a <= p < a + 16 && SomePrefix(pre)
    ensures SomePrefix(ScanPrefixes(m, a, p, pre).pre)
    decreases a + 16 - p
  {
    if IsPrefix(m(p)) && p < a + 15 {
      ScanNotEmpty(m, a, p + 1, AddPrefix(pre, m(p)));
    }
  }

  /** The operands that an instruction does not have; two: a two-byte opcode other than 0F 00. */
  predicate NoOperand(op: byte, two: bool, pre: Prefixes, modrm: byte)
  {
    var reg := modrm / 8 % 8;
    if two && op in {0x20, 0x22} then reg !in {0, 2, 3, 4}
    else if two && op in {0x21, 0x23} then reg in {4, 5}
    else if !two && op == 0x8c then reg > 5
    else if !two && op == 0x8e then reg in {1, 6, 7}
    else if modrm >= 0xc0 then MemoryOnly(op, two, pre, reg)
    else two && ((op in {0x50, 0xd7, 0xf7} && (pre.none || pre.p66)) || (op == 0xd6 && (pre.f2 || pre.f3)) || op == 0xc5)
  }

  lemma OperandErrorOf(h: Head, modrm: byte)
    requires SomePrefix(h.pref) && (if h.opcode == 0x0f then h.op == h.opcode2 else h.op == h.opcode && h.opcode2 == 0)
    ensures BadOperand(Hde64Table(), h, modrm) <==> NoOperand(h.op, h.opcode2 != 0, h.pref, modrm)
  {
    hide Hde64Table, OnlyMemListed, MemoryOnly;
    MemoryOneByte(h.op, h.pref, Reg(modrm));
    MemoryTwoBytes(h.op, h.pref, Reg(modrm));
  }

  lemma LockErrorOf(h: Head, modrm: byte)
    requires if h.opcode == 0x0f then h.op == h.opcode2 else h.op == h.opcode && h.opcode2 == 0
    ensures BadLock(Hde64Table(), h, modrm)
            <==> h.pref.lock && !(modrm < 0xc0 && Lockable(h.op, h.opcode2 != 0, modrm / 8 % 8))
  {
    hide Hde64Table, LockListed, Lockable;
    LockOneByte(h.op, Reg(modrm));
    LockTwoBytes(h.op, Reg(modrm));
  }

  /** Which uses of LOCK and which operands the decoder calls wrong, in an instruction that is otherwise defined. */
  lemma OtherErrorsIff(m: Mem, a: int)
    requires Legible(Hde64Table(), m, a)
    ensures var d := Decode(Hde64Table(), m, a);
            var op, two := LastOpcode(d), d.opcode2 != 0;
            && (d.flags.badLock <==> d.pre.lock && !(d.flags.modrm && d.modrm < 0xc0 && Lockable(op, two, d.modrm / 8 % 8)))
            && (d.flags.badOperand <==> d.flags.modrm && NoOperand(op, two, d.pre, d.modrm))
  {
    hide Decode, Hde64Table, MapOf, Cflags, Attribute, BadOperand, BadLock, BadModRmOpcode, Lockable, NoOperand, SomePrefix,
         ImmediateWidths, ReadImmediate, PlainDispSize, Load, BehindOpcode, OpcodeAt, RexAt;
    var h, at, o, w := ParsedAs(Hde64Table(), m, a);
    AttributeOf(h);
    ReportedNotEmpty(m, a);
    MoffsHaveNoModRm(h.op);
    if at.form.modrm {
      OperandErrorOf(h, o.modrm);
      LockErrorOf(h, o.modrm);
    }
  }

  lemma MoffsHaveNoModRm(op: byte)
    ensures 0xa0 <= op <= 0xa3 ==> MapOf(op, false) == 0x10
  {
  }

  lemma ReportedNotEmpty(m: Mem, a: int)
    ensures SomePrefix(Decode(Hde64Table(), m, a).pre)
  {
    hide ScanPrefixes, ReadHead, Attribute, ReadOperand, ImmediateWidths, ReadImmediate, Hde64Table;
    ScanNotEmpty(m, a, a, NO_PREFIX);
  }

  lemma TestMaps()
    ensures MapOf(0xf6, true) == 0x01 && MapOf(0xf7, true) == 0x01
  {
  }

  /** The decoder looks for TEST with an immediate, F6 and F7 with /0 or /1, at the last opcode byte, and so takes an
      immediate also behind 0F F6 and 0F F7, which have none: exactly where their register field is 0 or 1. */
  lemma TestBehind0F(m: Mem, a: int)
    requires Legible(Hde64Table(), m, a)
    requires var d := Decode(Hde64Table(), m, a); d.opcode == 0x0f && (d.opcode2 == 0xf6 || d.opcode2 == 0xf7)
    ensures var d := Decode(Hde64Table(), m, a);
            d.flags.ImmField() == if d.modrm / 8 % 8 > 1 then 0 else if d.opcode2 == 0xf6 then 1 else if d.pre.p66 then 2 else 4
  {
    hide Decode, Hde64Table, MapOf, Cflags;
    TestMaps();
    DecodesByMap(m, a);
    ReportedOperand(Hde64Table(), m, a);
    ReportedImmediate(Hde64Table(), m, a);
  }
}
