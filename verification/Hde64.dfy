/** The table-driven x86-64 length decoder, src/hde/hde64.c.

    `Decode` says what the decoder computes, one function a phase; `Disasm` is the decoder itself, with its
    moving pointer and its table scans.  The table is a parameter: what is proved here holds of every table
    that meets the stated condition, and Table64.dfy shows that the shipped one does. */
module Hde64 {
  import opened Words

  type Table = seq<byte>

  const DELTA_OPCODES: int := 0x4a
  const DELTA_FPU_REG: int := 0xfd
  const DELTA_FPU_MODRM: int := 0x104
  const DELTA_PREFIXES: int := 0x13c
  const DELTA_OP_LOCK_OK: int := 0x1ae
  const DELTA_OP2_LOCK_OK: int := 0x1c6
  const DELTA_OP_ONLY_MEM: int := 0x1d8
  const DELTA_OP2_ONLY_MEM: int := 0x1e7
  const TABLE_SIZE: int := 0x211

  function At(t: Table, i: int): byte
  {
    if 0 <= i < |t| then t[i] else 0
  }

  // ---------------------------------------------------------------------
  // Results
  // ---------------------------------------------------------------------

  /** The prefix set `pref`, together with the bytes hs->p_rep and hs->p_seg.  `none` is PRE_NONE. */
  datatype Prefixes = Prefixes(rep: byte, seg: byte, f2: bool, f3: bool, lock: bool, p66: bool, p67: bool, none: bool)

  const NO_PREFIX := Prefixes(0, 0, false, false, false, false, false, true)

  /** hs->flags without the prefix bits; an error flag F_ERROR_x is `badX`. */
  datatype Flags = Flags(modrm: bool, sib: bool,
                         imm8: bool, imm16: bool, imm32: bool, imm64: bool,
                         disp8: bool, disp16: bool, disp32: bool, relative: bool,
                         badOpcode: bool, badLength: bool, badLock: bool, badOperand: bool)
  {
    /** F_ERROR accompanies every specific error flag. */
    predicate Failed() {
      badOpcode || badLength || badLock || badOperand
    }

    /** (flags & 0x3C) >> 2. */
    function ImmField(): int {
      (if imm8 then 1 else 0) + (if imm16 then 2 else 0) + (if imm32 then 4 else 0) + (if imm64 then 8 else 0)
    }

    function DispBytes(): int {
      (if disp8 then 1 else 0) + (if disp16 then 2 else 0) + (if disp32 then 4 else 0)
    }
  }

  /** The union hs->imm: bytes 0 and 1, bytes 2-3 and bytes 4-7. */
  datatype Union = Union(b0: byte, b1: byte, w1: int, d1: int)
  {
    function Imm8(): int { b0 }

    function Imm32(): int { (b0 as int) + 256 * b1 + 65536 * w1 }
  }

  /** hde64s.  `rex` is the REX byte, 0 without one; `disp` is unsigned. */
  datatype Hde = Hde(len: int, pre: Prefixes, rex: byte, opcode: byte, opcode2: byte,
                     modrm: byte, sib: byte, disp: int, imm: Union, flags: Flags)
  {
    predicate Failed() {
      flags.Failed()
    }
  }

  function Mod(modrm: byte): int { modrm / 64 }

  function Reg(modrm: byte): int { modrm / 8 % 8 }

  function Rm(modrm: byte): int { modrm % 8 }

  // ---------------------------------------------------------------------
  // Prefixes
  // ---------------------------------------------------------------------

  predicate IsPrefix(c: byte)
  {
    c == 0xf3 || c == 0xf2 || c == 0xf0 || IsSegment(c) || c == 0x66 || c == 0x67
  }

  predicate IsSegment(c: byte)
  {
    c == 0x26 || c == 0x2e || c == 0x36 || c == 0x3e || c == 0x64 || c == 0x65
  }

  function AddPrefix(p: Prefixes, c: byte): Prefixes
    requires IsPrefix(c)
  {
    var q := p.(none := false);
    if c == 0xf3 then q.(rep := c, f3 := true)
    else if c == 0xf2 then q.(rep := c, f2 := true)
    else if c == 0xf0 then q.(lock := true)
    else if c == 0x66 then q.(p66 := true)
    else if c == 0x67 then q.(p67 := true)
    else q.(seg := c)
  }

  /** mask & pref. */
  predicate Meets(mask: byte, p: Prefixes)
  {
    || (Bit(mask, 0) && p.none) || (Bit(mask, 1) && p.f2) || (Bit(mask, 2) && p.f3) || (Bit(mask, 3) && p.p66)
    || (Bit(mask, 4) && p.p67) || (Bit(mask, 5) && p.lock) || (Bit(mask, 6) && p.seg != 0)
  }

  /** `pos` bytes have been read, the last of them being the first that is no prefix (or the sixteenth). */
  datatype Scan = Scan(pre: Prefixes, pos: int)

  function ScanPrefixes(m: Mem, a: int, p: int, pre: Prefixes): (s: Scan)
    requires a <= p < a + 16
    ensures p - a < s.pos <= 16
    decreases a + 16 - p
  {
    var c := m(p);
    if !IsPrefix(c) then Scan(pre, p - a + 1)
    else if p == a + 15 then Scan(AddPrefix(pre, c), 16)
    else ScanPrefixes(m, a, p + 1, AddPrefix(pre, c))
  }

  // ---------------------------------------------------------------------
  // REX and opcode
  // ---------------------------------------------------------------------

  /** `op` is the local variable `opcode`; `pref` the prefix set as changed for A0-A3; `twoRex` the jump to
      error_opcode after a second REX byte. */
  datatype Head = Head(pos: int, rex: byte, op64: bool, opcode: byte, opcode2: byte, op: byte, twoRex: bool, pref: Prefixes)

  function ReadHead(m: Mem, a: int, s: Scan): (h: Head)
    requires s.pos >= 1
    ensures s.pos <= h.pos <= s.pos + 2
  {
    var c := m(a + s.pos - 1);
    if c / 16 == 4 then
      var next := m(a + s.pos);
      if next / 16 == 4 then
        Head(s.pos + 1, c, false, 0, 0, next, true, s.pre)
      else
        ReadOpcode(m, a, s.pos + 1, next, c, Bit(c, 3) && next / 8 == 0x17, s.pre)
    else
      ReadOpcode(m, a, s.pos, c, 0, false, s.pre)
  }

  function ReadOpcode(m: Mem, a: int, pos: int, c: byte, rex: byte, op64: bool, pref: Prefixes): (h: Head)
    ensures h.pos == pos + (if h.opcode == 0x0f then 1 else 0)
    ensures !h.twoRex && h.rex == rex && h.opcode == c
  {
    if c == 0x0f then
      var d := m(a + pos);
      Head(pos + 1, rex, op64, c, d, d, false, pref)
    else if 0xa0 <= c <= 0xa3 then
      Head(pos, rex, true, c, 0, c, false, pref.(p66 := pref.p67))
    else
      Head(pos, rex, op64, c, 0, c, false, pref)
  }

  // ---------------------------------------------------------------------
  // Attributes
  // ---------------------------------------------------------------------

  /** The operand attributes C_MODRM .. C_REL32 of an opcode. */
  datatype Form = Form(modrm: bool, imm8: bool, imm16: bool, immP66: bool, rel8: bool, rel32: bool)

  function FormOf(cflags: byte): Form
  {
    Form(Bit(cflags, 0), Bit(cflags, 1), Bit(cflags, 2), Bit(cflags, 4), Bit(cflags, 5), Bit(cflags, 6))
  }

  datatype Attributes = Attributes(form: Form, mask: byte, bad: bool)

  function Lookup(t: Table, base: int, op: byte): byte
  {
    At(t, base + At(t, base + op / 4) + op % 4)
  }

  function OpcodeBase(opcode: byte): int
  {
    if opcode == 0x0f then DELTA_OPCODES else 0
  }

  function Attribute(t: Table, h: Head): Attributes
  {
    var base := OpcodeBase(h.opcode);
    var raw := Lookup(t, base, h.op);
    var bad := h.twoRex || raw == 0xff;
    var cflags: byte := if !bad then raw else if h.op == 0x24 || h.op == 0x26 then 1 else 0;
    var badPrefix := h.opcode2 != 0 && Meets(Lookup(t, DELTA_PREFIXES, h.op), h.pref);
    if Bit(cflags, 7) then
      Attributes(FormOf(At(t, base + cflags % 128)), At(t, base + cflags % 128 + 1), bad || badPrefix)
    else
      Attributes(FormOf(cflags), 0, bad || badPrefix)
  }

  // ---------------------------------------------------------------------
  // ModR/M checks
  // ---------------------------------------------------------------------

  /** The scan of an (opcode, registers) list for an opcode that accepts LOCK. */
  predicate LockListed(t: Table, i: int, end: int, op: byte, reg: int)
    decreases |t| + end - i
  {
    i < end && if At(t, i) == op then !Bit(At(t, i + 1), 7 - reg) else LockListed(t, i + 2, end, op, reg)
  }

  predicate LockAccepted(t: Table, h: Head, reg: int)
  {
    if h.opcode2 != 0 then LockListed(t, DELTA_OP2_LOCK_OK, DELTA_OP_ONLY_MEM, h.op, reg)
    else LockListed(t, DELTA_OP_LOCK_OK, DELTA_OP2_LOCK_OK, h.op - h.op % 2, reg)
  }

  /** The scan of an (opcode, prefixes, registers) list for an opcode that needs a memory operand. */
  predicate OnlyMemListed(t: Table, i: int, end: int, op: byte, pref: Prefixes, reg: int)
    decreases |t| + end - i
  {
    i < end &&
    if At(t, i) == op then Meets(At(t, i + 1), pref) && !Bit(At(t, i + 2), 7 - reg)
    else OnlyMemListed(t, i + 3, end, op, pref, reg)
  }

  predicate OnlyMem(t: Table, h: Head, reg: int)
  {
    if h.opcode2 != 0 then OnlyMemListed(t, DELTA_OP2_ONLY_MEM, TABLE_SIZE, h.op, h.pref, reg)
    else OnlyMemListed(t, DELTA_OP_ONLY_MEM, DELTA_OP2_ONLY_MEM, h.op, h.pref, reg)
  }

  predicate IsFpu(h: Head)
  {
    h.opcode2 == 0 && 0xd9 <= h.op <= 0xdf
  }

  predicate BadFpu(t: Table, h: Head, modrm: byte)
  {
    if Mod(modrm) == 3 then Bit(At(t, DELTA_FPU_MODRM + (h.op - 0xd9) * 8 + Reg(modrm)), 7 - Rm(modrm))
    else Bit(At(t, DELTA_FPU_REG + (h.op - 0xd9)), 7 - Reg(modrm))
  }

  /** MOV to and from control and debug registers: the operand is a register whatever mod says. */
  predicate MovSystem(h: Head)
  {
    h.opcode2 != 0 && 0x20 <= h.op <= 0x23
  }

  predicate BadOperand(t: Table, h: Head, modrm: byte)
  {
    var reg := Reg(modrm);
    if MovSystem(h) then
      if h.op % 2 == 0 then reg > 4 || reg == 1 else reg == 4 || reg == 5
    else if h.opcode2 == 0 && h.op == 0x8c then reg > 5
    else if h.opcode2 == 0 && h.op == 0x8e then reg == 1 || reg > 5
    else if Mod(modrm) == 3 then OnlyMem(t, h, reg)
    else if h.opcode2 == 0 then false
    else if h.op == 0x50 || h.op == 0xd7 || h.op == 0xf7 then h.pref.none || h.pref.p66
    else if h.op == 0xd6 then h.pref.f2 || h.pref.f3
    else h.op == 0xc5
  }

  predicate BadModRmOpcode(t: Table, h: Head, mask: byte, modrm: byte)
  {
    (mask != 0 && Bit(mask, 7 - Reg(modrm))) || (IsFpu(h) && BadFpu(t, h, modrm))
  }

  predicate BadLock(t: Table, h: Head, modrm: byte)
  {
    h.pref.lock && (Mod(modrm) == 3 || !LockAccepted(t, h, Reg(modrm)))
  }

  /** A little-endian field of 0, 1, 2 or 4 bytes. */
  function Load(m: Mem, p: int, size: int): int
  {
    match size
    case 1 => m(p)
    case 2 => Read16(m, p)
    case 4 => Read32(m, p)
    case _ => 0
  }

  // ---------------------------------------------------------------------
  // ModR/M, SIB and displacement
  // ---------------------------------------------------------------------

  datatype Operand = Operand(pos: int, modrm: byte, sib: byte, hasSib: bool, dispSize: int, disp: int, form: Form,
                             badOpcode: bool, badLock: bool, badOperand: bool)

  /** The test operands of F6 and F7, /0 and /1. */
  function TestForm(f: Form, op: byte, reg: int): Form
  {
    if reg <= 1 && op == 0xf6 then f.(imm8 := true)
    else if reg <= 1 && op == 0xf7 then f.(immP66 := true)
    else f
  }

  function PlainDispSize(mod: int, rm: int, p67: bool): int
  {
    if mod == 0 then (if p67 then (if rm == 6 then 2 else 0) else if rm == 5 then 4 else 0)
    else if mod == 1 then 1
    else if mod == 2 then (if p67 then 2 else 4)
    else 0
  }

  function ReadOperand(t: Table, m: Mem, a: int, h: Head, at: Attributes): (o: Operand)
    ensures h.pos <= o.pos <= h.pos + 6
    ensures o.dispSize == 0 || o.dispSize == 1 || o.dispSize == 2 || o.dispSize == 4
  {
    if at.form.modrm then
      var modrm := m(a + h.pos);
      var mod := if MovSystem(h) then 3 else Mod(modrm);
      var hasSib := mod != 3 && Rm(modrm) == 4;
      var sib: byte := if hasSib then m(a + h.pos + 1) else 0;
      var dispSize := if hasSib && sib % 8 == 5 && mod % 2 == 0 then 4 else PlainDispSize(mod, Rm(modrm), h.pref.p67);
      var dispPos := h.pos + (if hasSib then 2 else 1);
      Operand(dispPos + dispSize, modrm, sib, hasSib, dispSize, Load(m, a + dispPos, dispSize),
              TestForm(at.form, h.op, Reg(modrm)),
              at.bad || BadModRmOpcode(t, h, at.mask, modrm), BadLock(t, h, modrm), BadOperand(t, h, modrm))
    else
      Operand(h.pos, 0, 0, false, 0, 0, at.form, at.bad, h.pref.lock, false)
  }

  // ---------------------------------------------------------------------
  // Immediates
  // ---------------------------------------------------------------------

  /** The bytes taken, in code order: a 4- or 8-byte immediate, a 2-byte one, a 1-byte one, and the
      displacement of a relative branch. */
  datatype Widths = Widths(wide: int, word: bool, octet: bool, rel: int)
  {
    function Size(): int {
      wide + (if word then 2 else 0) + (if octet then 1 else 0) + rel
    }
  }

  function ImmediateWidths(f: Form, op64: bool, data16: bool): (w: Widths)
    ensures 0 <= w.Size() <= 15
  {
    if f.immP66 && f.rel32 then
      Widths(0, false, false, if data16 then 2 else 4)
    else
      Widths(if !f.immP66 then 0 else if op64 then 8 else if data16 then 0 else 4,
             f.imm16 || (f.immP66 && !op64 && data16),
             f.imm8,
             if f.rel32 then 4 else if f.rel8 then 1 else 0)
  }

  /** hs->imm after storing a field of the given size into its low bytes. */
  function Store(u: Union, m: Mem, p: int, size: int): Union
  {
    match size
    case 1 => u.(b0 := m(p))
    case 2 => u.(b0 := m(p), b1 := m(p + 1))
    case 4 => u.(b0 := m(p), b1 := m(p + 1), w1 := Read16(m, p + 2))
    case 8 => Union(m(p), m(p + 1), Read16(m, p + 2), Read32(m, p + 4))
    case _ => u
  }

  function ReadImmediate(m: Mem, p: int, w: Widths): Union
  {
    var p1 := p + w.wide;
    var p2 := p1 + if w.word then 2 else 0;
    var p3 := p2 + if w.octet then 1 else 0;
    var u1 := Store(Union(0, 0, 0, 0), m, p, w.wide);
    var u2 := if w.word then Store(u1, m, p1, 2) else u1;
    var u3 := if w.octet then Store(u2, m, p2, 1) else u2;
    Store(u3, m, p3, w.rel)
  }

  // ---------------------------------------------------------------------
  // The whole instruction
  // ---------------------------------------------------------------------

  function Assemble(s: Scan, h: Head, o: Operand, w: Widths, imm: Union, hasModRm: bool): Hde
  {
    var len := o.pos + w.Size();
    Hde(if len > 15 then 15 else len, s.pre, h.rex, h.opcode, h.opcode2, o.modrm, o.sib, o.disp, imm,
        Flags(hasModRm, o.hasSib, w.octet || w.rel == 1, w.word || w.rel == 2, w.wide == 4 || w.rel == 4, w.wide == 8,
              o.dispSize == 1, o.dispSize == 2, o.dispSize == 4, w.rel != 0,
              o.badOpcode, len > 15, o.badLock, o.badOperand))
  }

  /** What hde64_disasm stores in *hs for the code at address a. */
  function Decode(t: Table, m: Mem, a: int): (d: Hde)
    ensures 1 <= d.len <= 15
  {
    var s := ScanPrefixes(m, a, a, NO_PREFIX);
    var h := ReadHead(m, a, s);
    var at := Attribute(t, h);
    var o := ReadOperand(t, m, a, h, at);
    var w := ImmediateWidths(o.form, h.op64, h.pref.p66);
    Assemble(s, h, o, w, ReadImmediate(m, a + o.pos, w), at.form.modrm)
  }
}
