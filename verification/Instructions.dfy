/** The instruction templates of include/instructions.h, and what their bytes decode to. */
module Instructions {
  import opened Words
  import opened Hde64
  import opened Hde64Laws

  const JMP_REL_SIZE: int := 5
  const JMP_REL_SHORT_SIZE: int := 2

  function JmpRelShort(operand: byte): (bs: seq<byte>)
    ensures |bs| == JMP_REL_SHORT_SIZE
  {
    [0xEB, operand]
  }

  function JmpRel(operand: int): (bs: seq<byte>)
    ensures |bs| == JMP_REL_SIZE
  {
    [0xE9] + Bytes4(operand)
  }

  function JmpAbs(address: int): (bs: seq<byte>)
    ensures |bs| == 14
  {
    [0xFF, 0x25, 0x00, 0x00, 0x00, 0x00] + Bytes8(address)
  }

  function CallAbs(address: int): (bs: seq<byte>)
    ensures |bs| == 16
  {
    [0xFF, 0x15, 0x02, 0x00, 0x00, 0x00, 0xEB, 0x08] + Bytes8(address)
  }

  function JccAbs(opcode: byte, address: int): (bs: seq<byte>)
    ensures |bs| == 16
  {
    [opcode, 0x0E, 0xFF, 0x25, 0x00, 0x00, 0x00, 0x00] + Bytes8(address)
  }

  /** The bytes bs stand at address a. */
  ghost predicate Holds(m: Mem, a: int, bs: seq<byte>)
  {
    forall k :: 0 <= k < |bs| ==> m(a + k) == bs[k]
  }

  // ---------------------------------------------------------------------
  // Decoding the templates
  // ---------------------------------------------------------------------

  lemma HeadWithoutPrefix(m: Mem, a: int)
    requires !IsPrefix(m(a)) && m(a) / 16 != 4 && m(a) != 0x0f && !(0xa0 <= m(a) <= 0xa3)
    ensures ScanPrefixes(m, a, a, NO_PREFIX) == Scan(NO_PREFIX, 1)
    ensures ReadHead(m, a, Scan(NO_PREFIX, 1)) == Head(1, 0, false, m(a), 0, m(a), false, NO_PREFIX)
  {
  }

  lemma OperandOfGroup5(t: Table, m: Mem, a: int, disp: int)
    requires m(a + 1) == 0x25 || m(a + 1) == 0x15
    requires Read32(m, a + 2) == disp
    ensures var at := Attributes(Form(true, false, false, false, false, false), 1, false);
            ReadOperand(t, m, a, Head(1, 0, false, 0xFF, 0, 0xFF, false, NO_PREFIX), at)
            == Operand(6, m(a + 1), 0, false, 4, disp, at.form, false, false, false)
  {
    hide Read32;
  }

  lemma NoImmediate(f: Form)
    requires !f.imm8 && !f.imm16 && !f.immP66 && !f.rel8 && !f.rel32
    ensures ImmediateWidths(f, false, false) == Widths(0, false, false, 0)
  {
  }

  /** FF /r with a RIP-relative operand. */
  lemma DecodeGroup5(t: Table, m: Mem, a: int, disp: int)
    requires KnowsTemplates(t)
    requires m(a) == 0xFF && (m(a + 1) == 0x25 || m(a + 1) == 0x15) && Read32(m, a + 2) == disp
    ensures var d := Decode(t, m, a);
            && !d.Failed() && d.len == 6 && d.pre == NO_PREFIX && d.opcode == 0xFF && d.modrm == m(a + 1)
            && d.disp == disp && RipOperand(d) && !d.flags.relative && DispOffset(d) == 2
  {
    hide ScanPrefixes, ReadHead, Attribute, ReadOperand, ImmediateWidths, ReadImmediate, Decode, Read32;
    HeadWithoutPrefix(m, a);
    var s := Scan(NO_PREFIX, 1);
    var h := Head(1, 0, false, 0xFF, 0, 0xFF, false, NO_PREFIX);
    var at := Attributes(Form(true, false, false, false, false, false), 1, false);
    assert KnownAttributes(h.op, Attribute(t, h));
    var o := Operand(6, m(a + 1), 0, false, 4, disp, at.form, false, false, false);
    OperandOfGroup5(t, m, a, disp);
    var w := Widths(0, false, false, 0);
    NoImmediate(at.form);
    DecodeFrom(t, m, a, s, h, at, o, w);
  }

  /** EB rel8 and 7x rel8. */
  lemma DecodeShort(t: Table, m: Mem, a: int)
    requires KnowsTemplates(t)
    requires m(a) == 0xEB || m(a) / 16 == 7
    requires !IsPrefix(m(a))
    ensures var d := Decode(t, m, a);
            && !d.Failed() && d.len == 2 && d.pre == NO_PREFIX && d.opcode == m(a) && d.opcode2 == 0 && d.modrm == 0
            && d.imm.Imm8() == m(a + 1)
  {
    HeadWithoutPrefix(m, a);
    var h := Head(1, 0, false, m(a), 0, m(a), false, NO_PREFIX);
    var at := Attributes(Form(false, false, false, false, true, false), 0, false);
    assert KnownAttributes(h.op, Attribute(t, h));
    assert ReadOperand(t, m, a, h, at) == Operand(1, 0, 0, false, 0, 0, at.form, false, false, false);
    assert ImmediateWidths(at.form, false, false) == Widths(0, false, false, 1);
  }

  /** E9 rel32. */
  lemma DecodeJmpRel(t: Table, m: Mem, a: int)
    requires KnowsTemplates(t) && m(a) == 0xE9
    ensures var d := Decode(t, m, a);
            && !d.Failed() && d.len == 5 && d.pre == NO_PREFIX && d.opcode == 0xE9 && d.opcode2 == 0 && d.modrm == 0
            && d.imm.Imm32() == Read32(m, a + 1)
  {
    HeadWithoutPrefix(m, a);
    var h := Head(1, 0, false, 0xE9, 0, 0xE9, false, NO_PREFIX);
    var at := Attributes(Form(false, false, false, true, false, true), 0, false);
    assert KnownAttributes(h.op, Attribute(t, h));
    assert ReadOperand(t, m, a, h, at) == Operand(1, 0, 0, false, 0, 0, at.form, false, false, false);
    assert ImmediateWidths(at.form, false, false) == Widths(0, false, false, 4);
  }
}
