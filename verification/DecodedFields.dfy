/** What an error-free decode reports, field by field, in terms of the bytes of the code. */
module DecodedFields {
  import opened Words
  import opened Hde64
  import opened Hde64Laws

  // ---------------------------------------------------------------------
  // Prefixes
  // ---------------------------------------------------------------------

  predicate SegmentByte(c: byte)
  {
    c in {0x26, 0x2e, 0x36, 0x3e, 0x64, 0x65}
  }

  predicate PrefixByte(c: byte)
  {
    c in {0xf0, 0xf2, 0xf3, 0x66, 0x67} || SegmentByte(c)
  }

  /** c occurs among the bytes from p to q. */
  ghost predicate Occurs(m: Mem, p: int, q: int, c: byte)
  {
    exists x :: p <= x < q && m(x) == c
  }

  /** The bytes that are counted are the prefixes in front of the instruction. */
  lemma {:induction false} PrefixBytes(m: Mem, p: int, end: int)
    requires p <= end
    ensures var n := CountPrefixes(m, p, end);
            && (forall x {:trigger m(x)} :: p <= x < p + n ==> PrefixByte(m(x)))
            && (p + n < end ==> !PrefixByte(m(p + n)))
    decreases end - p
  {
    if p < end && IsPrefix(m(p)) {
      PrefixBytes(m, p + 1, end);
    }
  }

  lemma AddedRepeat(pre: Prefixes, c: byte)
    requires IsPrefix(c)
    ensures var r := AddPrefix(pre, c); r.f2 == (pre.f2 || c == 0xf2) && r.f3 == (pre.f3 || c == 0xf3) && !r.none
  {
  }

  lemma AddedSize(pre: Prefixes, c: byte)
    requires IsPrefix(c)
    ensures var r := AddPrefix(pre, c);
            r.lock == (pre.lock || c == 0xf0) && r.p66 == (pre.p66 || c == 0x66) && r.p67 == (pre.p67 || c == 0x67)
  {
  }

  /** What the prefixes r have over the prefixes pre is what the bytes from p to q add. */
  ghost predicate Adds(m: Mem, p: int, q: int, pre: Prefixes, r: Prefixes)
  {
    && (r.lock <==> pre.lock || Occurs(m, p, q, 0xf0))
    && (r.f2 <==> pre.f2 || Occurs(m, p, q, 0xf2))
    && (r.f3 <==> pre.f3 || Occurs(m, p, q, 0xf3))
    && (r.p66 <==> pre.p66 || Occurs(m, p, q, 0x66))
    && (r.p67 <==> pre.p67 || Occurs(m, p, q, 0x67))
    && (r.none <==> pre.none && q <= p)
  }

  lemma AddsNothing(m: Mem, p: int, pre: Prefixes)
    ensures Adds(m, p, p, pre, pre)
  {
  }

  lemma OccursStep(m: Mem, p: int, q: int, c: byte)
    requires p < q
    ensures Occurs(m, p, q, c) <==> m(p) == c || Occurs(m, p + 1, q, c)
  {
  }

  lemma AddsOne(m: Mem, p: int, q: int, pre: Prefixes, r: Prefixes)
    requires p < q && IsPrefix(m(p)) && Adds(m, p + 1, q, AddPrefix(pre, m(p)), r)
    ensures Adds(m, p, q, pre, r)
  {
    hide Occurs, AddPrefix, IsPrefix;
    AddedRepeat(pre, m(p));
    AddedSize(pre, m(p));
    OccursStep(m, p, q, 0xf0);
    OccursStep(m, p, q, 0xf2);
    OccursStep(m, p, q, 0xf3);
    OccursStep(m, p, q, 0x66);
    OccursStep(m, p, q, 0x67);
  }

  /** What the scan from p on adds to the prefixes seen before. */
  lemma {:induction false} Collected(m: Mem, a: int, p: int, pre: Prefixes)
    requires a <= p < a + 16
    ensures Adds(m, p, p + CountPrefixes(m, p, a + 16), pre, ScanPrefixes(m, a, p, pre).pre)
    decreases a + 16 - p
  {
    hide Adds, AddPrefix, IsPrefix;
    AddsNothing(m, p, pre);
    if IsPrefix(m(p)) {
      if p < a + 15 {
        Collected(m, a, p + 1, AddPrefix(pre, m(p)));
      } else {
        AddsNothing(m, p + 1, AddPrefix(pre, m(p)));
      }
      AddsOne(m, p, p + CountPrefixes(m, p, a + 16), pre, ScanPrefixes(m, a, p, pre).pre);
    }
  }

  /** Of several segment prefixes, and of F2 and F3, the last one is reported. */
  lemma {:induction false} LastCounts(m: Mem, a: int, p: int, pre: Prefixes, x: int)
    requires a <= p < a + 16
    ensures var r, q := ScanPrefixes(m, a, p, pre).pre, p + CountPrefixes(m, p, a + 16);
            && ((forall y {:trigger m(y)} :: p <= y < q ==> !SegmentByte(m(y))) ==> r.seg == pre.seg)
            && ((forall y {:trigger m(y)} :: p <= y < q ==> m(y) !in {0xf2, 0xf3}) ==> r.rep == pre.rep)
            && (p <= x < q ==>
                  && (SegmentByte(m(x)) && (forall y {:trigger m(y)} :: x < y < q ==> !SegmentByte(m(y))) ==> r.seg == m(x))
                  && (m(x) in {0xf2, 0xf3} && (forall y {:trigger m(y)} :: x < y < q ==> m(y) !in {0xf2, 0xf3}) ==> r.rep == m(x)))
    decreases a + 16 - p
  {
    if IsPrefix(m(p)) && p < a + 15 {
      LastCounts(m, a, p + 1, AddPrefix(pre, m(p)), x);
    }
  }

  /** The prefixes in front of the instruction, as the decoder reports them. */
  lemma ReportedPrefixes(t: Table, m: Mem, a: int)
    ensures var d, q := Decode(t, m, a), a + CountPrefixes(m, a, a + 16);
            && (forall x {:trigger m(x)} :: a <= x < q ==> PrefixByte(m(x)))
            && (q < a + 16 ==> !PrefixByte(m(q)))
            && (d.pre.lock <==> Occurs(m, a, q, 0xf0))
            && (d.pre.f2 <==> Occurs(m, a, q, 0xf2)) && (d.pre.f3 <==> Occurs(m, a, q, 0xf3))
            && (d.pre.p66 <==> Occurs(m, a, q, 0x66)) && (d.pre.p67 <==> Occurs(m, a, q, 0x67))
            && (d.pre.none <==> q == a)
            && (forall x {:trigger m(x)} :: a <= x < q && SegmentByte(m(x)) && (forall y :: x < y < q ==> !SegmentByte(m(y)))
                  ==> d.pre.seg == m(x))
            && ((forall x {:trigger m(x)} :: a <= x < q ==> !SegmentByte(m(x))) ==> d.pre.seg == 0)
  {
    hide ReadHead, Attribute, ReadOperand, ImmediateWidths, ReadImmediate, ScanPrefixes, CountPrefixes, PrefixByte, SegmentByte,
         Occurs;
    var q := a + CountPrefixes(m, a, a + 16);
    PrefixBytes(m, a, a + 16);
    Collected(m, a, a, NO_PREFIX);
    LastCounts(m, a, a, NO_PREFIX, a);
    forall x {:trigger m(x)} | a <= x < q && SegmentByte(m(x)) && (forall y :: x < y < q ==> !SegmentByte(m(y)))
      ensures ScanPrefixes(m, a, a, NO_PREFIX).pre.seg == m(x)
    {
      LastCounts(m, a, a, NO_PREFIX, x);
    }
  }

  // ---------------------------------------------------------------------
  // Opcode
  // ---------------------------------------------------------------------

  /** Where REX stands, or the opcode. */
  function RexAt(m: Mem, a: int): int
  {
    a + CountPrefixes(m, a, a + 16)
  }

  function OpcodeAt(m: Mem, a: int): int
  {
    RexAt(m, a) + if 0x40 <= m(RexAt(m, a)) < 0x50 then 1 else 0
  }

  function BehindOpcode(m: Mem, a: int): int
  {
    OpcodeAt(m, a) + if m(OpcodeAt(m, a)) == 0x0f then 2 else 1
  }

  /** The opcode is defined, and it was looked for behind the prefixes: there are less than sixteen of them, as in every
      instruction that is not too long. */
  predicate Legible(t: Table, m: Mem, a: int)
  {
    var d := Decode(t, m, a);
    !d.flags.badOpcode && (d.flags.badLength ==> CountPrefixes(m, a, a + 16) < 16)
  }

  lemma HeadInside(t: Table, m: Mem, a: int)
    requires Legible(t, m, a)
    ensures CountPrefixes(m, a, a + 16) < 16 && ScanPrefixes(m, a, a, NO_PREFIX).pos == CountPrefixes(m, a, a + 16) + 1
    ensures var h := ReadHead(m, a, ScanPrefixes(m, a, a, NO_PREFIX)); !h.twoRex && !Attribute(t, h).bad
  {
    hide ScanPrefixes, ReadHead, ImmediateWidths, ReadImmediate, CountPrefixes, Lookup, BadModRmOpcode, BadLock, BadOperand, Load;
    PrefixCount(m, a, a, NO_PREFIX);
  }

  lemma HeadBytes(m: Mem, a: int)
    requires ScanPrefixes(m, a, a, NO_PREFIX).pos == CountPrefixes(m, a, a + 16) + 1
    requires !ReadHead(m, a, ScanPrefixes(m, a, a, NO_PREFIX)).twoRex
    ensures var p, q := RexAt(m, a), OpcodeAt(m, a);
            var s := ScanPrefixes(m, a, a, NO_PREFIX);
            var h := ReadHead(m, a, s);
            && h.rex == (if 0x40 <= m(p) < 0x50 then m(p) else 0)
            && h.opcode == m(q) && h.opcode2 == (if m(q) == 0x0f then m(q + 1) else 0)
            && !(0x40 <= m(q) < 0x50)
            && a + h.pos == BehindOpcode(m, a) && h.op == (if m(q) == 0x0f then m(q + 1) else m(q))
            && h.op64 == (0xa0 <= h.opcode <= 0xa3 || (h.rex >= 0x48 && 0xb8 <= h.opcode <= 0xbf))
            && h.pref == (if 0xa0 <= h.opcode <= 0xa3 then s.pre.(p66 := s.pre.p67) else s.pre)
  {
    hide ScanPrefixes, CountPrefixes;
  }

  /** REX and the opcode. */
  lemma ReportedOpcode(t: Table, m: Mem, a: int)
    requires Legible(t, m, a)
    ensures var d, p, q := Decode(t, m, a), RexAt(m, a), OpcodeAt(m, a);
            && d.rex == (if 0x40 <= m(p) < 0x50 then m(p) else 0)
            && d.opcode == m(q) && d.opcode2 == (if m(q) == 0x0f then m(q + 1) else 0)
            && !(0x40 <= m(q) < 0x50)
  {
    hide ScanPrefixes, ReadHead, Attribute, ReadOperand, ImmediateWidths, ReadImmediate, CountPrefixes;
    HeadInside(t, m, a);
    HeadBytes(m, a);
  }

  // ---------------------------------------------------------------------
  // ModR/M, SIB, displacement
  // ---------------------------------------------------------------------

  /** The attribute byte of an opcode, cflags: C_MODRM 0x01, C_IMM8 0x02, C_IMM16 0x04, C_IMM_P66 0x10, C_REL8 0x20,
      C_REL32 0x40; the table's byte 0x80 + n stands for a group, whose attributes are at n. */
  function Cflags(t: Table, op: byte, twoBytes: bool): byte
  {
    var ht := if twoBytes then 0x4a else 0;
    var c := At(t, ht + At(t, ht + op / 4) + op % 4);
    if c < 0x80 then c else At(t, ht + c - 0x80)
  }

  function CflagsOf(t: Table, d: Hde): byte
  {
    if d.opcode == 0x0f then Cflags(t, d.opcode2, true) else Cflags(t, d.opcode, false)
  }

  lemma FormBits(t: Table, h: Head)
    requires !Attribute(t, h).bad
    ensures var c := Cflags(t, h.op, h.opcode == 0x0f);
            Attribute(t, h).form
            == Form(c % 2 == 1, c / 2 % 2 == 1, c / 4 % 2 == 1, c / 16 % 2 == 1, c / 32 % 2 == 1, c / 64 % 2 == 1)
  {
    hide At, Meets;
  }

  /** 0F 20 to 0F 23, MOV to and from control and debug registers: the operand is a register whatever mod says. */
  function ModOf(d: Hde): int
  {
    if d.opcode == 0x0f && 0x20 <= d.opcode2 <= 0x23 then 3 else d.modrm / 64
  }

  lemma ParsedAs(t: Table, m: Mem, a: int) returns (h: Head, at: Attributes, o: Operand, w: Widths)
    requires Legible(t, m, a)
    ensures var d, p, q := Decode(t, m, a), RexAt(m, a), OpcodeAt(m, a);
            && h.rex == d.rex && h.opcode == d.opcode && h.opcode2 == d.opcode2 && a + h.pos == BehindOpcode(m, a)
            && h.op == (if d.opcode == 0x0f then d.opcode2 else d.opcode) && (h.opcode != 0x0f ==> h.opcode2 == 0)
            && h.op64 == (0xa0 <= h.opcode <= 0xa3 || (h.rex >= 0x48 && 0xb8 <= h.opcode <= 0xbf))
            && h.pref == (if 0xa0 <= h.opcode <= 0xa3 then d.pre.(p66 := d.pre.p67) else d.pre)
            && at == Attribute(t, h) && !at.bad && !h.twoRex
            && o == ReadOperand(t, m, a, h, at) && w == ImmediateWidths(o.form, h.op64, h.pref.p66)
            && d == Assemble(Scan(d.pre, p + 1 - a), h, o, w, ReadImmediate(m, a + o.pos, w), at.form.modrm)
  {
    hide ScanPrefixes, ReadHead, Attribute, ReadOperand, ImmediateWidths, ReadImmediate, CountPrefixes;
    HeadInside(t, m, a);
    HeadBytes(m, a);
    var s := ScanPrefixes(m, a, a, NO_PREFIX);
    h := ReadHead(m, a, s);
    at := Attribute(t, h);
    o := ReadOperand(t, m, a, h, at);
    w := ImmediateWidths(o.form, h.op64, h.pref.p66);
  }

  /** ModR/M, SIB and displacement: which of them there are, how wide, and where they stand. */
  lemma ReportedOperand(t: Table, m: Mem, a: int)
    requires Legible(t, m, a)
    ensures var d, p := Decode(t, m, a), BehindOpcode(m, a);
            && (d.flags.modrm <==> CflagsOf(t, d) % 2 == 1)
            && (!d.flags.modrm ==> d.modrm == 0 && d.sib == 0 && d.disp == 0)
            && (!d.flags.modrm ==> !d.flags.sib && !d.flags.disp8 && !d.flags.disp16 && !d.flags.disp32)
            && (d.flags.modrm ==>
                  var mod, rm := ModOf(d), d.modrm % 8;
                  var q := if d.flags.sib then p + 2 else p + 1;
                  && d.modrm == m(p)
                  && (d.flags.sib <==> mod != 3 && rm == 4)
                  && d.sib == (if d.flags.sib then m(p + 1) else 0)
                  && (d.flags.disp8 <==> mod == 1)
                  && (d.flags.disp16 <==> d.pre.p67 && (mod == 2 || (mod == 0 && rm == 6)) && !(d.flags.sib && d.sib % 8 == 5))
                  && (d.flags.disp32 <==> (!d.pre.p67 && (mod == 2 || (mod == 0 && rm == 5)))
                                          || (d.flags.sib && d.sib % 8 == 5 && (mod == 0 || mod == 2)))
                  && (d.flags.disp8 ==> d.disp == m(q))
                  && (d.flags.disp16 ==> d.disp == (m(q) as int) + 0x100 * m(q + 1))
                  && (d.flags.disp32 ==> d.disp == Read32(m, q))
                  && (!d.flags.disp8 && !d.flags.disp16 && !d.flags.disp32 ==> d.disp == 0))
  {
    hide Decode, Attribute, ImmediateWidths, ReadImmediate, BadModRmOpcode, BadLock, BadOperand, Read32, Cflags, BehindOpcode,
         RexAt, OpcodeAt;
    var h, at, o, w := ParsedAs(t, m, a);
    FormBits(t, h);
  }

  // ---------------------------------------------------------------------
  // Immediates
  // ---------------------------------------------------------------------

  /** TEST with an immediate: F6 and F7, /0 and /1, as the decoder sees it.  It looks at the last opcode byte only. */
  predicate TakesTest(d: Hde, op: byte)
  {
    d.flags.modrm && d.modrm / 8 % 8 <= 1 && (if d.opcode == 0x0f then d.opcode2 else d.opcode) == op
  }

  /** Immediates and branch displacements: which of them there are, and how wide. */
  lemma ReportedImmediate(t: Table, m: Mem, a: int)
    requires Legible(t, m, a)
    ensures var d := Decode(t, m, a);
            var c := CflagsOf(t, d);
            var imm8, imm16, rel8, rel32 := c / 2 % 2 == 1 || TakesTest(d, 0xf6), c / 4 % 2 == 1, c / 32 % 2 == 1, c / 64 % 2 == 1;
            var sized := c / 16 % 2 == 1 || TakesTest(d, 0xf7);
            var moffs := 0xa0 <= d.opcode <= 0xa3;
            var quad := moffs || (d.rex >= 0x48 && 0xb8 <= d.opcode <= 0xbf);
            var word := if moffs then d.pre.p67 else d.pre.p66;
            if sized && rel32 then
              && d.flags.relative && !d.flags.imm8 && !d.flags.imm64
              && (d.flags.imm16 <==> word) && (d.flags.imm32 <==> !word)
            else
              && (d.flags.imm64 <==> sized && quad)
              && (d.flags.imm32 <==> (sized && !quad && !word) || rel32)
              && (d.flags.imm16 <==> (sized && !quad && word) || imm16)
              && (d.flags.imm8 <==> imm8 || (rel8 && !rel32))
              && (d.flags.relative <==> rel8 || rel32)
  {
    hide Decode, Attribute, ReadImmediate, ImmediateWidths, ReadOperand, CflagsOf, BehindOpcode, RexAt, OpcodeAt;
    var h, at, o, w := ParsedAs(t, m, a);
    FormBits(t, h);
    OperandParts(t, m, a, h, at);
    TestParts(t, m, a, h, at);
    FlagsOfWidths(o.form, h.op64, h.pref.p66);
    CflagsOfHead(t, h, Decode(t, m, a));
  }

  lemma CflagsOfHead(t: Table, h: Head, d: Hde)
    requires h.opcode == d.opcode && h.op == if d.opcode == 0x0f then d.opcode2 else d.opcode
    ensures CflagsOf(t, d) == Cflags(t, h.op, h.opcode == 0x0f)
  {
  }

  lemma TestParts(t: Table, m: Mem, a: int, h: Head, at: Attributes)
    ensures var f := ReadOperand(t, m, a, h, at).form;
            var reg := ReadOperand(t, m, a, h, at).modrm / 8 % 8;
            && f.imm16 == at.form.imm16 && f.rel8 == at.form.rel8 && f.rel32 == at.form.rel32
            && f.imm8 == (at.form.imm8 || (at.form.modrm && h.op == 0xf6 && reg <= 1))
            && f.immP66 == (at.form.immP66 || (at.form.modrm && h.op == 0xf7 && reg <= 1))
  {
    hide BadModRmOpcode, BadLock, BadOperand, Load;
  }

  lemma FlagsOfWidths(f: Form, op64: bool, data16: bool)
    ensures var w := ImmediateWidths(f, op64, data16);
            var imm8, imm16, imm32, imm64 := w.octet || w.rel == 1, w.word || w.rel == 2, w.wide == 4 || w.rel == 4, w.wide == 8;
            if f.immP66 && f.rel32 then
              w.rel != 0 && !imm8 && !imm64 && imm16 == data16 && imm32 == !data16
            else
              && imm64 == (f.immP66 && op64)
              && imm32 == ((f.immP66 && !op64 && !data16) || f.rel32)
              && imm16 == ((f.immP66 && !op64 && data16) || f.imm16)
              && imm8 == (f.imm8 || (f.rel8 && !f.rel32))
              && (w.rel != 0) == (f.rel8 || f.rel32)
  {
  }

  /** A relative branch has its operand at its end. */
  lemma ReportedBranch(t: Table, m: Mem, a: int)
    requires Consistent(t) && Legible(t, m, a) && !Decode(t, m, a).flags.badLength
    requires Decode(t, m, a).flags.relative
    ensures var d := Decode(t, m, a);
            && (d.flags.imm32 && d.flags.ImmField() == 4 ==> d.imm.Imm32() == Read32(m, a + d.len - 4))
            && (d.flags.imm8 && d.flags.ImmField() == 1 ==> d.imm.b0 == m(a + d.len - 1))
  {
    hide Decode, Attribute, BadModRmOpcode, BadLock, BadOperand, Load, Cflags, BehindOpcode, RexAt, OpcodeAt;
    var h, at, o, w := ParsedAs(t, m, a);
    OperandParts(t, m, a, h, at);
    assert Unambiguous(TestForm(at.form, h.op, Reg(o.modrm)));
    assert Unambiguous(TestForm(at.form, h.op, 2));
  }

  /** An instruction of a defined opcode is too long exactly when its parts take more than fifteen bytes. */
  lemma TooLongIff(t: Table, m: Mem, a: int)
    requires Consistent(t) && !Decode(t, m, a).flags.badOpcode
    ensures var d := Decode(t, m, a);
            var n := CountPrefixes(m, a, a + 16) + (if d.rex != 0 then 1 else 0) + (if d.opcode == 0x0f then 2 else 1)
                   + (if d.flags.modrm then 1 else 0) + (if d.flags.sib then 1 else 0)
                   + d.flags.DispBytes() + d.flags.ImmField();
            && (d.flags.badLength <==> n > 15) && d.len == if n > 15 then 15 else n
  {
    hide ScanPrefixes, ReadHead, Attribute, ReadOperand, ImmediateWidths, ReadImmediate, CountPrefixes, Consistent;
    var s := ScanPrefixes(m, a, a, NO_PREFIX);
    var h := ReadHead(m, a, s);
    var at := Attribute(t, h);
    var o := ReadOperand(t, m, a, h, at);
    var w := ImmediateWidths(o.form, h.op64, h.pref.p66);
    PrefixCount(m, a, a, NO_PREFIX);
    HeadParts(t, m, a, s);
    OperandParts(t, m, a, h, at);
    WidthsAddUp(t, h, at, o, w);
    PartsAddUp(s, h, o, w, Decode(t, m, a), at.form.modrm);
  }

  lemma WidthsAddUp(t: Table, h: Head, at: Attributes, o: Operand, w: Widths)
    requires Consistent(t) && at == Attribute(t, h) && w == ImmediateWidths(o.form, h.op64, h.pref.p66)
    requires o.form == if at.form.modrm then TestForm(at.form, h.op, Reg(o.modrm)) else at.form
    ensures w.Size() == (if w.octet || w.rel == 1 then 1 else 0) + (if w.word || w.rel == 2 then 2 else 0)
                      + (if w.wide == 4 || w.rel == 4 then 4 else 0) + (if w.wide == 8 then 8 else 0)
  {
    hide Attribute;
    assert Unambiguous(TestForm(at.form, h.op, Reg(o.modrm)));
    assert Unambiguous(TestForm(at.form, h.op, 2));
    ImmediateBytes(o.form, h.op64, h.pref.p66);
  }

  lemma PartsAddUp(s: Scan, h: Head, o: Operand, w: Widths, d: Hde, modrm: bool)
    requires d == Assemble(s, h, o, w, d.imm, modrm)
    requires o.dispSize == 0 || o.dispSize == 1 || o.dispSize == 2 || o.dispSize == 4
    requires w.Size() == (if w.octet || w.rel == 1 then 1 else 0) + (if w.word || w.rel == 2 then 2 else 0)
                       + (if w.wide == 4 || w.rel == 4 then 4 else 0) + (if w.wide == 8 then 8 else 0)
    ensures o.dispSize + w.Size() == d.flags.DispBytes() + d.flags.ImmField()
    ensures var n := o.pos + w.Size(); (d.flags.badLength <==> n > 15) && d.len == if n > 15 then 15 else n
  {
  }
}
