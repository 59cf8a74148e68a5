/** What the relocator relies on: the decoder looks at nothing beyond the instruction it reports, and the
    reported length is the sum of the fields it reports. */
module Hde64Laws {
  import opened Words
  import opened Hde64

  // ---------------------------------------------------------------------
  // Locality
  // ---------------------------------------------------------------------

  lemma {:induction false} PrefixesLocal(m: Mem, a: int, m': Mem, b: int, p: int, pre: Prefixes)
    requires a <= p < a + 16
    requires Agree(m, a, m', b, 0, ScanPrefixes(m, a, p, pre).pos)
    ensures ScanPrefixes(m, a, p, pre) == ScanPrefixes(m', b, p - a + b, pre)
    decreases a + 16 - p
  {
    AgreeAt(m, a, m', b, 0, ScanPrefixes(m, a, p, pre).pos, p - a);
    if IsPrefix(m(p)) && p < a + 15 {
      PrefixesLocal(m, a, m', b, p + 1, AddPrefix(pre, m(p)));
    }
  }

  lemma HeadLocal(m: Mem, a: int, m': Mem, b: int, s: Scan)
    requires s.pos >= 1
    requires Agree(m, a, m', b, 0, ReadHead(m, a, s).pos)
    ensures ReadHead(m, a, s) == ReadHead(m', b, s)
  {
    var n := ReadHead(m, a, s).pos;
    AgreeAt(m, a, m', b, 0, n, s.pos - 1);
    if s.pos < n {
      AgreeAt(m, a, m', b, 0, n, s.pos);
    }
    if s.pos + 1 < n {
      AgreeAt(m, a, m', b, 0, n, s.pos + 1);
    }
  }

  lemma OperandLocal(t: Table, m: Mem, a: int, m': Mem, b: int, h: Head, at: Attributes)
    requires 0 <= h.pos
    requires Agree(m, a, m', b, 0, ReadOperand(t, m, a, h, at).pos)
    ensures ReadOperand(t, m, a, h, at) == ReadOperand(t, m', b, h, at)
  {
    var o := ReadOperand(t, m, a, h, at);
    WordsAgree(m, a, m', b, 0, o.pos, h.pos);
    WordsAgree(m, a, m', b, 0, o.pos, h.pos + 1);
    WordsAgree(m, a, m', b, 0, o.pos, h.pos + 2);
  }

  lemma StoreLocal(u: Union, m: Mem, a: int, m': Mem, b: int, lo: int, hi: int, k: int, size: int)
    requires Agree(m, a, m', b, lo, hi) && lo <= k && k + size <= hi
    ensures Store(u, m, a + k, size) == Store(u, m', b + k, size)
  {
    if size == 1 || size == 2 || size == 4 || size == 8 {
      WordsAgree(m, a, m', b, lo, hi, k);
      WordsAgree(m, a, m', b, lo, hi, k + 1);
      WordsAgree(m, a, m', b, lo, hi, k + 2);
      WordsAgree(m, a, m', b, lo, hi, k + 4);
    }
  }

  lemma ImmediateLocal(m: Mem, a: int, m': Mem, b: int, pos: int, f: Form, op64: bool, data16: bool)
    requires var w := ImmediateWidths(f, op64, data16); Agree(m, a, m', b, pos, pos + w.Size())
    ensures var w := ImmediateWidths(f, op64, data16); ReadImmediate(m, a + pos, w) == ReadImmediate(m', b + pos, w)
  {
    var w := ImmediateWidths(f, op64, data16);
    var hi := pos + w.Size();
    var p1 := pos + w.wide;
    var p2 := p1 + if w.word then 2 else 0;
    var p3 := p2 + if w.octet then 1 else 0;
    var u1 := Store(Union(0, 0, 0, 0), m, a + pos, w.wide);
    var u2 := if w.word then Store(u1, m, a + p1, 2) else u1;
    var u3 := if w.octet then Store(u2, m, a + p2, 1) else u2;
    StoreLocal(Union(0, 0, 0, 0), m, a, m', b, pos, hi, pos, w.wide);
    if w.word {
      StoreLocal(u1, m, a, m', b, pos, hi, p1, 2);
    }
    if w.octet {
      StoreLocal(u2, m, a, m', b, pos, hi, p2, 1);
    }
    StoreLocal(u3, m, a, m', b, pos, hi, p3, w.rel);
  }

  lemma AgreeSub(m: Mem, a: int, m': Mem, b: int, lo: int, hi: int, lo': int, hi': int)
    requires Agree(m, a, m', b, lo, hi) && lo <= lo' && hi' <= hi
    ensures Agree(m, a, m', b, lo', hi')
  {
  }

  lemma DecodeFrom(t: Table, m: Mem, a: int, s: Scan, h: Head, at: Attributes, o: Operand, w: Widths)
    requires s == ScanPrefixes(m, a, a, NO_PREFIX) && h == ReadHead(m, a, s) && at == Attribute(t, h)
    requires o == ReadOperand(t, m, a, h, at) && w == ImmediateWidths(o.form, h.op64, h.pref.p66)
    ensures Decode(t, m, a) == Assemble(s, h, o, w, ReadImmediate(m, a + o.pos, w), at.form.modrm)
  {
    hide ScanPrefixes, ReadHead, Attribute, ReadOperand, ImmediateWidths, ReadImmediate, Assemble;
  }

  lemma DecodeEnd(t: Table, m: Mem, a: int)
    requires !Decode(t, m, a).Failed()
    ensures var s := ScanPrefixes(m, a, a, NO_PREFIX);
            var h := ReadHead(m, a, s);
            var o := ReadOperand(t, m, a, h, Attribute(t, h));
            && Decode(t, m, a).len == o.pos + ImmediateWidths(o.form, h.op64, h.pref.p66).Size()
            && 1 <= s.pos <= h.pos <= o.pos <= Decode(t, m, a).len
  {
  }

  /** An error-free decode is determined by the bytes of the instruction it reports. */
  lemma DecodeLocal(t: Table, m: Mem, a: int, m': Mem, b: int)
    requires !Decode(t, m, a).Failed()
    requires Agree(m, a, m', b, 0, Decode(t, m, a).len)
    ensures Decode(t, m', b) == Decode(t, m, a)
  {
    hide *;
    var n := Decode(t, m, a).len;
    var s := ScanPrefixes(m, a, a, NO_PREFIX);
    var h := ReadHead(m, a, s);
    var at := Attribute(t, h);
    var o := ReadOperand(t, m, a, h, at);
    var w := ImmediateWidths(o.form, h.op64, h.pref.p66);
    DecodeEnd(t, m, a);
    AgreeSub(m, a, m', b, 0, n, 0, s.pos);
    AgreeSub(m, a, m', b, 0, n, 0, h.pos);
    AgreeSub(m, a, m', b, 0, n, 0, o.pos);
    AgreeSub(m, a, m', b, 0, n, o.pos, n);
    PrefixesLocal(m, a, m', b, a, NO_PREFIX);
    HeadLocal(m, a, m', b, s);
    OperandLocal(t, m, a, m', b, h, at);
    ImmediateLocal(m, a, m', b, o.pos, o.form, h.op64, h.pref.p66);
    DecodeFrom(t, m, a, s, h, at, o, w);
    DecodeFrom(t, m', b, s, h, at, o, w);
  }

  /** Sixteen bytes settle whether the decode fails, and settle all of it when it does not. */
  lemma SixteenBytesSuffice(t: Table, m: Mem, a: int, m': Mem, b: int)
    requires Agree(m, a, m', b, 0, 16)
    ensures Decode(t, m, a).Failed() <==> Decode(t, m', b).Failed()
    ensures !Decode(t, m, a).Failed() ==> Decode(t, m, a) == Decode(t, m', b)
  {
    if !Decode(t, m, a).Failed() {
      DecodeLocal(t, m, a, m', b);
    } else if !Decode(t, m', b).Failed() {
      AgreeSymmetric(m, a, m', b, 0, 16);
      DecodeLocal(t, m', b, m, a);
    }
  }

  // ---------------------------------------------------------------------
  // Length
  // ---------------------------------------------------------------------

  /** The number of prefix bytes from p on, up to address end. */
  function CountPrefixes(m: Mem, p: int, end: int): (n: int)
    ensures 0 <= n
    ensures p <= end ==> n <= end - p
    decreases end - p
  {
    if p < end && IsPrefix(m(p)) then 1 + CountPrefixes(m, p + 1, end) else 0
  }

  lemma {:induction false} PrefixCount(m: Mem, a: int, p: int, pre: Prefixes)
    requires a <= p < a + 16
    ensures var n := p - a + CountPrefixes(m, p, a + 16);
            ScanPrefixes(m, a, p, pre).pos == if n < 16 then n + 1 else 16
    decreases a + 16 - p
  {
    if IsPrefix(m(p)) && p < a + 15 {
      PrefixCount(m, a, p + 1, AddPrefix(pre, m(p)));
    }
  }

  /** No opcode takes both an 8-bit immediate and an 8-bit displacement of a relative jump. */
  ghost predicate Consistent(t: Table)
  {
    forall h: Head, reg: int :: Unambiguous(TestForm(Attribute(t, h).form, h.op, reg))
  }

  predicate Unambiguous(f: Form)
  {
    !(f.imm8 && f.rel8)
  }

  /** The attributes of the opcodes from which the library builds code: FF, EB, 70-7F and E9. */
  ghost predicate KnowsTemplates(t: Table)
  {
    forall h: Head :: !h.twoRex && h.opcode2 == 0 && h.opcode == h.op ==> KnownAttributes(h.op, Attribute(t, h))
  }

  predicate KnownAttributes(op: byte, at: Attributes)
  {
    if op == 0xff then at == Attributes(Form(true, false, false, false, false, false), 1, false)
    else if op == 0xe9 then at == Attributes(Form(false, false, false, true, false, true), 0, false)
    else op == 0xeb || op / 16 == 7 ==> at == Attributes(Form(false, false, false, false, true, false), 0, false)
  }

  lemma ImmediateBytes(f: Form, op64: bool, data16: bool)
    requires Unambiguous(f)
    ensures var w := ImmediateWidths(f, op64, data16);
            w.Size() == (if w.octet || w.rel == 1 then 1 else 0) + (if w.word || w.rel == 2 then 2 else 0)
                      + (if w.wide == 4 || w.rel == 4 then 4 else 0) + (if w.wide == 8 then 8 else 0)
  {
  }

  lemma HeadParts(t: Table, m: Mem, a: int, s: Scan)
    requires s.pos >= 1
    ensures var h := ReadHead(m, a, s);
            !Attribute(t, h).bad ==> h.pos == s.pos + (if h.rex != 0 then 1 else 0) + (if h.opcode == 0x0f then 1 else 0)
  {
  }

  lemma OperandParts(t: Table, m: Mem, a: int, h: Head, at: Attributes)
    ensures var o := ReadOperand(t, m, a, h, at);
            && o.pos == h.pos + (if at.form.modrm then 1 else 0) + (if o.hasSib then 1 else 0) + o.dispSize
            && o.form == (if at.form.modrm then TestForm(at.form, h.op, Reg(o.modrm)) else at.form)
            && (at.bad ==> o.badOpcode)
  {
  }

  lemma TwoByteOpcode(t: Table, m: Mem, a: int)
    ensures var d := Decode(t, m, a); d.opcode2 != 0 ==> d.opcode == 0x0f
  {
    hide ScanPrefixes, Attribute, ReadOperand, ImmediateWidths, ReadImmediate;
  }

  /** The reported length is the sum of the reported parts; the immediate takes (flags & 0x3C) >> 2 bytes. */
  lemma LengthDecomposition(t: Table, m: Mem, a: int)
    requires Consistent(t) && !Decode(t, m, a).Failed()
    ensures var d := Decode(t, m, a);
            d.len == CountPrefixes(m, a, a + 16) + (if d.rex != 0 then 1 else 0) + (if d.opcode == 0x0f then 2 else 1)
                   + (if d.flags.modrm then 1 else 0) + (if d.flags.sib then 1 else 0)
                   + d.flags.DispBytes() + d.flags.ImmField()
  {
    var s := ScanPrefixes(m, a, a, NO_PREFIX);
    var h := ReadHead(m, a, s);
    var at := Attribute(t, h);
    var o := ReadOperand(t, m, a, h, at);
    var w := ImmediateWidths(o.form, h.op64, h.pref.p66);
    var d := Decode(t, m, a);
    assert d == Assemble(s, h, o, w, d.imm, at.form.modrm);
    PrefixCount(m, a, a, NO_PREFIX);
    HeadParts(t, m, a, s);
    OperandParts(t, m, a, h, at);
    assert Unambiguous(TestForm(at.form, h.op, Reg(o.modrm)));
    assert Unambiguous(TestForm(at.form, h.op, 2));
    ImmediateBytes(o.form, h.op64, h.pref.p66);
    Sum(s, h, o, w, d, at.form.modrm);
  }

  lemma Sum(s: Scan, h: Head, o: Operand, w: Widths, d: Hde, modrm: bool)
    requires d == Assemble(s, h, o, w, d.imm, modrm) && !d.Failed()
    requires o.pos == h.pos + (if modrm then 1 else 0) + (if o.hasSib then 1 else 0) + o.dispSize
    requires o.dispSize == 0 || o.dispSize == 1 || o.dispSize == 2 || o.dispSize == 4
    requires w.Size() == (if w.octet || w.rel == 1 then 1 else 0) + (if w.word || w.rel == 2 then 2 else 0)
                       + (if w.wide == 4 || w.rel == 4 then 4 else 0) + (if w.wide == 8 then 8 else 0)
    ensures d.len == h.pos + (if d.flags.modrm then 1 else 0) + (if d.flags.sib then 1 else 0)
                   + d.flags.DispBytes() + d.flags.ImmField()
  {
  }

  // ---------------------------------------------------------------------
  // RIP-relative operands
  // ---------------------------------------------------------------------

  /** (modrm & 0xC7) == 0x05, the relocator's test. */
  predicate RipForm(d: Hde)
  {
    Mod(d.modrm) == 0 && Rm(d.modrm) == 5
  }

  /** A RIP-relative operand proper.  The relocator's test alone also accepts MOV to and from system registers
      and 67h-prefixed code, where the decoder has seen no 32-bit displacement. */
  predicate RipOperand(d: Hde)
  {
    RipForm(d) && d.flags.disp32
  }

  /** hs.len - ((hs.flags & 0x3C) >> 2) - 4. */
  function DispOffset(d: Hde): int
  {
    d.len - d.flags.ImmField() - 4
  }

  /** The relocator's formula finds the displacement: the four bytes there are the displacement field, and code
      that differs in nothing else decodes to the same instruction with the new displacement. */
  lemma Retarget(t: Table, m: Mem, a: int, m': Mem, b: int)
    requires Consistent(t)
    requires !Decode(t, m, a).Failed() && RipOperand(Decode(t, m, a))
    requires var d := Decode(t, m, a);
             Agree(m, a, m', b, 0, DispOffset(d)) && Agree(m, a, m', b, DispOffset(d) + 4, d.len)
    ensures var d := Decode(t, m, a); Decode(t, m', b) == d.(disp := Read32(m', b + DispOffset(d)))
    ensures var d := Decode(t, m, a); d.disp == Read32(m, a + DispOffset(d)) && 2 <= DispOffset(d) <= d.len - 4
  {
    hide *;
    var s := ScanPrefixes(m, a, a, NO_PREFIX);
    var h := ReadHead(m, a, s);
    var at := Attribute(t, h);
    var o := ReadOperand(t, m, a, h, at);
    var w := ImmediateWidths(o.form, h.op64, h.pref.p66);
    var o' := o.(disp := Read32(m', b + h.pos + 1));
    DispPlace(t, m, a);
    RetargetFields(t, m, a, m', b, s, h, at, o, w);
    DecodeFrom(t, m, a, s, h, at, o, w);
    DecodeFrom(t, m', b, s, h, at, o', w);
    AssembleDisp(s, h, o, o', w, ReadImmediate(m, a + o.pos, w), at.form.modrm);
    OperandDisp(t, m, a, m, a, h, at);
  }

  lemma AssembleDisp(s: Scan, h: Head, o: Operand, o': Operand, w: Widths, imm: Union, modrm: bool)
    requires o' == o.(disp := o'.disp)
    ensures Assemble(s, h, o', w, imm, modrm) == Assemble(s, h, o, w, imm, modrm).(disp := o'.disp)
    ensures Assemble(s, h, o, w, imm, modrm).disp == o.disp
  {
  }

  lemma RetargetFields(t: Table, m: Mem, a: int, m': Mem, b: int, s: Scan, h: Head, at: Attributes, o: Operand, w: Widths)
    requires s == ScanPrefixes(m, a, a, NO_PREFIX) && h == ReadHead(m, a, s)
    requires o == ReadOperand(t, m, a, h, at) && w == ImmediateWidths(o.form, h.op64, h.pref.p66)
    requires at.form.modrm && !o.hasSib && o.dispSize == 4 && o.pos == h.pos + 5
    requires Agree(m, a, m', b, 0, h.pos + 1) && Agree(m, a, m', b, h.pos + 5, o.pos + w.Size())
    ensures ScanPrefixes(m', b, b, NO_PREFIX) == s && ReadHead(m', b, s) == h
    ensures ReadOperand(t, m', b, h, at) == o.(disp := Read32(m', b + h.pos + 1))
    ensures ReadImmediate(m', b + o.pos, w) == ReadImmediate(m, a + o.pos, w)
  {
    hide *;
    AgreeSub(m, a, m', b, 0, h.pos + 1, 0, s.pos);
    AgreeSub(m, a, m', b, 0, h.pos + 1, 0, h.pos);
    AgreeAt(m, a, m', b, 0, h.pos + 1, h.pos);
    PrefixesLocal(m, a, m', b, a, NO_PREFIX);
    HeadLocal(m, a, m', b, s);
    OperandDisp(t, m, a, m', b, h, at);
    ImmediateLocal(m, a, m', b, o.pos, o.form, h.op64, h.pref.p66);
  }

  lemma OperandDisp(t: Table, m: Mem, a: int, m': Mem, b: int, h: Head, at: Attributes)
    requires at.form.modrm && m(a + h.pos) == m'(b + h.pos)
    requires var o := ReadOperand(t, m, a, h, at); !o.hasSib && o.dispSize == 4
    ensures var o := ReadOperand(t, m, a, h, at);
            && o.disp == Read32(m, a + h.pos + 1)
            && ReadOperand(t, m', b, h, at) == o.(disp := Read32(m', b + h.pos + 1))
  {
  }

  lemma DispPlace(t: Table, m: Mem, a: int)
    requires Consistent(t)
    requires !Decode(t, m, a).Failed() && RipOperand(Decode(t, m, a))
    ensures var s := ScanPrefixes(m, a, a, NO_PREFIX);
            var h := ReadHead(m, a, s);
            var o := ReadOperand(t, m, a, h, Attribute(t, h));
            && o.pos == h.pos + 5 && DispOffset(Decode(t, m, a)) == h.pos + 1
            && Decode(t, m, a).len == o.pos + ImmediateWidths(o.form, h.op64, h.pref.p66).Size()
            && Attribute(t, h).form.modrm && !o.hasSib && o.dispSize == 4
  {
    var s := ScanPrefixes(m, a, a, NO_PREFIX);
    var h := ReadHead(m, a, s);
    var at := Attribute(t, h);
    var o := ReadOperand(t, m, a, h, at);
    OperandParts(t, m, a, h, at);
    assert Unambiguous(TestForm(at.form, h.op, Reg(o.modrm)));
    assert Unambiguous(TestForm(at.form, h.op, 2));
    ImmediateBytes(o.form, h.op64, h.pref.p66);
  }
}
