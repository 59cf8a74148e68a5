/** hde64_disasm itself: the pointer p moves over the code, the scans walk the table. */
module Disasm {
  import opened Words
  import opened Hde64

  // ---------------------------------------------------------------------
  // Reading the code
  // ---------------------------------------------------------------------

  function Max(x: int, y: int): int
  {
    if x < y then y else x
  }

  /** Every byte of code is read here.  seen is the end of what has been read so far. */
  method Fetch(m: Mem, p: int, ghost seen: int) returns (c: byte, ghost seen': int)
    ensures c == m(p)
    ensures seen' == Max(seen, p + 1)
  {
    c, seen' := m(p), Max(seen, p + 1);
  }

  method FetchBytes(m: Mem, p: int, n: nat, ghost seen: int) returns (bs: seq<byte>, ghost seen': int)
    ensures bs == Read(m, p, n)
    ensures seen' == if n == 0 then seen else Max(seen, p + n)
  {
    bs, seen' := [], seen;
    var i := 0;
    while i < n
      invariant 0 <= i <= n && bs == Read(m, p, i) && seen' == if i == 0 then seen else Max(seen, p + i)
    {
      var c;
      c, seen' := Fetch(m, p + i, seen');
      bs := bs + [c];
      i := i + 1;
    }
  }

  /** A little-endian field of the code. */
  method FetchField(m: Mem, p: int, size: nat, ghost seen: int) returns (v: int, ghost seen': int)
    requires size == 0 || size == 1 || size == 2 || size == 4
    ensures v == Load(m, p, size)
    ensures seen' == if size == 0 then seen else Max(seen, p + size)
  {
    var bs;
    bs, seen' := FetchBytes(m, p, size, seen);
    assert forall k :: 0 <= k < size ==> bs[k] == m(p + k);
    v := if size == 1 then bs[0] as int else if size == 2 then (bs[0] as int) + 256 * (bs[1] as int)
         else if size == 4 then Join4(bs[0], bs[1], bs[2], bs[3]) else 0;
  }

  /** A field of the code, stored into the low bytes of hs->imm. */
  method FetchInto(u: Union, m: Mem, p: int, size: nat, ghost seen: int) returns (u': Union, ghost seen': int)
    requires size == 1 || size == 2 || size == 4 || size == 8
    ensures u' == Store(u, m, p, size)
    ensures seen' == Max(seen, p + size)
  {
    hide Read32;
    var bs;
    bs, seen' := FetchBytes(m, p, size, seen);
    assert forall k :: 0 <= k < size ==> bs[k] == m(p + k);
    if size == 1 {
      u' := u.(b0 := bs[0]);
    } else if size == 2 {
      u' := u.(b0 := bs[0], b1 := bs[1]);
    } else if size == 4 {
      u' := u.(b0 := bs[0], b1 := bs[1], w1 := (bs[2] as int) + 256 * (bs[3] as int));
    } else {
      HighWord(m, p, bs);
      u' := Union(bs[0], bs[1], (bs[2] as int) + 256 * (bs[3] as int), Join4(bs[4], bs[5], bs[6], bs[7]));
    }
  }

  lemma HighWord(m: Mem, p: int, bs: seq<byte>)
    requires bs == Read(m, p, 8)
    ensures Join4(bs[4], bs[5], bs[6], bs[7]) == Read32(m, p + 4)
  {
  }

  // ---------------------------------------------------------------------
  // Decoding
  // ---------------------------------------------------------------------

  /** The prefix loop: at most sixteen bytes; `c` is the last byte read and p points behind it. */
  method ReadPrefixes(m: Mem, code: int) returns (p: int, c: byte, pref: Prefixes, ghost seen: int)
    ensures var s := ScanPrefixes(m, code, code, NO_PREFIX); p == code + s.pos && c == m(p - 1) && pref == s.pre
    ensures seen == p
  {
    p, c, pref, seen := code, 0, NO_PREFIX, code;
    var x := 16;
    while x != 0
      invariant 0 <= x <= 16 && p == code + 16 - x && seen == p
      invariant x == 16 || c == m(p - 1)
      invariant x != 0 ==> ScanPrefixes(m, code, code, NO_PREFIX) == ScanPrefixes(m, code, p, pref)
      invariant x == 0 ==> ScanPrefixes(m, code, code, NO_PREFIX) == Scan(pref, 16)
    {
      c, seen := Fetch(m, p, seen);
      p := p + 1;
      if !IsPrefix(c) {
        break;
      }
      pref := AddPrefix(pref, c);
      x := x - 1;
    }
  }

  method AcceptsLock(t: Table, h: Head, reg: int) returns (ok: bool)
    ensures ok == LockAccepted(t, h, reg)
  {
    var ht, tableEnd, op := DELTA_OP_LOCK_OK, DELTA_OP2_LOCK_OK, h.op - h.op % 2;
    if h.opcode2 != 0 {
      ht, tableEnd, op := DELTA_OP2_LOCK_OK, DELTA_OP_ONLY_MEM, h.op;
    }
    while ht != tableEnd
      invariant ht <= tableEnd && (tableEnd - ht) % 2 == 0
      invariant LockAccepted(t, h, reg) == LockListed(t, ht, tableEnd, op, reg)
      decreases tableEnd - ht
    {
      if At(t, ht) == op {
        return !Bit(At(t, ht + 1), 7 - reg);
      }
      ht := ht + 2;
    }
    return false;
  }

  method NeedsMemory(t: Table, h: Head, reg: int) returns (bad: bool)
    ensures bad == OnlyMem(t, h, reg)
  {
    var ht, tableEnd := DELTA_OP_ONLY_MEM, DELTA_OP2_ONLY_MEM;
    if h.opcode2 != 0 {
      ht, tableEnd := DELTA_OP2_ONLY_MEM, TABLE_SIZE;
    }
    while ht != tableEnd
      invariant ht <= tableEnd && (tableEnd - ht) % 3 == 0
      invariant OnlyMem(t, h, reg) == OnlyMemListed(t, ht, tableEnd, h.op, h.pref, reg)
      decreases tableEnd - ht
    {
      if At(t, ht) == h.op {
        return Meets(At(t, ht + 1), h.pref) && !Bit(At(t, ht + 2), 7 - reg);
      }
      ht := ht + 3;
    }
    return false;
  }

  /** The attributes of the opcode: both steps of the lookup, the group if there is one, the forbidden prefixes. */
  method ReadAttributes(t: Table, h: Head) returns (at: Attributes)
    ensures at == Attribute(t, h)
  {
    hide Meets, FormOf;
    var ht, cflags: byte, x: byte, bad := 0, 0, 0, h.twoRex;
    if h.opcode == 0x0f {
      ht := DELTA_OPCODES;
    }
    if !bad {
      cflags := At(t, ht + At(t, ht + h.op / 4) + h.op % 4);
      bad := cflags == 0xff;
    }
    if bad {
      cflags := 0;
      if h.op == 0x24 || h.op == 0x26 {
        cflags := 1;
      }
    }
    if Bit(cflags, 7) {
      var group := ht + cflags % 128;
      cflags, x := At(t, group), At(t, group + 1);
    }
    if h.opcode2 != 0 {
      ht := DELTA_PREFIXES;
      if Meets(At(t, ht + At(t, ht + h.op / 4) + h.op % 4), h.pref) {
        bad := true;
      }
    }
    at := Attributes(FormOf(cflags), x, bad);
  }

  /** Whether the FPU maps mark the instruction as undefined: one map for registers, one for memory operands. */
  method FpuUndefined(t: Table, op: byte, modrm: byte) returns (bad: bool)
    requires 0xd9 <= op <= 0xdf
    ensures forall h: Head :: h.op == op ==> bad == BadFpu(t, h, modrm)
  {
    var x := op - 0xd9;
    if Mod(modrm) == 3 {
      var ht := DELTA_FPU_MODRM + x * 8;
      bad := Bit(At(t, ht + Reg(modrm)), 7 - Rm(modrm));
    } else {
      var ht := DELTA_FPU_REG;
      bad := Bit(At(t, ht + x), 7 - Reg(modrm));
    }
  }

  /** The checks of a ModR/M byte: undefined group members, the FPU map, LOCK, register operands. */
  method CheckModRm(t: Table, h: Head, mask: byte, modrm: byte) returns (badOpcode: bool, badLock: bool, badOperand: bool)
    ensures badOpcode == BadModRmOpcode(t, h, mask, modrm)
    ensures badLock == BadLock(t, h, modrm)
    ensures badOperand == Hde64.BadOperand(t, h, modrm)
  {
    var mod, reg := Mod(modrm), Reg(modrm);
    badOpcode, badLock, badOperand := false, false, false;
    if mask != 0 && Bit(mask, 7 - reg) {
      badOpcode := true;
    }
    if h.opcode2 == 0 && 0xd9 <= h.op <= 0xdf {
      var undefined := FpuUndefined(t, h.op, modrm);
      if undefined {
        badOpcode := true;
      }
    }
    if h.pref.lock {
      if mod == 3 {
        badLock := true;
      } else {
        var ok := AcceptsLock(t, h, reg);
        badLock := !ok;
      }
    }
    if h.opcode2 != 0 {
      if h.op == 0x20 || h.op == 0x22 {
        badOperand := reg > 4 || reg == 1;
        return;
      } else if h.op == 0x21 || h.op == 0x23 {
        badOperand := reg == 4 || reg == 5;
        return;
      }
    } else {
      if h.op == 0x8c {
        badOperand := reg > 5;
        return;
      } else if h.op == 0x8e {
        badOperand := reg == 1 || reg > 5;
        return;
      }
    }
    if mod == 3 {
      badOperand := NeedsMemory(t, h, reg);
    } else if h.opcode2 != 0 {
      if h.op == 0x50 || h.op == 0xd7 || h.op == 0xf7 {
        badOperand := h.pref.none || h.pref.p66;
      } else if h.op == 0xd6 {
        badOperand := h.pref.f2 || h.pref.f3;
      } else if h.op == 0xc5 {
        badOperand := true;
      }
    }
  }

  method DecodeHead(m: Mem, code: int) returns (p: int, s: Scan, h: Head, ghost seen: int)
    ensures s == ScanPrefixes(m, code, code, NO_PREFIX) && h == ReadHead(m, code, s) && p == code + h.pos
    ensures seen == p
  {
    var c, pref;
    p, c, pref, seen := ReadPrefixes(m, code);
    s := Scan(pref, p - code);
    var rex: byte, op64 := 0, false;
    if c / 16 == 4 {
      rex := c;
      c, seen := Fetch(m, p, seen);
      op64 := Bit(rex, 3) && c / 8 == 0x17;
      p := p + 1;
      if c / 16 == 4 {
        h := Head(p - code, rex, false, 0, 0, c, true, pref);
        return;
      }
    }
    var opcode, opcode2: byte := c, 0;
    if c == 0x0f {
      opcode2, seen := Fetch(m, p, seen);
      c := opcode2;
      p := p + 1;
    } else if 0xa0 <= c <= 0xa3 {
      op64 := true;
      pref := pref.(p66 := pref.p67);
    }
    h := Head(p - code, rex, op64, opcode, opcode2, c, false, pref);
  }

  method DispSize(mod: int, rm: int, p67: bool) returns (dispSize: int)
    ensures dispSize == PlainDispSize(mod, rm, p67)
    ensures dispSize == 0 || dispSize == 1 || dispSize == 2 || dispSize == 4
  {
    dispSize := 0;
    match mod {
      case 0 =>
        if p67 {
          if rm == 6 {
            dispSize := 2;
          }
        } else if rm == 5 {
          dispSize := 4;
        }
      case 1 =>
        dispSize := 1;
      case 2 =>
        dispSize := 2;
        if !p67 {
          dispSize := 4;
        }
      case _ =>
    }
  }

  /** What stands behind the ModR/M byte at start; one byte is read whether it is needed or not. */
  method DecodeDisp(m: Mem, start: int, mod: int, rm: int, p67: bool)
    returns (p: int, sib: byte, hasSib: bool, dispSize: int, disp: int, ghost seen: int)
    ensures hasSib == (mod != 3 && rm == 4) && sib == (if hasSib then m(start + 1) else 0)
    ensures dispSize == if hasSib && sib % 8 == 5 && mod % 2 == 0 then 4 else PlainDispSize(mod, rm, p67)
    ensures dispSize == 0 || dispSize == 1 || dispSize == 2 || dispSize == 4
    ensures p == start + (if hasSib then 2 else 1) + dispSize && disp == Load(m, p - dispSize, dispSize)
    ensures seen == Max(start + 2, p)
  {
    hide PlainDispSize, Load;
    var c;
    c, seen := Fetch(m, start + 1, start + 1);
    p := start + 2;
    dispSize := DispSize(mod, rm, p67);
    sib, hasSib := 0, false;
    if mod != 3 && rm == 4 {
      hasSib := true;
      p := p + 1;
      sib := c;
      if c % 8 == 5 && mod % 2 == 0 {
        dispSize := 4;
      }
    }
    p := p - 1;
    disp, seen := FetchField(m, p, dispSize, seen);
    p := p + dispSize;
  }

  method DecodeOperand(t: Table, m: Mem, code: int, start: int, h: Head, at: Attributes)
    returns (p: int, o: Operand, ghost seen: int)
    requires start == code + h.pos
    ensures o == ReadOperand(t, m, code, h, at) && p == code + o.pos
    ensures seen == if at.form.modrm then Max(start + 2, p) else start
  {
    hide BadOperand, BadLock, BadModRmOpcode, PlainDispSize, Load, MovSystem, Mod, Reg, Rm;
    p, seen := start, start;
    if at.form.modrm {
      var modrm;
      modrm, seen := Fetch(m, p, seen);
      var mod, rm := Mod(modrm), Rm(modrm);
      var badOpcode, badLock, badOperand := CheckModRm(t, h, at.mask, modrm);
      if MovSystem(h) {
        mod := 3;
      }
      var form := at.form;
      if Reg(modrm) <= 1 {
        if h.op == 0xf6 {
          form := form.(imm8 := true);
        } else if h.op == 0xf7 {
          form := form.(immP66 := true);
        }
      }
      var sib, hasSib, dispSize, disp;
      p, sib, hasSib, dispSize, disp, seen := DecodeDisp(m, p, mod, rm, h.pref.p67);
      o := Operand(p - code, modrm, sib, hasSib, dispSize, disp, form, at.bad || badOpcode, badLock, badOperand);
    } else {
      o := Operand(p - code, 0, 0, false, 0, 0, at.form, at.bad, h.pref.lock, false);
    }
  }

  method DecodeImmediate(m: Mem, start: int, f: Form, op64: bool, data16: bool)
    returns (p: int, imm: Union, imm8: bool, imm16: bool, imm32: bool, imm64: bool, relative: bool, ghost seen: int)
    ensures var w := ImmediateWidths(f, op64, data16);
            && p == start + w.Size() && imm == ReadImmediate(m, start, w)
            && imm8 == (w.octet || w.rel == 1) && imm16 == (w.word || w.rel == 2)
            && imm32 == (w.wide == 4 || w.rel == 4) && imm64 == (w.wide == 8) && relative == (w.rel != 0)
    ensures seen == p
  {
    hide Store;
    p, imm, seen := start, Union(0, 0, 0, 0), start;
    StoreNothing(imm, m, p);
    imm8, imm16, imm32, imm64, relative := false, false, false, false, false;
    if f.immP66 && f.rel32 {
      relative := true;
      if data16 {
        imm, seen := FetchInto(imm, m, p, 2, seen);
        imm16, p := true, p + 2;
      } else {
        imm, seen := FetchInto(imm, m, p, 4, seen);
        imm32, p := true, p + 4;
      }
      return;
    }
    var take16 := f.imm16;
    if f.immP66 {
      if op64 {
        imm, seen := FetchInto(imm, m, p, 8, seen);
        imm64, p := true, p + 8;
      } else if !data16 {
        imm, seen := FetchInto(imm, m, p, 4, seen);
        imm32, p := true, p + 4;
      } else {
        take16 := true;
      }
    }
    if take16 {
      imm, seen := FetchInto(imm, m, p, 2, seen);
      imm16, p := true, p + 2;
    }
    if f.imm8 {
      imm, seen := FetchInto(imm, m, p, 1, seen);
      imm8, p := true, p + 1;
    }
    if f.rel32 {
      imm, seen := FetchInto(imm, m, p, 4, seen);
      imm32, relative, p := true, true, p + 4;
    } else if f.rel8 {
      imm, seen := FetchInto(imm, m, p, 1, seen);
      imm8, relative, p := true, true, p + 1;
    } else {
      StoreNothing(imm, m, p);
    }
  }

  lemma StoreNothing(u: Union, m: Mem, p: int)
    ensures Store(u, m, p, 0) == u
  {
  }

  /** seen is the end of the code read: within sixteen bytes if the decode is error-free, and within 39 in any case. */
  method Disassemble(t: Table, m: Mem, code: int) returns (hs: Hde, ghost seen: int)
    ensures hs == Decode(t, m, code)
    ensures code + hs.len <= seen <= code + 39
    ensures !hs.Failed() ==> seen <= code + 16
  {
    hide Attribute, ScanPrefixes, ReadHead, ReadOperand, ImmediateWidths, ReadImmediate;
    var p, s, h;
    p, s, h, seen := DecodeHead(m, code);
    var at := ReadAttributes(t, h);
    var o;
    p, o, seen := DecodeOperand(t, m, code, p, h, at);
    ghost var lookahead := seen;
    var imm, imm8, imm16, imm32, imm64, relative;
    p, imm, imm8, imm16, imm32, imm64, relative, seen := DecodeImmediate(m, p, o.form, h.op64, h.pref.p66);
    seen := Max(lookahead, seen);
    LookaheadInside(t, m, code, h, at);
    var len, badLength := p - code, false;
    if len > 15 {
      len, badLength := 15, true;
    }
    hs := Hde(len, s.pre, h.rex, h.opcode, h.opcode2, o.modrm, o.sib, o.disp, imm,
              Flags(at.form.modrm, o.hasSib, imm8, imm16, imm32, imm64,
                    o.dispSize == 1, o.dispSize == 2, o.dispSize == 4, relative,
                    o.badOpcode, badLength, o.badLock, o.badOperand));
  }

  /** The byte behind ModR/M is at most one byte behind the instruction. */
  lemma LookaheadInside(t: Table, m: Mem, a: int, h: Head, at: Attributes)
    ensures at.form.modrm ==> h.pos + 1 <= ReadOperand(t, m, a, h, at).pos
  {
  }
}
