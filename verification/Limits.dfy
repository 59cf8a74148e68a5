/** Where CreateTrampolineFunction accepts code that it does not relocate faithfully. */
module Limits {
  import opened Words
  import opened Hde64
  import opened Hde64Laws
  import opened Instructions
  import opened X64
  import opened Relocation
  import opened Layout
  import opened Simulation
  import opened Table64
  import A = Acceptance

  /** What must hold of one instruction beyond what the code checks, by opcode and by distance. */
  ghost predicate Sound(t: Table, m: Mem, target: int, tramp: int, es: seq<Entry>, i: int)
    requires 0 <= i < |es|
  {
    var e := es[i];
    var at := A.Branch(e.inst, target + e.src) - target;
    && (e.src < 5 && A.Addressed(e.inst) ==>
          && e.inst.flags.disp32
          && -0x8000_0000 <= target + e.src + SExt32(e.inst.disp) - (tramp + e.dst) < 0x8000_0000)
    && (A.BranchesInside(e, target) ==>
          && Boundary(t, m, target, 0, at)
          && forall j, k :: 0 <= j <= k < i && es[j].src == at ==> |es[k].bytes| == es[k].inst.len)
  }

  /** Faithful is this of every instruction, and nothing else. */
  lemma FaithfulIff<D>(mc: Machine<D>, target: int, tramp: int, p: Plan)
    requires Installed(mc, target, tramp, p)
    ensures Faithful(mc.table, mc.code, target, tramp, p)
            <==> forall i :: 0 <= i < |p.entries| ==> Sound(mc.table, mc.code, target, tramp, p.entries, i)
  {
    hide Installed, Decode, MakeEntry, Boundary, EntryFaithful, Sound;
    forall i | 0 <= i < |p.entries|
      ensures EntryFaithful(mc.table, mc.code, target, tramp, p.entries, i)
              <==> Sound(mc.table, mc.code, target, tramp, p.entries, i)
    {
      Place(mc, target, tramp, p, i);
      EntrySound(mc.table, mc.code, target, tramp, p.entries, i);
    }
  }

  lemma EntrySound(t: Table, m: Mem, target: int, tramp: int, es: seq<Entry>, i: int)
    requires 0 <= i < |es| && es[i] == MakeEntry(t, m, target, tramp, es[i].src, es[i].dst)
    ensures EntryFaithful(t, m, target, tramp, es, i) <==> Sound(t, m, target, tramp, es, i)
  {
    hide Decode, MakeEntry, Boundary, SExt32, A.Branch, A.BranchesInside, A.BranchesOutside;
    A.KindMeans(t, m, target, tramp, es[i]);
    A.EndKinds(t, m, target, tramp, es[i]);
  }

  /** A copied branch to the instruction of entry j lands on its relocation exactly when it goes forward, or nothing it
      jumps back over has changed its length. */
  lemma InsideLandsIff<D>(mc: Machine<D>, target: int, tramp: int, p: Plan, k: int, j: int)
    requires Installed(mc, target, tramp, p) && SLOT_SIZE < tramp && 0 <= k < |p.entries| && 0 <= j < |p.entries|
    requires p.entries[k].kind.Inside? && p.entries[j].src == p.entries[k].kind.dest - target
    ensures InsideDest(target + p.entries[k].src, p.entries[k].inst) == target + p.entries[j].src
    ensures InsideDest(tramp + p.entries[k].dst, p.entries[k].inst) == tramp + p.entries[j].dst
            <==> (j <= k ==> SpanUnchanged(p.entries, j, k))
  {
    hide Installed, PlanOk, Decode, MakeEntry, Emitted, InsideDest;
    var e := p.entries[k];
    Bounds(mc, target, tramp, p);
    Place(mc, target, tramp, p, k);
    Place(mc, target, tramp, p, j);
    InsideIs(e, target);
    BranchMoves(target + e.src, tramp + e.dst, e.inst);
    InsideIsEarly(e, target);
    if j <= k {
      BackwardDistance(mc.table, mc.code, target, tramp, p, j, k);
    } else {
      ForwardDistance(mc.table, mc.code, target, tramp, p, k, j);
    }
  }

  lemma InsideIsEarly(e: Entry, target: int)
    requires e.kind == Classify(e.inst, e.src, target) && e.kind.Inside?
    ensures e.src < JMP_REL_SIZE
  {
  }

  // ---------------------------------------------------------------------
  // An input
  // ---------------------------------------------------------------------

  /** 74 10 (JE +16), EB FC (JMP -4, back to the JE), EB 20 (JMP +32). */
  const BACKWARD_BRANCH: seq<byte> := [0x74, 0x10, 0xEB, 0xFC, 0xEB, 0x20]

  lemma ShortKind(i: Hde, target: int, oldPos: int)
    requires 0 < target < USER_LIMIT && 0 <= oldPos < JMP_REL_SIZE
    requires (i.opcode == 0xEB || i.opcode == 0x74) && i.opcode2 == 0 && i.modrm == 0 && i.len == 2
    requires 0 <= target + oldPos + 2 + SExt8(i.imm.Imm8())
    ensures var dest := target + oldPos + 2 + SExt8(i.imm.Imm8());
            && InsideDest(target + oldPos, i) == dest
            && Classify(i, oldPos, target) == (if InPatch(target, dest) then Inside(dest)
                                               else if i.opcode == 0xEB then JumpOut(dest) else BranchOut(dest))
  {
    assert -128 <= SExt8(i.imm.Imm8()) < 128;
  }

  lemma ShortLength(m: Mem, i: Hde, kind: Kind, a: int, b: int)
    requires i.len >= 0
    ensures kind.Inside? ==> |Emitted(m, i, kind, a, b)| == i.len
    ensures kind.JumpOut? ==> |Emitted(m, i, kind, a, b)| == 14
    ensures kind.BranchOut? ==> |Emitted(m, i, kind, a, b)| == 16
  {
  }

  lemma ShortEntry(t: Table, m: Mem, target: int, tramp: int, oldPos: int, newPos: int)
    requires KnowsTemplates(t) && 0 < target < USER_LIMIT && 0 <= oldPos < JMP_REL_SIZE
    requires m(target + oldPos) == 0xEB || m(target + oldPos) == 0x74
    ensures var e := MakeEntry(t, m, target, tramp, oldPos, newPos);
            var dest := target + oldPos + 2 + SExt8(m(target + oldPos + 1));
            && e.src == oldPos && e.dst == newPos && !e.inst.Failed() && e.inst.len == 2
            && (0 <= dest ==>
                  && InsideDest(target + oldPos, e.inst) == dest
                  && e.kind == (if InPatch(target, dest) then Inside(dest)
                                else if m(target + oldPos) == 0xEB then JumpOut(dest) else BranchOut(dest))
                  && |e.bytes| == if InPatch(target, dest) then 2 else if m(target + oldPos) == 0xEB then 14 else 16)
  {
    hide Decode, KnowsTemplates, JmpAbs, JccAbs, Classify, Emitted, MakeEntry, InsideDest;
    DecodeShort(t, m, target + oldPos);
    EntryFields(t, m, target, tramp, oldPos, newPos);
    var i := Decode(t, m, target + oldPos);
    if 0 <= target + oldPos + 2 + SExt8(m(target + oldPos + 1)) {
      ShortKind(i, target, oldPos);
      ShortLength(m, i, Classify(i, oldPos, target), target + oldPos, tramp + newPos);
    }
  }

  /** The relocator accepts this code, but the copied backward jump leads into the middle of the relocated JE, 14 bytes
      into the trampoline, where no entry stands. */
  lemma BackwardBranchMisses(t: Table, m: Mem, target: int, tramp: int)
    requires KnowsTemplates(t) && 0 < target < USER_LIMIT && SLOT_SIZE < tramp < USER_LIMIT
    requires Holds(m, target, BACKWARD_BRANCH)
    ensures var p := RelocateAll(t, m, target, tramp);
            && p.Planned? && |p.plan.entries| == 3
            && p.plan.entries[1].kind == Inside(target)
            && InsideDest(target + 2, p.plan.entries[1].inst) == target
            && InsideDest(tramp + p.plan.entries[1].dst, p.plan.entries[1].inst) == tramp + 14
            && forall k :: 0 <= k < 3 ==> p.plan.entries[k].dst != 14
  {
    hide Decode, KnowsTemplates, MakeEntry, InsideDest;
    var bs := BACKWARD_BRANCH;
    assert m(target + 0) == bs[0] && m(target + 1) == bs[1] && m(target + 2) == bs[2];
    assert m(target + 3) == bs[3] && m(target + 4) == bs[4] && m(target + 5) == bs[5];
    var e0 := MakeEntry(t, m, target, tramp, 0, 0);
    var e1 := MakeEntry(t, m, target, tramp, 2, 16);
    var e2 := MakeEntry(t, m, target, tramp, 4, 18);
    ShortEntry(t, m, target, tramp, 0, 0);
    ShortEntry(t, m, target, tramp, 2, 16);
    ShortEntry(t, m, target, tramp, 4, 18);
    assert Relocate(t, m, target, tramp, 4, 18, target, [e0, e1]) == Planned(Plan([e0, e1] + [e2], 6, 32, target));
    assert [e0] + [e1] == [e0, e1];
    assert Relocate(t, m, target, tramp, 2, 16, 0, [e0]) == Relocate(t, m, target, tramp, 4, 18, target, [e0, e1]);
    assert [] + [e0] == [e0];
    assert RelocateAll(t, m, target, tramp) == Relocate(t, m, target, tramp, 2, 16, 0, [e0]);
    BranchMoves(target + 2, tramp + 16, e1.inst);
  }

  // ---------------------------------------------------------------------
  // RIP-relative forms
  // ---------------------------------------------------------------------

  /** Where the ModR/M byte stands. */
  function ModRmOffset(m: Mem, a: int, d: Hde): int
  {
    CountPrefixes(m, a, a + 16) + (if d.rex != 0 then 1 else 0) + (if d.opcode == 0x0f then 2 else 1)
  }

  /** The relocator's test for RIP-relative operands and its formula for the displacement, exactly: where the decoder has
      seen a 32-bit displacement, the four bytes are the ones behind ModR/M, which is the displacement; where it has
      not, their last one is ModR/M itself.  They are inside the buffer exactly when four bytes are left of the
      immediate, which a displacement implies. */
  lemma RipStore(t: Table, m: Mem, a: int)
    requires Consistent(t) && !Decode(t, m, a).Failed() && RipForm(Decode(t, m, a))
    ensures var d := Decode(t, m, a);
            var q := ModRmOffset(m, a, d);
            && m(a + q) == d.modrm
            && (d.flags.disp32 <==> DispOffset(d) == q + 1)
            && (!d.flags.disp32 <==> DispOffset(d) + 3 == q)
            && (StoreInside(d) <==> d.len - d.flags.ImmField() >= 4)
            && (d.flags.disp32 ==> StoreInside(d))
  {
    hide ScanPrefixes, ReadHead, Attribute, ImmediateWidths, ReadImmediate;
    var s := ScanPrefixes(m, a, a, NO_PREFIX);
    var h := ReadHead(m, a, s);
    var d := Decode(t, m, a);
    LengthDecomposition(t, m, a);
    DispPlaceFlag(t, m, a);
    PrefixCount(m, a, a, NO_PREFIX);
    HeadParts(t, m, a, s);
    FormOperand(t, m, a, h, Attribute(t, h));
    assert d.len <= 15;
  }

  lemma FormOperand(t: Table, m: Mem, a: int, h: Head, at: Attributes)
    ensures var o := ReadOperand(t, m, a, h, at);
            at.form.modrm && Mod(o.modrm) == 0 && Rm(o.modrm) == 5 ==>
              o.modrm == m(a + h.pos) && !o.hasSib && (o.dispSize == 0 || o.dispSize == 4)
  {
    hide BadOperand, BadLock, BadModRmOpcode, Load;
  }

  lemma SystemMoveBytes()
    ensures TableByte(DELTA_OPCODES + TableByte(DELTA_OPCODES + 8) + 0) == 1
    ensures TableByte(DELTA_PREFIXES + TableByte(DELTA_PREFIXES + 8) + 0) == 0
    ensures DELTA_PREFIXES + TableByte(DELTA_PREFIXES + 8) + 0 < TABLE_SIZE
  {
  }

  /** 0F 20 05: MOV RBP, CR0, whose mod field has no meaning. */
  lemma DecodeSystemMove(m: Mem, a: int)
    requires m(a) == 0x0F && m(a + 1) == 0x20 && m(a + 2) == 0x05
    ensures var d := Decode(Hde64Table(), m, a);
            !d.Failed() && d.len == 3 && RipForm(d) && !d.flags.disp32 && DispOffset(d) == -1
  {
    hide TableByte, Hde64Table, At, Lookup;
    var t := Hde64Table();
    assert ScanPrefixes(m, a, a, NO_PREFIX) == Scan(NO_PREFIX, 1);
    var h := Hde64.Head(2, 0, false, 0x0F, 0x20, 0x20, false, NO_PREFIX);
    assert ReadHead(m, a, Scan(NO_PREFIX, 1)) == h;
    SystemMoveBytes();
    LookupIs(DELTA_OPCODES, 0x20);
    PrefixLookup(0x20);
    assert Attribute(t, h) == Attributes(Form(true, false, false, false, false, false), 0, false);
    assert ReadOperand(t, m, a, h, Attribute(t, h)) == Operand(3, 5, 0, false, 0, 0, Attribute(t, h).form, false, false, false);
    assert ImmediateWidths(Attribute(t, h).form, false, false) == Widths(0, false, false, 0);
  }

  lemma PrefixLookup(op: byte)
    ensures Lookup(Hde64Table(), DELTA_PREFIXES, op) == TableByte(DELTA_PREFIXES + TableByte(DELTA_PREFIXES + op / 4) + op % 4)
  {
    hide TableByte, Hde64Table, At;
    PrefixIndex(op);
    AtTable(DELTA_PREFIXES + op / 4);
    AtTable(DELTA_PREFIXES + TableByte(DELTA_PREFIXES + op / 4) + op % 4);
  }

  /** Code that starts with it makes the relocator store one byte below its buffer. */
  lemma SystemMoveOverruns(m: Mem, target: int, tramp: int)
    requires m(target) == 0x0F && m(target + 1) == 0x20 && m(target + 2) == 0x05
    ensures RelocateAll(Hde64Table(), m, target, tramp) == Overrun
  {
    hide Decode, Hde64Table, DispOffset, Emitted;
    DecodeSystemMove(m, target);
    FirstOverruns(Hde64Table(), m, target, tramp);
  }

  lemma FirstOverruns(t: Table, m: Mem, target: int, tramp: int)
    requires var d := Decode(t, m, target); !d.Failed() && RipForm(d) && !StoreInside(d)
    ensures RelocateAll(t, m, target, tramp) == Overrun
  {
    hide Decode, Emitted, StoreInside;
    EntryFields(t, m, target, tramp, 0, 0);
    assert target + 0 == target;
  }

  lemma LoadBytes()
    ensures TableByte(TableByte(0x8B / 4) + 0x8B % 4) == 1
  {
  }

  /** An address-size prefix before 8B 05 (MOV EAX, [...]), with an operand-size prefix before that or without. */
  lemma DecodeAddressSize(m: Mem, a: int, both: bool)
    requires var b := if both then a + 1 else a;
             (both ==> m(a) == 0x66) && m(b) == 0x67 && m(b + 1) == 0x8B && m(b + 2) == 0x05
    ensures var d := Decode(Hde64Table(), m, a);
            && !d.Failed() && RipForm(d) && !d.flags.disp32 && d.opcode == 0x8B
            && d.len == (if both then 4 else 3) && DispOffset(d) == (if both then 0 else -1)
  {
    hide TableByte, Hde64Table, At, Lookup;
    var t := Hde64Table();
    var n := if both then 2 else 1;
    var pre := Prefixes(0, 0, false, false, false, both, true, false);
    PrefixedScan(m, a, both);
    var h := Hde64.Head(n + 1, 0, false, 0x8B, 0, 0x8B, false, pre);
    assert ReadHead(m, a, Scan(pre, n + 1)) == h;
    LoadBytes();
    LookupIs(0, 0x8B);
    assert Attribute(t, h) == Attributes(Form(true, false, false, false, false, false), 0, false);
    assert ReadOperand(t, m, a, h, Attribute(t, h)) == Operand(n + 2, 5, 0, false, 0, 0, Attribute(t, h).form, false, false, false);
    assert ImmediateWidths(Attribute(t, h).form, false, both) == Widths(0, false, false, 0);
  }

  lemma PrefixedScan(m: Mem, a: int, both: bool)
    requires var b := if both then a + 1 else a; (both ==> m(a) == 0x66) && m(b) == 0x67 && m(b + 1) == 0x8B
    ensures ScanPrefixes(m, a, a, NO_PREFIX)
         == Scan(Prefixes(0, 0, false, false, false, both, true, false), if both then 3 else 2)
  {
    var pre := Prefixes(0, 0, false, false, false, both, true, false);
    var b := if both then a + 1 else a;
    assert ScanPrefixes(m, a, b + 1, pre) == Scan(pre, b + 2 - a);
    assert ScanPrefixes(m, a, b, pre.(p67 := false, none := !both)) == Scan(pre, b + 2 - a);
  }

  lemma AddressSizeOverruns(m: Mem, target: int, tramp: int)
    requires m(target) == 0x67 && m(target + 1) == 0x8B && m(target + 2) == 0x05
    ensures RelocateAll(Hde64Table(), m, target, tramp) == Overrun
  {
    hide Decode, Hde64Table, DispOffset, Emitted;
    DecodeAddressSize(m, target, false);
    FirstOverruns(Hde64Table(), m, target, tramp);
  }

  /** With both prefixes the store is inside the buffer, the entry is accepted, and the new displacement replaces the
      whole instruction. */
  lemma AddressSizeReplaced(m: Mem, target: int, tramp: int)
    requires m(target) == 0x66 && m(target + 1) == 0x67 && m(target + 2) == 0x8B && m(target + 3) == 0x05
    ensures var e := MakeEntry(Hde64Table(), m, target, tramp, 0, 0);
            && !Overruns(e) && Accepts(e, target, 0, 0)
            && e.inst.len == 4 && e.bytes == Bytes4(NewDisp(e.inst, target, tramp))
  {
    hide Decode, Hde64Table, DispOffset, NewDisp, Bytes4;
    DecodeAddressSize(m, target, true);
    EntryFields(Hde64Table(), m, target, tramp, 0, 0);
    var e := MakeEntry(Hde64Table(), m, target, tramp, 0, 0);
    assert target + 0 == target && tramp + 0 == tramp;
    assert e.kind == RipRelative;
    assert e.bytes == Redisplaced(m, e.inst, target, tramp);
    assert e.bytes == Bytes4(NewDisp(e.inst, target, tramp));
  }

  // ---------------------------------------------------------------------
  // Operands out of reach
  // ---------------------------------------------------------------------

  /** FF 25 FF FF FF 7F: JMP through the pointer 2^31 - 1 bytes on. */
  const FAR_POINTER: seq<byte> := [0xFF, 0x25, 0xFF, 0xFF, 0xFF, 0x7F]

  /** It is accepted for any trampoline below, and then jumps through another pointer. */
  lemma FarOperandMisses(t: Table, m: Mem, target: int, tramp: int)
    requires KnowsTemplates(t) && Consistent(t) && 0 < tramp < target < USER_LIMIT && Holds(m, target, FAR_POINTER)
    ensures var p := RelocateAll(t, m, target, tramp);
            && p.Planned? && |p.plan.entries| == 1
            && var e := p.plan.entries[0];
               && e.kind == RipRelative && !Fits32(WantedDisp(target, tramp, e))
               && EffectiveAddress(tramp, e.inst.(disp := NewDisp(e.inst, target, tramp))) != EffectiveAddress(target, e.inst)
  {
    hide Decode, KnowsTemplates, Consistent, DispOffset, NewDisp, Bytes4, Fits32, WantedDisp, EffectiveAddress, Read32, Emitted;
    HoldsSix(m, target, 0xFF, 0x25, 0xFF, 0xFF, 0xFF, 0x7F);
    DecodeGroup5(t, m, target, 0x7FFF_FFFF);
    EntryFields(t, m, target, tramp, 0, 0);
    var e := MakeEntry(t, m, target, tramp, 0, 0);
    assert target + 0 == target && tramp + 0 == tramp;
    assert e.kind == RipRelative;
    RedisplacedLength(m, e.inst, target, tramp);
    assert RelocateAll(t, m, target, tramp) == Planned(Plan([] + [e], 6, 6, 0));
    FarWanted(target, tramp, e);
    OperandKept(target, tramp, e);
  }

  lemma RedisplacedLength(m: Mem, i: Hde, a: int, b: int)
    requires i.len >= 0
    ensures |Emitted(m, i, RipRelative, a, b)| == i.len
  {
  }

  lemma FarWanted(target: int, tramp: int, e: Entry)
    requires tramp < target && e.src == 0 && e.dst == 0 && e.inst.len == 6 && e.inst.disp == 0x7FFF_FFFF
    ensures !Fits32(WantedDisp(target, tramp, e))
  {
  }

  // ---------------------------------------------------------------------
  // Calls that come back
  // ---------------------------------------------------------------------

  /** A relocated call, reached by the target before it has left the relocated instructions, run through the trampoline
      while the target is patched: the run keeps off the patch exactly when the call has the same effect in the patched
      process, and the trampoline goes on with the effect that it has there. */
  lemma CallSeesPatch<D>(mc: Machine<D>, mc': Machine<D>, target: int, tramp: int, p: Plan, w: int, size: int, d: D, n: nat, i: int)
    returns (k: nat)
    requires Installed(mc, target, tramp, p) && Faithful(mc.table, mc.code, target, tramp, p)
    requires Patched(mc, mc', w, size) && (w + size <= tramp || tramp + SLOT_SIZE <= w)
    requires Run(mc, State(target, d), n + 1).Some? && KeepsOff(mc, mc', target, p, w, size, d, n) && Within(mc, target, p, d, n)
    requires RelocatedAt(p, target, i, Run(mc, State(target, d), n).value.ip) && p.entries[i].kind.Call?
    ensures var f, data := p.entries[i].kind.dest, Run(mc, State(target, d), n).value.data;
            && Run(mc, State(target, d), n + 1).value.data == mc.isa.call(f, data)
            && Run(mc', State(tramp, d), k).Some? && Run(mc', State(tramp, d), k).value.data == mc'.isa.call(f, data)
            && (KeepsOff(mc, mc', target, p, w, size, d, n + 1) <==> mc'.isa.call(f, data) == mc.isa.call(f, data))
  {
    hide Installed, Faithful, Patched, Callee, Step, Clear, ByValue, AtRelocated, RelocatedAt, KeepsOff;
    var st := State(target, d);
    var a := Run(mc, st, n).value;
    var k0 := TrackPatched(mc, mc', target, tramp, p, w, size, d, n);
    var b := Run(mc', State(tramp, d), k0).value;
    var j :| RelocatedAt(p, target, j, a.ip) && Corresponding(p, target, tramp, j, a.ip, b.ip);
    SameEntry(mc, target, tramp, p, i, j, a.ip);
    CallEntry(mc, target, tramp, p, i, a.data);
    CallInPatched(mc, mc', target, tramp, p, w, size, a.data, i);
    RunFrom(mc', State(tramp, d), k0, 2);
    k := k0 + 2;
    KeepsOffOneMore(mc, mc', target, p, w, size, d, n);
  }

  lemma SameEntry<D>(mc: Machine<D>, target: int, tramp: int, p: Plan, i: int, j: int, ip: int)
    requires Installed(mc, target, tramp, p) && RelocatedAt(p, target, i, ip) && RelocatedAt(p, target, j, ip)
    ensures i == j && 0 <= i < |p.entries| && ip == target + p.entries[i].src
  {
    hide Installed, Decode, MakeEntry;
    PlanBackToBack(mc, target, tramp, p);
    forall k | 0 <= k < |p.entries|
      ensures p.entries[k].inst.len >= 1
    {
      Place(mc, target, tramp, p, k);
    }
    if i < j {
      SourceIncreasing(p.entries, p.oldEnd, p.newEnd, i, j);
    } else if j < i {
      SourceIncreasing(p.entries, p.oldEnd, p.newEnd, j, i);
    }
  }

  lemma KeepsOffOneMore<D>(mc: Machine<D>, mc': Machine<D>, target: int, p: Plan, w: int, size: int, d: D, n: nat)
    requires KeepsOff(mc, mc', target, p, w, size, d, n) && Within(mc, target, p, d, n)
    ensures KeepsOff(mc, mc', target, p, w, size, d, n + 1) <==> CallKept(mc, mc', Run(mc, State(target, d), n).value)
  {
    hide Run, Within, Clear, CallKept;
    WithinIsSome(mc, target, p, d, n);
  }

  lemma WithinIsSome<D>(mc: Machine<D>, target: int, p: Plan, d: D, n: nat)
    requires Within(mc, target, p, d, n)
    ensures Run(mc, State(target, d), n).Some?
  {
    hide Run, AtRelocated;
  }

  lemma CallInPatched<D>(mc: Machine<D>, mc': Machine<D>, target: int, tramp: int, p: Plan, w: int, size: int, d: D, i: int)
    requires Installed(mc, target, tramp, p) && 0 <= i < |p.entries| && p.entries[i].kind.Call?
    requires Patched(mc, mc', w, size) && (w + size <= tramp || tramp + SLOT_SIZE <= w)
    ensures var e := p.entries[i];
            Run(mc', State(tramp + e.dst, d), 2) == Some(State(tramp + e.dst + 16, mc'.isa.call(e.kind.dest, d)))
  {
    hide Installed, Decode, MakeEntry, Step, Run, CallAbs, KnowsTemplates, PlanOk;
    Bounds(mc, target, tramp, p);
    Place(mc, target, tramp, p, i);
    CallEntry(mc, target, tramp, p, i, d);
    RunCallAbs(mc', tramp, tramp + p.entries[i].dst, p.entries[i].kind.dest, d);
  }

  /** 74 05 (JE to the RET), E8 F9 FF FF FF (CALL the function itself), C3 (RET). */
  const RECURSIVE: seq<byte> := [0x74, 0x05, 0xE8, 0xF9, 0xFF, 0xFF, 0xFF, 0xC3]

  lemma CallBytes()
    ensures TableByte(TableByte(0xE8 / 4) + 0xE8 % 4) == 0x50
    ensures TableByte(TableByte(0xC3 / 4) + 0xC3 % 4) == 0
  {
  }

  lemma DecodeCall(m: Mem, a: int)
    requires m(a) == 0xE8
    ensures var d := Decode(Hde64Table(), m, a);
            && !d.Failed() && d.len == 5 && d.opcode == 0xE8 && d.opcode2 == 0 && d.modrm == 0 && d.pre == NO_PREFIX
            && d.imm.Imm32() == Read32(m, a + 1)
  {
    hide TableByte, Hde64Table, At, Lookup;
    var t := Hde64Table();
    HeadWithoutPrefix(m, a);
    var h := Hde64.Head(1, 0, false, 0xE8, 0, 0xE8, false, NO_PREFIX);
    CallBytes();
    LookupIs(0, 0xE8);
    var at := Attributes(Form(false, false, false, true, false, true), 0, false);
    assert Attribute(t, h) == at;
    assert ReadOperand(t, m, a, h, at) == Operand(1, 0, 0, false, 0, 0, at.form, false, false, false);
    assert ImmediateWidths(at.form, false, false) == Widths(0, false, false, 4);
  }

  lemma DecodeRet(m: Mem, a: int)
    requires m(a) == 0xC3
    ensures var d := Decode(Hde64Table(), m, a); !d.Failed() && d.len == 1 && d.opcode == 0xC3 && d.opcode2 == 0 && d.modrm == 0
  {
    hide TableByte, Hde64Table, At, Lookup;
    var t := Hde64Table();
    HeadWithoutPrefix(m, a);
    var h := Hde64.Head(1, 0, false, 0xC3, 0, 0xC3, false, NO_PREFIX);
    CallBytes();
    LookupIs(0, 0xC3);
    var at := Attributes(Form(false, false, false, false, false, false), 0, false);
    assert Attribute(t, h) == at;
    assert ReadOperand(t, m, a, h, at) == Operand(1, 0, 0, false, 0, 0, at.form, false, false, false);
    NoImmediate(at.form);
  }

  lemma RecursiveBytes(m: Mem, a: int)
    requires Holds(m, a, RECURSIVE)
    ensures m(a) == 0x74 && m(a + 1) == 0x05 && m(a + 2) == 0xE8 && Read32(m, a + 3) == 0xFFFF_FFF9 && m(a + 7) == 0xC3
  {
    var bs := RECURSIVE;
    assert m(a + 0) == bs[0] && m(a + 1) == bs[1] && m(a + 2) == bs[2] && m(a + 3) == bs[3] && m(a + 4) == bs[4];
    assert m(a + 5) == bs[5] && m(a + 6) == bs[6] && m(a + 7) == bs[7];
  }

  lemma SelfCallEntry(m: Mem, target: int, tramp: int)
    requires 0 < target < USER_LIMIT && Holds(m, target, RECURSIVE)
    ensures var e := MakeEntry(Hde64Table(), m, target, tramp, 2, 16);
            !e.inst.Failed() && e.src == 2 && e.dst == 16 && e.kind == Call(target) && e.inst.len == 5 && |e.bytes| == 16
  {
    hide Hde64Table, Decode, Read32;
    RecursiveBytes(m, target);
    DecodeCall(m, target + 2);
    EntryFields(Hde64Table(), m, target, tramp, 2, 16);
  }

  lemma ReturnEntry(m: Mem, target: int, tramp: int)
    requires 0 < target < USER_LIMIT && Holds(m, target, RECURSIVE)
    ensures var e := MakeEntry(Hde64Table(), m, target, tramp, 7, 32);
            !e.inst.Failed() && e.src == 7 && e.dst == 32 && e.kind == JumpBack && e.inst.len == 1 && |e.bytes| == 14
  {
    hide Hde64Table, Decode, Read32;
    RecursiveBytes(m, target);
    DecodeRet(m, target + 7);
    EntryFields(Hde64Table(), m, target, tramp, 7, 32);
  }

  /** It is accepted, with a trampoline of 46 bytes, and relocated faithfully. */
  lemma RecursiveRelocates(m: Mem, target: int, tramp: int)
    requires 0 < target < USER_LIMIT && Holds(m, target, RECURSIVE)
    ensures var p := RelocateAll(Hde64Table(), m, target, tramp);
            && p.Planned? && |p.plan.entries| == 3 && p.plan.newEnd == 46
            && p.plan.entries[0].src == 0 && p.plan.entries[0].kind == BranchOut(target + 7)
            && p.plan.entries[1].src == 2 && p.plan.entries[1].kind == Call(target) && p.plan.entries[2].kind == JumpBack
            && Faithful(Hde64Table(), m, target, tramp, p.plan)
  {
    hide Decode, MakeEntry, InsideDest, Hde64Table, Read32, KnowsTemplates;
    var t := Hde64Table();
    TableKnowsTemplates();
    RecursiveBytes(m, target);
    var e0 := MakeEntry(t, m, target, tramp, 0, 0);
    var e1 := MakeEntry(t, m, target, tramp, 2, 16);
    var e2 := MakeEntry(t, m, target, tramp, 7, 32);
    ShortEntry(t, m, target, tramp, 0, 0);
    SelfCallEntry(m, target, tramp);
    ReturnEntry(m, target, tramp);
    assert Relocate(t, m, target, tramp, 7, 32, 0, [e0, e1]) == Planned(Plan([e0, e1] + [e2], 8, 46, 0));
    assert [e0] + [e1] == [e0, e1];
    assert Relocate(t, m, target, tramp, 2, 16, 0, [e0]) == Relocate(t, m, target, tramp, 7, 32, 0, [e0, e1]);
    assert [] + [e0] == [e0];
    assert RelocateAll(t, m, target, tramp) == Relocate(t, m, target, tramp, 2, 16, 0, [e0]);
  }

  /** Where the branch is not taken, its second instruction calls the function itself. */
  lemma ReachesSelfCall<D>(mc: Machine<D>, target: int, d: D)
    requires 0 < target < USER_LIMIT && mc.table == Hde64Table() && Holds(mc.code, target, RECURSIVE) && !Condition(mc.isa, 4, d)
    ensures Run(mc, State(target, d), 1) == Some(State(target + 2, d)) && !ByValue(mc, State(target, d))
    ensures Run(mc, State(target, d), 2) == Some(State(target + 7, mc.isa.call(target, d)))
    ensures Callee(mc, State(target, d)) == None
  {
    hide Decode, Hde64Table, Read32, KnowsTemplates, Condition, Covered, Step;
    TableKnowsTemplates();
    RecursiveBytes(mc.code, target);
    StepJccShort(mc, target, d);
    DecodeShort(mc.table, mc.code, target);
    RunOne(mc, State(target, d));
    DecodeCall(mc.code, target + 2);
    PlainIsCovered(Decode(mc.table, mc.code, target + 2));
    StepOther(mc, State(target + 2, d), Decode(mc.table, mc.code, target + 2));
    RunTwo(mc, State(target, d));
  }

  /** In the patched process a call of the target is a call of the detour.  So a function that calls itself does what the
      detour does there, when it is run through its trampoline, and the run keeps off the patch only if that is what the
      function itself does. */
  lemma RecursionEntersDetour<D>(mc: Machine<D>, mc': Machine<D>, target: int, tramp: int, p: Plan, w: int, size: int,
                                 detour: int, d: D) returns (k: nat)
    requires Installed(mc, target, tramp, p) && RelocateAll(mc.table, mc.code, target, tramp) == Planned(p)
    requires mc.table == Hde64Table() && Holds(mc.code, target, RECURSIVE) && !Condition(mc.isa, 4, d)
    requires Patched(mc, mc', w, size) && (w + size <= tramp || tramp + SLOT_SIZE <= w)
    requires mc'.isa.call(target, d) == mc'.isa.call(detour, d)
    ensures Run(mc, State(target, d), 2) == Some(State(target + 7, mc.isa.call(target, d)))
    ensures Run(mc', State(tramp, d), k).Some? && Run(mc', State(tramp, d), k).value.data == mc'.isa.call(detour, d)
    ensures KeepsOff(mc, mc', target, p, w, size, d, 2) <==> mc'.isa.call(detour, d) == mc.isa.call(target, d)
  {
    hide Installed, Patched, Callee, Step, ByValue, Hde64Table, Decode, RelocateAll, Holds, Condition, Run, Faithful, Clear;
    Bounds(mc, target, tramp, p);
    RecursiveRelocates(mc.code, target, tramp);
    ReachesSelfCall(mc, target, d);
    StartFollows(mc, target, tramp, p, d);
    RunZero(mc, State(target, d));
    assert RelocatedAt(p, target, 1, target + 2);
    assert Within(mc, target, p, d, 1);
    FirstStepKeepsOff(mc, mc', target, p, w, size, d);
    k := CallSeesPatch(mc, mc', target, tramp, p, w, size, d, 1, 1);
  }

  lemma FirstStepKeepsOff<D>(mc: Machine<D>, mc': Machine<D>, target: int, p: Plan, w: int, size: int, d: D)
    requires Within(mc, target, p, d, 0) && Callee(mc, State(target, d)) == None
    ensures KeepsOff(mc, mc', target, p, w, size, d, 1)
  {
    hide Callee, Run, Clear;
    RunZero(mc, State(target, d));
  }
}
