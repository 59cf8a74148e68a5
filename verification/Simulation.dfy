/** Relocation preserves meaning: executing the trampoline simulates executing the unpatched target. */
module Simulation {
  import opened Words
  import opened Hde64
  import opened Hde64Laws
  import opened Instructions
  import opened X64
  import opened Relocation
  import opened Layout

  /** The trampoline of plan p has been written at tramp, for code at target that is not patched (yet). */
  ghost predicate Installed<D>(mc: Machine<D>, target: int, tramp: int, p: Plan)
  {
    && Consistent(mc.table) && KnowsTemplates(mc.table)
    && 0 < target < USER_LIMIT && 0 < tramp < USER_LIMIT
    && PlanOk(mc.table, mc.code, target, tramp, p)
    && (forall k :: 0 <= k < |p.entries| ==> Holds(mc.code, tramp + p.entries[k].dst, p.entries[k].bytes))
    && (forall x :: tramp <= x < tramp + SLOT_SIZE ==> x in mc.frozen)
  }

  /** The displacement that keeps the operand of a RIP-relative instruction. */
  function WantedDisp(target: int, tramp: int, e: Entry): int
  {
    target + e.src + e.inst.len + SExt32(e.inst.disp) - (tramp + e.dst + e.inst.len)
  }

  /** No instruction from entry j up to entry i changes its length. */
  ghost predicate SpanUnchanged(es: seq<Entry>, j: int, i: int)
    requires 0 <= j && i <= |es|
  {
    forall k :: j <= k < i ==> |es[k].bytes| == es[k].inst.len
  }

  /** What the code does not check.  A RIP-relative operand must be within reach of the trampoline; a branch into the
      patched bytes must go to an instruction, and backwards only over instructions that keep their lengths. */
  ghost predicate EntryFaithful(t: Table, m: Mem, target: int, tramp: int, es: seq<Entry>, i: int)
    requires 0 <= i < |es|
  {
    match es[i].kind
    case RipRelative => RipOperand(es[i].inst) && Fits32(WantedDisp(target, tramp, es[i]))
    case Inside(dest) =>
      && Boundary(t, m, target, 0, dest - target)
      && (forall j :: 0 <= j <= i && es[j].src == dest - target ==> SpanUnchanged(es, j, i))
    case _ => true
  }

  ghost predicate Faithful(t: Table, m: Mem, target: int, tramp: int, p: Plan)
  {
    forall i :: 0 <= i < |p.entries| ==> EntryFaithful(t, m, target, tramp, p.entries, i)
  }

  /** The target's run and the trampoline's agree on the data, and stand at corresponding instructions or, having
      left the relocated code, at the same address. */
  ghost predicate Related<D>(p: Plan, target: int, tramp: int, a: State<D>, b: State<D>)
  {
    && a.data == b.data
    && (a.ip == b.ip || exists k :: Corresponding(p, target, tramp, k, a.ip, b.ip))
  }

  ghost predicate Corresponding(p: Plan, target: int, tramp: int, k: int, ip: int, ip': int)
  {
    0 <= k < |p.entries| && ip == target + p.entries[k].src && ip' == tramp + p.entries[k].dst
  }

  /** A relocated instruction stands at ip; the jump back is none. */
  ghost predicate AtRelocated(p: Plan, target: int, ip: int)
  {
    exists k :: RelocatedAt(p, target, k, ip)
  }

  ghost predicate RelocatedAt(p: Plan, target: int, k: int, ip: int)
  {
    0 <= k < |p.entries| && !p.entries[k].kind.JumpBack? && ip == target + p.entries[k].src
  }

  /** Related says where both runs may stand, this where they do.  within: the target's run has not left the relocated
      instructions yet.  Otherwise the runs have met, or the trampoline is about to jump back. */
  ghost predicate Follows<D>(p: Plan, target: int, tramp: int, within: bool, a: State<D>, b: State<D>)
  {
    && a.data == b.data
    && if within then exists k :: RelocatedAt(p, target, k, a.ip) && Corresponding(p, target, tramp, k, a.ip, b.ip)
       else a.ip == b.ip || exists k :: Corresponding(p, target, tramp, k, a.ip, b.ip) && p.entries[k].kind.JumpBack?
  }

  // ---------------------------------------------------------------------
  // Places
  // ---------------------------------------------------------------------

  lemma Place<D>(mc: Machine<D>, target: int, tramp: int, p: Plan, k: int)
    requires Installed(mc, target, tramp, p) && 0 <= k < |p.entries|
    ensures var e := p.entries[k];
            && 0 <= e.src <= 19 && 0 <= e.dst && e.dst + |e.bytes| <= TRAMPOLINE_MAX_SIZE
            && e == MakeEntry(mc.table, mc.code, target, tramp, e.src, e.dst)
            && e.inst == Decode(mc.table, mc.code, target + e.src) && !e.inst.Failed()
            && (e.inst.opcode2 != 0 ==> e.inst.opcode == 0x0F)
            && e.kind == Classify(e.inst, e.src, target) && !e.kind.LoopOut?
            && e.bytes == Emitted(mc.code, e.inst, e.kind, target + e.src, tramp + e.dst)
            && Holds(mc.code, tramp + e.dst, e.bytes)
  {
    hide Decode, Emitted, Classify;
    assert EntryOk(mc.table, mc.code, target, tramp, p.entries[k]);
    EntryFields(mc.table, mc.code, target, tramp, p.entries[k].src, p.entries[k].dst);
    TwoByteOpcode(mc.table, mc.code, target + p.entries[k].src);
  }

  /** Relocated instructions start in the first five bytes. */
  lemma RelocatedIsEarly<D>(mc: Machine<D>, target: int, tramp: int, p: Plan, ip: int)
    requires Installed(mc, target, tramp, p) && AtRelocated(p, target, ip)
    ensures InPatch(target, ip)
  {
    hide Installed, Decode, MakeEntry, Emitted, Holds;
    var k :| RelocatedAt(p, target, k, ip);
    Place(mc, target, tramp, p, k);
  }

  lemma EarlyIsRelocated<D>(mc: Machine<D>, target: int, tramp: int, p: Plan, k: int)
    requires Installed(mc, target, tramp, p) && 0 <= k < |p.entries|
    ensures p.entries[k].kind.JumpBack? <==> p.entries[k].src >= JMP_REL_SIZE
  {
    hide Installed, Decode, MakeEntry, Emitted, Holds;
    Place(mc, target, tramp, p, k);
  }

  lemma EntryFields(t: Table, m: Mem, target: int, tramp: int, oldPos: int, newPos: int)
    ensures var e := MakeEntry(t, m, target, tramp, oldPos, newPos);
            && e.src == oldPos && e.dst == newPos && e.inst == Decode(t, m, target + oldPos)
            && e.kind == Classify(e.inst, oldPos, target)
            && e.bytes == Emitted(m, e.inst, e.kind, target + oldPos, tramp + newPos)
  {
    hide Decode, Emitted, Classify;
  }

  /** Falling through to the next instruction keeps the runs related. */
  lemma NextRelated<D>(mc: Machine<D>, target: int, tramp: int, p: Plan, k: int, d: D)
    requires Installed(mc, target, tramp, p) && 0 <= k < |p.entries| - 1
    ensures var e := p.entries[k];
            var a, b := State(Wrap64(target + e.src + e.inst.len), d), State(Wrap64(tramp + e.dst + |e.bytes|), d);
            Follows(p, target, tramp, AtRelocated(p, target, a.ip), a, b)
  {
    hide Installed, MakeEntry, Decode, Classify, Emitted, Holds;
    PlanBackToBack(mc, target, tramp, p);
    Bounds(mc, target, tramp, p);
    Adjacent(p.entries, p.oldEnd, p.newEnd, k);
    Place(mc, target, tramp, p, k);
    Place(mc, target, tramp, p, k + 1);
    var e := p.entries[k];
    var ip := Wrap64(target + e.src + e.inst.len);
    assert Corresponding(p, target, tramp, k + 1, ip, Wrap64(tramp + e.dst + |e.bytes|));
    EarlyIsRelocated(mc, target, tramp, p, k + 1);
    if p.entries[k + 1].kind.JumpBack? {
      if AtRelocated(p, target, ip) {
        RelocatedIsEarly(mc, target, tramp, p, ip);
      }
    } else {
      assert RelocatedAt(p, target, k + 1, ip);
    }
  }

  lemma Bounds<D>(mc: Machine<D>, target: int, tramp: int, p: Plan)
    requires Installed(mc, target, tramp, p)
    ensures 0 < target < USER_LIMIT && 0 < tramp < USER_LIMIT
    ensures Consistent(mc.table) && KnowsTemplates(mc.table)
    ensures forall x :: tramp <= x < tramp + SLOT_SIZE ==> x in mc.frozen
    ensures PlanOk(mc.table, mc.code, target, tramp, p)
  {
    hide PlanOk, Holds, Consistent, KnowsTemplates;
  }

  lemma PlanBackToBack<D>(mc: Machine<D>, target: int, tramp: int, p: Plan)
    requires Installed(mc, target, tramp, p)
    ensures BackToBack(p.entries, p.oldEnd, p.newEnd)
  {
    hide EntryOk, MakeEntry, Holds;
  }

  // ---------------------------------------------------------------------
  // Templates
  // ---------------------------------------------------------------------

  /** Frozen(mc, a, n): the n bytes at a belong to the library. */
  ghost predicate Frozen<D>(mc: Machine<D>, a: int, n: int)
  {
    forall x :: a <= x < a + n ==> x in mc.frozen
  }

  lemma HoldsParts(m: Mem, a: int, x: seq<byte>, y: seq<byte>)
    requires Holds(m, a, x + y)
    ensures Holds(m, a, x) && Holds(m, a + |x|, y)
  {
    forall k | 0 <= k < |x|
      ensures m(a + k) == x[k]
    {
      assert (x + y)[k] == x[k];
    }
    forall k | 0 <= k < |y|
      ensures m(a + |x| + k) == y[k]
    {
      assert (x + y)[|x| + k] == y[k];
      assert a + (|x| + k) == a + |x| + k;
    }
  }

  lemma HoldsSix(m: Mem, a: int, b0: byte, b1: byte, b2: byte, b3: byte, b4: byte, b5: byte)
    requires Holds(m, a, [b0, b1, b2, b3, b4, b5])
    ensures m(a) == b0 && m(a + 1) == b1 && Read32(m, a + 2) == Join4(b2, b3, b4, b5)
  {
    var bs := [b0, b1, b2, b3, b4, b5];
    assert m(a + 0) == bs[0] && m(a + 1) == bs[1] && m(a + 2) == bs[2] && m(a + 3) == bs[3] && m(a + 4) == bs[4] && m(a + 5) == bs[5];
  }

  lemma HoldsTwo(m: Mem, a: int, b0: byte, b1: byte)
    requires Holds(m, a, [b0, b1])
    ensures m(a) == b0 && m(a + 1) == b1
  {
    var bs := [b0, b1];
    assert m(a + 0) == bs[0] && m(a + 1) == bs[1];
  }

  /** The pointer behind FF /r [rip + disp] is the template's address field. */
  lemma AddressField<D>(mc: Machine<D>, ea: int, dest: int, d: D)
    requires Holds(mc.code, ea, Bytes8(dest)) && Frozen(mc, ea, 8) && 0 <= dest < TWO64
    ensures LoadPointer(mc, ea, d) == dest
  {
    hide Bytes8, Read64;
    assert Read(mc.code, ea, 8) == Bytes8(dest);
    Read64OfBytes8(mc.code, ea, dest);
    assert Holds8(mc, ea);
  }

  /** The instruction at ip lies in the slot at tramp. */
  ghost predicate StepInSlot<D>(mc: Machine<D>, tramp: int, ip: int)
  {
    tramp <= ip && ip + Decode(mc.table, mc.code, ip).len <= tramp + SLOT_SIZE
  }

  /** n steps from st execute code in the slot only. */
  ghost predicate Confined<D>(mc: Machine<D>, tramp: int, st: State<D>, n: nat)
  {
    forall i: nat :: i < n ==> Run(mc, st, i).Some? && StepInSlot(mc, tramp, Run(mc, st, i).value.ip)
  }

  lemma ConfinedOne<D>(mc: Machine<D>, tramp: int, st: State<D>)
    requires StepInSlot(mc, tramp, st.ip)
    ensures Confined(mc, tramp, st, 1)
  {
    hide StepInSlot;
  }

  lemma ConfinedTwo<D>(mc: Machine<D>, tramp: int, st: State<D>)
    requires StepInSlot(mc, tramp, st.ip) && Step(mc, st).Some? && StepInSlot(mc, tramp, Step(mc, st).value.ip)
    ensures Confined(mc, tramp, st, 2)
  {
    hide StepInSlot, Step, Run;
    RunOne(mc, st);
    RunZero(mc, st);
  }

  /** The calls among the n steps from st are calls of f with data d. */
  ghost predicate CallsLike<D>(mc: Machine<D>, f: Option<int>, d: D, st: State<D>, n: nat)
  {
    forall i: nat :: i < n ==> var s := Run(mc, st, i); s.Some? && Callee(mc, s.value).Some? ==>
      Callee(mc, s.value) == f && s.value.data == d
  }

  lemma CallsLikeOne<D>(mc: Machine<D>, f: Option<int>, d: D, st: State<D>)
    requires Callee(mc, st).Some? ==> Callee(mc, st) == f && st.data == d
    ensures CallsLike(mc, f, d, st, 1)
  {
    hide Callee;
  }

  lemma CallsLikeTwo<D>(mc: Machine<D>, f: Option<int>, d: D, st: State<D>)
    requires Callee(mc, st).Some? ==> Callee(mc, st) == f && st.data == d
    requires Step(mc, st).Some? && Callee(mc, Step(mc, st).value).None?
    ensures CallsLike(mc, f, d, st, 2)
  {
    hide Callee, Step, Run;
    RunOne(mc, st);
    RunZero(mc, st);
  }

  lemma RunZero<D>(mc: Machine<D>, st: State<D>)
    ensures Run(mc, st, 0) == Some(st)
  {
  }

  lemma PlainIsCovered(i: Hde)
    requires i.pre == NO_PREFIX && i.opcode != 0xC7 && (RipForm(i) ==> i.flags.disp32)
    ensures Covered(i)
  {
  }

  lemma StepGroup5<D>(mc: Machine<D>, a: int, modrm: byte, disp: int, dest: int, d: D)
    requires KnowsTemplates(mc.table) && 0 <= a < USER_LIMIT + 64 && 0 <= disp < 16
    requires mc.code(a) == 0xFF && mc.code(a + 1) == modrm && Read32(mc.code, a + 2) == disp
    requires LoadPointer(mc, a + 6 + disp, d) == dest
    ensures modrm == 0x25 ==> Step(mc, State(a, d)) == Some(State(dest, d))
    ensures modrm == 0x15 ==> Step(mc, State(a, d)) == Some(State(a + 6, mc.isa.call(dest, d)))
    ensures modrm == 0x25 || modrm == 0x15 ==> Decode(mc.table, mc.code, a).len == 6
    ensures modrm == 0x25 || modrm == 0x15 ==> Callee(mc, State(a, d)) == if modrm == 0x15 then Some(dest) else None
  {
    hide Decode, KnowsTemplates, Step, DispOffset, Read32, LoadPointer, Covered, Follow;
    if modrm == 0x25 || modrm == 0x15 {
      DecodeGroup5(mc.table, mc.code, a, disp);
      PlainIsCovered(Decode(mc.table, mc.code, a));
      StepRip(mc, State(a, d), Decode(mc.table, mc.code, a));
    }
  }

  lemma JmpAbsFields(m: Mem, a: int, dest: int)
    requires Holds(m, a, JmpAbs(dest))
    ensures m(a) == 0xFF && m(a + 1) == 0x25 && Read32(m, a + 2) == 0 && Holds(m, a + 6, Bytes8(dest))
  {
    hide Bytes8, Holds, Read32;
    HoldsParts(m, a, [0xFF, 0x25, 0x00, 0x00, 0x00, 0x00], Bytes8(dest));
    HoldsSix(m, a, 0xFF, 0x25, 0x00, 0x00, 0x00, 0x00);
  }

  /** FF25 00000000 address jumps to the address. */
  lemma StepJmpAbs<D>(mc: Machine<D>, a: int, dest: int, d: D)
    requires KnowsTemplates(mc.table) && 0 <= a < USER_LIMIT + 64 && 0 <= dest < TWO64
    requires Holds(mc.code, a, JmpAbs(dest)) && Frozen(mc, a, 14)
    ensures Step(mc, State(a, d)) == Some(State(dest, d)) && Callee(mc, State(a, d)) == None
    ensures Decode(mc.table, mc.code, a).len == 6
  {
    hide KnowsTemplates, Step, LoadPointer, Bytes8, Holds, Read32, JmpAbs, Decode;
    JmpAbsFields(mc.code, a, dest);
    AddressField(mc, a + 6, dest, d);
    StepGroup5(mc, a, 0x25, 0, dest, d);
  }

  /** FF15 00000002 EB08 address calls the address and goes on behind the template. */
  lemma RunCallAbs<D>(mc: Machine<D>, tramp: int, a: int, dest: int, d: D)
    requires KnowsTemplates(mc.table) && 0 <= a < USER_LIMIT + 64 && 0 <= dest < TWO64 && tramp <= a <= tramp + 48
    requires Holds(mc.code, a, CallAbs(dest)) && Frozen(mc, a, 16)
    ensures Run(mc, State(a, d), 2) == Some(State(a + 16, mc.isa.call(dest, d)))
    ensures Confined(mc, tramp, State(a, d), 2) && CallsLike(mc, Some(dest), d, State(a, d), 2)
  {
    hide KnowsTemplates, Step, Run, LoadPointer, Bytes8, Holds, Read32, Decode, Covered, Confined;
    var head, jump := [0xFF, 0x15, 0x02, 0x00, 0x00, 0x00], [0xEB, 0x08];
    assert CallAbs(dest) == head + jump + Bytes8(dest);
    HoldsParts(mc.code, a, head + jump, Bytes8(dest));
    HoldsParts(mc.code, a, head, jump);
    HoldsSix(mc.code, a, 0xFF, 0x15, 0x02, 0x00, 0x00, 0x00);
    HoldsTwo(mc.code, a + 6, 0xEB, 0x08);
    AddressField(mc, a + 8, dest, d);
    StepGroup5(mc, a, 0x15, 2, dest, d);
    StepJmpShort(mc, a + 6, mc.isa.call(dest, d));
    RunTwo(mc, State(a, d));
    ConfinedTwo(mc, tramp, State(a, d));
    CallsLikeTwo(mc, Some(dest), d, State(a, d));
  }

  lemma StepJmpShort<D>(mc: Machine<D>, a: int, d: D)
    requires KnowsTemplates(mc.table) && 0 <= a < USER_LIMIT + 128
    requires mc.code(a) == 0xEB
    ensures Step(mc, State(a, d)) == Some(State(Wrap64(a + 2 + SExt8(mc.code(a + 1))), d)) && Callee(mc, State(a, d)) == None
    ensures Decode(mc.table, mc.code, a).len == 2
  {
    hide KnowsTemplates, Step, Decode, Covered;
    DecodeShort(mc.table, mc.code, a);
    PlainIsCovered(Decode(mc.table, mc.code, a));
    StepOther(mc, State(a, d), Decode(mc.table, mc.code, a));
  }

  lemma StepJccShort<D>(mc: Machine<D>, a: int, d: D)
    requires KnowsTemplates(mc.table) && 0 <= a < USER_LIMIT + 128
    requires mc.code(a) / 16 == 7
    ensures Step(mc, State(a, d))
         == Some(State(if Condition(mc.isa, mc.code(a) % 16, d) then Wrap64(a + 2 + SExt8(mc.code(a + 1))) else a + 2, d))
    ensures Callee(mc, State(a, d)) == None
    ensures Decode(mc.table, mc.code, a).len == 2
  {
    hide KnowsTemplates, Step, Decode, Covered, Condition;
    DecodeShort(mc.table, mc.code, a);
    PlainIsCovered(Decode(mc.table, mc.code, a));
    StepOther(mc, State(a, d), Decode(mc.table, mc.code, a));
  }

  lemma JccAbsFields(m: Mem, a: int, op: byte, dest: int)
    requires Holds(m, a, JccAbs(op, dest))
    ensures m(a) == op && m(a + 1) == 0x0E && Holds(m, a + 2, JmpAbs(dest))
  {
    hide Bytes8, Holds;
    assert JccAbs(op, dest) == [op, 0x0E] + JmpAbs(dest);
    HoldsParts(m, a, [op, 0x0E], JmpAbs(dest));
    HoldsTwo(m, a, op, 0x0E);
  }

  /** 7x 0E FF25 00000000 address goes on behind the template if condition x holds, else to the address. */
  lemma RunJccAbs<D>(mc: Machine<D>, tramp: int, a: int, op: byte, dest: int, d: D)
    requires KnowsTemplates(mc.table) && 0 <= a < USER_LIMIT + 62 && 0 <= dest < TWO64 && op / 16 == 7
    requires tramp <= a <= tramp + 48
    requires Holds(mc.code, a, JccAbs(op, dest)) && Frozen(mc, a, 16)
    ensures Condition(mc.isa, op % 16, d) ==> Run(mc, State(a, d), 1) == Some(State(a + 16, d))
    ensures !Condition(mc.isa, op % 16, d) ==> Run(mc, State(a, d), 2) == Some(State(dest, d))
    ensures var n := if Condition(mc.isa, op % 16, d) then 1 else 2;
            Confined(mc, tramp, State(a, d), n) && CallsLike(mc, None, d, State(a, d), n)
  {
    hide KnowsTemplates, Step, Run, JmpAbs, JccAbs, Holds, Condition, Decode, Confined;
    JccAbsFields(mc.code, a, op, dest);
    StepJccShort(mc, a, d);
    RunOne(mc, State(a, d));
    if !Condition(mc.isa, op % 16, d) {
      StepJmpAbs(mc, a + 2, dest, d);
      RunTwo(mc, State(a, d));
    }
    if Condition(mc.isa, op % 16, d) {
      ConfinedOne(mc, tramp, State(a, d));
      CallsLikeOne(mc, None, d, State(a, d));
    } else {
      ConfinedTwo(mc, tramp, State(a, d));
      CallsLikeTwo(mc, None, d, State(a, d));
    }
  }

  // ---------------------------------------------------------------------
  // Instructions that are copied
  // ---------------------------------------------------------------------

  lemma HoldsAgree(m: Mem, a: int, b: int, n: nat)
    requires Holds(m, b, Read(m, a, n))
    ensures Agree(m, a, m, b, 0, n)
    ensures Read(m, b, n) == Read(m, a, n)
  {
    var bs := Read(m, a, n);
    forall x {:trigger m(x)} | a <= x < a + n
      ensures m(x) == m(x - a + b)
    {
      assert bs[x - a] == m(a + (x - a));
      assert m(b + (x - a)) == bs[x - a];
      assert b + (x - a) == x - a + b;
    }
  }

  lemma CopyDecodes<D>(mc: Machine<D>, target: int, tramp: int, p: Plan, k: int)
    requires Installed(mc, target, tramp, p) && 0 <= k < |p.entries|
    requires p.entries[k].kind.Inside? || p.entries[k].kind.Return? || p.entries[k].kind.Verbatim?
    ensures var e := p.entries[k];
            && e.inst == Decode(mc.table, mc.code, tramp + e.dst) && |e.bytes| == e.inst.len
            && Read(mc.code, tramp + e.dst, e.inst.len) == Read(mc.code, target + e.src, e.inst.len)
  {
    hide Decode, Classify, PlanOk, EntryOk, MakeEntry;
    var e := p.entries[k];
    Place(mc, target, tramp, p, k);
    assert e.bytes == Read(mc.code, target + e.src, e.inst.len);
    HoldsAgree(mc.code, target + e.src, tramp + e.dst, e.inst.len);
    DecodeLocal(mc.table, mc.code, target + e.src, mc.code, tramp + e.dst);
  }

  // ---------------------------------------------------------------------
  // Steps
  // ---------------------------------------------------------------------

  lemma StepOther<D>(mc: Machine<D>, st: State<D>, i: Hde)
    requires i == Decode(mc.table, mc.code, st.ip) && !i.Failed() && !RipForm(i)
    ensures Step(mc, st) == if Covered(i) then Some(ExecuteOther(mc, st, i)) else None
  {
    hide Decode, ExecuteOther, Covered;
  }

  lemma StepRip<D>(mc: Machine<D>, st: State<D>, i: Hde)
    requires i == Decode(mc.table, mc.code, st.ip) && !i.Failed() && RipOperand(i) && 0 <= DispOffset(i) <= i.len - 4
    ensures Step(mc, st) == if Covered(i) then Some(ExecuteRip(mc, st, i)) else None
  {
    hide Decode, ExecuteRip, Covered, DispOffset;
  }

  /** The instruction has a meaning, whatever it is: what the next lemmas say of the machine, by opcode, they say of all
      such code. */
  predicate Meant(i: Hde)
  {
    && !i.Failed() && i.opcode != 0xC7 && !(i.pre.p66 && i.flags.relative)
    && !(i.pre.p67 && i.flags.modrm && i.modrm < 0xC0) && (i.modrm % 8 == 5 && i.modrm < 0x40 ==> i.flags.disp32)
  }

  /** 7x rel8 and 0F 8x rel32: x is the condition; odd ones are the negations of the even ones before. */
  lemma StepConditional<D>(mc: Machine<D>, st: State<D>, i: Hde, cc: int)
    requires i == Decode(mc.table, mc.code, st.ip) && Meant(i) && !RipForm(i)
    requires 0 <= cc < 16 && (i.opcode == 0x70 + cc || (i.opcode == 0x0F && i.opcode2 == 0x80 + cc))
    ensures var taken := if cc % 2 == 0 then mc.isa.flag(cc / 2, st.data) else !mc.isa.flag(cc / 2, st.data);
            var rel := if i.opcode == 0x0F then SExt32(i.imm.Imm32()) else SExt8(i.imm.b0);
            Step(mc, st) == Some(State(Wrap64(st.ip + i.len + if taken then rel else 0), st.data))
  {
    hide Decode, SExt8, SExt32, Wrap64;
    StepOther(mc, st, i);
  }

  /** EB rel8, E9 rel32 and E8 rel32. */
  lemma StepDirect<D>(mc: Machine<D>, st: State<D>, i: Hde)
    requires i == Decode(mc.table, mc.code, st.ip) && Meant(i) && !RipForm(i)
    ensures i.opcode == 0xEB ==> Step(mc, st) == Some(State(Wrap64(st.ip + i.len + SExt8(i.imm.b0)), st.data))
    ensures i.opcode == 0xE9 ==> Step(mc, st) == Some(State(Wrap64(st.ip + i.len + SExt32(i.imm.Imm32())), st.data))
    ensures i.opcode == 0xE8 ==>
              var f := Wrap64(st.ip + i.len + SExt32(i.imm.Imm32()));
              Step(mc, st) == Some(State(Wrap64(st.ip + i.len), mc.isa.call(f, st.data))) && Callee(mc, st) == Some(f)
  {
    hide Decode, SExt8, SExt32, Wrap64;
    StepOther(mc, st, i);
  }

  /** E0-E3 rel8, C2 and C3, and FF /2, FF /3 without a RIP-relative operand: what they do depends on their bytes. */
  lemma StepByBytes<D>(mc: Machine<D>, st: State<D>, i: Hde)
    requires i == Decode(mc.table, mc.code, st.ip) && Meant(i) && !RipForm(i) && i.opcode2 == 0
    ensures var bs, next := Read(mc.code, st.ip, i.len), Wrap64(st.ip + i.len);
            && (0xE0 <= i.opcode < 0xE4 ==>
                  var (d, taken) := mc.isa.loop(bs, st.data);
                  Step(mc, st) == Some(State(if taken then Wrap64(st.ip + i.len + SExt8(i.imm.b0)) else next, d)))
            && (i.opcode == 0xC2 || i.opcode == 0xC3 ==>
                  var (d, to) := mc.isa.ret(bs, st.data);
                  Step(mc, st) == Some(State(to, d)) && Callee(mc, st) == None && ByValue(mc, st))
            && (i.opcode == 0xFF && (i.modrm / 8 % 8 == 2 || i.modrm / 8 % 8 == 3) ==>
                  var f := mc.isa.pointer(bs, [], 0, st.data);
                  Step(mc, st) == Some(State(next, mc.isa.call(f, st.data))) && Callee(mc, st) == Some(f))
  {
    hide Decode, SExt8, SExt32, Wrap64;
    StepOther(mc, st, i);
  }

  /** FF /2, /3 and /4 with a RIP-relative operand. */
  lemma StepThrough<D>(mc: Machine<D>, st: State<D>, i: Hde)
    requires i == Decode(mc.table, mc.code, st.ip) && Meant(i) && RipForm(i) && i.opcode == 0xFF
    requires 0 <= DispOffset(i) <= i.len - 4
    ensures var ea, next := Wrap64(st.ip + i.len + SExt32(i.disp)), Wrap64(st.ip + i.len);
            && (i.modrm == 0x15 ==>
                  var f := LoadPointer(mc, ea, st.data);
                  Step(mc, st) == Some(State(next, mc.isa.call(f, st.data))) && Callee(mc, st) == Some(f))
            && (i.modrm == 0x1D ==>
                  var n := DispOffset(i);
                  var f := mc.isa.pointer(Read(mc.code, st.ip, n), Read(mc.code, st.ip + n + 4, i.len - n - 4), ea, st.data);
                  Step(mc, st) == Some(State(next, mc.isa.call(f, st.data))) && Callee(mc, st) == Some(f))
            && (i.modrm == 0x25 ==>
                  Step(mc, st) == Some(State(LoadPointer(mc, ea, st.data), st.data)) && Callee(mc, st) == None && ByValue(mc, st))
  {
    hide Decode, SExt32, Wrap64, LoadPointer;
    StepRip(mc, st, i);
  }

  /** None of the instructions above. */
  predicate Else(i: Hde)
  {
    && !(0x70 <= i.opcode < 0x80) && !(0xE0 <= i.opcode < 0xE4) && !(0x80 <= i.opcode2 < 0x90)
    && i.opcode != 0xC2 && i.opcode != 0xC3 && i.opcode != 0xE8 && i.opcode != 0xE9 && i.opcode != 0xEB
    && !(i.opcode == 0xFF && (i.modrm / 8 % 8 == 2 || i.modrm / 8 % 8 == 3 || i.modrm == 0x25))
  }

  /** Everything else is data processing, which may also jump: without a RIP-relative operand it depends on its bytes, with
      one on the bytes around the displacement and on the address. */
  lemma StepElse<D>(mc: Machine<D>, st: State<D>, i: Hde)
    requires i == Decode(mc.table, mc.code, st.ip) && Meant(i) && Else(i) && !RipForm(i)
    ensures var e := mc.isa.plain(Read(mc.code, st.ip, i.len), st.data);
            && Step(mc, st) == Some(State(if e.jump.Some? then e.jump.value else Wrap64(st.ip + i.len), e.data))
            && Callee(mc, st) == None && (ByValue(mc, st) <==> e.jump.Some?)
  {
    hide Decode, Wrap64;
    StepOther(mc, st, i);
  }

  lemma StepOperand<D>(mc: Machine<D>, st: State<D>, i: Hde)
    requires i == Decode(mc.table, mc.code, st.ip) && Meant(i) && Else(i) && RipForm(i) && 0 <= DispOffset(i) <= i.len - 4
    ensures var ea, n := Wrap64(st.ip + i.len + SExt32(i.disp)), DispOffset(i);
            var e := mc.isa.rip(Read(mc.code, st.ip, n), Read(mc.code, st.ip + n + 4, i.len - n - 4), ea, st.data);
            && Step(mc, st) == Some(State(if e.jump.Some? then e.jump.value else Wrap64(st.ip + i.len), e.data))
            && Callee(mc, st) == None && (ByValue(mc, st) <==> e.jump.Some?)
  {
    hide Decode, SExt32, Wrap64, DispOffset, Read, Covered;
    MeantIsCovered(i);
    NoTransfer(i);
    StepRip(mc, st, i);
  }

  lemma MeantIsCovered(i: Hde)
    requires Meant(i)
    ensures Covered(i) && (RipForm(i) ==> RipOperand(i))
  {
  }

  lemma NoTransfer(i: Hde)
    requires Else(i) && RipForm(i)
    ensures i.opcode == 0xFF ==> Reg(i.modrm) != 2 && Reg(i.modrm) != 3 && Reg(i.modrm) != 4
  {
  }

  lemma RunOne<D>(mc: Machine<D>, st: State<D>)
    ensures Run(mc, st, 1) == Step(mc, st)
  {
    hide Step;
    assert Run(mc, st, 0) == Some(st);
  }

  lemma RunTwo<D>(mc: Machine<D>, st: State<D>)
    requires Step(mc, st).Some?
    ensures Run(mc, st, 2) == Step(mc, Step(mc, st).value)
  {
    hide Step;
    RunOne(mc, st);
  }

  /** The last entry ends the trampoline: it never falls through. */
  lemma LastNeverFalls<D>(mc: Machine<D>, target: int, tramp: int, p: Plan, k: int)
    requires Installed(mc, target, tramp, p) && 0 <= k < |p.entries|
    ensures var e := p.entries[k];
            k == |p.entries| - 1 ==>
              e.kind.JumpBack? || e.kind.JumpOut? || e.kind.Return?
              || (e.kind.RipRelative? && e.inst.opcode == 0xFF && Reg(e.inst.modrm) == 4)
  {
    hide Laid, Holds, Consistent, KnowsTemplates;
  }

  /** Where a branch into the patched bytes lands: on the entry of its destination, at the old distance. */
  lemma InsideLands<D>(mc: Machine<D>, target: int, tramp: int, p: Plan, k: int) returns (j: int)
    requires Installed(mc, target, tramp, p) && Faithful(mc.table, mc.code, target, tramp, p)
    requires 0 <= k < |p.entries| && p.entries[k].kind.Inside?
    ensures 0 <= j < |p.entries|
    ensures p.entries[j].src == p.entries[k].kind.dest - target
    ensures p.entries[j].dst - p.entries[k].dst == p.entries[j].src - p.entries[k].src
  {
    hide Installed, PlanOk, Decode, MakeEntry, Boundary;
    Bounds(mc, target, tramp, p);
    forall i | 0 <= i < |p.entries| && p.entries[i].kind.RipRelative?
      ensures RipOperand(p.entries[i].inst)
    {
      assert EntryFaithful(mc.table, mc.code, target, tramp, p.entries, i);
    }
    assert EntryFaithful(mc.table, mc.code, target, tramp, p.entries, k);
    j := DestinationEmitted(mc.table, mc.code, target, tramp, p, k);
    if j <= k {
      PlanBackToBack(mc, target, tramp, p);
      SpanDistance(p.entries, p.oldEnd, p.newEnd, j, k);
    } else {
      ForwardDistance(mc.table, mc.code, target, tramp, p, k, j);
    }
  }

  /** A step of the target at entry k is matched by n steps of the trampoline, inside its slot, which call only what the
      target's step calls, with the same data. */
  ghost predicate Matched<D>(mc: Machine<D>, target: int, tramp: int, p: Plan, k: int, d: D, n: nat)
    requires 0 <= k < |p.entries|
  {
    var a, b := State(target + p.entries[k].src, d), State(tramp + p.entries[k].dst, d);
    var a', b' := Step(mc, a), Run(mc, b, n);
    && Confined(mc, tramp, b, n) && CallsLike(mc, Callee(mc, a), d, b, n)
    && (a'.Some? ==> && n >= 1 && b'.Some?
                     && Follows(p, target, tramp, !ByValue(mc, a) && AtRelocated(p, target, a'.value.ip), a'.value, b'.value))
  }

  lemma MatchCopied<D>(mc: Machine<D>, target: int, tramp: int, p: Plan, k: int, d: D)
    requires Installed(mc, target, tramp, p) && 0 <= k < |p.entries|
    requires p.entries[k].kind.Return? || p.entries[k].kind.Verbatim?
    ensures Matched(mc, target, tramp, p, k, d, 1)
  {
    hide Installed, Decode, MakeEntry, Emitted, Covered, Step, Run, Corresponding, Confined, CallsLike, AtRelocated;
    var e := p.entries[k];
    var a, b := State(target + e.src, d), State(tramp + e.dst, d);
    Place(mc, target, tramp, p, k);
    CopyDecodes(mc, target, tramp, p, k);
    StepOther(mc, a, e.inst);
    StepOther(mc, b, e.inst);
    ConfinedOne(mc, tramp, b);
    CallsLikeOne(mc, Callee(mc, a), d, b);
    RunOne(mc, b);
    if e.kind.Verbatim? {
      LastNeverFalls(mc, target, tramp, p, k);
      NextRelated(mc, target, tramp, p, k, ExecuteOther(mc, a, e.inst).data);
    }
  }

  lemma MatchInside<D>(mc: Machine<D>, target: int, tramp: int, p: Plan, k: int, d: D)
    requires Installed(mc, target, tramp, p) && Faithful(mc.table, mc.code, target, tramp, p)
    requires 0 <= k < |p.entries| && p.entries[k].kind.Inside?
    ensures Matched(mc, target, tramp, p, k, d, 1)
  {
    hide Installed, Faithful, Decode, MakeEntry, Emitted, Covered, Step, Run, Corresponding, Confined, CallsLike, AtRelocated;
    var e := p.entries[k];
    var a, b := State(target + e.src, d), State(tramp + e.dst, d);
    Place(mc, target, tramp, p, k);
    CopyDecodes(mc, target, tramp, p, k);
    StepOther(mc, a, e.inst);
    StepOther(mc, b, e.inst);
    ConfinedOne(mc, tramp, b);
    CallsLikeOne(mc, Callee(mc, a), d, b);
    RunOne(mc, b);
    LastNeverFalls(mc, target, tramp, p, k);
    NextRelated(mc, target, tramp, p, k, d);
    NextRelated(mc, target, tramp, p, k, mc.isa.loop(Read(mc.code, a.ip, e.inst.len), d).0);
    InsideRelated(mc, target, tramp, p, k, d);
    InsideRelated(mc, target, tramp, p, k, mc.isa.loop(Read(mc.code, a.ip, e.inst.len), d).0);
  }

  /** The destination of the branch at entry k. */
  function InsideDest(ip: int, i: Hde): int
  {
    if IsJmp(i) then JmpDest(ip, i) else BranchDest(ip, i)
  }

  /** A branch that is moved moves its destination. */
  lemma BranchMoves(ip: int, ip': int, i: Hde)
    requires 0 < ip < USER_LIMIT + SLOT_SIZE && 0 < ip' < USER_LIMIT + SLOT_SIZE && 1 <= i.len <= 15
    requires 0 < InsideDest(ip, i) < USER_LIMIT + SLOT_SIZE
    requires 0 < InsideDest(ip, i) - ip + ip' < TWO64
    ensures InsideDest(ip', i) == InsideDest(ip, i) - ip + ip'
  {
    var rel := if IsJmp(i) then (if i.opcode == 0xEB then SExt8(i.imm.Imm8()) else SExt32(i.imm.Imm32()))
               else if IsJcc8(i) || IsLoop(i) then SExt8(i.imm.Imm8()) else SExt32(i.imm.Imm32());
    assert InsideDest(ip, i) == Wrap64(ip + i.len + rel) && InsideDest(ip', i) == Wrap64(ip' + i.len + rel);
    assert -TWO31 <= rel < TWO31;
    assert InsideDest(ip, i) == ip + i.len + rel;
  }

  lemma InsideRelated<D>(mc: Machine<D>, target: int, tramp: int, p: Plan, k: int, d: D)
    requires Installed(mc, target, tramp, p) && Faithful(mc.table, mc.code, target, tramp, p)
    requires 0 <= k < |p.entries| && p.entries[k].kind.Inside?
    ensures var e := p.entries[k];
            var a, b := State(InsideDest(target + e.src, e.inst), d), State(InsideDest(tramp + e.dst, e.inst), d);
            Follows(p, target, tramp, AtRelocated(p, target, a.ip), a, b)
  {
    hide Installed, Faithful, PlanOk, Decode, MakeEntry, Emitted, InsideDest;
    var e := p.entries[k];
    Bounds(mc, target, tramp, p);
    Place(mc, target, tramp, p, k);
    InsideIs(e, target);
    var j := InsideLands(mc, target, tramp, p, k);
    Place(mc, target, tramp, p, j);
    BranchMoves(target + e.src, tramp + e.dst, e.inst);
    EarlyIsRelocated(mc, target, tramp, p, j);
    assert RelocatedAt(p, target, j, InsideDest(target + e.src, e.inst));
    assert Corresponding(p, target, tramp, j, InsideDest(target + e.src, e.inst), InsideDest(tramp + e.dst, e.inst));
  }

  lemma InsideIs(e: Entry, target: int)
    requires e.kind == Classify(e.inst, e.src, target) && e.kind.Inside?
    ensures e.kind.dest == InsideDest(target + e.src, e.inst) && InPatch(target, e.kind.dest)
  {
  }

  // ---------------------------------------------------------------------
  // RIP-relative operands
  // ---------------------------------------------------------------------

  lemma SExtRange(x: int)
    ensures -TWO31 <= SExt32(x) < TWO31
  {
  }

  lemma WrapDistinct(x: int, y: int)
    requires -TWO64 < x - y < TWO64
    ensures Wrap64(x) == Wrap64(y) <==> x == y
  {
  }

  /** The rewritten operand addresses what the original addressed exactly when the displacement fits. */
  lemma OperandKept(target: int, tramp: int, e: Entry)
    requires 0 < target < USER_LIMIT && 0 < tramp < USER_LIMIT && 0 <= e.src <= 19 && 0 <= e.dst <= 64 && 1 <= e.inst.len <= 15
    ensures var i' := e.inst.(disp := NewDisp(e.inst, target + e.src, tramp + e.dst));
            EffectiveAddress(tramp + e.dst, i') == EffectiveAddress(target + e.src, e.inst)
            <==> Fits32(WantedDisp(target, tramp, e))
  {
    hide SExt32, Wrap32, Wrap64, Fits32;
    var w := WantedDisp(target, tramp, e);
    var s := SExt32(Wrap32(w));
    TruncationKeepsFitting(w);
    var base := tramp + e.dst + e.inst.len;
    SExtRange(e.inst.disp);
    SExtRange(Wrap32(w));
    assert base + w == target + e.src + e.inst.len + SExt32(e.inst.disp);
    assert SExt32(NewDisp(e.inst, target + e.src, tramp + e.dst)) == s;
    WrapDistinct(base + s, base + w);
  }

  lemma RipDecodes<D>(mc: Machine<D>, target: int, tramp: int, p: Plan, k: int)
    requires Installed(mc, target, tramp, p) && 0 <= k < |p.entries|
    requires p.entries[k].kind.RipRelative? && RipOperand(p.entries[k].inst)
    ensures var e := p.entries[k];
            && Decode(mc.table, mc.code, tramp + e.dst) == e.inst.(disp := NewDisp(e.inst, target + e.src, tramp + e.dst))
            && 2 <= DispOffset(e.inst) <= e.inst.len - 4 && |e.bytes| == e.inst.len
            && Agree(mc.code, target + e.src, mc.code, tramp + e.dst, 0, DispOffset(e.inst))
            && Agree(mc.code, target + e.src, mc.code, tramp + e.dst, DispOffset(e.inst) + 4, e.inst.len)
  {
    hide Installed, PlanOk, Decode, Classify, MakeEntry, DispOffset, Holds, NewDisp, Agree, Redisplaced, Consistent;
    var e := p.entries[k];
    AgreesWithItself(mc.code, target + e.src, DispOffset(e.inst), e.inst.len);
    var c, a, b, n := mc.code, target + e.src, tramp + e.dst, DispOffset(e.inst);
    Bounds(mc, target, tramp, p);
    Place(mc, target, tramp, p, k);
    Retarget(mc.table, c, a, c, a);
    RedisplacedBytes(c, e.inst, a, b);
    Retarget(mc.table, c, a, c, b);
  }

  lemma AgreesWithItself(c: Mem, a: int, k: int, n: int)
    ensures Agree(c, a, c, a, 0, k) && Agree(c, a, c, a, k + 4, n)
  {
  }

  lemma RedisplacedBytes(c: Mem, i: Hde, a: int, b: int)
    requires 0 <= DispOffset(i) <= i.len - 4
    requires Holds(c, b, Redisplaced(c, i, a, b))
    ensures Read32(c, b + DispOffset(i)) == NewDisp(i, a, b)
    ensures Agree(c, a, c, b, 0, DispOffset(i)) && Agree(c, a, c, b, DispOffset(i) + 4, i.len)
  {
    hide NewDisp, DispOffset, Bytes4, Read32, Holds, Agree, Splice;
    Spliced(c, a, b, i.len, DispOffset(i), Bytes4(NewDisp(i, a, b)));
    Read32OfBytes4(c, b + DispOffset(i), NewDisp(i, a, b));
    NewDispRange(i, a, b);
  }

  lemma NewDispRange(i: Hde, a: int, b: int)
    ensures Wrap32(NewDisp(i, a, b)) == NewDisp(i, a, b)
  {
  }

  lemma SplicedAt(c: Mem, a: int, b: int, n: int, k: int, disp: seq<byte>, j: int)
    requires |disp| == 4 && 0 <= k <= n - 4 && 0 <= j < n
    requires Holds(c, b, Splice(c, a, n, k, disp))
    ensures c(b + j) == if k <= j < k + 4 then disp[j - k] else c(a + j)
  {
    var bs := Splice(c, a, n, k, disp);
    assert c(b + j) == bs[j];
  }

  lemma Spliced(c: Mem, a: int, b: int, n: int, k: int, disp: seq<byte>)
    requires |disp| == 4 && 0 <= k <= n - 4
    requires Holds(c, b, Splice(c, a, n, k, disp))
    ensures Read(c, b + k, 4) == disp
    ensures Agree(c, a, c, b, 0, k) && Agree(c, a, c, b, k + 4, n)
  {
    hide Splice;
    var got := Read(c, b + k, 4);
    forall j | 0 <= j < 4
      ensures got[j] == disp[j]
    {
      SplicedAt(c, a, b, n, k, disp, k + j);
      assert b + (k + j) == b + k + j;
    }
    forall x {:trigger c(x)} | (a <= x < a + k || a + k + 4 <= x < a + n)
      ensures c(x) == c(x - a + b)
    {
      SplicedAt(c, a, b, n, k, disp, x - a);
      assert b + (x - a) == x - a + b && a + (x - a) == x;
    }
  }

  /** ByValue for a RIP-relative instruction. */
  predicate JumpsByValue<D>(mc: Machine<D>, st: State<D>, i: Hde)
    requires RipOperand(i) && 0 <= DispOffset(i) <= i.len - 4
  {
    && !IsIndirectCall(i)
    && ((i.opcode == 0xFF && Reg(i.modrm) == 4)
        || mc.isa.rip(HeadBytes(mc.code, st.ip, i), TailBytes(mc.code, st.ip, i), EffectiveAddress(st.ip, i), st.data).jump.Some?)
  }

  lemma RipFacts<D>(mc: Machine<D>, st: State<D>, i: Hde)
    requires i == Decode(mc.table, mc.code, st.ip) && RipOperand(i) && 0 <= DispOffset(i) <= i.len - 4
    ensures Callee(mc, st) == CalleeRip(mc, st, i) && ByValue(mc, st) == JumpsByValue(mc, st, i)
  {
    hide Decode, DispOffset, EffectiveAddress, CalleeRip;
  }

  /** An instruction and its copy with another displacement do the same, if the operand is the same. */
  lemma RipCopySame<D>(mc: Machine<D>, a: State<D>, b: State<D>, i: Hde, i': Hde)
    requires RipOperand(i) && RipOperand(i') && i' == i.(disp := i'.disp)
    requires 0 <= DispOffset(i) <= i.len - 4 && 0 <= DispOffset(i') <= i'.len - 4
    requires a.data == b.data && EffectiveAddress(a.ip, i) == EffectiveAddress(b.ip, i')
    requires Agree(mc.code, a.ip, mc.code, b.ip, 0, DispOffset(i))
    requires Agree(mc.code, a.ip, mc.code, b.ip, DispOffset(i) + 4, i.len)
    ensures var r, r' := ExecuteRip(mc, a, i), ExecuteRip(mc, b, i');
            && r.data == r'.data && CalleeRip(mc, a, i) == CalleeRip(mc, b, i')
            && if JumpsByValue(mc, a, i) then r.ip == r'.ip else r.ip == Wrap64(a.ip + i.len) && r'.ip == Wrap64(b.ip + i.len)
  {
    hide DispOffset, EffectiveAddress, LoadPointer, Wrap64, Agree;
    DispKeeps(i, i'.disp);
    ReadAgrees(mc.code, a.ip, b.ip, 0, DispOffset(i));
    ReadAgrees(mc.code, a.ip, b.ip, DispOffset(i) + 4, i.len);
  }

  lemma MatchRip<D>(mc: Machine<D>, target: int, tramp: int, p: Plan, k: int, d: D)
    requires Installed(mc, target, tramp, p) && Faithful(mc.table, mc.code, target, tramp, p)
    requires 0 <= k < |p.entries| && p.entries[k].kind.RipRelative?
    ensures Matched(mc, target, tramp, p, k, d, 1)
  {
    hide Installed, Decode, MakeEntry, Emitted, Covered, Step, Run, Corresponding, DispOffset, EffectiveAddress,
         NewDisp, LoadPointer, Holds, Classify, Confined, ExecuteRip, Agree, Wrap64, CallsLike, Callee, CalleeRip, ByValue,
         AtRelocated;
    var e := p.entries[k];
    var i' := e.inst.(disp := NewDisp(e.inst, target + e.src, tramp + e.dst));
    var a, b := State(target + e.src, d), State(tramp + e.dst, d);
    assert EntryFaithful(mc.table, mc.code, target, tramp, p.entries, k);
    Place(mc, target, tramp, p, k);
    Bounds(mc, target, tramp, p);
    RipDecodes(mc, target, tramp, p, k);
    DispKeeps(e.inst, i'.disp);
    StepRip(mc, a, e.inst);
    StepRip(mc, b, i');
    ConfinedOne(mc, tramp, b);
    RunOne(mc, b);
    OperandKept(target, tramp, e);
    RipCopySame(mc, a, b, e.inst, i');
    RipFacts(mc, a, e.inst);
    RipFacts(mc, b, i');
    CallsLikeOne(mc, Callee(mc, a), d, b);
    LastNeverFalls(mc, target, tramp, p, k);
    if k < |p.entries| - 1 {
      NextRelated(mc, target, tramp, p, k, ExecuteRip(mc, a, e.inst).data);
    }
  }

  lemma DispKeeps(i: Hde, disp: int)
    ensures var i' := i.(disp := disp);
            DispOffset(i') == DispOffset(i) && RipOperand(i') == RipOperand(i) && Covered(i') == Covered(i) && i'.Failed() == i.Failed()
  {
  }

  lemma ReadAgrees(c: Mem, a: int, b: int, lo: int, hi: int)
    requires Agree(c, a, c, b, lo, hi) && lo <= hi
    ensures Read(c, a + lo, hi - lo) == Read(c, b + lo, hi - lo)
  {
    var bs, cs := Read(c, a + lo, hi - lo), Read(c, b + lo, hi - lo);
    forall k | 0 <= k < |bs|
      ensures bs[k] == cs[k]
    {
      AgreeAt(c, a, c, b, lo, hi, lo + k);
      assert a + (lo + k) == a + lo + k && b + (lo + k) == b + lo + k;
    }
  }

  // ---------------------------------------------------------------------
  // Instructions that are replaced
  // ---------------------------------------------------------------------

  lemma CallEntry<D>(mc: Machine<D>, target: int, tramp: int, p: Plan, k: int, d: D)
    requires Installed(mc, target, tramp, p) && 0 <= k < |p.entries| && p.entries[k].kind.Call?
    ensures var e := p.entries[k];
            var a := State(target + e.src, d);
            && e.bytes == CallAbs(e.kind.dest) && 0 <= e.kind.dest < TWO64
            && Callee(mc, a) == Some(e.kind.dest) && !ByValue(mc, a)
            && (Step(mc, a).Some? ==>
                  Step(mc, a).value == State(Wrap64(target + e.src + e.inst.len), mc.isa.call(e.kind.dest, d)))
  {
    hide Installed, PlanOk, Decode, MakeEntry, Covered, Step, CallAbs, Holds;
    Place(mc, target, tramp, p, k);
    StepOther(mc, State(target + p.entries[k].src, d), p.entries[k].inst);
  }

  lemma MatchCall<D>(mc: Machine<D>, target: int, tramp: int, p: Plan, k: int, d: D)
    requires Installed(mc, target, tramp, p) && 0 <= k < |p.entries| && p.entries[k].kind.Call?
    ensures Matched(mc, target, tramp, p, k, d, 2)
  {
    hide Installed, PlanOk, Decode, MakeEntry, Covered, Step, Run, Corresponding, Holds, KnowsTemplates, Consistent, CallAbs, Confined,
         CallsLike, AtRelocated, Follows, Classify, Emitted, ExecuteOther, ByValue, Callee;
    var e := p.entries[k];
    Bounds(mc, target, tramp, p);
    Place(mc, target, tramp, p, k);
    CallEntry(mc, target, tramp, p, k, d);
    RunCallAbs(mc, tramp, tramp + e.dst, e.kind.dest, d);
    LastNeverFalls(mc, target, tramp, p, k);
    NextRelated(mc, target, tramp, p, k, mc.isa.call(e.kind.dest, d));
  }

  lemma MatchJumpOut<D>(mc: Machine<D>, target: int, tramp: int, p: Plan, k: int, d: D)
    requires Installed(mc, target, tramp, p) && 0 <= k < |p.entries| && p.entries[k].kind.JumpOut?
    ensures Matched(mc, target, tramp, p, k, d, 1)
  {
    hide Installed, PlanOk, Decode, MakeEntry, Covered, Step, Run, Corresponding, Holds, KnowsTemplates, Consistent, JmpAbs, Confined;
    var e := p.entries[k];
    Bounds(mc, target, tramp, p);
    Place(mc, target, tramp, p, k);
    StepOther(mc, State(target + e.src, d), e.inst);
    StepJmpAbs(mc, tramp + e.dst, e.kind.dest, d);
    ConfinedOne(mc, tramp, State(tramp + e.dst, d));
    CallsLikeOne(mc, None, d, State(tramp + e.dst, d));
    RunOne(mc, State(tramp + e.dst, d));
    OutsideIsNone(mc, target, tramp, p, e.kind.dest);
  }

  lemma OutsideIsNone<D>(mc: Machine<D>, target: int, tramp: int, p: Plan, ip: int)
    requires Installed(mc, target, tramp, p) && !InPatch(target, ip)
    ensures !AtRelocated(p, target, ip)
  {
    hide Installed;
    if AtRelocated(p, target, ip) {
      RelocatedIsEarly(mc, target, tramp, p, ip);
    }
  }

  lemma InverseCondition<D>(isa: Isa<D>, cc: int, d: D)
    requires 0 <= cc < 16
    ensures InverseJcc(cc) / 16 == 7
    ensures Condition(isa, InverseJcc(cc) % 16, d) <==> !Condition(isa, cc, d)
  {
  }

  lemma MatchBranchOut<D>(mc: Machine<D>, target: int, tramp: int, p: Plan, k: int, d: D) returns (n: nat)
    requires Installed(mc, target, tramp, p) && 0 <= k < |p.entries| && p.entries[k].kind.BranchOut?
    ensures Matched(mc, target, tramp, p, k, d, n)
  {
    hide Installed, PlanOk, Decode, MakeEntry, Covered, Step, Run, Corresponding, Holds, KnowsTemplates, Consistent, JccAbs,
         Condition, InverseJcc, Confined, CallsLike, AtRelocated;
    var e := p.entries[k];
    var cc := ConditionCode(e.inst);
    Bounds(mc, target, tramp, p);
    Place(mc, target, tramp, p, k);
    StepOther(mc, State(target + e.src, d), e.inst);
    InverseCondition(mc.isa, cc, d);
    RunJccAbs(mc, tramp, tramp + e.dst, InverseJcc(cc), e.kind.dest, d);
    n := if Condition(mc.isa, cc, d) then 2 else 1;
    LastNeverFalls(mc, target, tramp, p, k);
    NextRelated(mc, target, tramp, p, k, d);
    OutsideIsNone(mc, target, tramp, p, e.kind.dest);
  }

  /** The jump back leads to the very instruction. */
  lemma JumpBackLands<D>(mc: Machine<D>, target: int, tramp: int, p: Plan, k: int, d: D)
    requires Installed(mc, target, tramp, p) && 0 <= k < |p.entries| && p.entries[k].kind.JumpBack?
    ensures Run(mc, State(tramp + p.entries[k].dst, d), 1) == Some(State(target + p.entries[k].src, d))
    ensures var b := State(tramp + p.entries[k].dst, d); Confined(mc, tramp, b, 1) && CallsLike(mc, None, d, b, 1)
  {
    hide Installed, PlanOk, Decode, Classify, MakeEntry, Step, Run, Corresponding, Holds, KnowsTemplates, Consistent, JmpAbs, Confined;
    var e := p.entries[k];
    Bounds(mc, target, tramp, p);
    Place(mc, target, tramp, p, k);
    StepJmpAbs(mc, tramp + e.dst, target + e.src, d);
    ConfinedOne(mc, tramp, State(tramp + e.dst, d));
    CallsLikeOne(mc, None, d, State(tramp + e.dst, d));
    RunOne(mc, State(tramp + e.dst, d));
  }

  /** A step of the target from a relocated instruction is matched by one or two steps of the trampoline. */
  lemma SimulateStep<D>(mc: Machine<D>, target: int, tramp: int, p: Plan, k: int, d: D) returns (n: nat)
    requires Installed(mc, target, tramp, p) && Faithful(mc.table, mc.code, target, tramp, p)
    requires 0 <= k < |p.entries| && !p.entries[k].kind.JumpBack?
    ensures Matched(mc, target, tramp, p, k, d, n)
  {
    hide Installed, Faithful, Matched;
    NotLoopOut(mc, target, tramp, p, k);
    match p.entries[k].kind
    case RipRelative =>
      n := 1;
      MatchRip(mc, target, tramp, p, k, d);
    case Call(_) =>
      n := 2;
      MatchCall(mc, target, tramp, p, k, d);
    case Inside(_) =>
      n := 1;
      MatchInside(mc, target, tramp, p, k, d);
    case JumpOut(_) =>
      n := 1;
      MatchJumpOut(mc, target, tramp, p, k, d);
    case BranchOut(_) =>
      n := MatchBranchOut(mc, target, tramp, p, k, d);
    case Return =>
      n := 1;
      MatchCopied(mc, target, tramp, p, k, d);
    case Verbatim =>
      n := 1;
      MatchCopied(mc, target, tramp, p, k, d);
  }

  lemma NotLoopOut<D>(mc: Machine<D>, target: int, tramp: int, p: Plan, k: int)
    requires Installed(mc, target, tramp, p) && 0 <= k < |p.entries|
    ensures !p.entries[k].kind.LoopOut?
  {
    hide Installed, Decode, Classify, Emitted, MakeEntry;
    Place(mc, target, tramp, p, k);
  }

  /** Whole runs: whatever state the target reaches in n steps, the trampoline, started on the same data, reaches a
      related one. */
  lemma {:induction false} SimulateRun<D>(mc: Machine<D>, target: int, tramp: int, p: Plan, d: D, n: nat) returns (k: nat)
    requires Installed(mc, target, tramp, p) && Faithful(mc.table, mc.code, target, tramp, p)
    requires Run(mc, State(target, d), n).Some?
    ensures n <= k && Run(mc, State(tramp, d), k).Some?
    ensures Related(p, target, tramp, Run(mc, State(target, d), n).value, Run(mc, State(tramp, d), k).value)
  {
    hide Installed, Faithful, Step, Confined, CallsLike, AtRelocated, ByValue, Callee;
    if n == 0 {
      k := 0;
      StartRelated(mc, target, tramp, p);
    } else {
      var k0 := SimulateRun(mc, target, tramp, p, d, n - 1);
      var a, b := Run(mc, State(target, d), n - 1).value, Run(mc, State(tramp, d), k0).value;
      if a.ip == b.ip {
        k := k0 + 1;
      } else {
        var i :| Corresponding(p, target, tramp, i, a.ip, b.ip);
        var s: nat;
        if p.entries[i].kind.JumpBack? {
          JumpBackLands(mc, target, tramp, p, i, a.data);
          s := 2;
          assert Run(mc, b, 2) == Step(mc, a);
        } else {
          s := SimulateStep(mc, target, tramp, p, i, a.data);
        }
        RunFrom(mc, State(tramp, d), k0, s);
        k := k0 + s;
      }
    }
  }

  lemma StartRelated<D>(mc: Machine<D>, target: int, tramp: int, p: Plan)
    requires Installed(mc, target, tramp, p)
    ensures Corresponding(p, target, tramp, 0, target, tramp)
  {
    hide Installed, MakeEntry, EntryOk;
    Bounds(mc, target, tramp, p);
    PlanBackToBack(mc, target, tramp, p);
    Adjacent(p.entries, p.oldEnd, p.newEnd, 0);
  }

  /** Equal exits: where the target's run has left the relocated code, the trampoline's run is in the very same state. */
  lemma SameExit<D>(mc: Machine<D>, target: int, tramp: int, p: Plan, d: D, n: nat) returns (k: nat)
    requires Installed(mc, target, tramp, p) && Faithful(mc.table, mc.code, target, tramp, p)
    requires Run(mc, State(target, d), n).Some?
    requires forall i :: 0 <= i < |p.entries| ==> Run(mc, State(target, d), n).value.ip != target + p.entries[i].src
    ensures n <= k && Run(mc, State(tramp, d), k) == Run(mc, State(target, d), n)
  {
    hide Installed, Faithful, Run;
    k := SimulateRun(mc, target, tramp, p, d, n);
  }

  /** A place in the slot that is not an entry's: the trampoline is in the middle of a matching run. */
  lemma ConfinedMiddle<D>(mc: Machine<D>, tramp: int, st: State<D>, n: nat, j: nat)
    requires Confined(mc, tramp, st, n) && j < n && Decode(mc.table, mc.code, Run(mc, st, j).value.ip).len >= 1
    ensures tramp <= Run(mc, st, j).value.ip < tramp + SLOT_SIZE
  {
    hide Decode, Run;
    assert StepInSlot(mc, tramp, Run(mc, st, j).value.ip);
  }

  /** From related states on, a run of the trampoline that is outside its slot after k steps has a counterpart. */
  lemma {:induction false} ExitFrom<D>(mc: Machine<D>, target: int, tramp: int, p: Plan, a: State<D>, b: State<D>, k: nat)
    returns (n: nat)
    requires Installed(mc, target, tramp, p) && Faithful(mc.table, mc.code, target, tramp, p)
    requires Related(p, target, tramp, a, b)
    requires Run(mc, b, k).Some? && !(tramp <= Run(mc, b, k).value.ip < tramp + SLOT_SIZE)
    requires forall i: nat :: i <= k ==> Run(mc, a, i).Some?
    ensures n <= k && Run(mc, a, n) == Run(mc, b, k)
    decreases k
  {
    hide Installed, Faithful, Step, Confined, Decode, CallsLike, AtRelocated, ByValue, Callee;
    if a.ip == b.ip {
      n := k;
    } else {
      var i :| Corresponding(p, target, tramp, i, a.ip, b.ip);
      EntryInside(mc, target, tramp, p, i);
      RunOne(mc, a);
      assert k > 0;
      if p.entries[i].kind.JumpBack? {
        JumpBackLands(mc, target, tramp, p, i, a.data);
        RunFrom(mc, b, 1, k - 1);
        n := ExitFrom(mc, target, tramp, p, a, a, k - 1);
      } else {
        var s := SimulateStep(mc, target, tramp, p, i, a.data);
        assert Run(mc, a, 1).Some?;
        if k < s {
          ConfinedMiddle(mc, tramp, b, s, k);
          assert false;
        }
        var a', b' := Step(mc, a).value, Run(mc, b, s).value;
        RunFrom(mc, b, s, k - s);
        forall j: nat | j <= k - s
          ensures Run(mc, a', j).Some?
        {
          RunFrom(mc, a, 1, j);
          assert Run(mc, a, 1 + j).Some?;
        }
        n := ExitFrom(mc, target, tramp, p, a', b', k - s);
        RunFrom(mc, a, 1, n);
        n := n + 1;
      }
    }
  }

  lemma EntryInside<D>(mc: Machine<D>, target: int, tramp: int, p: Plan, k: int)
    requires Installed(mc, target, tramp, p) && 0 <= k < |p.entries|
    ensures tramp <= tramp + p.entries[k].dst < tramp + SLOT_SIZE
  {
    hide Decode, Emitted, Classify, Installed, MakeEntry, Holds;
    Place(mc, target, tramp, p, k);
  }

  /** The converse: the trampoline does nothing that the target does not do.  Whatever state outside its slot the
      trampoline reaches, the target reaches in no more steps, if the machine gives its code a meaning that long. */
  lemma OnlySimulates<D>(mc: Machine<D>, target: int, tramp: int, p: Plan, d: D, k: nat) returns (n: nat)
    requires Installed(mc, target, tramp, p) && Faithful(mc.table, mc.code, target, tramp, p)
    requires Run(mc, State(tramp, d), k).Some? && !(tramp <= Run(mc, State(tramp, d), k).value.ip < tramp + SLOT_SIZE)
    requires forall i: nat :: i <= k ==> Run(mc, State(target, d), i).Some?
    ensures n <= k && Run(mc, State(target, d), n) == Run(mc, State(tramp, d), k)
  {
    hide Installed, Faithful, Run;
    StartRelated(mc, target, tramp, p);
    n := ExitFrom(mc, target, tramp, p, State(target, d), State(tramp, d), k);
  }

  // ---------------------------------------------------------------------
  // The patched target
  // ---------------------------------------------------------------------

  /** The instruction at ip has no byte in [w, w + size). */
  ghost predicate Clear<D>(mc: Machine<D>, w: int, size: int, ip: int)
  {
    ip + Decode(mc.table, mc.code, ip).len <= w || w + size <= ip
  }

  /** mc' is mc with other bytes in [w, w + size), none of them in the library's slots. */
  ghost predicate Patched<D>(mc: Machine<D>, mc': Machine<D>, w: int, size: int)
  {
    && OtherCode(mc, mc')
    && (forall x :: x < w || w + size <= x ==> mc'.code(x) == mc.code(x))
    && (forall x :: w <= x < w + size ==> x !in mc.frozen)
  }

  /** The k steps from st execute no byte of [w, w + size), and their calls have the same effect on both machines. */
  ghost predicate Avoids<D>(mc: Machine<D>, mc': Machine<D>, w: int, size: int, st: State<D>, k: nat)
  {
    forall j: nat :: j < k ==> var s := Run(mc, st, j); s.Some? ==> Clear(mc, w, size, s.value.ip) && CallKept(mc, mc', s.value)
  }

  /** Code that differs in bytes that are not executed, by itself or by what it calls, runs the same. */
  lemma {:induction false} PatchedRun<D>(mc: Machine<D>, mc': Machine<D>, w: int, size: int, st: State<D>, k: nat)
    requires Patched(mc, mc', w, size)
    requires Run(mc, st, k).Some? && Avoids(mc, mc', w, size, st, k)
    ensures Run(mc', st, k) == Run(mc, st, k)
  {
    hide Step, Decode, CallKept;
    if k > 0 {
      PatchedRun(mc, mc', w, size, st, k - 1);
      var s := Run(mc, st, k - 1).value;
      assert Clear(mc, w, size, s.ip) && CallKept(mc, mc', s);
      StepLocal(mc, mc', s);
    }
  }

  /** Steps inside the slot that call only what the target's step from a calls. */
  lemma ConfinedAvoids<D>(mc: Machine<D>, mc': Machine<D>, tramp: int, w: int, size: int, a: State<D>, st: State<D>, n: nat)
    requires Confined(mc, tramp, st, n) && (w + size <= tramp || tramp + SLOT_SIZE <= w)
    requires CallsLike(mc, Callee(mc, a), a.data, st, n) && CallKept(mc, mc', a)
    ensures Avoids(mc, mc', w, size, st, n)
  {
    hide Run, Decode, Callee;
    forall j: nat | j < n
      ensures var s := Run(mc, st, j); s.Some? ==> Clear(mc, w, size, s.value.ip) && CallKept(mc, mc', s.value)
    {
      assert StepInSlot(mc, tramp, Run(mc, st, j).value.ip);
    }
  }

  /** The run of the target has not left the relocated instructions in its first j steps. */
  ghost predicate Within<D>(mc: Machine<D>, target: int, p: Plan, d: D, j: nat)
    decreases j
  {
    var s := Run(mc, State(target, d), j);
    && s.Some? && AtRelocated(p, target, s.value.ip)
    && (j > 0 ==> Within(mc, target, p, d, j - 1) && !ByValue(mc, Run(mc, State(target, d), j - 1).value))
  }

  /** A condition on the run of the unpatched target alone: once it has left the relocated instructions it executes no
      byte of [w, w + size), and what it calls has the same effect in the patched process. */
  ghost predicate KeepsOff<D>(mc: Machine<D>, mc': Machine<D>, target: int, p: Plan, w: int, size: int, d: D, n: nat)
  {
    forall j: nat :: j < n ==> var s := Run(mc, State(target, d), j); s.Some? ==>
      (Within(mc, target, p, d, j) || Clear(mc, w, size, s.value.ip)) && CallKept(mc, mc', s.value)
  }

  /** n steps of the trampoline from b, and the corresponding one of the target, with the target patched. */
  lemma PatchedSteps<D>(mc: Machine<D>, mc': Machine<D>, tramp: int, w: int, size: int, a: State<D>, st: State<D>, k: nat,
                        b: State<D>, n: nat)
    requires Patched(mc, mc', w, size) && (w + size <= tramp || tramp + SLOT_SIZE <= w)
    requires Confined(mc, tramp, b, n) && CallsLike(mc, Callee(mc, a), a.data, b, n) && CallKept(mc, mc', a)
    requires Run(mc', st, k) == Some(b) && Run(mc, b, n).Some?
    ensures Run(mc', st, k + n) == Run(mc, b, n)
  {
    hide Patched, Confined, CallsLike, CallKept, Run, Avoids;
    ConfinedAvoids(mc, mc', tramp, w, size, a, b, n);
    PatchedRun(mc, mc', w, size, b, n);
    RunFrom(mc', st, k, n);
  }

  /** One more step, once the runs have met. */
  lemma PatchedMeets<D>(mc: Machine<D>, mc': Machine<D>, w: int, size: int, a: State<D>, st: State<D>, k: nat)
    requires Patched(mc, mc', w, size) && CallKept(mc, mc', a) && Clear(mc, w, size, a.ip)
    requires Run(mc', st, k) == Some(a) && Step(mc, a).Some?
    ensures Run(mc', st, k + 1) == Step(mc, a)
  {
    hide Step, CallKept, Decode;
    StepLocal(mc, mc', a);
  }

  /** The trampoline in the patched process follows the unpatched target. */
  lemma {:induction false} TrackPatched<D>(mc: Machine<D>, mc': Machine<D>, target: int, tramp: int, p: Plan,
                                           w: int, size: int, d: D, n: nat) returns (k: nat)
    requires Installed(mc, target, tramp, p) && Faithful(mc.table, mc.code, target, tramp, p)
    requires Patched(mc, mc', w, size) && (w + size <= tramp || tramp + SLOT_SIZE <= w)
    requires Run(mc, State(target, d), n).Some? && KeepsOff(mc, mc', target, p, w, size, d, n)
    ensures n <= k && Run(mc', State(tramp, d), k).Some?
    ensures Follows(p, target, tramp, Within(mc, target, p, d, n),
                    Run(mc, State(target, d), n).value, Run(mc', State(tramp, d), k).value)
  {
    hide Installed, Faithful, Patched, Step, Callee, CallKept, Confined, CallsLike, Clear, ByValue, AtRelocated, RelocatedAt;
    var st := State(tramp, d);
    if n == 0 {
      k := 0;
      StartFollows(mc, target, tramp, p, d);
    } else {
      var k0 := TrackPatched(mc, mc', target, tramp, p, w, size, d, n - 1);
      var a, b := Run(mc, State(target, d), n - 1).value, Run(mc', st, k0).value;
      assert CallKept(mc, mc', a);
      if Within(mc, target, p, d, n - 1) {
        var i :| RelocatedAt(p, target, i, a.ip) && Corresponding(p, target, tramp, i, a.ip, b.ip);
        NotJumpBack(p, target, i, a.ip);
        var s := SimulateStep(mc, target, tramp, p, i, a.data);
        PatchedSteps(mc, mc', tramp, w, size, a, st, k0, b, s);
        k := k0 + s;
      } else if a.ip == b.ip {
        PatchedMeets(mc, mc', w, size, a, st, k0);
        k := k0 + 1;
      } else {
        var i :| Corresponding(p, target, tramp, i, a.ip, b.ip) && p.entries[i].kind.JumpBack?;
        JumpBackLands(mc, target, tramp, p, i, a.data);
        CallsLikeNone(mc, Callee(mc, a), a.data, b, 1);
        PatchedSteps(mc, mc', tramp, w, size, a, st, k0, b, 1);
        PatchedMeets(mc, mc', w, size, a, st, k0 + 1);
        k := k0 + 2;
      }
    }
  }

  lemma CallsLikeNone<D>(mc: Machine<D>, f: Option<int>, d: D, st: State<D>, n: nat)
    requires CallsLike(mc, None, d, st, n)
    ensures CallsLike(mc, f, d, st, n)
  {
    hide Run, Callee;
  }

  lemma NotJumpBack(p: Plan, target: int, i: int, ip: int)
    requires RelocatedAt(p, target, i, ip)
    ensures 0 <= i < |p.entries| && !p.entries[i].kind.JumpBack?
  {
  }

  lemma StartFollows<D>(mc: Machine<D>, target: int, tramp: int, p: Plan, d: D)
    requires Installed(mc, target, tramp, p)
    ensures Within(mc, target, p, d, 0)
    ensures Follows(p, target, tramp, true, State(target, d), State(tramp, d))
  {
    hide Installed, Step;
    StartRelated(mc, target, tramp, p);
    EarlyIsRelocated(mc, target, tramp, p, 0);
    assert RelocatedAt(p, target, 0, target);
  }

  /** Calling the original function while the target is patched does what the unpatched target does, for every run of
      the target that keeps off the patched bytes. */
  lemma SimulatePatched<D>(mc: Machine<D>, mc': Machine<D>, target: int, tramp: int, p: Plan, w: int, size: int, d: D, n: nat)
    returns (k: nat)
    requires Installed(mc, target, tramp, p) && Faithful(mc.table, mc.code, target, tramp, p)
    requires Patched(mc, mc', w, size) && (w + size <= tramp || tramp + SLOT_SIZE <= w)
    requires Run(mc, State(target, d), n).Some? && KeepsOff(mc, mc', target, p, w, size, d, n)
    ensures n <= k && Run(mc', State(tramp, d), k).Some?
    ensures Related(p, target, tramp, Run(mc, State(target, d), n).value, Run(mc', State(tramp, d), k).value)
  {
    hide Installed, Faithful, Patched, Run, KeepsOff, Within;
    k := TrackPatched(mc, mc', target, tramp, p, w, size, d, n);
  }
}
