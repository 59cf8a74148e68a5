/** Several hooks on one target, each enabled on top of the ones before. */
module Stacking {
  import opened Words
  import opened AddressSpace
  import opened Hde64
  import opened Hde64Laws
  import opened Instructions
  import opened X64
  import opened Relocation
  import opened Layout
  import opened Patching
  import opened Hooks
  import Sim = Simulation

  // ---------------------------------------------------------------------
  // Relocating a patched target
  // ---------------------------------------------------------------------

  /** The planted jump is relocated, faithfully, as a jump to where it leads. */
  lemma PatchIsRelocated(t: Table, m: Mem, target: int, tramp: int, operand: int, dest: int)
    requires KnowsTemplates(t) && Holds(m, target, JmpRel(operand)) && 0 <= operand < TWO32 && 0 < target
    requires dest == Wrap64(target + 5 + SExt32(operand)) && !InPatch(target, dest)
    ensures var p := RelocateAll(t, m, target, tramp);
            && p.Planned? && |p.plan.entries| == 1 && p.plan.oldEnd == 5 && p.plan.newEnd == 14
            && p.plan.entries[0].kind == JumpOut(dest) && p.plan.entries[0].dst == 0
            && p.plan.entries[0].bytes == JmpAbs(dest)
            && Sim.Faithful(t, m, target, tramp, p.plan)
  {
    hide Decode, KnowsTemplates, JmpAbs, SExt32, Bytes4, Read32, Holds, JmpRel;
    PatchDecodes(t, m, target, operand);
    var i := Decode(t, m, target);
    Sim.EntryFields(t, m, target, tramp, 0, 0);
    assert i == Decode(t, m, target + 0);
    var e := MakeEntry(t, m, target, tramp, 0, 0);
    assert NearDest(target, i) == dest;
    assert e.kind == JumpOut(dest);
    assert e.bytes == JmpAbs(dest);
    assert Accepts(e, target, 0, 0) && Finishes(e, target, 0);
  }

  lemma PatchDecodes(t: Table, m: Mem, target: int, operand: int)
    requires KnowsTemplates(t) && Holds(m, target, JmpRel(operand)) && 0 <= operand < TWO32
    ensures var i := Decode(t, m, target);
            !i.Failed() && i.len == 5 && i.opcode == 0xE9 && i.opcode2 == 0 && i.modrm == 0 && i.imm.Imm32() == operand
  {
    hide Decode, KnowsTemplates, Bytes4, Read32;
    Sim.HoldsParts(m, target, [0xE9], Bytes4(operand));
    assert m(target + 0) == [0xE9][0];
    assert Read(m, target + 1, 4) == Bytes4(operand);
    Read32OfBytes4(m, target + 1, operand);
    DecodeJmpRel(t, m, target);
  }

  // ---------------------------------------------------------------------
  // A stack of hooks
  // ---------------------------------------------------------------------

  /** One more hook: between two Enables only the allocator has written, and neither in slots in use nor in code. */
  datatype Layer = Layer(before: Mem, space: Space, hook: Hook, after: Mem)

  ghost predicate HooksApart(a: Hook, b: Hook)
  {
    a.tramp + SLOT_SIZE <= b.tramp || b.tramp + SLOT_SIZE <= a.tramp
  }

  /** What successive Enables on one target leave: slots apart, each on top of the ones before. */
  ghost predicate Layered(t: Table, ls: seq<Layer>, target: int)
  {
    && (forall i :: 0 <= i < |ls| ==>
          && ls[i].hook.target == target && WellPlaced(ls[i].hook)
          && Enables(t, ls[i].before, ls[i].space, ls[i].hook, ls[i].after))
    && (forall i, j :: 0 <= i < j < |ls| ==> HooksApart(ls[i].hook, ls[j].hook))
    && (forall i, x :: 0 < i < |ls| && Kept(ls, i, target, x) ==> ls[i].before(x) == ls[i - 1].after(x))
  }

  /** The layers of a stack, with the jump at the target. */
  ghost predicate Stack(t: Table, ls: seq<Layer>, target: int)
  {
    Layered(t, ls, target) && forall i :: 0 <= i < |ls| ==> !ls[i].hook.patchAbove
  }

  /** Only the first hook needs a place for its jump: on top of a jump at the target there is always room for one. */
  lemma {:induction false} OnTopAtTarget(t: Table, ls: seq<Layer>, target: int, i: int)
    requires KnowsTemplates(t) && Layered(t, ls, target) && 0 <= i < |ls| && !ls[0].hook.patchAbove
    ensures !ls[i].hook.patchAbove
    decreases i
  {
    hide RelocateAll, Placement, SlotFilled, JmpRel, JmpAbs, Wrap32, SExt32, KnowsTemplates, Kept, Holds, Layered;
    if i > 0 {
      OnTopAtTarget(t, ls, target, i - 1);
      var g, h := ls[i - 1].hook, ls[i].hook;
      LayerFacts(t, ls, target, i - 1);
      LayerFacts(t, ls, target, i);
      NewEndBound(t, ls[i - 1].before, g);
      PatchOnTop(t, ls, target, i);
      LongJumpDest(g);
      PatchIsRelocated(t, ls[i].before, target, h.tramp, Wrap32(g.Relay() - (target + JMP_REL_SIZE)), g.Relay());
      RoomForLongJump(ls[i].before, ls[i].space, target, h.plan.oldEnd);
    }
  }

  lemma RoomForLongJump(m: Mem, s: Space, target: int, oldEnd: int)
    requires oldEnd >= JMP_REL_SIZE
    ensures Placement(m, s, target, oldEnd) == Some(false)
  {
  }

  lemma LayeredIsStack(t: Table, ls: seq<Layer>, target: int)
    requires KnowsTemplates(t) && Layered(t, ls, target) && (ls != [] ==> !ls[0].hook.patchAbove)
    ensures Stack(t, ls, target)
  {
    hide KnowsTemplates, Layered;
    forall i | 0 <= i < |ls|
      ensures !ls[i].hook.patchAbove
    {
      OnTopAtTarget(t, ls, target, i);
    }
  }

  /** Bytes that nothing but Enable may change: the slots handed out before layer i, and the code around the target. */
  ghost predicate Kept(ls: seq<Layer>, i: int, target: int, x: int)
    requires 0 <= i <= |ls|
  {
    target - JMP_REL_SIZE <= x < target + CODE_READ || exists j :: 0 <= j < i && ls[j].hook.InSlot(x)
  }

  /** A slot, once filled, stays filled. */
  lemma {:induction false} SlotStays(t: Table, ls: seq<Layer>, target: int, i: int, k: int, x: int)
    requires Layered(t, ls, target) && 0 <= i <= k < |ls| && ls[i].hook.InSlot(x)
    ensures ls[k].after(x) == ls[i].after(x)
    decreases k
  {
    hide RelocateAll, Placement, SlotFilled, Holds, Hook.Patch;
    if i < k {
      SlotStays(t, ls, target, i, k - 1, x);
      assert Kept(ls, k, target, x);
      assert HooksApart(ls[i].hook, ls[k].hook);
    }
  }

  /** The patch of the newest hook is in force at the target. */
  lemma PatchOnTop(t: Table, ls: seq<Layer>, target: int, i: int)
    requires Layered(t, ls, target) && 0 < i < |ls| && !ls[i - 1].hook.patchAbove
    ensures var h := ls[i - 1].hook;
            Holds(ls[i].before, target, JmpRel(Wrap32(h.Relay() - (target + JMP_REL_SIZE))))
  {
    hide RelocateAll, Placement, SlotFilled, JmpRel, Wrap32, Bytes4, WellPlaced, Layered;
    var h := ls[i - 1].hook;
    var bs := JmpRel(Wrap32(h.Relay() - (target + JMP_REL_SIZE)));
    LayerFacts(t, ls, target, i - 1);
    KeptCode(t, ls, target, i);
    assert Holds(ls[i - 1].after, target, bs);
  }

  lemma LayerFacts(t: Table, ls: seq<Layer>, target: int, i: int)
    requires Layered(t, ls, target) && 0 <= i < |ls|
    ensures ls[i].hook.target == target && WellPlaced(ls[i].hook)
    ensures Enables(t, ls[i].before, ls[i].space, ls[i].hook, ls[i].after)
  {
    hide Enables, WellPlaced, Kept;
  }

  lemma KeptCode(t: Table, ls: seq<Layer>, target: int, i: int)
    requires Layered(t, ls, target) && 0 < i < |ls|
    ensures forall x {:trigger ls[i].before(x)} :: target - JMP_REL_SIZE <= x < target + CODE_READ ==> ls[i].before(x) == ls[i - 1].after(x)
  {
    hide Enables, WellPlaced;
    forall x {:trigger ls[i].before(x)} | target - JMP_REL_SIZE <= x < target + CODE_READ
      ensures ls[i].before(x) == ls[i - 1].after(x)
    {
      assert Kept(ls, i, target, x);
    }
  }

  /** The trampoline of a hook on top of another is one jump, to the relay below. */
  lemma TrampolineJumpsToRelay(t: Table, ls: seq<Layer>, target: int, i: int)
    requires KnowsTemplates(t) && Stack(t, ls, target) && 0 < i < |ls|
    ensures Holds(ls[i].after, ls[i].hook.tramp, JmpAbs(ls[i - 1].hook.Relay()))
    ensures 0 <= ls[i - 1].hook.plan.newEnd <= TRAMPOLINE_MAX_SIZE
  {
    hide RelocateAll, Placement, JmpRel, JmpAbs, Wrap32, SExt32, KnowsTemplates, Kept, Holds;
    var g, h := ls[i - 1].hook, ls[i].hook;
    NewEndBound(t, ls[i - 1].before, g);
    PatchOnTop(t, ls, target, i);
    LongJumpDest(g);
    PatchIsRelocated(t, ls[i].before, target, h.tramp, Wrap32(g.Relay() - (target + JMP_REL_SIZE)), g.Relay());
    assert h.plan.entries[0].bytes == JmpAbs(g.Relay());
    assert Holds(ls[i].after, h.tramp + h.plan.entries[0].dst, h.plan.entries[0].bytes);
  }

  /** m may come later than the last Enable: it has the bytes that nothing else changes. */
  ghost predicate Current(ls: seq<Layer>, target: int, m: Mem)
  {
    ls != [] && forall x {:trigger m(x)} :: Kept(ls, |ls|, target, x) ==> m(x) == ls[|ls| - 1].after(x)
  }

  lemma SlotIsCurrent(t: Table, ls: seq<Layer>, target: int, m: Mem, i: int, x: int)
    requires Layered(t, ls, target) && Current(ls, target, m) && 0 <= i < |ls| && ls[i].hook.InSlot(x)
    ensures m(x) == ls[i].after(x)
  {
    hide Layered;
    assert Kept(ls, |ls|, target, x);
    SlotStays(t, ls, target, i, |ls| - 1, x);
  }

  lemma HoldsInSlot(t: Table, ls: seq<Layer>, target: int, m: Mem, i: int, a: int, bs: seq<byte>)
    requires Layered(t, ls, target) && Current(ls, target, m) && 0 <= i < |ls| && Holds(ls[i].after, a, bs)
    requires ls[i].hook.tramp <= a && a + |bs| <= ls[i].hook.tramp + SLOT_SIZE
    ensures Holds(m, a, bs)
  {
    hide Layered, Current;
    forall k | 0 <= k < |bs|
      ensures m(a + k) == bs[k]
    {
      SlotIsCurrent(t, ls, target, m, i, a + k);
    }
  }

  /** A machine on a memory with all hooks of the stack in force. */
  ghost predicate OnStack<D>(mc: Machine<D>, ls: seq<Layer>, target: int)
  {
    && ls != [] && Current(ls, target, mc.code) && Consistent(mc.table) && KnowsTemplates(mc.table)
    && forall i, x :: 0 <= i < |ls| && ls[i].hook.InSlot(x) ==> x in mc.frozen
  }

  /** Entering the target reaches the newest detour. */
  lemma TargetReachesNewest<D>(mc: Machine<D>, ls: seq<Layer>, target: int, d: D)
    requires Stack(mc.table, ls, target) && OnStack(mc, ls, target)
    ensures Run(mc, State(target, d), 2) == Some(State(ls[|ls| - 1].hook.detour, d))
  {
    hide RelocateAll, Placement, Run, JmpAbs, Consistent, KnowsTemplates, Layered, Holds, SlotFilled, Current, WellPlaced, Hook.Patch;
    var n := |ls| - 1;
    var h := ls[n].hook;
    LayerFacts(mc.table, ls, target, n);
    NewEndBound(mc.table, ls[n].before, h);
    PatchIsCurrent(ls, target, mc.code);
    RelayFilled(mc.table, ls, target, n);
    HoldsInSlot(mc.table, ls, target, mc.code, n, h.Relay(), JmpAbs(h.detour));
    Redirects(mc, mc.code, h, d);
  }

  lemma PatchIsCurrent(ls: seq<Layer>, target: int, m: Mem)
    requires Current(ls, target, m)
    requires var l := ls[|ls| - 1];
             l.hook.target == target && !l.hook.patchAbove && Holds(l.after, l.hook.PatchedPos(), l.hook.Patch())
    ensures Holds(m, target, ls[|ls| - 1].hook.Patch())
  {
    hide JmpRel, Wrap32;
    var bs := ls[|ls| - 1].hook.Patch();
    forall k | 0 <= k < |bs|
      ensures m(target + k) == bs[k]
    {
      assert Kept(ls, |ls|, target, target + k);
    }
  }

  /** The original of each hook but the first reaches the detour of the hook below it. */
  lemma OriginReachesDetourBelow<D>(mc: Machine<D>, ls: seq<Layer>, target: int, i: int, d: D)
    requires Stack(mc.table, ls, target) && OnStack(mc, ls, target) && 0 < i < |ls|
    ensures Run(mc, State(ls[i].hook.tramp, d), 2) == Some(State(ls[i - 1].hook.detour, d))
  {
    hide RelocateAll, Placement, Run, Step, Hook.Patch, Holds, Consistent, KnowsTemplates, Current, JmpAbs, Enables;
    var g, h := ls[i - 1].hook, ls[i].hook;
    TrampolineJumpsToRelay(mc.table, ls, target, i);
    RelayFilled(mc.table, ls, target, i - 1);
    HoldsInSlot(mc.table, ls, target, mc.code, i, h.tramp, JmpAbs(g.Relay()));
    HoldsInSlot(mc.table, ls, target, mc.code, i - 1, g.Relay(), JmpAbs(g.detour));
    Sim.StepJmpAbs(mc, h.tramp, g.Relay(), d);
    Sim.StepJmpAbs(mc, g.Relay(), g.detour, d);
    Sim.RunTwo(mc, State(h.tramp, d));
  }

  lemma RelayFilled(t: Table, ls: seq<Layer>, target: int, i: int)
    requires Layered(t, ls, target) && 0 <= i < |ls|
    ensures Holds(ls[i].after, ls[i].hook.Relay(), JmpAbs(ls[i].hook.detour))
  {
    hide RelocateAll, Placement, Hook.Patch, Kept, JmpAbs;
  }

  /** The original of the first hook runs the original function, whatever has been stacked on top. */
  lemma FirstOriginRunsOriginal<D>(mc: Machine<D>, ls: seq<Layer>, target: int, call0: (int, D) -> D, d: D, n: nat)
    returns (k: nat)
    requires Stack(mc.table, ls, target) && OnStack(mc, ls, target)
    requires forall x :: x in mc.frozen ==> !(target - JMP_REL_SIZE <= x < target + CODE_READ)
    requires Sim.Faithful(mc.table, ls[0].before, target, ls[0].hook.tramp, ls[0].hook.plan)
    requires var mc0 := Unstacked(mc, ls, target, call0);
             && Run(mc0, State(target, d), n).Some?
             && Sim.KeepsOff(mc0, mc, target, ls[0].hook.plan, target, JMP_REL_SIZE, d, n)
    ensures var mc0, h := Unstacked(mc, ls, target, call0), ls[0].hook;
            && n <= k && Run(mc, State(h.tramp, d), k).Some?
            && Sim.Related(h.plan, target, h.tramp, Run(mc0, State(target, d), n).value, Run(mc, State(h.tramp, d), k).value)
  {
    hide Run, Sim.Related, Sim.KeepsOff, Sim.Faithful, Sim.Installed, PlanOk, RelocateAll, Bare, Consistent, KnowsTemplates,
         SlotFilled, Placement, Holds, Hook.Patch;
    var h, mc0 := ls[0].hook, Unstacked(mc, ls, target, call0);
    var u := mc0.code;
    BareFacts(mc, ls, target);
    PlanOf(mc.table, ls[0].before, ls[0].space, h, ls[0].after);
    InstalledBelow(mc.(code := ls[0].after), mc0, ls[0].before, ls[0].space, h, ls[0].after, u);
    FaithfulTransfers(mc.table, ls[0].before, u, target, h.tramp, h.plan);
    k := Sim.SimulatePatched(mc0, mc, target, h.tramp, h.plan, target, JMP_REL_SIZE, d, n);
  }

  /** The process without the hooks, and the effects of calls there. */
  ghost function Unstacked<D>(mc: Machine<D>, ls: seq<Layer>, target: int, call0: (int, D) -> D): Machine<D>
    requires ls != []
  {
    mc.(code := Bare(mc, ls, target), isa := mc.isa.(call := call0))
  }

  /** The memory with all hooks, but with the target's first bytes as they were before the first hook. */
  ghost function Bare<D>(mc: Machine<D>, ls: seq<Layer>, target: int): Mem
    requires ls != []
  {
    Write(mc.code, target, Read(ls[0].before, target, JMP_REL_SIZE))
  }

  lemma BareFacts<D>(mc: Machine<D>, ls: seq<Layer>, target: int)
    requires Stack(mc.table, ls, target) && OnStack(mc, ls, target)
    ensures SameCode(ls[0].before, Bare(mc, ls, target), target)
    ensures forall x {:trigger Bare(mc, ls, target)(x)} :: ls[0].hook.InSlot(x) ==> Bare(mc, ls, target)(x) == ls[0].after(x)
    ensures forall x {:trigger Bare(mc, ls, target)(x)} ::
              x < target || target + JMP_REL_SIZE <= x ==> mc.code(x) == Bare(mc, ls, target)(x)
  {
    hide Layered, Consistent, KnowsTemplates;
    var u := Bare(mc, ls, target);
    FirstIsWellPlaced(mc.table, ls, target);
    forall x {:trigger u(x)} | ls[0].hook.InSlot(x)
      ensures u(x) == ls[0].after(x)
    {
      SlotIsCurrent(mc.table, ls, target, mc.code, 0, x);
    }
    forall x {:trigger u(x)} | target <= x < target + CODE_READ
      ensures u(x) == ls[0].before(x)
    {
      if x < target + JMP_REL_SIZE {
        var bs := Read(ls[0].before, target, JMP_REL_SIZE);
        assert bs[x - target] == ls[0].before(target + (x - target));
      } else {
        assert Kept(ls, |ls|, target, x);
        CodeStays(mc.table, ls, target, |ls| - 1, x);
      }
    }
  }

  lemma FirstIsWellPlaced(t: Table, ls: seq<Layer>, target: int)
    requires Stack(t, ls, target) && ls != []
    ensures WellPlaced(ls[0].hook) && ls[0].hook.target == target
  {
    hide Enables, Kept;
  }

  /** Code behind the patch is never changed. */
  lemma {:induction false} CodeStays(t: Table, ls: seq<Layer>, target: int, k: int, x: int)
    requires Stack(t, ls, target) && 0 <= k < |ls| && target + JMP_REL_SIZE <= x < target + CODE_READ
    ensures ls[k].after(x) == ls[0].before(x)
    decreases k
  {
    hide RelocateAll, Placement, SlotFilled, Holds, Hook.Patch;
    if k > 0 {
      CodeStays(t, ls, target, k - 1, x);
      assert Kept(ls, k, target, x);
    }
  }
}
