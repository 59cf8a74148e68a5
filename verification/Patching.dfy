/** Where the jump to the detour goes, and what a hook leaves in memory.  src/trampoline.cpp:256-291, 360-413. */
module Patching {
  import opened Words
  import opened AddressSpace
  import opened Hde64
  import opened Hde64Laws
  import opened Instructions
  import opened X64
  import opened Relocation
  import opened Layout
  import opened Acceptance
  import Sim = Simulation

  // ---------------------------------------------------------------------
  // The place of the jump
  // ---------------------------------------------------------------------

  /** Whether the long jump goes above the target, None if there is no room for it. */
  ghost function Placement(m: Mem, s: Space, target: int, oldEnd: int): Option<bool>
  {
    if oldEnd < JMP_REL_SIZE && !IsPadding(m, target + oldEnd, JMP_REL_SIZE - oldEnd) then
      if oldEnd < JMP_REL_SHORT_SIZE && !IsPadding(m, target + oldEnd, JMP_REL_SHORT_SIZE - oldEnd) then None
      else if !IsExecutable(s, target - JMP_REL_SIZE) || !IsPadding(m, target - JMP_REL_SIZE, JMP_REL_SIZE) then None
      else Some(true)
    else Some(false)
  }

  /** The n bytes at a are one byte over and over: 00, 90 or CC. */
  ghost predicate Gap(m: Mem, a: int, n: int)
  {
    exists c :: Filler(m, a, n, c)
  }

  /** The page of address a is mapped and executable. */
  ghost predicate Mapped(s: Space, a: int)
  {
    0 <= a && a / 0x1000 < |s.pages| && exists base :: s.pages[a / 0x1000] == Used(base, true)
  }

  lemma ExecutableIff(s: Space, a: int)
    ensures IsExecutable(s, a) <==> Mapped(s, a)
  {
    if IsExecutable(s, a) {
      var page := s.pages[a / 0x1000];
      assert page == Used(page.allocationBase, true);
    }
  }

  /** The five bytes at the target are relocated instructions, of oldEnd bytes in all, and a gap. */
  ghost predicate RoomAt(m: Mem, target: int, oldEnd: int)
  {
    oldEnd >= 5 || Gap(m, target + oldEnd, 5 - oldEnd)
  }

  /** The first two bytes are, and the five bytes above the target are an executable gap. */
  ghost predicate RoomAbove(m: Mem, s: Space, target: int, oldEnd: int)
  {
    (oldEnd >= 2 || Gap(m, target + oldEnd, 2 - oldEnd)) && Mapped(s, target - 5) && Gap(m, target - 5, 5)
  }

  /** Where the jump goes, by the bytes. */
  lemma PlacementIff(m: Mem, s: Space, target: int, oldEnd: int)
    requires 0 <= oldEnd
    ensures Placement(m, s, target, oldEnd)
         == if RoomAt(m, target, oldEnd) then Some(false) else if RoomAbove(m, s, target, oldEnd) then Some(true) else None
  {
    hide IsPadding, Filler;
    if oldEnd < 5 {
      PaddingIff(m, target + oldEnd, 5 - oldEnd);
    }
    if oldEnd < 2 {
      PaddingIff(m, target + oldEnd, 2 - oldEnd);
    }
    PaddingIff(m, target - 5, 5);
    ExecutableIff(s, target - 5);
  }

  // ---------------------------------------------------------------------
  // Hooks
  // ---------------------------------------------------------------------

  /** A hook as Enable leaves it. */
  datatype Hook = Hook(target: int, detour: int, tramp: int, plan: Plan, patchAbove: bool)
  {
    function Relay(): int {
      tramp + plan.newEnd
    }

    /** patchedPos_ and patchedSize_. */
    function PatchedPos(): int {
      if patchAbove then target - JMP_REL_SIZE else target
    }

    function PatchedSize(): (n: nat)
    {
      if patchAbove then JMP_REL_SIZE + JMP_REL_SHORT_SIZE else JMP_REL_SIZE
    }

    /** The patch: the long jump, and above the target also the short jump to it.  The operand is the one for a jump
        at the target in both cases. */
    function Patch(): (bs: seq<byte>)
      ensures |bs| == PatchedSize()
    {
      var long := JmpRel(Wrap32(Relay() - (target + JMP_REL_SIZE)));
      if patchAbove then long + JmpRelShort(0xF9) else long
    }

    predicate InSlot(x: int) {
      tramp <= x < tramp + SLOT_SIZE
    }

    predicate InWindow(x: int) {
      PatchedPos() <= x < PatchedPos() + PatchedSize()
    }
  }

  /** m' has h's trampoline and relay in its slot. */
  ghost predicate SlotFilled(m': Mem, h: Hook)
  {
    && (forall k :: 0 <= k < |h.plan.entries| ==> Holds(m', h.tramp + h.plan.entries[k].dst, h.plan.entries[k].bytes))
    && Holds(m', h.Relay(), JmpAbs(h.detour))
  }

  /** m' is m with hook h enabled. */
  ghost predicate Enables(t: Table, m: Mem, s: Space, h: Hook, m': Mem)
  {
    && RelocateAll(t, m, h.target, h.tramp) == Planned(h.plan)
    && Placement(m, s, h.target, h.plan.oldEnd) == Some(h.patchAbove)
    && SlotFilled(m', h)
    && Holds(m', h.PatchedPos(), h.Patch())
    && (forall x {:trigger m'(x)} :: !h.InSlot(x) && !h.InWindow(x) ==> m'(x) == m(x))
  }

  /** The slot is away from the code of the target, and within reach of a 32-bit displacement. */
  ghost predicate WellPlaced(h: Hook)
  {
    && JMP_REL_SIZE < h.target < USER_LIMIT && SLOT_SIZE < h.tramp < USER_LIMIT && 0 <= h.detour < TWO64
    && (h.tramp + SLOT_SIZE <= h.target - JMP_REL_SIZE || h.target + CODE_READ <= h.tramp)
    && h.target - MAX_MEMORY_RANGE <= h.tramp && h.tramp + SLOT_SIZE - 1 <= h.target + MAX_MEMORY_RANGE
  }

  lemma PlanIsOk(t: Table, m: Mem, target: int, tramp: int)
    ensures var p := RelocateAll(t, m, target, tramp); p.Planned? ==> PlanOk(t, m, target, tramp, p.plan)
  {
    hide Relocate, PlanOk;
    RelocateLays(t, m, target, tramp, 0, 0, 0, []);
  }

  // ---------------------------------------------------------------------
  // No live byte is destroyed
  // ---------------------------------------------------------------------

  /** x is a byte of the k-th instruction, which has been relocated, and the function has not ended before it. */
  ghost predicate Relocated(h: Hook, x: int, k: int)
  {
    && 0 <= k < |h.plan.entries| && h.plan.entries[k].src < 5
    && h.target + h.plan.entries[k].src <= x < h.target + h.plan.entries[k].src + h.plan.entries[k].inst.len
    && forall j :: 0 <= j < k ==> !Ends(h.plan.entries, h.target, j)
  }

  /** The gap above the target, where the long jump goes there. */
  ghost predicate GapAbove(m: Mem, h: Hook, x: int)
  {
    h.patchAbove && h.target - 5 <= x < h.target && Gap(m, h.target - 5, 5)
  }

  /** The gap behind the relocated instructions, up to the end of the jump at the target. */
  ghost predicate GapBehind(m: Mem, h: Hook, x: int)
  {
    var n := (if h.patchAbove then 2 else 5) - h.plan.oldEnd;
    0 <= x - (h.target + h.plan.oldEnd) < n && Gap(m, h.target + h.plan.oldEnd, n)
  }

  /** Every byte that the patch overwrites belongs to an instruction of the function that has been relocated, or to one of
      two gaps: the five bytes above the target, or all that the jump at the target takes behind the relocated instructions.
      The last of these ends the function. */
  lemma NoLiveByteLost(t: Table, m: Mem, s: Space, h: Hook, m': Mem, x: int)
    requires Enables(t, m, s, h, m') && h.InWindow(x) && 0 <= h.target
    ensures (exists k :: Relocated(h, x, k)) || GapAbove(m, h, x) || GapBehind(m, h, x)
    ensures h.plan.entries != [] && Ends(h.plan.entries, h.target, |h.plan.entries| - 1)
  {
    hide RelocateAll, Relocate, SlotFilled, Holds, PlanOk, Gap, Ends, Placement, Moved, IsFurthest, MakeEntry;
    PlanIsOk(t, m, h.target, h.tramp);
    PlanFacts(t, m, h.target, h.tramp, h.plan);
    OutcomeIff(t, m, h.target, h.tramp, h.plan);
    PlacementIff(m, s, h.target, h.plan.oldEnd);
    if h.target <= x < h.target + h.plan.oldEnd {
      var k := CoveringEntry(t, m, h.target, h.tramp, h.plan, x - h.target);
      assert Relocated(h, x, k);
    }
  }

  lemma PlanFacts(t: Table, m: Mem, target: int, tramp: int, p: Plan)
    requires PlanOk(t, m, target, tramp, p)
    ensures 1 <= |p.entries| && 1 <= p.oldEnd
  {
  }

  lemma CoveringEntry(t: Table, m: Mem, target: int, tramp: int, p: Plan, q: int) returns (k: int)
    requires PlanOk(t, m, target, tramp, p) && 0 <= q < p.oldEnd && q < JMP_REL_SIZE
    ensures 0 <= k < |p.entries| && p.entries[k].src < 5
    ensures p.entries[k].src <= q < p.entries[k].src + p.entries[k].inst.len
  {
    hide MakeEntry, Finishes, SpanKept;
    k := 0;
    Adjacent(p.entries, p.oldEnd, p.newEnd, 0);
    while p.entries[k].src + p.entries[k].inst.len <= q
      invariant 0 <= k < |p.entries| && p.entries[k].src <= q
      decreases |p.entries| - k
    {
      Adjacent(p.entries, p.oldEnd, p.newEnd, k);
      k := k + 1;
    }
    assert EntryOk(t, m, target, tramp, p.entries[k]);
    JumpBackIff(t, m, target, tramp, p.entries[k].src, p.entries[k].dst);
  }

  // ---------------------------------------------------------------------
  // Redirection
  // ---------------------------------------------------------------------

  /** Where the long jump of the patch leads: the operand survives its truncation, but it is relative to a jump at the
      target, so above the target the jump misses the relay by the size of a long jump. */
  lemma LongJumpDest(h: Hook)
    requires WellPlaced(h) && 0 <= h.plan.newEnd <= TRAMPOLINE_MAX_SIZE
    ensures var operand := Wrap32(h.Relay() - (h.target + JMP_REL_SIZE));
            Wrap64(h.PatchedPos() + 5 + SExt32(operand)) == if h.patchAbove then h.Relay() - JMP_REL_SIZE else h.Relay()
  {
    var x := h.Relay() - (h.target + JMP_REL_SIZE);
    TruncationKeepsFitting(x);
  }

  lemma StepJmpRel<D>(mc: Machine<D>, a: int, operand: int, d: D)
    requires KnowsTemplates(mc.table) && 0 <= operand < TWO32 && Holds(mc.code, a, JmpRel(operand))
    ensures Step(mc, State(a, d)) == Some(State(Wrap64(a + 5 + SExt32(operand)), d))
  {
    hide KnowsTemplates, Step, Decode, Covered, Bytes4, Read32, SExt32;
    Sim.HoldsParts(mc.code, a, [0xE9], Bytes4(operand));
    assert mc.code(a + 0) == [0xE9][0];
    assert Read(mc.code, a + 1, 4) == Bytes4(operand);
    Read32OfBytes4(mc.code, a + 1, operand);
    DecodeJmpRel(mc.table, mc.code, a);
    Sim.PlainIsCovered(Decode(mc.table, mc.code, a));
    Sim.StepOther(mc, State(a, d), Decode(mc.table, mc.code, a));
  }

  /** A machine on the hooked memory. */
  ghost predicate OnHooked<D>(mc: Machine<D>, m': Mem, h: Hook)
  {
    && KnowsTemplates(mc.table) && mc.code == m'
    && forall x :: h.InSlot(x) ==> x in mc.frozen
  }

  /** Entering the hooked target reaches the detour in two steps, with the data untouched, when the jump is at the
      target. */
  lemma Redirects<D>(mc: Machine<D>, m': Mem, h: Hook, d: D)
    requires OnHooked(mc, m', h) && WellPlaced(h) && 0 <= h.plan.newEnd <= TRAMPOLINE_MAX_SIZE && !h.patchAbove
    requires Holds(m', h.Relay(), JmpAbs(h.detour)) && Holds(m', h.PatchedPos(), h.Patch())
    ensures Run(mc, State(h.target, d), 2) == Some(State(h.detour, d))
  {
    hide KnowsTemplates, Step, Holds, JmpRel, JmpAbs;
    LongJumpDest(h);
    StepJmpRel(mc, h.target, Wrap32(h.Relay() - (h.target + JMP_REL_SIZE)), d);
    Sim.StepJmpAbs(mc, h.Relay(), h.detour, d);
    Sim.RunTwo(mc, State(h.target, d));
  }

  lemma PatchAboveParts(m: Mem, h: Hook)
    requires h.patchAbove && Holds(m, h.PatchedPos(), h.Patch())
    ensures Holds(m, h.PatchedPos(), JmpRel(Wrap32(h.Relay() - (h.target + JMP_REL_SIZE))))
    ensures m(h.target) == 0xEB && m(h.target + 1) == 0xF9
  {
    hide Holds, JmpRel, Wrap32;
    var operand := Wrap32(h.Relay() - (h.target + JMP_REL_SIZE));
    Sim.HoldsParts(m, h.PatchedPos(), JmpRel(operand), [0xEB, 0xF9]);
    Sim.HoldsTwo(m, h.target, 0xEB, 0xF9);
  }

  lemma StepAbove<D>(mc: Machine<D>, h: Hook, d: D)
    requires KnowsTemplates(mc.table) && WellPlaced(h) && h.patchAbove && Holds(mc.code, h.PatchedPos(), h.Patch())
    ensures Step(mc, State(h.target, d)) == Some(State(h.PatchedPos(), d))
    ensures Holds(mc.code, h.PatchedPos(), JmpRel(Wrap32(h.Relay() - (h.target + JMP_REL_SIZE))))
  {
    hide KnowsTemplates, Step, Holds, JmpRel, Wrap32, Hook.Patch, Decode;
    PatchAboveParts(mc.code, h);
    Sim.StepJmpShort(mc, h.target, d);
  }

  /** With the jump above the target two steps lead from the target to five bytes before the relay. */
  lemma MissesRelay<D>(mc: Machine<D>, m': Mem, h: Hook, d: D)
    requires OnHooked(mc, m', h) && WellPlaced(h) && 0 <= h.plan.newEnd <= TRAMPOLINE_MAX_SIZE && h.patchAbove
    requires Holds(m', h.PatchedPos(), h.Patch())
    ensures Run(mc, State(h.target, d), 2) == Some(State(h.Relay() - JMP_REL_SIZE, d))
  {
    hide KnowsTemplates, Step, Holds, JmpRel, JmpAbs, Run, SExt32, Wrap32, Hook.Patch;
    LongJumpDest(h);
    StepAbove(mc, h, d);
    StepJmpRel(mc, h.PatchedPos(), Wrap32(h.Relay() - (h.target + JMP_REL_SIZE)), d);
    Sim.RunTwo(mc, State(h.target, d));
  }
}
