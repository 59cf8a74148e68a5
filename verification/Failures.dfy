/** Where Enable and Disable fall short: jumps above the target, hooks enabled twice, overlapping hooks disabled in the
    wrong order. */
module Failures {
  import opened Words
  import opened AddressSpace
  import opened Hde64
  import opened Hde64Laws
  import opened Table64
  import opened Instructions
  import opened X64
  import opened Relocation
  import opened Patching
  import H = Hooks
  import L = Limits
  import R = Restoration
  import S = Stacking
  import Sim = Simulation

  // ---------------------------------------------------------------------
  // Jumps above the target
  // ---------------------------------------------------------------------

  /** Five INT 3, then EB 20 (JMP +32): a function with a hot-patch area. */
  const HOT_PATCH: seq<byte> := [0xCC, 0xCC, 0xCC, 0xCC, 0xCC, 0xEB, 0x20]

  /** It is accepted, with the long jump above the target, if no padding follows the short jump. */
  lemma HotPatchAccepted(t: Table, m: Mem, s: Space, target: int, tramp: int)
    requires KnowsTemplates(t) && JMP_REL_SIZE < target < USER_LIMIT && Holds(m, target - JMP_REL_SIZE, HOT_PATCH)
    requires !IsPadding(m, target + 2, 3) && IsExecutable(s, target - JMP_REL_SIZE)
    ensures var p := RelocateAll(t, m, target, tramp);
            p.Planned? && p.plan.oldEnd == 2 && p.plan.newEnd == 14 && Placement(m, s, target, p.plan.oldEnd) == Some(true)
  {
    hide KnowsTemplates, IsExecutable, MakeEntry;
    var bs := HOT_PATCH;
    var a := target - JMP_REL_SIZE;
    assert m(a + 0) == bs[0] && m(a + 1) == bs[1] && m(a + 2) == bs[2] && m(a + 3) == bs[3] && m(a + 4) == bs[4];
    assert m(a + 5) == bs[5] && m(a + 6) == bs[6];
    ShortJumpRelocates(t, m, target, tramp, target + 34);
    assert IsPadding(m, a, JMP_REL_SIZE);
  }

  /** A function that is a short jump elsewhere becomes one absolute jump. */
  lemma ShortJumpRelocates(t: Table, m: Mem, target: int, tramp: int, dest: int)
    requires KnowsTemplates(t) && 0 < target < USER_LIMIT && m(target) == 0xEB
    requires dest == target + 2 + SExt8(m(target + 1)) && 0 <= dest && !InPatch(target, dest)
    ensures var p := RelocateAll(t, m, target, tramp);
            && p.Planned? && |p.plan.entries| == 1 && p.plan.oldEnd == 2 && p.plan.newEnd == 14
            && p.plan.entries[0].kind == JumpOut(dest)
  {
    hide KnowsTemplates, MakeEntry;
    L.ShortEntry(t, m, target, tramp, 0, 0);
    var e := MakeEntry(t, m, target, tramp, 0, 0);
    assert RelocateAll(t, m, target, tramp) == Planned(Plan([] + [e], 2, 14, 0));
  }

  /** Entering it when it is hooked leads into the address field of its own trampoline. */
  lemma HotPatchMisses<D>(mc: Machine<D>, m: Mem, s: Space, h: Hook, m': Mem, d: D)
    requires OnHooked(mc, m', h) && WellPlaced(h) && Enables(mc.table, m, s, h, m')
    requires Holds(m, h.target - JMP_REL_SIZE, HOT_PATCH) && !IsPadding(m, h.target + 2, 3)
    ensures h.patchAbove && Run(mc, State(h.target, d), 2) == Some(State(h.tramp + 9, d))
  {
    hide RelocateAll, IsPadding, IsExecutable, SlotFilled, OnHooked, Run, Hook.Patch;
    var bs := HOT_PATCH;
    assert m(h.target - 5 + 5) == bs[5] && m(h.target - 5 + 6) == bs[6];
    HooksKnow(mc, m', h);
    ShortJumpRelocates(mc.table, m, h.target, h.tramp, h.target + 34);
    MissesRelay(mc, m', h, d);
  }

  lemma HooksKnow<D>(mc: Machine<D>, m': Mem, h: Hook)
    requires OnHooked(mc, m', h)
    ensures KnowsTemplates(mc.table) && mc.code == m'
  {
    hide KnowsTemplates;
  }

  /** Five INT 3, then RET, one byte of padding, and other code. */
  const LONE_RET: seq<byte> := [0xCC, 0xCC, 0xCC, 0xCC, 0xCC, 0xC3, 0x90, 0x55]

  lemma RetEntry(m: Mem, target: int, tramp: int)
    requires m(target) == 0xC3
    ensures var e := MakeEntry(Hde64Table(), m, target, tramp, 0, 0);
            !e.inst.Failed() && e.kind == Return && e.inst.len == 1 && |e.bytes| == 1 && e.src == 0 && e.dst == 0
  {
    hide Hde64Table, Decode;
    L.DecodeRet(m, target);
    Sim.EntryFields(Hde64Table(), m, target, tramp, 0, 0);
    assert target + 0 == target;
  }

  /** Entering it when it is hooked leads four bytes below its slot: with fewer than five bytes of trampoline the jump
      leaves the slot. */
  lemma LoneRetLeavesSlot<D>(mc: Machine<D>, m: Mem, s: Space, h: Hook, m': Mem, d: D)
    requires mc.table == Hde64Table() && OnHooked(mc, m', h) && WellPlaced(h) && Enables(mc.table, m, s, h, m')
    requires Holds(m, h.target - JMP_REL_SIZE, LONE_RET)
    ensures h.patchAbove && Run(mc, State(h.target, d), 2) == Some(State(h.tramp - 4, d)) && !h.InSlot(h.tramp - 4)
  {
    hide MakeEntry, IsExecutable, SlotFilled, OnHooked, Run, Hook.Patch, Hde64Table;
    var bs := LONE_RET;
    var a := h.target - 5;
    assert m(a + 5) == bs[5] && m(a + 6) == bs[6] && m(a + 7) == bs[7];
    RetEntry(m, h.target, h.tramp);
    var e := MakeEntry(mc.table, m, h.target, h.tramp, 0, 0);
    assert RelocateAll(mc.table, m, h.target, h.tramp) == Planned(Plan([] + [e], 1, 1, 0));
    assert !IsPadding(m, h.target + 1, 4);
    MissesRelay(mc, m', h, d);
  }

  // ---------------------------------------------------------------------
  // Hooks enabled twice
  // ---------------------------------------------------------------------

  /** The windows are code, and the slot is not. */
  ghost predicate CodeHook(code: iset<int>, h: Hook)
  {
    && (forall x :: h.InWindow(x) ==> x in code)
    && (forall x :: x in code ==> !h.InSlot(x))
  }

  /** What Enable leaves of the code. */
  lemma EnabledByte(t: Table, m: Mem, s: Space, h: Hook, m': Mem, code: iset<int>, x: int)
    requires Enables(t, m, s, h, m') && CodeHook(code, h) && x in code
    ensures m'(x) == if h.InWindow(x) then h.Patch()[x - h.PatchedPos()] else m(x)
  {
    hide RelocateAll, Placement, SlotFilled, Hook.Patch;
    if h.InWindow(x) {
      assert m'(h.PatchedPos() + (x - h.PatchedPos())) == h.Patch()[x - h.PatchedPos()];
    }
  }

  /** A hook that is enabled a second time while it is in force, and then disabled: Disable puts back what the second
      Enable has found, and that is the first patch.  It stays in force, wherever both had their jumps; a byte of its
      window is what it was exactly if the patch had not changed it. */
  lemma EnabledTwice(t: Table, m: Mem, s: Space, h1: Hook, m1: Mem, m2: Mem, s2: Space, h2: Hook, m3: Mem, code: iset<int>, x: int)
    requires Enables(t, m, s, h1, m1) && Enables(t, m2, s2, h2, m3) && h2.target == h1.target
    requires R.SameBytes(m1, m2, code) && CodeHook(code, h1) && CodeHook(code, h2) && x in code
    ensures var done := H.Unpatched(m2, h2, m3);
            && Holds(done, h1.PatchedPos(), h1.Patch())
            && (h1.InWindow(x) ==> (done(x) == m(x) <==> h1.Patch()[x - h1.PatchedPos()] == m(x)))
            && (!h1.InWindow(x) ==> done(x) == m(x))
  {
    hide Enables, Hook.Patch, CodeHook;
    var done := H.Unpatched(m2, h2, m3);
    SecondUndone(t, m, s, h1, m1, m2, s2, h2, m3, code, x);
    forall k | 0 <= k < |h1.Patch()|
      ensures done(h1.PatchedPos() + k) == h1.Patch()[k]
    {
      WindowInCode(code, h1, h1.PatchedPos() + k);
      SecondUndone(t, m, s, h1, m1, m2, s2, h2, m3, code, h1.PatchedPos() + k);
    }
  }

  lemma WindowInCode(code: iset<int>, h: Hook, x: int)
    requires CodeHook(code, h) && h.InWindow(x)
    ensures x in code
  {
  }

  lemma SecondUndone(t: Table, m: Mem, s: Space, h1: Hook, m1: Mem, m2: Mem, s2: Space, h2: Hook, m3: Mem, code: iset<int>, x: int)
    requires Enables(t, m, s, h1, m1) && Enables(t, m2, s2, h2, m3)
    requires R.SameBytes(m1, m2, code) && CodeHook(code, h1) && CodeHook(code, h2) && x in code
    ensures H.Unpatched(m2, h2, m3)(x) == if h1.InWindow(x) then h1.Patch()[x - h1.PatchedPos()] else m(x)
  {
    hide Enables, Hook.Patch;
    EnabledByte(t, m, s, h1, m1, code, x);
    EnabledByte(t, m2, s2, h2, m3, code, x);
    if h2.InWindow(x) {
      var bs := Read(m2, h2.PatchedPos(), h2.PatchedSize());
      assert bs[x - h2.PatchedPos()] == m2(h2.PatchedPos() + (x - h2.PatchedPos()));
    }
  }

  /** With the jump above the target its first byte is certainly not restored. */
  lemma NotRestoredAbove(t: Table, m: Mem, s: Space, h: Hook, m': Mem)
    requires Enables(t, m, s, h, m') && h.patchAbove
    ensures h.Patch()[0] != m(h.PatchedPos())
  {
    hide RelocateAll, SlotFilled, Holds;
    assert IsPadding(m, h.target - JMP_REL_SIZE, JMP_REL_SIZE);
  }

  /** Where the second patch goes, and when there is a second one.  A jump at the target is relocated as one jump, and
      the second window is the first.  Under a jump above the target there is a short jump at the target, and then
      another Enable succeeds exactly if three bytes of padding follow; its window is at the target. */
  lemma SecondWindow(t: Table, m: Mem, s: Space, h: Hook, m1: Mem, m2: Mem, s2: Space, tramp2: int)
    requires KnowsTemplates(t) && Enables(t, m, s, h, m1) && WellPlaced(h)
    requires forall x {:trigger m2(x)} :: h.target - JMP_REL_SIZE <= x < h.target + CODE_READ ==> m2(x) == m1(x)
    ensures var p := RelocateAll(t, m2, h.target, tramp2);
            && p.Planned? && p.plan.oldEnd == (if h.patchAbove then 2 else 5)
            && Placement(m2, s2, h.target, p.plan.oldEnd)
               == if !h.patchAbove || IsPadding(m, h.target + 2, 3) then Some(false) else None
  {
    hide RelocateAll, SlotFilled, KnowsTemplates, JmpRel, Wrap32, SExt32, IsPadding, Placement;
    H.NewEndBound(t, m, h);
    PatchFound(t, m, s, h, m1, m2);
    if h.patchAbove {
      PatchAboveParts(m2, h);
      ShortJumpRelocates(t, m2, h.target, tramp2, h.target - JMP_REL_SIZE);
      NoRoomAgain(t, m, s, h, m1, m2, s2);
    } else {
      LongJumpDest(h);
      S.PatchIsRelocated(t, m2, h.target, tramp2, Wrap32(h.Relay() - (h.target + JMP_REL_SIZE)), h.Relay());
      S.RoomForLongJump(m2, s2, h.target, 5);
    }
  }

  lemma PatchFound(t: Table, m: Mem, s: Space, h: Hook, m1: Mem, m2: Mem)
    requires Enables(t, m, s, h, m1)
    requires forall x {:trigger m2(x)} :: h.target - JMP_REL_SIZE <= x < h.target + CODE_READ ==> m2(x) == m1(x)
    ensures Holds(m2, h.PatchedPos(), h.Patch())
  {
    hide RelocateAll, SlotFilled, Placement, Hook.Patch;
  }

  lemma NoRoomAgain(t: Table, m: Mem, s: Space, h: Hook, m1: Mem, m2: Mem, s2: Space)
    requires Enables(t, m, s, h, m1) && WellPlaced(h) && h.patchAbove && Holds(m2, h.PatchedPos(), h.Patch())
    requires forall x {:trigger m2(x)} :: h.target - JMP_REL_SIZE <= x < h.target + CODE_READ ==> m2(x) == m1(x)
    ensures Placement(m2, s2, h.target, 2) == if IsPadding(m, h.target + 2, 3) then Some(false) else None
  {
    hide RelocateAll, SlotFilled, IsExecutable;
    assert m2(h.PatchedPos() + 0) == h.Patch()[0] == 0xE9;
    forall x {:trigger m(x)} {:trigger m2(x)} | h.target + 2 <= x < h.target + 5
      ensures m2(x) == m(x)
    {
      assert m2(x) == m1(x);
    }
    assert IsPadding(m2, h.target + 2, 3) <==> IsPadding(m, h.target + 2, 3);
  }

  /** The slot of h1 is in use when h2 is enabled. */
  ghost predicate SlotKept(h1: Hook, m1: Mem, m2: Mem, h2: Hook)
  {
    forall x {:trigger m2(x)} :: h1.InSlot(x) ==> m2(x) == m1(x) && !h2.InSlot(x) && !h2.InWindow(x)
  }

  /** The first relay outlives the second hook. */
  lemma RelayKept(t: Table, m: Mem, s: Space, h1: Hook, m1: Mem, m2: Mem, s2: Space, h2: Hook, m3: Mem)
    requires Enables(t, m, s, h1, m1) && Enables(t, m2, s2, h2, m3)
    requires SlotKept(h1, m1, m2, h2)
    ensures Holds(H.Unpatched(m2, h2, m3), h1.Relay(), JmpAbs(h1.detour))
  {
    hide RelocateAll, Placement, JmpAbs, Hook.Patch;
    var done, bs := H.Unpatched(m2, h2, m3), JmpAbs(h1.detour);
    H.NewEndBound(t, m, h1);
    forall k | 0 <= k < |bs|
      ensures done(h1.Relay() + k) == bs[k]
    {
      var x := h1.Relay() + k;
      assert h1.InSlot(x) && m1(x) == bs[k];
      assert m2(x) == m1(x);
      assert m3(x) == m2(x) && done(x) == m3(x);
    }
  }

  /** So a hook that has been enabled twice and disabled still takes the target to its first detour. */
  lemma StillHooked<D>(mc: Machine<D>, m: Mem, s: Space, h1: Hook, m1: Mem, m2: Mem, s2: Space, h2: Hook, m3: Mem,
                       code: iset<int>, d: D)
    requires Enables(mc.table, m, s, h1, m1) && Enables(mc.table, m2, s2, h2, m3) && h2.target == h1.target
    requires R.SameBytes(m1, m2, code) && CodeHook(code, h1) && CodeHook(code, h2) && WellPlaced(h1) && !h1.patchAbove
    requires SlotKept(h1, m1, m2, h2)
    requires OnHooked(mc, H.Unpatched(m2, h2, m3), h1)
    ensures Run(mc, State(h1.target, d), 2) == Some(State(h1.detour, d))
  {
    hide RelocateAll, Placement, SlotFilled, Hook.Patch, OnHooked, Run, JmpAbs, CodeHook, Holds, R.SameBytes, WellPlaced,
         KnowsTemplates, SlotKept;
    var done := H.Unpatched(m2, h2, m3);
    H.NewEndBound(mc.table, m, h1);
    WindowInCode(code, h1, h1.target);
    EnabledTwice(mc.table, m, s, h1, m1, m2, s2, h2, m3, code, h1.target);
    RelayKept(mc.table, m, s, h1, m1, m2, s2, h2, m3);
    Redirects(mc, done, h1, d);
  }

  // ---------------------------------------------------------------------
  // The wrong order
  // ---------------------------------------------------------------------

  /** Two hooks, disabled in the order in which they were enabled: a code byte that both windows cover is left with the
      first patch, and all others are restored.  Newest first, all are. */
  lemma WrongOrder(t: Table, m: Mem, s: Space, h1: Hook, m1: Mem, m2: Mem, s2: Space, h2: Hook, m3: Mem, code: iset<int>, x: int)
    requires Enables(t, m, s, h1, m1) && Enables(t, m2, s2, h2, m3)
    requires R.SameBytes(m1, m2, code) && CodeHook(code, h1) && CodeHook(code, h2) && x in code
    ensures var backup1 := Read(m, h1.PatchedPos(), h1.PatchedSize());
            var backup2 := Read(m2, h2.PatchedPos(), h2.PatchedSize());
            var wrong := Write(Write(m3, h1.PatchedPos(), backup1), h2.PatchedPos(), backup2);
            var right := Write(Write(m3, h2.PatchedPos(), backup2), h1.PatchedPos(), backup1);
            && right(x) == m(x)
            && wrong(x) == (if h1.InWindow(x) && h2.InWindow(x) then h1.Patch()[x - h1.PatchedPos()] else m(x))
            && (wrong(x) == m(x) <==> (h1.InWindow(x) && h2.InWindow(x) ==> h1.Patch()[x - h1.PatchedPos()] == m(x)))
  {
    hide Enables, Hook.Patch, CodeHook;
    EnabledByte(t, m, s, h1, m1, code, x);
    EnabledByte(t, m2, s2, h2, m3, code, x);
    var backup1, backup2 := Read(m, h1.PatchedPos(), h1.PatchedSize()), Read(m2, h2.PatchedPos(), h2.PatchedSize());
    if h1.InWindow(x) {
      assert backup1[x - h1.PatchedPos()] == m(h1.PatchedPos() + (x - h1.PatchedPos()));
    }
    if h2.InWindow(x) {
      assert backup2[x - h2.PatchedPos()] == m2(h2.PatchedPos() + (x - h2.PatchedPos()));
    }
  }
}
