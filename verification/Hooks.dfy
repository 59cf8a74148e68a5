/** What Enable is for: calls of the target reach the detour, calls of *origin run the original function, also when
    several hooks are stacked on one target. */
module Hooks {
  import opened Words
  import opened AddressSpace
  import opened Hde64
  import opened Hde64Laws
  import opened Instructions
  import opened X64
  import opened Relocation
  import opened Layout
  import opened Patching
  import Sim = Simulation
  import R = Restoration

  // ---------------------------------------------------------------------
  // Plans depend on the code of the target only
  // ---------------------------------------------------------------------

  /** The code from target on is the same in both memories. */
  ghost predicate SameCode(m: Mem, u: Mem, target: int)
  {
    forall x {:trigger u(x)} :: target <= x < target + CODE_READ ==> u(x) == m(x)
  }

  lemma DecodeTransfers(t: Table, m: Mem, u: Mem, target: int, k: int)
    requires SameCode(m, u, target) && 0 <= k <= 19
    ensures Decode(t, u, target + k).Failed() <==> Decode(t, m, target + k).Failed()
    ensures !Decode(t, m, target + k).Failed() ==> Decode(t, u, target + k) == Decode(t, m, target + k)
  {
    hide Decode;
    SixteenBytesSuffice(t, u, target + k, m, target + k);
  }

  lemma EntryTransfers(t: Table, m: Mem, u: Mem, target: int, tramp: int, e: Entry)
    requires SameCode(m, u, target) && EntryOk(t, m, target, tramp, e) && e.src <= 19
    ensures EntryOk(t, u, target, tramp, e)
  {
    hide Decode, Classify, JmpAbs, CallAbs, JccAbs, NewDisp, DispOffset, Bytes4;
    DecodeTransfers(t, m, u, target, e.src);
    Sim.EntryFields(t, m, target, tramp, e.src, e.dst);
    var a := target + e.src;
    assert Read(u, a, e.inst.len) == Read(m, a, e.inst.len);
    if e.kind.RipRelative? {
      assert Redisplaced(u, e.inst, a, tramp + e.dst) == Redisplaced(m, e.inst, a, tramp + e.dst);
    }
  }

  lemma PlanTransfers(t: Table, m: Mem, u: Mem, target: int, tramp: int, p: Plan)
    requires SameCode(m, u, target) && PlanOk(t, m, target, tramp, p)
    ensures PlanOk(t, u, target, tramp, p)
  {
    hide EntryOk, SpanKept, Finishes, SameCode;
    forall k | 0 <= k < |p.entries|
      ensures EntryOk(t, u, target, tramp, p.entries[k])
    {
      EntryTransfers(t, m, u, target, tramp, p.entries[k]);
    }
  }

  lemma {:induction false} BoundaryTransfers(t: Table, m: Mem, u: Mem, target: int, from: int, p: int)
    requires SameCode(m, u, target) && Boundary(t, m, target, from, p) && 0 <= from && p <= 19
    ensures Boundary(t, u, target, from, p)
    decreases p - from
  {
    hide Decode, SameCode;
    if from < p {
      DecodeTransfers(t, m, u, target, from);
      BoundaryTransfers(t, m, u, target, from + Decode(t, m, target + from).len, p);
    }
  }

  lemma FaithfulTransfers(t: Table, m: Mem, u: Mem, target: int, tramp: int, p: Plan)
    requires SameCode(m, u, target) && PlanOk(t, m, target, tramp, p) && Sim.Faithful(t, m, target, tramp, p)
    ensures Sim.Faithful(t, u, target, tramp, p)
  {
    hide SameCode, Boundary, PlanOk, Sim.SpanUnchanged, Sim.WantedDisp;
    forall i | 0 <= i < |p.entries|
      ensures Sim.EntryFaithful(t, u, target, tramp, p.entries, i)
    {
      assert Sim.EntryFaithful(t, m, target, tramp, p.entries, i);
      if p.entries[i].kind.Inside? {
        InsideBelow(t, m, target, tramp, p, i);
        BoundaryTransfers(t, m, u, target, 0, p.entries[i].kind.dest - target);
      }
    }
  }

  lemma InsideBelow(t: Table, m: Mem, target: int, tramp: int, p: Plan, i: int)
    requires PlanOk(t, m, target, tramp, p) && 0 <= i < |p.entries| && p.entries[i].kind.Inside?
    ensures p.entries[i].kind.dest < target + JMP_REL_SIZE
  {
    hide Decode, Emitted;
    assert EntryOk(t, m, target, tramp, p.entries[i]);
  }

  // ---------------------------------------------------------------------
  // One hook
  // ---------------------------------------------------------------------

  /** m' without the patch: what Disable leaves. */
  ghost function Unpatched(m: Mem, h: Hook, m': Mem): Mem
  {
    Write(m', h.PatchedPos(), Read(m, h.PatchedPos(), h.PatchedSize()))
  }

  /** Enable, then Disable: nothing but the slot has changed. */
  lemma DisableRestores(t: Table, m: Mem, s: Space, h: Hook, m': Mem, x: int)
    requires Enables(t, m, s, h, m') && WellPlaced(h) && !h.InSlot(x)
    ensures Unpatched(m, h, m')(x) == m(x)
  {
    hide RelocateAll, Placement, SlotFilled, Holds, Hook.Patch;
    if h.InWindow(x) {
      var bs := Read(m, h.PatchedPos(), h.PatchedSize());
      assert bs[x - h.PatchedPos()] == m(h.PatchedPos() + (x - h.PatchedPos()));
    }
  }

  /** The machine on memory m' for the hooks whose slots are frozen. */
  ghost predicate On<D>(mc: Machine<D>, m': Mem, h: Hook)
  {
    && Consistent(mc.table) && KnowsTemplates(mc.table) && mc.code == m'
    && (forall x :: h.InSlot(x) ==> x in mc.frozen)
    && (forall x :: x in mc.frozen ==> !(h.target - JMP_REL_SIZE <= x < h.target + CODE_READ))
  }

  /** On the memory that Disable would leave the trampoline is installed. */
  lemma InstalledBelow<D>(mc: Machine<D>, mc0: Machine<D>, m: Mem, s: Space, h: Hook, m': Mem, u: Mem)
    requires Enables(mc.table, m, s, h, m') && WellPlaced(h) && On(mc, m', h)
    requires mc0.table == mc.table && mc0.frozen == mc.frozen && mc0.code == u
    requires SameCode(m, u, h.target) && forall x {:trigger u(x)} :: h.InSlot(x) ==> u(x) == m'(x)
    ensures Sim.Installed(mc0, h.target, h.tramp, h.plan)
  {
    hide RelocateAll, PlanOk, SameCode, Placement, Hook.Patch, JmpAbs, Consistent, KnowsTemplates;
    var t := mc.table;
    PlanIsOk(t, m, h.target, h.tramp);
    PlanTransfers(t, m, u, h.target, h.tramp, h.plan);
    forall k | 0 <= k < |h.plan.entries|
      ensures Holds(u, h.tramp + h.plan.entries[k].dst, h.plan.entries[k].bytes)
    {
      assert Holds(m', h.tramp + h.plan.entries[k].dst, h.plan.entries[k].bytes);
      EntryInSlot(t, m, h.target, h.tramp, h.plan, k);
    }
  }

  lemma EntryInSlot(t: Table, m: Mem, target: int, tramp: int, p: Plan, k: int)
    requires PlanOk(t, m, target, tramp, p) && 0 <= k < |p.entries|
    ensures 0 <= p.entries[k].dst && p.entries[k].dst + |p.entries[k].bytes| <= TRAMPOLINE_MAX_SIZE
  {
    hide MakeEntry;
    assert EntryOk(t, m, target, tramp, p.entries[k]);
  }

  lemma NewEndBound(t: Table, m: Mem, h: Hook)
    requires RelocateAll(t, m, h.target, h.tramp) == Planned(h.plan)
    ensures 0 <= h.plan.newEnd <= TRAMPOLINE_MAX_SIZE
  {
    hide Relocate, MakeEntry;
    PlanIsOk(t, m, h.target, h.tramp);
  }

  /** Why the allocator stays within 2^30: then every RIP-relative operand less than 2^30 away from the target is in
      reach of the trampoline too. */
  lemma NearOperandFits(t: Table, m: Mem, s: Space, h: Hook, m': Mem, k: int)
    requires Enables(t, m, s, h, m') && WellPlaced(h) && 0 <= k < |h.plan.entries| && h.plan.entries[k].kind.RipRelative?
    requires var e := h.plan.entries[k]; -MAX_MEMORY_RANGE <= e.src + e.inst.len + SExt32(e.inst.disp) < MAX_MEMORY_RANGE
    ensures Fits32(Sim.WantedDisp(h.target, h.tramp, h.plan.entries[k]))
  {
    hide RelocateAll, PlanOk, Decode, Classify, SExt32, Placement, SlotFilled, Holds;
    PlanOf(t, m, s, h, m');
    EntryInSlot(t, m, h.target, h.tramp, h.plan, k);
    RipEntryLength(t, m, h.target, h.tramp, h.plan, k);
  }

  lemma RipEntryLength(t: Table, m: Mem, target: int, tramp: int, p: Plan, k: int)
    requires PlanOk(t, m, target, tramp, p) && 0 <= k < |p.entries| && p.entries[k].kind.RipRelative?
    ensures |p.entries[k].bytes| == p.entries[k].inst.len
  {
    hide Decode, Classify;
    assert EntryOk(t, m, target, tramp, p.entries[k]);
  }

  /** The hooked target reaches the detour. */
  lemma TargetReachesDetour<D>(mc: Machine<D>, m: Mem, s: Space, h: Hook, m': Mem, d: D)
    requires Enables(mc.table, m, s, h, m') && WellPlaced(h) && On(mc, m', h)
    ensures !h.patchAbove ==> Run(mc, State(h.target, d), 2) == Some(State(h.detour, d))
    ensures h.patchAbove ==> Run(mc, State(h.target, d), 2) == Some(State(h.Relay() - JMP_REL_SIZE, d))
  {
    hide RelocateAll, Placement, Run, Hook.Patch, Holds, Consistent, KnowsTemplates, JmpAbs;
    NewEndBound(mc.table, m, h);
    if h.patchAbove {
      MissesRelay(mc, m', h, d);
    } else {
      Redirects(mc, m', h, d);
    }
  }

  /** The process without the hook: the memory that Disable leaves, and the effects of calls there. */
  ghost function Unhooked<D>(mc: Machine<D>, m: Mem, h: Hook, m': Mem, call0: (int, D) -> D): Machine<D>
  {
    mc.(code := Unpatched(m, h, m'), isa := mc.isa.(call := call0))
  }

  /** Calling *origin runs the original function: every run of the target as it is without the hook, if it keeps off the
      patched bytes once it has left the relocated instructions, has a run of the trampoline with the hook in force that
      corresponds to it. */
  lemma OriginRunsOriginal<D>(mc: Machine<D>, m: Mem, s: Space, h: Hook, m': Mem, call0: (int, D) -> D, d: D, n: nat)
    returns (k: nat)
    requires Enables(mc.table, m, s, h, m') && WellPlaced(h) && On(mc, m', h)
    requires Sim.Faithful(mc.table, m, h.target, h.tramp, h.plan)
    requires var mc0 := Unhooked(mc, m, h, m', call0);
             && Run(mc0, State(h.target, d), n).Some?
             && Sim.KeepsOff(mc0, mc, h.target, h.plan, h.PatchedPos(), h.PatchedSize(), d, n)
    ensures var mc0 := Unhooked(mc, m, h, m', call0);
            && n <= k && Run(mc, State(h.tramp, d), k).Some?
            && Sim.Related(h.plan, h.target, h.tramp, Run(mc0, State(h.target, d), n).value, Run(mc, State(h.tramp, d), k).value)
  {
    hide Enables, Run, Sim.Related, Sim.KeepsOff, Sim.Faithful, Sim.Installed, PlanOk, RelocateAll, Read, Unpatched;
    var mc0 := Unhooked(mc, m, h, m', call0);
    var u := mc0.code;
    UnpatchedFacts(mc.table, m, s, h, m', u);
    InstalledBelow(mc, mc0, m, s, h, m', u);
    PlanOf(mc.table, m, s, h, m');
    FaithfulTransfers(mc.table, m, u, h.target, h.tramp, h.plan);
    k := Sim.SimulatePatched(mc0, mc, h.target, h.tramp, h.plan, h.PatchedPos(), h.PatchedSize(), d, n);
  }

  lemma PlanOf(t: Table, m: Mem, s: Space, h: Hook, m': Mem)
    requires Enables(t, m, s, h, m')
    ensures PlanOk(t, m, h.target, h.tramp, h.plan)
  {
    hide RelocateAll, PlanOk, Placement, SlotFilled, Holds;
    PlanIsOk(t, m, h.target, h.tramp);
  }

  lemma UnpatchedFacts(t: Table, m: Mem, s: Space, h: Hook, m': Mem, u: Mem)
    requires Enables(t, m, s, h, m') && WellPlaced(h) && u == Unpatched(m, h, m')
    ensures SameCode(m, u, h.target)
    ensures forall x {:trigger u(x)} :: h.InSlot(x) ==> u(x) == m'(x)
    ensures forall x {:trigger u(x)} :: x < h.PatchedPos() || h.PatchedPos() + h.PatchedSize() <= x ==> m'(x) == u(x)
    ensures forall x :: h.InWindow(x) ==> h.target - JMP_REL_SIZE <= x < h.target + CODE_READ
  {
    hide RelocateAll, Placement, SlotFilled, Holds, Enables;
    forall x {:trigger u(x)} | h.target <= x < h.target + CODE_READ
      ensures u(x) == m(x)
    {
      DisableRestores(t, m, s, h, m', x);
    }
  }

  // ---------------------------------------------------------------------
  // Enable and Disable as steps of a run
  // ---------------------------------------------------------------------

  /** Enable is a step of Restoration on the code, that is, on everything but the slots. */
  lemma EnableIsStep(t: Table, m: Mem, s: Space, h: Hook, m': Mem, code: iset<int>, active: seq<R.Patch>, id: int, backup: seq<byte>)
    requires Enables(t, m, s, h, m') && backup == Read(m, h.PatchedPos(), h.PatchedSize())
    requires forall x :: x in code ==> !h.InSlot(x)
    requires forall k :: 0 <= k < |active| ==> active[k].id != id
    ensures R.CodeStep(code, R.CodeState(m, active), R.CodeState(m', active + [R.Patch(id, h.PatchedPos(), backup)]))
  {
    hide RelocateAll, Placement, SlotFilled, Hook.Patch;
    var s0, s1 := R.CodeState(m, active), R.CodeState(m', active + [R.Patch(id, h.PatchedPos(), backup)]);
    var w := Write(m, h.PatchedPos(), h.Patch());
    forall x {:trigger m'(x)} | x in code
      ensures m'(x) == w(x)
    {
      if h.InWindow(x) {
        assert m'(h.PatchedPos() + (x - h.PatchedPos())) == h.Patch()[x - h.PatchedPos()];
      }
    }
    assert R.EnableStep(code, s0, id, h.PatchedPos(), h.Patch(), s1);
  }

  /** So is Disable of the i-th patch in force, where no later patch overlaps it. */
  lemma DisableIsStep(m: Mem, m': Mem, code: iset<int>, active: seq<R.Patch>, i: int)
    requires 0 <= i < |active| && forall k :: i < k < |active| ==> !R.Overlap(active[i], active[k])
    requires forall x {:trigger m'(x)} :: m'(x) == Write(m, active[i].pos, active[i].backup)(x)
    ensures R.CodeStep(code, R.CodeState(m, active), R.CodeState(m', Without(active, i)))
  {
    assert R.DisableStep(code, R.CodeState(m, active), i, R.CodeState(m', Without(active, i)));
  }
}
