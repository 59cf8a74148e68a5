/** Programs that use the library: Enable and Disable called any number of times, on any number of objects. */
module Runs {
  import opened Words
  import opened AddressSpace
  import opened Hde64
  import opened Hde64Laws
  import opened Instructions
  import opened Relocation
  import opened Patching
  import opened TrampolineHook
  import Alloc = Allocator
  import F = Failures
  import Heap = SlotHeap
  import H = Hooks
  import R = Restoration
  import S = Stacking

  // ---------------------------------------------------------------------
  // Hooks on one target
  // ---------------------------------------------------------------------

  /** The trampolines of the layers are slots in use. */
  ghost predicate SlotsLive(h: Heap.Heap, ls: seq<S.Layer>)
  {
    forall i :: 0 <= i < |ls| ==> Heap.Live(h, ls[i].hook.tramp)
  }

  /** m has the bytes of the last layer that nothing but Enable may change. */
  ghost predicate UpToDate(ls: seq<S.Layer>, target: int, m: Mem)
  {
    forall x {:trigger m(x)} :: ls != [] && S.Kept(ls, |ls|, target, x) ==> m(x) == ls[|ls| - 1].after(x)
  }

  /** One more successful Enable is one more layer. */
  lemma AddLayer(t: Table, ls: seq<S.Layer>, target: int, m: Mem, h0: Heap.Heap, l: S.Layer, h1: Heap.Heap)
    requires S.Layered(t, ls, target) && SlotsLive(h0, ls) && UpToDate(ls, target, m)
    requires l.hook.target == target && WellPlaced(l.hook) && Enables(t, l.before, l.space, l.hook, l.after)
    requires !Heap.Live(h0, l.hook.tramp) && Heap.Live(h1, l.hook.tramp) && Apart(h1, target)
    requires forall u :: Heap.Live(h0, u) ==> Heap.Live(h1, u)
    requires forall u, x :: Heap.Live(h0, u) && u <= x < u + SLOT_SIZE ==> l.before(x) == m(x)
    requires forall x {:trigger l.before(x)} :: Heap.BlockOf(x) !in h1.free ==> l.before(x) == m(x)
    ensures S.Layered(t, ls + [l], target) && SlotsLive(h1, ls + [l]) && UpToDate(ls + [l], target, l.after)
  {
    hide Heap.Live, Heap.BlockOf, Enables, WellPlaced;
    var ms := ls + [l];
    forall i | 0 <= i < |ls|
      ensures S.HooksApart(ls[i].hook, l.hook)
    {
      Alloc.Memory.LivesApart(h1, ls[i].hook.tramp, l.hook.tramp);
    }
    forall i, x | 0 < i < |ms| && S.Kept(ms, i, target, x)
      ensures ms[i].before(x) == ms[i - 1].after(x)
    {
      KeptPrefix(ls, l, i, target, x);
      if i == |ls| {
        KeptIsSafe(ls, h0, h1, target, x);
      }
    }
  }

  lemma KeptPrefix(ls: seq<S.Layer>, l: S.Layer, i: int, target: int, x: int)
    requires 0 <= i <= |ls| && S.Kept(ls + [l], i, target, x)
    ensures S.Kept(ls, i, target, x)
  {
    if !(target - JMP_REL_SIZE <= x < target + CODE_READ) {
      var j :| 0 <= j < i && (ls + [l])[j].hook.InSlot(x);
      assert ls[j].hook.InSlot(x);
    }
  }

  lemma KeptIsSafe(ls: seq<S.Layer>, h0: Heap.Heap, h1: Heap.Heap, target: int, x: int)
    requires SlotsLive(h0, ls) && Apart(h1, target) && S.Kept(ls, |ls|, target, x)
    ensures Heap.BlockOf(x) !in h1.free || exists u :: Heap.Live(h0, u) && u <= x < u + SLOT_SIZE
  {
    hide Heap.Live, Heap.BlockOf;
    if target - JMP_REL_SIZE <= x < target + CODE_READ {
      assert Heap.BlockOf(x) !in h1.free;
    } else {
      var j :| 0 <= j < |ls| && ls[j].hook.InSlot(x);
      assert Heap.Live(h0, ls[j].hook.tramp);
    }
  }

  /** A failing Enable leaves the layers as they are. */
  lemma SameLayers(ls: seq<S.Layer>, target: int, m: Mem, h0: Heap.Heap, m': Mem, h1: Heap.Heap)
    requires SlotsLive(h0, ls) && UpToDate(ls, target, m) && CodeKept(target, m, m')
    requires forall u :: Heap.Live(h0, u) ==> Heap.Live(h1, u)
    requires forall u, x :: Heap.Live(h0, u) && u <= x < u + SLOT_SIZE ==> m'(x) == m(x)
    ensures SlotsLive(h1, ls) && UpToDate(ls, target, m')
  {
    hide Heap.Live;
    forall x {:trigger m'(x)} | ls != [] && S.Kept(ls, |ls|, target, x)
      ensures m'(x) == ls[|ls| - 1].after(x)
    {
      if !(target - JMP_REL_SIZE <= x < target + CODE_READ) {
        var j :| 0 <= j < |ls| && ls[j].hook.InSlot(x);
        assert Heap.Live(h0, ls[j].hook.tramp);
      }
    }
  }

  ghost predicate CodeKept(target: int, m: Mem, m': Mem)
  {
    forall x {:trigger m'(x)} :: target - JMP_REL_SIZE <= x < target + CODE_READ ==> m'(x) == m(x)
  }

  lemma CodeIsKept(s: Space, h: Heap.Heap, target: int, m: Mem, m': Mem)
    requires s.Valid() && PAGE_SIZE < s.granularity && OwnPages(s, h) && CodeAt(s, h, target)
    requires forall x {:trigger m'(x)} :: Heap.BlockOf(x) !in h.free ==> m'(x) == m(x)
    ensures CodeKept(target, m, m')
  {
    hide Heap.BlockOf, Space.Valid, OwnPages;
    CodeIsApart(s, h, target);
    forall x {:trigger m'(x)} | target - JMP_REL_SIZE <= x < target + CODE_READ
      ensures m'(x) == m(x)
    {
      assert Heap.BlockOf(x) !in h.free;
    }
  }

  lemma ApartKept(h: Heap.Heap, target: int, m: Mem, m': Mem)
    requires Apart(h, target)
    requires forall x {:trigger m'(x)} :: Heap.BlockOf(x) !in h.free ==> m'(x) == m(x)
    ensures CodeKept(target, m, m')
  {
    hide Heap.BlockOf;
    forall x {:trigger m'(x)} | target - JMP_REL_SIZE <= x < target + CODE_READ
      ensures m'(x) == m(x)
    {
      assert Heap.BlockOf(x) !in h.free;
    }
  }

  /** The allocator's part of an Enable. */
  ghost predicate Tries(si: Alloc.SystemInfo, grants: set<int>, target: int, detour: int, h: Heap.Heap, s: Space, made: Attempt)
    requires s.Valid()
  {
    IsExecutable(s, target) && IsExecutable(s, detour) ==>
      Alloc.Allocates(si, grants, target, h, s, made.slot, made.heap, made.space)
  }

  /** On top of a jump at the target, given a slot, Enable succeeds. */
  lemma OnTopSucceeds(t: Table, ls: seq<S.Layer>, target: int, m: Mem, made: Attempt)
    requires KnowsTemplates(t) && S.Layered(t, ls, target) && ls != [] && !ls[0].hook.patchAbove
    requires UpToDate(ls, target, m) && CodeKept(target, m, made.mem) && made.slot.Slot?
    ensures Creates(t, made.mem, made.space, target, made.slot.address) == Created
  {
    hide KnowsTemplates, S.Layered, RelocateAll, Placement, Enables, WellPlaced;
    var n := |ls| - 1;
    S.LayerFacts(t, ls, target, n);
    S.OnTopAtTarget(t, ls, target, n);
    forall x {:trigger made.mem(x)} | target - JMP_REL_SIZE <= x < target + CODE_READ
      ensures made.mem(x) == ls[n].after(x)
    {
      assert S.Kept(ls, |ls|, target, x);
      assert m(x) == ls[n].after(x);
    }
    F.SecondWindow(t, ls[n].before, ls[n].space, ls[n].hook, ls[n].after, made.mem, made.space, made.slot.address);
  }

  /** Enables one object after the other on one target, until one fails: n of them are enabled, and the layers tell in
      what memories.  h0 and s0 are the heap and the address space before the last call, which says why it failed.  If
      the first jump is at the target, all are, the layers are a stack, and nothing but the allocator or a detour that is
      not code ends the sequence. */
  method EnableAll(mm: Alloc.Memory, hooks: seq<Trampoline>, t: Table, target: int, detours: seq<int>,
                   si: Alloc.SystemInfo, grants: seq<set<int>>, stack: Mem)
    returns (n: nat, r: EnableResult, ghost ls: seq<S.Layer>, ghost last: Attempt, ghost h0: Heap.Heap, ghost s0: Space)
    requires mm.Valid() && si.Valid() && PAGE_SIZE < mm.space.granularity && CodeAt(mm.space, mm.heap, target)
    requires |detours| == |hooks| == |grants|
    requires forall i :: 0 <= i < |hooks| ==> hooks[i].BuffersOk() && hooks[i].table == t && 0 <= detours[i] < TWO64
    requires forall i, j :: 0 <= i < j < |hooks| ==> hooks[i] != hooks[j]
    modifies hooks, mm
    ensures n == |ls| <= |hooks|
    ensures S.Layered(t, ls, target)
    ensures n > 0 ==> CodeKept(target, old(mm.mem), ls[0].before)
    ensures forall i :: 0 <= i < n ==> ls[i].hook.detour == detours[i] && hooks[i].enabled && hooks[i].trampoline == ls[i].hook.tramp
    ensures n < |hooks| ==>
              && s0.Valid() && Tries(si, grants[n], target, detours[n], h0, s0, last)
              && r == Verdict(t, s0, target, detours[n], last) && !r.Enabled?
              && (n == 0 ==> h0 == old(mm.heap) && s0 == old(mm.space) && CodeKept(target, old(mm.mem), last.mem))
    ensures KnowsTemplates(t) && n > 0 && !ls[0].hook.patchAbove ==>
              S.Stack(t, ls, target) && (n < |hooks| ==> !IsExecutable(s0, detours[n]) || !last.slot.Slot?)
    ensures !r.Undefined? ==> mm.Valid() && SlotsLive(mm.heap, ls) && (n > 0 ==> S.Current(ls, target, mm.mem))
  {
    hide Heap.HeapOk, Heap.Live, Heap.BlockOf, Space.Valid, Space.OnePage, Enables, WellPlaced, CodeAt, Apart, S.Layered,
         UpToDate, SlotsLive, Trampoline.InForce, RelocateAll, IsExecutable, Preserved, OwnPages, CodeKept, Creates,
         KnowsTemplates, Alloc.Allocates;
    n, r, ls := 0, Refused, [];
    last, h0, s0 := Attempt(Alloc.Null, mm.mem, mm.heap, mm.space), mm.heap, mm.space;
    StartsLayered(t, target, mm.mem, mm.heap);
    while n < |hooks|
      invariant n == |ls| <= |hooks| && !r.Undefined?
      invariant S.Layered(t, ls, target) && SlotsLive(mm.heap, ls) && UpToDate(ls, target, mm.mem)
      invariant mm.Valid() && PAGE_SIZE < mm.space.granularity && CodeAt(mm.space, mm.heap, target)
      invariant if n == 0 then mm.mem == old(mm.mem) && mm.heap == old(mm.heap) && mm.space == old(mm.space)
                else CodeKept(target, old(mm.mem), ls[0].before) && IsExecutable(mm.space, target)
      invariant forall i :: 0 <= i < |hooks| ==> hooks[i].BuffersOk()
      invariant forall i :: 0 <= i < n ==> ls[i].hook.detour == detours[i] && hooks[i].enabled && hooks[i].trampoline == ls[i].hook.tramp
    {
      ghost var m0 := mm.mem;
      h0, s0 := mm.heap, mm.space;
      ghost var plan;
      r, last, plan := hooks[n].Enable(mm, target, detours[n], si, grants[n], stack);
      AttemptKeeps(t, s0, target, detours[n], r, last, m0);
      if !r.Enabled? {
        if KnowsTemplates(t) && n > 0 && !ls[0].hook.patchAbove && IsExecutable(s0, detours[n]) && last.slot.Slot? {
          OnTopSucceeds(t, ls, target, m0, last);
          assert false;
        }
        if !r.Undefined? {
          KeptFacts(s0, h0, mm.space, mm.heap, target);
          hooks[n].BlocksOwnPages(mm);
          CodeIsKept(mm.space, mm.heap, target, m0, mm.mem);
          SameLayers(ls, target, m0, h0, mm.mem, mm.heap);
        }
        break;
      }
      KeptFacts(s0, h0, mm.space, mm.heap, target);
      ghost var h := Hook(target, detours[n], r.origin, plan, hooks[n].patchAbove);
      hooks[n].ForceFields(mm.mem, h);
      ghost var l := S.Layer(last.mem, mm.space, h, mm.mem);
      AddLayer(t, ls, target, m0, h0, l, mm.heap);
      ls := ls + [l];
      n := n + 1;
    }
    StackOf(t, ls, target, mm.mem);
  }

  /** The allocator's part leaves the code, and comes before every other reason to fail. */
  lemma AttemptKeeps(t: Table, s0: Space, target: int, detour: int, r: EnableResult, made: Attempt, m0: Mem)
    requires r == Verdict(t, s0, target, detour, made)
    requires !made.slot.Slot? ==> made.mem == m0
    requires made.slot.Slot? ==>
               Apart(made.heap, target) && forall x {:trigger made.mem(x)} :: Heap.BlockOf(x) !in made.heap.free ==> made.mem(x) == m0(x)
    ensures CodeKept(target, m0, made.mem)
    ensures r.Enabled? ==> IsExecutable(s0, target) && made.slot == Alloc.Slot(r.origin)
    ensures r.Undefined? ==> made.slot.Slot?
  {
    hide Heap.BlockOf, Apart, IsExecutable;
    if made.slot.Slot? {
      ApartKept(made.heap, target, m0, made.mem);
    }
  }

  lemma StartsLayered(t: Table, target: int, m: Mem, h: Heap.Heap)
    ensures S.Layered(t, [], target) && SlotsLive(h, []) && UpToDate([], target, m)
  {
  }

  lemma KeptFacts(s: Space, h: Heap.Heap, s': Space, h': Heap.Heap, target: int)
    requires TrampolineHook.Preserved(s, h, s', h')
    ensures s'.granularity == s.granularity
    ensures CodeAt(s, h, target) ==> CodeAt(s', h', target)
    ensures IsExecutable(s, target) ==> IsExecutable(s', target)
    ensures forall u :: Heap.Live(h, u) ==> Heap.Live(h', u)
  {
  }

  lemma StackOf(t: Table, ls: seq<S.Layer>, target: int, m: Mem)
    requires S.Layered(t, ls, target)
    ensures KnowsTemplates(t) && ls != [] && !ls[0].hook.patchAbove ==> S.Stack(t, ls, target)
    ensures ls != [] && UpToDate(ls, target, m) ==> S.Current(ls, target, m)
  {
    hide S.Layered, KnowsTemplates;
    if KnowsTemplates(t) && ls != [] && !ls[0].hook.patchAbove {
      S.LayeredIsStack(t, ls, target);
    }
  }

  // ---------------------------------------------------------------------
  // Hooks anywhere, enabled and disabled
  // ---------------------------------------------------------------------

  datatype Request = Hooking(hook: nat, target: int, detour: int, grants: set<int>) | Unhooking(hook: nat)

  /** Memory, the patches in force, and the allocator's state. */
  datatype Point = Point(mem: Mem, active: seq<R.Patch>, heap: Heap.Heap, space: Space)

  /** Object id is in force, its patch the k-th. */
  ghost predicate IsActive(active: seq<R.Patch>, id: nat, k: int)
  {
    0 <= k < |active| && active[k].id == id
  }

  /** No patch placed after the k-th overlaps it. */
  ghost predicate OnTop(active: seq<R.Patch>, k: int)
    requires 0 <= k < |active|
  {
    forall j :: k < j < |active| ==> !R.Overlap(active[k], active[j])
  }

  /** Enable, for an object that is not in force, makes of p a p'; an object in force is left alone. */
  ghost predicate ServesHooking(t: Table, si: Alloc.SystemInfo, code: iset<int>, q: Request, p: Point, made: Attempt, p': Point)
    requires q.Hooking?
  {
    if exists k :: IsActive(p.active, q.hook, k) then p' == p
    else
      && TriesAt(si, code, q, p, made) && p'.heap == made.heap && p'.space == made.space
      && match Verdict(t, p.space, q.target, q.detour, made)
         case Enabled(a) => exists h :: Hooked(t, code, q, p, made, a, h, p')
         case _ => p'.active == p.active && R.SameBytes(p.mem, p'.mem, code)
  }

  ghost predicate TriesAt(si: Alloc.SystemInfo, code: iset<int>, q: Request, p: Point, made: Attempt)
    requires q.Hooking?
  {
    p.space.Valid() && Tries(si, q.grants, q.target, q.detour, p.heap, p.space, made) && R.SameBytes(p.mem, made.mem, code)
  }

  /** The hook h has been placed in slot a. */
  ghost predicate Hooked(t: Table, code: iset<int>, q: Request, p: Point, made: Attempt, a: int, h: Hook, p': Point)
    requires q.Hooking?
  {
    && h.target == q.target && h.detour == q.detour && h.tramp == a
    && Enables(t, made.mem, made.space, h, p'.mem)
    && p'.active == p.active + [R.Patch(q.hook, h.PatchedPos(), Read(made.mem, h.PatchedPos(), h.PatchedSize()))]
  }

  /** Disable, for an object in force whose patch no later one overlaps; other requests are left alone. */
  ghost predicate ServesUnhooking(q: Request, p: Point, p': Point)
  {
    || (exists k :: IsActive(p.active, q.hook, k) && OnTop(p.active, k) && Unhooked(p, k, p'))
    || (p' == p && forall k :: IsActive(p.active, q.hook, k) ==> !OnTop(p.active, k))
  }

  ghost predicate Unhooked(p: Point, k: int, p': Point)
    requires 0 <= k < |p.active|
  {
    && p'.active == Without(p.active, k) && p'.heap == p.heap && p'.space == p.space
    && forall x {:trigger p'.mem(x)} :: p'.mem(x) == Write(p.mem, p.active[k].pos, p.active[k].backup)(x)
  }

  ghost predicate Serves(t: Table, si: Alloc.SystemInfo, code: iset<int>, q: Request, p: Point, made: Attempt, p': Point)
  {
    if q.Hooking? then ServesHooking(t, si, code, q, p, made, p') else ServesUnhooking(q, p, p')
  }

  /** The first |mades| requests have been served, from ps[0] to the last of ps. */
  ghost predicate Served(t: Table, si: Alloc.SystemInfo, code: iset<int>, qs: seq<Request>, ps: seq<Point>, mades: seq<Attempt>)
  {
    && |mades| <= |qs| && |ps| == |mades| + 1
    && forall i :: 0 <= i < |mades| ==> Serves(t, si, code, qs[i], ps[i], mades[i], ps[i + 1])
  }

  /** The request is an Enable that does not come back. */
  ghost predicate Stuck(t: Table, si: Alloc.SystemInfo, code: iset<int>, q: Request, p: Point, made: Attempt)
  {
    && q.Hooking? && (forall k :: !IsActive(p.active, q.hook, k)) && TriesAt(si, code, q, p, made)
    && (Verdict(t, p.space, q.target, q.detour, made) == NeverReturns || Verdict(t, p.space, q.target, q.detour, made) == Undefined)
  }

  lemma ServedExtends(t: Table, si: Alloc.SystemInfo, code: iset<int>, qs: seq<Request>, ps: seq<Point>, mades: seq<Attempt>,
                      made: Attempt, p': Point)
    requires Served(t, si, code, qs, ps, mades) && |mades| < |qs|
    requires Serves(t, si, code, qs[|mades|], ps[|mades|], made, p')
    ensures Served(t, si, code, qs, ps + [p'], mades + [made])
  {
    hide Serves;
  }

  /** The code: what is mapped and not the allocator's. */
  ghost function Code(s: Space, h: Heap.Heap): iset<int>
  {
    iset x | CodeByte(s, h, x)
  }

  /** order lists the objects in force, oldest first; active are their patches. */
  ghost predicate InOrder(hooks: seq<Trampoline>, order: seq<nat>, active: seq<R.Patch>)
    reads hooks
  {
    && |order| == |active|
    && (forall k :: 0 <= k < |order| ==> order[k] < |hooks| && PatchOf(hooks[order[k]], order[k], active[k]))
    && (forall j, k :: 0 <= j < k < |order| ==> order[j] != order[k])
    && (forall i :: 0 <= i < |hooks| && hooks[i].enabled ==> i in order)
  }

  ghost predicate PatchOf(h: Trampoline, id: nat, p: R.Patch)
    reads h
  {
    && h.enabled && h.BuffersOk() && 0 <= h.patchedSize <= 32
    && p == R.Patch(id, h.patchedPos, h.backup[..h.patchedSize])
  }

  /** The patches in force lie in code. */
  ghost predicate PatchesInCode(s: Space, h: Heap.Heap, active: seq<R.Patch>)
  {
    forall k, x :: 0 <= k < |active| && active[k].Covers(x) ==> CodeByte(s, h, x)
  }

  /** Where such a program stands: what it knows about its objects and the allocator. */
  ghost predicate Standing(mm: Alloc.Memory, hooks: seq<Trampoline>, order: seq<nat>, code: iset<int>, active: seq<R.Patch>)
    reads mm, hooks
  {
    && mm.Valid() && PAGE_SIZE < mm.space.granularity
    && InOrder(hooks, order, active) && PatchesInCode(mm.space, mm.heap, active) && StillCode(mm.space, mm.heap, code)
    && (forall i :: 0 <= i < |hooks| ==> hooks[i].BuffersOk())
  }

  ghost predicate StillCode(s: Space, h: Heap.Heap, code: iset<int>)
  {
    forall x :: x in code ==> CodeByte(s, h, x)
  }

  /** The run ss ends in s. */
  ghost predicate Reaches(code: iset<int>, ss: seq<R.CodeState>, s: R.CodeState)
  {
    R.CodeRun(code, ss) && ss[|ss| - 1] == s
  }

  lemma RunExtends(code: iset<int>, ss: seq<R.CodeState>, s: R.CodeState, s': R.CodeState)
    requires Reaches(code, ss, s) && R.CodeStep(code, s, s')
    ensures Reaches(code, ss + [s'], s')
  {
    hide R.CodeStep;
    var ts := ss + [s'];
    forall k | 0 <= k < |ts| - 1
      ensures R.CodeStep(code, ts[k], ts[k + 1])
    {
      if k < |ss| - 1 {
        assert ts[k] == ss[k] && ts[k + 1] == ss[k + 1];
      }
    }
  }

  lemma FailExtends(code: iset<int>, ss: seq<R.CodeState>, m: Mem, active: seq<R.Patch>, m': Mem)
    requires Reaches(code, ss, R.CodeState(m, active)) && R.SameBytes(m, m', code)
    ensures Reaches(code, ss + [R.CodeState(m', active)], R.CodeState(m', active))
  {
    hide Reaches, R.SameBytes;
    assert R.FailStep(code, R.CodeState(m, active), R.CodeState(m', active));
    RunExtends(code, ss, R.CodeState(m, active), R.CodeState(m', active));
  }

  /** A successful Enable: first the allocator writes, then the patch is placed. */
  lemma EnableExtends(t: Table, m0: Mem, active: seq<R.Patch>, m1: Mem, s: Space, h: Hook, m2: Mem, heap: Heap.Heap,
                      code: iset<int>, ss: seq<R.CodeState>, id: nat, backup: seq<byte>)
    requires Reaches(code, ss, R.CodeState(m0, active)) && R.SameBytes(m0, m1, code)
    requires Enables(t, m1, s, h, m2) && backup == Read(m1, h.PatchedPos(), h.PatchedSize())
    requires Heap.Live(heap, h.tramp) && StillCode(s, heap, code)
    requires forall k :: 0 <= k < |active| ==> active[k].id != id
    ensures var s2 := R.CodeState(m2, active + [R.Patch(id, h.PatchedPos(), backup)]);
            Reaches(code, ss + [R.CodeState(m1, active)] + [s2], s2)
  {
    hide Reaches, R.SameBytes, R.CodeStep, Enables, Heap.Live, Heap.BlockOf;
    FailExtends(code, ss, m0, active, m1);
    forall x | x in code
      ensures !h.InSlot(x)
    {
      assert CodeByte(s, heap, x);
      if h.InSlot(x) {
        LiveBlock(heap, h.tramp, x);
      }
    }
    H.EnableIsStep(t, m1, s, h, m2, code, active, id, backup);
    RunExtends(code, ss + [R.CodeState(m1, active)], R.CodeState(m1, active),
               R.CodeState(m2, active + [R.Patch(id, h.PatchedPos(), backup)]));
  }

  lemma CodeSame(s: Space, h: Heap.Heap, code: iset<int>, m: Mem, m': Mem)
    requires StillCode(s, h, code)
    requires forall x {:trigger m'(x)} :: Heap.BlockOf(x) !in h.free ==> m'(x) == m(x)
    ensures R.SameBytes(m, m', code)
  {
    hide Heap.BlockOf;
    forall x {:trigger m'(x)} | x in code
      ensures m'(x) == m(x)
    {
      assert CodeByte(s, h, x);
    }
  }

  /** What stays so when the address space and the heap have grown. */
  lemma GrownCode(s: Space, h: Heap.Heap, s': Space, h': Heap.Heap, code: iset<int>, active: seq<R.Patch>)
    requires TrampolineHook.Preserved(s, h, s', h') && StillCode(s, h, code) && PatchesInCode(s, h, active)
    ensures StillCode(s', h', code) && PatchesInCode(s', h', active)
  {
    hide CodeByte;
  }

  lemma OneMorePatch(s: Space, heap: Heap.Heap, active: seq<R.Patch>, h: Hook, id: nat, backup: seq<byte>)
    requires PatchesInCode(s, heap, active) && |backup| == h.PatchedSize()
    requires forall x {:trigger h.InWindow(x)} :: h.InWindow(x) ==> CodeByte(s, heap, x)
    ensures PatchesInCode(s, heap, active + [R.Patch(id, h.PatchedPos(), backup)])
  {
    hide CodeByte;
    var ps := active + [R.Patch(id, h.PatchedPos(), backup)];
    forall k, x | 0 <= k < |ps| && ps[k].Covers(x)
      ensures CodeByte(s, heap, x)
    {
      if k == |active| {
        assert h.InWindow(x);
      }
    }
  }

  lemma LiveBlock(h: Heap.Heap, a: int, x: int)
    requires Heap.Live(h, a) && a <= x < a + SLOT_SIZE
    ensures Heap.BlockOf(x) in h.free
  {
    hide Heap.BlockOf, Heap.IsSlot;
    Alloc.Memory.BlockOfAligned(a);
    LiveIsSlot(h, a);
    SlotByte(Heap.BlockOf(a), a, x);
  }

  /** The objects in force are the enabled ones. */
  lemma ActiveIff(hooks: seq<Trampoline>, order: seq<nat>, active: seq<R.Patch>, i: nat)
    requires InOrder(hooks, order, active) && i < |hooks|
    ensures hooks[i].enabled <==> exists k :: IsActive(active, i, k)
    ensures forall k :: 0 <= k < |order| ==> (IsActive(active, i, k) <==> order[k] == i)
  {
    forall k | 0 <= k < |order|
      ensures active[k].id == order[k] && hooks[order[k]].enabled
    {
      assert PatchOf(hooks[order[k]], order[k], active[k]);
    }
    if hooks[i].enabled {
      var k :| 0 <= k < |order| && order[k] == i;
      assert IsActive(active, i, k);
    }
  }

  lemma NewId(active: seq<R.Patch>, id: nat)
    requires forall k :: !IsActive(active, id, k)
    ensures forall k :: 0 <= k < |active| ==> active[k].id != id
  {
    forall k | 0 <= k < |active|
      ensures active[k].id != id
    {
      assert !IsActive(active, id, k);
    }
  }

  /** What Enable has come to is what the request asks for. */
  lemma HookingServed(t: Table, si: Alloc.SystemInfo, code: iset<int>, q: Request, p: Point, made: Attempt, p': Point, h: Hook)
    requires q.Hooking? && (forall k :: !IsActive(p.active, q.hook, k)) && TriesAt(si, code, q, p, made)
    requires p'.heap == made.heap && p'.space == made.space
    requires var v := Verdict(t, p.space, q.target, q.detour, made);
             if v.Enabled? then Hooked(t, code, q, p, made, v.origin, h, p')
             else p'.active == p.active && R.SameBytes(p.mem, p'.mem, code)
    ensures ServesHooking(t, si, code, q, p, made, p')
  {
    hide Verdict, Hooked, TriesAt, R.SameBytes, IsActive;
  }

  /** Enables the object of q, which is not in force. */
  method ServeHooking(mm: Alloc.Memory, hooks: seq<Trampoline>, q: Request, t: Table, si: Alloc.SystemInfo, stack: Mem,
                      order: seq<nat>, ghost code: iset<int>, ghost p: Point, ghost ss: seq<R.CodeState>)
    returns (r: EnableResult, order': seq<nat>, ghost made: Attempt, ghost p': Point, ghost ss': seq<R.CodeState>)
    requires Standing(mm, hooks, order, code, p.active) && p == Point(mm.mem, p.active, mm.heap, mm.space)
    requires Reaches(code, ss, R.CodeState(p.mem, p.active)) && si.Valid()
    requires q.Hooking? && q.hook < |hooks| && !hooks[q.hook].enabled && hooks[q.hook].table == t
    requires 0 <= q.detour < TWO64 && CodeAt(mm.space, mm.heap, q.target)
    requires forall j, k :: 0 <= j < k < |hooks| ==> hooks[j] != hooks[k]
    modifies hooks[q.hook], mm
    ensures r == Verdict(t, p.space, q.target, q.detour, made) && TriesAt(si, code, q, p, made)
    ensures forall k :: !IsActive(p.active, q.hook, k)
    ensures !r.Undefined? ==> Standing(mm, hooks, order', code, p'.active) && p' == Point(mm.mem, p'.active, mm.heap, mm.space)
    ensures !r.Undefined? ==> Reaches(code, ss', R.CodeState(p'.mem, p'.active)) && ss <= ss'
    ensures !r.Undefined? ==> ServesHooking(t, si, code, q, p, made, p')
    ensures !r.Undefined? ==> forall a :: CodeAt(old(mm.space), old(mm.heap), a) ==> CodeAt(mm.space, mm.heap, a)
  {
    hide Heap.HeapOk, Heap.Live, Heap.BlockOf, Space.Valid, Space.OnePage, Enables, WellPlaced, CodeAt, Apart, Reaches,
         Trampoline.InForce, RelocateAll, IsExecutable, OwnPages, R.SameBytes, StillCode, PatchesInCode, CodeByte,
         Preserved, Creates, Alloc.Allocates, ServesHooking, Verdict, IsActive;
    ghost var i := q.hook;
    assert forall k :: 0 <= k < |order| ==> PatchOf(hooks[order[k]], order[k], p.active[k]) && hooks[order[k]] != hooks[i];
    ActiveIff(hooks, order, p.active, i);
    NewId(p.active, i);
    ghost var plan;
    r, made, plan := hooks[q.hook].Enable(mm, q.target, q.detour, si, q.grants, stack);
    order', p', ss' := order, p, ss;
    GrownCode(p.space, p.heap, made.space, made.heap, code, p.active);
    VerdictIs(t, p.space, q.target, q.detour, made);
    MadeSame(p.mem, made, code);
    if r.Undefined? {
      return;
    }
    forall a
      ensures CodeAt(p.space, p.heap, a) ==> CodeAt(mm.space, mm.heap, a)
    {
      KeptFacts(p.space, p.heap, mm.space, mm.heap, a);
    }
    KeptFacts(p.space, p.heap, mm.space, mm.heap, q.target);
    if !r.Enabled? {
      CodeSame(mm.space, mm.heap, code, p.mem, mm.mem);
      FailExtends(code, ss, p.mem, p.active, mm.mem);
      p' := Point(mm.mem, p.active, mm.heap, mm.space);
      ss' := ss + [R.CodeState(mm.mem, p.active)];
      HookingServed(t, si, code, q, p, made, p', Hook(0, 0, 0, plan, false));
      return;
    }
    ghost var h := Hook(q.target, q.detour, r.origin, plan, hooks[i].patchAbove);
    hooks[q.hook].ForceFields(mm.mem, h);
    ghost var backup := hooks[i].backup[..hooks[i].patchedSize];
    EnableExtends(t, p.mem, p.active, made.mem, mm.space, h, mm.mem, mm.heap, code, ss, i, backup);
    OneMorePatch(mm.space, mm.heap, p.active, h, i, backup);
    order' := order + [q.hook];
    p' := Point(mm.mem, p.active + [R.Patch(i, h.PatchedPos(), backup)], mm.heap, mm.space);
    ss' := ss + [R.CodeState(made.mem, p.active)] + [R.CodeState(mm.mem, p'.active)];
    HookingServed(t, si, code, q, p, made, p', h);
  }

  lemma VerdictIs(t: Table, s: Space, target: int, detour: int, made: Attempt)
    ensures var v := Verdict(t, s, target, detour, made); v.Enabled? ==> made.slot == Alloc.Slot(v.origin)
  {
    hide IsExecutable, Creates;
  }

  lemma MadeSame(m: Mem, made: Attempt, code: iset<int>)
    requires !made.slot.Slot? ==> made.mem == m
    requires made.slot.Slot? ==> forall x {:trigger made.mem(x)} :: Heap.BlockOf(x) !in made.heap.free ==> made.mem(x) == m(x)
    requires StillCode(made.space, made.heap, code)
    ensures R.SameBytes(m, made.mem, code)
  {
    hide StillCode, Heap.BlockOf;
    if made.slot.Slot? {
      CodeSame(made.space, made.heap, code, m, made.mem);
    }
  }

  lemma WithoutInOrder(hooks: seq<Trampoline>, order: seq<nat>, active: seq<R.Patch>, k: int)
    requires InOrder(hooks, order, active) && 0 <= k < |order|
    ensures |Without(order, k)| == |Without(active, k)| == |order| - 1
    ensures forall j :: 0 <= j < |order| - 1 ==>
              var i := if j < k then j else j + 1;
              Without(order, k)[j] == order[i] != order[k] && Without(active, k)[j] == active[i]
    ensures forall i :: i in order && i != order[k] ==> i in Without(order, k)
  {
    hide PatchOf;
    Heap.WithoutMembers(order, k);
  }

  /** Disables the k-th object in force; no later patch overlaps its patch. */
  method ServeUnhooking(mm: Alloc.Memory, hooks: seq<Trampoline>, order: seq<nat>, k: nat,
                        ghost code: iset<int>, ghost p: Point, ghost ss: seq<R.CodeState>)
    returns (order': seq<nat>, ghost p': Point, ghost ss': seq<R.CodeState>)
    requires Standing(mm, hooks, order, code, p.active) && p == Point(mm.mem, p.active, mm.heap, mm.space)
    requires Reaches(code, ss, R.CodeState(p.mem, p.active)) && k < |order| && OnTop(p.active, k)
    requires forall j, k :: 0 <= j < k < |hooks| ==> hooks[j] != hooks[k]
    modifies hooks[order[k]], mm`mem
    ensures Standing(mm, hooks, order', code, p'.active) && p' == Point(mm.mem, p'.active, mm.heap, mm.space)
    ensures Reaches(code, ss', R.CodeState(p'.mem, p'.active)) && ss <= ss'
    ensures Unhooked(p, k, p')
  {
    hide Heap.HeapOk, Heap.Live, Heap.BlockOf, Space.Valid, Space.OnePage, Reaches, StillCode, R.Overlap, R.CodeStep, PatchesInCode,
         Without, Write;
    ghost var active := p.active;
    var h := hooks[order[k]];
    assert PatchOf(h, order[k], active[k]);
    assert forall j :: 0 <= j < |order| && j != k ==> PatchOf(hooks[order[j]], order[j], active[j]) && hooks[order[j]] != h;
    WithoutInOrder(hooks, order, active, k);
    WindowOutside(mm.space, mm.heap, active, k);
    var ok := h.Disable(mm);
    H.DisableIsStep(p.mem, mm.mem, code, active, k);
    order', p' := Without(order, k), Point(mm.mem, Without(active, k), mm.heap, mm.space);
    FewerPatches(mm.space, mm.heap, active, k);
    RunExtends(code, ss, R.CodeState(p.mem, active), R.CodeState(mm.mem, p'.active));
    ss' := ss + [R.CodeState(mm.mem, p'.active)];
  }

  lemma WindowOutside(s: Space, h: Heap.Heap, active: seq<R.Patch>, k: nat)
    requires PatchesInCode(s, h, active) && k < |active|
    ensures forall x :: active[k].pos <= x < active[k].pos + |active[k].backup| ==> Heap.BlockOf(x) !in h.free
  {
    hide Heap.BlockOf;
    forall x | active[k].pos <= x < active[k].pos + |active[k].backup|
      ensures Heap.BlockOf(x) !in h.free
    {
      assert active[k].Covers(x);
      assert CodeByte(s, h, x);
    }
  }

  lemma FewerPatches(s: Space, h: Heap.Heap, active: seq<R.Patch>, k: nat)
    requires PatchesInCode(s, h, active) && k < |active|
    ensures PatchesInCode(s, h, Without(active, k))
  {
    hide CodeByte;
    var ps := Without(active, k);
    forall j, x | 0 <= j < |ps| && ps[j].Covers(x)
      ensures CodeByte(s, h, x)
    {
      assert ps[j] == active[if j < k then j else j + 1];
    }
  }

  /** Where object i stands in order, |order| if it does not. */
  method Find(order: seq<nat>, i: nat) returns (k: nat)
    ensures k <= |order| && (if k < |order| then order[k] == i else i !in order)
  {
    k := 0;
    while k < |order| && order[k] != i
      invariant k <= |order| && i !in order[..k]
    {
      k := k + 1;
    }
    assert k == |order| ==> order[..k] == order;
  }

  /** Whether no patch placed after the k-th one overlaps it. */
  method MayUndo(hooks: seq<Trampoline>, order: seq<nat>, k: nat, ghost active: seq<R.Patch>) returns (ok: bool)
    requires InOrder(hooks, order, active) && k < |order|
    ensures ok <==> OnTop(active, k)
  {
    var p := hooks[order[k]];
    assert PatchOf(p, order[k], active[k]);
    var j := k + 1;
    while j < |order|
      invariant k < j <= |order|
      invariant forall i :: k < i < j ==> !R.Overlap(active[k], active[i])
    {
      var q := hooks[order[j]];
      assert PatchOf(q, order[j], active[j]);
      if p.patchedPos < q.patchedPos + q.patchedSize && q.patchedPos < p.patchedPos + p.patchedSize {
        return false;
      }
      j := j + 1;
    }
    return true;
  }

  /** Serves one request.  done is false if it is an Enable that does not come back. */
  method ServeOne(mm: Alloc.Memory, hooks: seq<Trampoline>, q: Request, t: Table, si: Alloc.SystemInfo, stack: Mem,
                  order: seq<nat>, ghost code: iset<int>, ghost p: Point, ghost ss: seq<R.CodeState>)
    returns (done: bool, order': seq<nat>, ghost made: Attempt, ghost p': Point, ghost ss': seq<R.CodeState>)
    requires Standing(mm, hooks, order, code, p.active) && p == Point(mm.mem, p.active, mm.heap, mm.space)
    requires Reaches(code, ss, R.CodeState(p.mem, p.active)) && si.Valid()
    requires q.hook < |hooks| && hooks[q.hook].table == t
    requires q.Hooking? ==> 0 <= q.detour < TWO64 && CodeAt(mm.space, mm.heap, q.target)
    requires forall j, k :: 0 <= j < k < |hooks| ==> hooks[j] != hooks[k]
    modifies hooks, mm
    ensures done ==> Standing(mm, hooks, order', code, p'.active) && p' == Point(mm.mem, p'.active, mm.heap, mm.space)
    ensures done ==> Reaches(code, ss', R.CodeState(p'.mem, p'.active)) && ss <= ss'
    ensures done ==> Serves(t, si, code, q, p, made, p')
    ensures done ==> forall a :: CodeAt(old(mm.space), old(mm.heap), a) ==> CodeAt(mm.space, mm.heap, a)
    ensures !done ==> Stuck(t, si, code, q, p, made)
  {
    hide CodeAt, CodeByte, Heap.HeapOk, Space.Valid, Space.OnePage, PatchesInCode, StillCode, Reaches, Verdict, Tries, R.SameBytes,
         OnTop, Unhooked, InOrder, IsActive;
    done, order', made, p', ss' := true, order, Attempt(Alloc.Null, p.mem, p.heap, p.space), p, ss;
    ActiveIff(hooks, order, p.active, q.hook);
    if q.Hooking? {
      if !hooks[q.hook].enabled {
        var r;
        r, order', made, p', ss' := ServeHooking(mm, hooks, q, t, si, stack, order, code, p, ss);
        done := !r.Undefined? && !r.NeverReturns?;
      }
    } else {
      var k := Find(order, q.hook);
      OrderLengths(hooks, order, p.active);
      if k < |order| {
        var ok := MayUndo(hooks, order, k, p.active);
        if ok {
          order', p', ss' := ServeUnhooking(mm, hooks, order, k, code, p, ss);
        } else {
          OnlyOne(hooks, order, p.active, q.hook, k);
        }
      } else {
        NotActive(hooks, order, p.active, q.hook);
      }
    }
  }

  lemma OrderLengths(hooks: seq<Trampoline>, order: seq<nat>, active: seq<R.Patch>)
    requires InOrder(hooks, order, active)
    ensures |order| == |active|
  {
    hide PatchOf;
  }

  lemma OnlyOne(hooks: seq<Trampoline>, order: seq<nat>, active: seq<R.Patch>, i: nat, k: nat)
    requires InOrder(hooks, order, active) && k < |order| && order[k] == i && i < |hooks|
    ensures forall j :: IsActive(active, i, j) ==> j == k
  {
    hide PatchOf;
    ActiveIff(hooks, order, active, i);
  }

  lemma NotActive(hooks: seq<Trampoline>, order: seq<nat>, active: seq<R.Patch>, i: nat)
    requires InOrder(hooks, order, active) && i !in order && i < |hooks|
    ensures forall j :: !IsActive(active, i, j)
  {
    hide PatchOf;
    ActiveIff(hooks, order, active, i);
  }

  /** Serves any requests, in any order, on any objects: an object in force is not enabled again, and a patch that a
      later one overlaps is not undone; every other request takes effect as ps tells, point by point.  done is false if
      an Enable does not come back.  The code bytes go through a run, and when no object is in force any more, they are
      what they were. */
  method Serve(mm: Alloc.Memory, hooks: seq<Trampoline>, requests: seq<Request>, t: Table, si: Alloc.SystemInfo, stack: Mem)
    returns (done: bool, order: seq<nat>, ghost ps: seq<Point>, ghost mades: seq<Attempt>, ghost stuck: Attempt, ghost ss: seq<R.CodeState>)
    requires mm.Valid() && si.Valid() && PAGE_SIZE < mm.space.granularity
    requires forall i :: 0 <= i < |hooks| ==> hooks[i].BuffersOk() && !hooks[i].enabled && hooks[i].table == t
    requires forall i, j :: 0 <= i < j < |hooks| ==> hooks[i] != hooks[j]
    requires forall q :: q in requests ==> q.hook < |hooks|
    requires forall q :: q in requests && q.Hooking? ==> 0 <= q.detour < TWO64 && CodeAt(mm.space, mm.heap, q.target)
    modifies hooks, mm
    ensures |mades| <= |requests| && |ps| == |mades| + 1 && ss != []
    ensures Served(t, si, Code(old(mm.space), old(mm.heap)), requests, ps, mades)
    ensures ps[0] == Point(old(mm.mem), [], old(mm.heap), old(mm.space))
    ensures if done then |mades| == |requests|
            else |mades| < |requests| && Stuck(t, si, Code(old(mm.space), old(mm.heap)), requests[|mades|], ps[|mades|], stuck)
    ensures done ==>
              var p := ps[|mades|];
              && p == Point(mm.mem, p.active, mm.heap, mm.space) && mm.Valid() && InOrder(hooks, order, p.active)
              && ss[|ss| - 1] == R.CodeState(mm.mem, p.active)
    ensures R.CodeRun(Code(old(mm.space), old(mm.heap)), ss) && ss[0] == R.CodeState(old(mm.mem), [])
    ensures done && (forall i :: 0 <= i < |hooks| ==> !hooks[i].enabled) ==>
              forall x :: CodeByte(old(mm.space), old(mm.heap), x) ==> mm.mem(x) == old(mm.mem)(x)
  {
    hide CodeAt, CodeByte, R.CodeStep, Heap.HeapOk, Space.Valid, Space.OnePage, PatchesInCode, StillCode, Serves, Stuck;
    ghost var code := Code(mm.space, mm.heap);
    ghost var m0 := mm.mem;
    StartsStanding(mm, hooks);
    ghost var p := Point(mm.mem, [], mm.heap, mm.space);
    done, order, ps, mades, ss := true, [], [p], [], [R.CodeState(m0, [])];
    stuck := Attempt(Alloc.Null, mm.mem, mm.heap, mm.space);
    var i := 0;
    while i < |requests|
      invariant 0 <= i <= |requests| && |mades| == i
      invariant Standing(mm, hooks, order, code, p.active) && p == Point(mm.mem, p.active, mm.heap, mm.space)
      invariant Reaches(code, ss, R.CodeState(p.mem, p.active)) && ss[0] == R.CodeState(m0, [])
      invariant Served(t, si, code, requests, ps, mades) && ps[i] == p && ps[0] == Point(m0, [], old(mm.heap), old(mm.space))
      invariant forall q :: q in requests && q.Hooking? ==> CodeAt(mm.space, mm.heap, q.target)
    {
      var q := requests[i];
      assert q in requests;
      ghost var made, p', ss';
      done, order, made, p', ss' := ServeOne(mm, hooks, q, t, si, stack, order, code, p, ss);
      if !done {
        stuck := made;
        return;
      }
      assert ss[0] == ss'[0];
      ServedExtends(t, si, code, requests, ps, mades, made, p');
      ps, mades, p, ss := ps + [p'], mades + [made], p', ss';
      i := i + 1;
    }
    if forall i :: 0 <= i < |hooks| ==> !hooks[i].enabled {
      if p.active != [] {
        SomeInForce(hooks, order, p.active);
        assert false;
      }
      forall x | x in code
        ensures mm.mem(x) == m0(x)
      {
        R.AllDisabledRestores(code, ss, x);
      }
    }
  }

  lemma StartsStanding(mm: Alloc.Memory, hooks: seq<Trampoline>)
    requires mm.Valid() && PAGE_SIZE < mm.space.granularity
    requires forall i :: 0 <= i < |hooks| ==> hooks[i].BuffersOk() && !hooks[i].enabled
    ensures Standing(mm, hooks, [], Code(mm.space, mm.heap), [])
  {
    hide Heap.HeapOk, Space.Valid, Space.OnePage, CodeByte;
  }

  lemma SomeInForce(hooks: seq<Trampoline>, order: seq<nat>, active: seq<R.Patch>)
    requires InOrder(hooks, order, active) && active != []
    ensures exists i :: 0 <= i < |hooks| && hooks[i].enabled
  {
    assert PatchOf(hooks[order[0]], order[0], active[0]);
  }
}
