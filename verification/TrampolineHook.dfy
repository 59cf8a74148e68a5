/** class Trampoline.  src/trampoline.cpp, include/trampoline.h. */
module TrampolineHook {
  import opened Words
  import opened AddressSpace
  import opened Hde64
  import opened Hde64Laws
  import opened Instructions
  import opened X64
  import opened Relocation
  import opened Layout
  import opened Patching
  import Disasm
  import Alloc = Allocator
  import Heap = SlotHeap
  import Sim = Simulation
  import Acc = Acceptance

  /** A fixed buffer of 16 bytes on the stack, and what lies behind it. */
  function Buffer(stack: Mem, bytes: seq<byte>): Mem
  {
    Write(stack, 0, bytes)
  }

  /** The sixteen bytes copied before decoding are enough. */
  lemma BufferDecodes(t: Table, stack: Mem, m: Mem, a: int)
    ensures var b := Buffer(stack, Read(m, a, 16));
            && (Decode(t, b, 0).Failed() <==> Decode(t, m, a).Failed())
            && (!Decode(t, m, a).Failed() ==> Decode(t, b, 0) == Decode(t, m, a))
  {
    hide Decode, Buffer, Read;
    BufferAgrees(stack, m, a);
    SixteenBytesSuffice(t, m, a, Buffer(stack, Read(m, a, 16)), 0);
  }

  lemma BufferAgrees(stack: Mem, m: Mem, a: int)
    ensures Agree(m, a, Buffer(stack, Read(m, a, 16)), 0, 0, 16)
  {
    hide Buffer, Read;
    forall x {:trigger m(x)} | a + 0 <= x < a + 16
      ensures m(x) == Buffer(stack, Read(m, a, 16))(x - a + 0)
    {
      BufferByte(stack, m, a, x - a);
      assert a + (x - a) == x;
    }
  }

  lemma BufferByte(stack: Mem, m: Mem, a: int, k: int)
    requires 0 <= k < 16
    ensures Buffer(stack, Read(m, a, 16))(k) == m(a + k)
  {
  }

  /** What Enable comes to.  NeverReturns: the allocator's lookup goes round for ever.  Undefined: a store misses its
      buffer on the stack, and the C++ program promises nothing from there on. */
  datatype EnableResult = Refused | NeverReturns | Undefined | Enabled(origin: int)

  /** What CreateTrampolineFunction comes to. */
  datatype Creation = Failed | Overrun | Created

  /** What it comes to in memory m, for a trampoline in slot a. */
  ghost function Creates(t: Table, m: Mem, s: Space, target: int, a: int): Creation
  {
    match RelocateAll(t, m, target, a)
    case Rejected => Failed
    case Overrun => Creation.Overrun
    case Planned(p) => if Placement(m, s, target, p.oldEnd).Some? then Created else Failed
  }

  /** The allocator's part of an Enable: what AllocateBuffer has returned and left. */
  datatype Attempt = Attempt(slot: Alloc.Outcome, mem: Mem, heap: Heap.Heap, space: Space)

  /** What Enable comes to, in every case. */
  ghost function Verdict(t: Table, s: Space, target: int, detour: int, made: Attempt): EnableResult
  {
    if !IsExecutable(s, target) || !IsExecutable(s, detour) then Refused
    else
      match made.slot
      case Hangs => NeverReturns
      case Null => Refused
      case Slot(a) =>
        match Creates(t, made.mem, made.space, target, a)
        case Failed => Refused
        case Overrun => Undefined
        case Created => Enabled(a)
  }

  /** What Enable comes to, by the code, the pages and the bytes around the target.  It succeeds, in the slot that it has been
      given, exactly where target and detour are executable, the code makes a complete sequence, and there is room for the
      jump at the target or above; it never returns where the allocator's lookup does not; and its outcome is undefined
      where the relocator comes to an instruction whose displacement it stores outside its buffer. */
  lemma VerdictIff(t: Table, s: Space, target: int, detour: int, made: Attempt, a: int)
    requires made.slot.Slot? ==> made.slot.address == a
    ensures var v := Verdict(t, s, target, detour, made);
            var code := Mapped(s, target) && Mapped(s, detour);
            && (v.Enabled? <==> code && made.slot.Slot? && exists p :: Fits(t, made.mem, made.space, target, a, p))
            && (v.Enabled? ==> v.origin == a)
            && (v.NeverReturns? <==> code && made.slot.Hangs?)
            && (v.Undefined? <==> code && made.slot.Slot? && exists es, o, n :: Acc.ComesToMiss(t, made.mem, target, a, es, o, n))
  {
    hide RelocateAll, Placement, IsExecutable, Mapped, Fits;
    ExecutableIff(s, target);
    ExecutableIff(s, detour);
    if Mapped(s, target) && Mapped(s, detour) && made.slot.Slot? {
      MappedNotNegative(s, target);
      CreatesIff(t, made.mem, made.space, target, a);
    }
  }

  lemma MappedNotNegative(s: Space, a: int)
    requires Mapped(s, a)
    ensures 0 <= a
  {
  }

  /** p is the complete sequence of the code at target, and there is room for the jump. */
  ghost predicate Fits(t: Table, m: Mem, s: Space, target: int, a: int, p: Plan)
  {
    Acc.Completes(t, m, target, a, p) && (RoomAt(m, target, p.oldEnd) || RoomAbove(m, s, target, p.oldEnd))
  }

  lemma CreatesIff(t: Table, m: Mem, s: Space, target: int, a: int)
    requires 0 <= target
    ensures Creates(t, m, s, target, a).Created? <==> exists p :: Fits(t, m, s, target, a, p)
    ensures Creates(t, m, s, target, a).Overrun? <==> exists es, o, n :: Acc.ComesToMiss(t, m, target, a, es, o, n)
  {
    hide Relocate, RelocateAll, Placement, Acc.Completes, Acc.ComesToMiss, Acc.ComesToRefusal, RoomAt, RoomAbove;
    forall p
      ensures RelocateAll(t, m, target, a) == Planned(p) <==> Acc.Completes(t, m, target, a, p)
      ensures RelocateAll(t, m, target, a) == Planned(p) ==>
                (Placement(m, s, target, p.oldEnd).Some? <==> RoomAt(m, target, p.oldEnd) || RoomAbove(m, s, target, p.oldEnd))
    {
      Acc.OutcomeIff(t, m, target, a, p);
      if RelocateAll(t, m, target, a) == Planned(p) {
        PlanIsOk(t, m, target, a);
        PlanFacts(t, m, target, a, p);
        PlacementIff(m, s, target, p.oldEnd);
      }
    }
    Acc.OutcomeIff(t, m, target, a, Plan([], 0, 0, 0));
    var r := RelocateAll(t, m, target, a);
    if r.Planned? && Creates(t, m, s, target, a).Created? {
      assert Fits(t, m, s, target, a, r.plan);
    }
  }

  /** The bytes that relocating the code at a may read are mapped, and not in the allocator's blocks. */
  ghost predicate CodeAt(s: Space, h: Heap.Heap, a: int)
  {
    JMP_REL_SIZE < a && forall x :: a <= x < a + CODE_READ ==> CodeByte(s, h, x)
  }

  ghost predicate CodeByte(s: Space, h: Heap.Heap, x: int)
  {
    0 <= x < s.Limit() && s.pages[x / PAGE_SIZE].Used? && Heap.BlockOf(x) !in h.free
  }

  /** No block of the allocator holds code at a or a long jump above it. */
  ghost predicate Apart(h: Heap.Heap, a: int)
  {
    forall x {:trigger Heap.BlockOf(x)} :: a - JMP_REL_SIZE <= x < a + CODE_READ ==> Heap.BlockOf(x) !in h.free
  }

  /** Each block of the allocator is a page of its own. */
  ghost predicate OwnPages(s: Space, h: Heap.Heap)
  {
    forall b :: b in h.free ==> s.OnePage(b) && b % PAGE_SIZE == 0
  }

  /** Code that starts right behind a page of the allocator does not exist: the granularity is in between. */
  lemma CodeIsApart(s: Space, h: Heap.Heap, a: int)
    requires s.Valid() && PAGE_SIZE < s.granularity && OwnPages(s, h) && CodeAt(s, h, a)
    ensures Apart(h, a)
  {
    hide Space.Valid, Space.OnePage;
    forall x {:trigger Heap.BlockOf(x)} | a - JMP_REL_SIZE <= x < a + CODE_READ
      ensures Heap.BlockOf(x) !in h.free
    {
      assert CodeByte(s, h, if x < a then a else x);
      var b := Heap.BlockOf(x);
      if b in h.free && b != Heap.BlockOf(a) && x < a {
        assert b + PAGE_SIZE == Heap.BlockOf(a);
        NothingBehind(s, b);
        assert false;
      }
    }
  }

  /** What an allocation keeps, so that the next Enable may follow: mapped pages, slots in use, code. */
  ghost predicate Preserved(s: Space, h: Heap.Heap, s': Space, h': Heap.Heap)
  {
    && s'.granularity == s.granularity && |s'.pages| == |s.pages|
    && (forall i :: 0 <= i < |s.pages| && s.pages[i].Used? ==> s'.pages[i] == s.pages[i])
    && (forall u :: Heap.Live(h, u) ==> Heap.Live(h', u))
    && (forall x :: CodeByte(s, h, x) ==> CodeByte(s', h', x))
    && (forall a :: CodeAt(s, h, a) ==> CodeAt(s', h', a))
  }

  /** Another slot in use keeps its bytes: it meets neither slot a nor a window outside the blocks. */
  lemma OtherSlots(h: Heap.Heap, u: int, a: int, x: int)
    requires Heap.Live(h, u) && Heap.Live(h, a) && u != a && u <= x < u + SLOT_SIZE
    ensures !(a <= x < a + SLOT_SIZE) && Heap.BlockOf(x) in h.free
  {
    hide Heap.BlockOf, Heap.IsSlot;
    Alloc.Memory.LivesApart(h, u, a);
    Alloc.Memory.BlockOfAligned(u);
    LiveIsSlot(h, u);
    SlotByte(Heap.BlockOf(u), u, x);
  }

  /** The allocator's slot is away from code that was there before. */
  lemma SlotIsAway(si: Alloc.SystemInfo, grants: set<int>, m: Mem, head: int, h: Heap.Heap, s: Space,
                   target: int, a: int, h': Heap.Heap, s': Space)
    requires s.Valid() && Heap.HeapOk(m, head, h) && CodeAt(s, h, target)
    requires Alloc.Allocates(si, grants, target, h, s, Alloc.Slot(a), h', s')
    requires s'.Valid() && PAGE_SIZE < s.granularity && OwnPages(s', h')
    requires Heap.IsBlock(Heap.BlockOf(a)) && Heap.IsSlot(Heap.BlockOf(a), a) && Heap.BlockOf(a) in h'.free
    ensures Apart(h', target) && JMP_REL_SIZE < target && SLOT_SIZE < a < USER_LIMIT
    ensures forall x :: target - JMP_REL_SIZE <= x < target + JMP_REL_SIZE ==> Heap.BlockOf(x) != Heap.BlockOf(a)
    ensures a + SLOT_SIZE <= target - JMP_REL_SIZE || target + CODE_READ <= a
  {
    hide Aligned, Down, Alloc.FirstUsable, Heap.HeapOk, Heap.BlockOf, Space.Valid, Alloc.Allocates, OwnPages;
    var b := Heap.BlockOf(a);
    BlockWasRegistered(si, grants, m, head, h, s, target, a, h', s');
    forall x | target <= x < target + CODE_READ
      ensures CodeByte(s', h', x)
    {
      assert CodeByte(s, h, x);
      PageOfBlock(x);
    }
    CodeIsApart(s', h', target);
    SlotBounds(b, a);
    if target - JMP_REL_SIZE < a + SLOT_SIZE && a < target + CODE_READ {
      var x := if a < target - JMP_REL_SIZE then target - JMP_REL_SIZE else a;
      SlotByte(b, a, x);
      assert false;
    }
  }

  lemma PageOfBlock(x: int)
    ensures Heap.BlockOf(x) / PAGE_SIZE == x / PAGE_SIZE
  {
  }

  lemma SlotBounds(b: int, a: int)
    requires Heap.IsBlock(b) && Heap.IsSlot(b, a)
    ensures SLOT_SIZE < a < USER_LIMIT
  {
  }

  lemma SlotByte(b: int, a: int, x: int)
    requires b % Heap.BLOCK_SIZE == 0 && Heap.IsSlot(b, a) && a <= x < a + SLOT_SIZE
    ensures Heap.BlockOf(x) == b
  {
  }

  /** The slot's block was registered, or its page was free; no other block has been registered. */
  lemma BlockWasRegistered(si: Alloc.SystemInfo, grants: set<int>, m: Mem, head: int, h: Heap.Heap, s: Space,
                           target: int, a: int, h': Heap.Heap, s': Space)
    requires s.Valid() && Heap.HeapOk(m, head, h)
    requires Alloc.Allocates(si, grants, target, h, s, Alloc.Slot(a), h', s')
    requires Heap.IsBlock(Heap.BlockOf(a)) && Heap.IsSlot(Heap.BlockOf(a), a)
    ensures var b := Heap.BlockOf(a);
            && (b in h.free || (0 <= b < s.Limit() && s.pages[b / PAGE_SIZE].Free?))
            && (forall c :: c in h'.free ==> c == b || c in h.free)
            && s'.granularity == s.granularity
            && |s'.pages| == |s.pages| && (forall i :: 0 <= i < |s.pages| && s.pages[i].Used? ==> s'.pages[i] == s.pages[i])
  {
    hide Aligned, Down, Alloc.FirstUsable, Read64, Heap.BlockOf, Heap.SlotsBelow;
    var f := Alloc.FirstUsable(h.blocks, h.free, si.Low(target), si.High(target));
    if f.Found? {
      assert Heap.BlockOk(m, f.block, h.free[f.block]);
      Heap.SlotInBlock(f.block, a);
    } else {
      assert s.Candidate(Heap.BlockOf(a));
    }
  }

  lemma AllocateKeeps(si: Alloc.SystemInfo, grants: set<int>, m: Mem, head: int, h: Heap.Heap, s: Space,
                      target: int, r: Alloc.Outcome, h': Heap.Heap, s': Space)
    requires s.Valid() && Heap.HeapOk(m, head, h) && Alloc.Allocates(si, grants, target, h, s, r, h', s')
    requires r.Slot? ==> Heap.Live(h', r.address) && Heap.IsBlock(Heap.BlockOf(r.address))
    ensures Preserved(s, h, s', h')
  {
    hide Aligned, Down, Alloc.FirstUsable, Read64, Heap.BlockOf, Heap.SlotsBelow, Heap.HeapOk, Heap.IsSlot, GrantedAbove, Alloc.BlockBelow;
    if r.Slot? {
      var b := Heap.BlockOf(r.address);
      LiveIsSlot(h', r.address);
      BlockWasRegistered(si, grants, m, head, h, s, target, r.address, h', s');
      forall u | Heap.Live(h, u)
        ensures Heap.Live(h', u)
      {
        LiveStays(si, grants, m, head, h, s, target, r.address, h', s', u);
      }
      forall x | CodeByte(s, h, x)
        ensures CodeByte(s', h', x)
      {
        PageOfBlock(x);
      }
    }
  }

  lemma LiveIsSlot(h: Heap.Heap, a: int)
    requires Heap.Live(h, a)
    ensures Heap.IsSlot(Heap.BlockOf(a), a) && Heap.BlockOf(a) in h.free
  {
  }

  lemma LiveStays(si: Alloc.SystemInfo, grants: set<int>, m: Mem, head: int, h: Heap.Heap, s: Space,
                  target: int, a: int, h': Heap.Heap, s': Space, u: int)
    requires s.Valid() && Heap.HeapOk(m, head, h) && Alloc.Allocates(si, grants, target, h, s, Alloc.Slot(a), h', s')
    requires Heap.Live(h, u)
    ensures Heap.Live(h', u)
  {
    hide Aligned, Down, Alloc.FirstUsable, Read64, Heap.BlockOf, Heap.SlotsBelow, Heap.IsSlot, GrantedAbove, Alloc.BlockBelow,
         Heap.BlockOk, Heap.Linked;
  }

  class Trampoline {
    var target: int
    var detour: int
    var trampoline: int
    var relay: int
    var patchAbove: bool
    var nIP: int
    var oldIPs: seq<int>
    var newIPs: seq<int>
    var enabled: bool
    var queueEnable: bool
    var backup: seq<byte>
    var patchedPos: int
    var patchedSize: int
    /** The decoder's table; no code writes it. */
    const table: Table

    constructor (t: Table)
      ensures table == t && !enabled && !patchAbove && !queueEnable && BuffersOk()
    {
      table := t;
      target, detour, trampoline, relay, patchAbove := 0, 0, 0, 0, false;
      nIP, oldIPs, newIPs := 0, seq(8, _ => 0), seq(8, _ => 0);
      enabled, queueEnable, backup, patchedPos, patchedSize := false, false, seq(32, _ => 0), 0, 0;
    }

    /** oldIPs_, newIPs_ and backup_ have their declared sizes. */
    predicate BuffersOk()
      reads this`oldIPs, this`newIPs, this`backup
    {
      |oldIPs| == 8 && |newIPs| == 8 && |backup| == 32
    }

    // -------------------------------------------------------------------
    // One instruction
    // -------------------------------------------------------------------

    /** The branches of the relocation loop: the code for one decoded instruction, the new jmpDest, and whether the
        trampoline is complete.  ok is false for a LOOPcc to the outside and where a store misses its buffer. */
    method Translate(m: Mem, hs: Hde, oldPos: int, newPos: int, jmpDest: int)
      returns (ok: bool, overrun: bool, copySrc: seq<byte>, jmpDest': int, finished: bool)
      requires 0 < hs.len <= 15 && 0 <= target && !hs.Failed()
      ensures var kind := Classify(hs, oldPos, target);
              var e := Entry(oldPos, newPos, hs, kind, Emitted(m, hs, kind, target + oldPos, trampoline + newPos));
              && overrun == Overruns(e) && ok == (!kind.LoopOut? && !overrun)
              && (ok ==> copySrc == e.bytes && jmpDest' == NextDest(kind, jmpDest) && finished == Finishes(e, target, jmpDest))
    {
      hide JmpAbs, CallAbs, JccAbs, NewDisp, ConditionCode, NearDest, ShortDest, SExt32, DispOffset, Redisplaced, StoreInside;
      var oldInst, newInst := target + oldPos, trampoline + newPos;
      ok, overrun, copySrc, jmpDest', finished := true, false, Read(m, oldInst, hs.len), jmpDest, false;
      if oldPos >= JMP_REL_SIZE {
        copySrc := JmpAbs(oldInst);
        finished := true;
      } else if RipForm(hs) {
        ok, copySrc := Redisplace(m, hs, oldInst, newInst);
        overrun := !ok;
        if hs.opcode == 0xFF && Reg(hs.modrm) == 4 {
          finished := true;
        }
      } else if hs.opcode == 0xE8 {
        copySrc := CallAbs(NearDest(oldInst, hs));
      } else if hs.opcode == 0xE9 || hs.opcode == 0xEB {
        var dest := if hs.opcode == 0xEB then ShortDest(oldInst, hs) else NearDest(oldInst, hs);
        if target <= dest < target + JMP_REL_SIZE {
          if jmpDest' < dest {
            jmpDest' := dest;
          }
        } else {
          copySrc := JmpAbs(dest);
          finished := oldInst >= jmpDest';
        }
      } else if hs.opcode / 16 == 7 || hs.opcode / 4 == 0x38 || hs.opcode2 / 16 == 8 {
        var dest := if hs.opcode / 16 == 7 || hs.opcode / 4 == 0x38 then ShortDest(oldInst, hs) else NearDest(oldInst, hs);
        if target <= dest < target + JMP_REL_SIZE {
          if jmpDest' < dest {
            jmpDest' := dest;
          }
        } else if hs.opcode / 4 == 0x38 {
          ok := false;
        } else {
          copySrc := JccAbs(InverseJcc(ConditionRange(hs)), dest);
        }
      } else if hs.opcode / 2 == 0x61 {
        finished := oldInst >= jmpDest';
      }
    }

    function ConditionRange(hs: Hde): (cond: int)
      ensures 0 <= cond < 16 && cond == ConditionCode(hs)
    {
      ConditionCode(hs)
    }

    /** instBuf, sixteen bytes on the stack, with the new displacement stored at hs.len - ((hs.flags & 0x3C) >> 2) - 4.
        inside is false where that is not inside the buffer. */
    method Redisplace(m: Mem, hs: Hde, oldInst: int, newInst: int) returns (inside: bool, bs: seq<byte>)
      requires 0 < hs.len <= 15
      ensures inside == StoreInside(hs)
      ensures inside ==> bs == Redisplaced(m, hs, oldInst, newInst)
    {
      hide DispOffset, NewDisp, Bytes4;
      var instBuf := new byte[BUFFER_SIZE];
      var i := 0;
      while i < hs.len
        invariant 0 <= i <= hs.len
        invariant forall k :: 0 <= k < i ==> instBuf[k] == m(oldInst + k)
      {
        instBuf[i] := m(oldInst + i);
        i := i + 1;
      }
      var at := DispOffset(hs);
      inside, bs := 0 <= at && at + 4 <= instBuf.Length, [];
      if inside {
        var disp := Bytes4(NewDisp(hs, oldInst, newInst));
        instBuf[at], instBuf[at + 1], instBuf[at + 2], instBuf[at + 3] := disp[0], disp[1], disp[2], disp[3];
        bs := instBuf[..hs.len];
        assert bs == Redisplaced(m, hs, oldInst, newInst);
      }
    }

    // -------------------------------------------------------------------
    // CreateTrampolineFunction
    // -------------------------------------------------------------------

    /** The slot does not overlap the code that is read and patched. */
    ghost predicate SlotAway()
      reads this`target, this`trampoline
    {
      && JMP_REL_SIZE < target && 0 < trampoline
      && (trampoline + SLOT_SIZE <= target - JMP_REL_SIZE || target + CODE_READ <= trampoline)
    }

    /** The entries es stand in the slot and in oldIPs_ and newIPs_. */
    ghost predicate Written(m: Mem, es: seq<Entry>)
      reads this`trampoline, this`nIP, this`oldIPs, this`newIPs
    {
      && |oldIPs| == 8 && |newIPs| == 8 && nIP == |es| <= 8
      && (forall k :: 0 <= k < |es| ==> oldIPs[k] == es[k].src && newIPs[k] == es[k].dst)
      && (forall k :: 0 <= k < |es| ==> Holds(m, trampoline + es[k].dst, es[k].bytes))
    }

    /** Disassembling the copied bytes gives what stands in the target. */
    method DecodeAt(m: Mem, stack: Mem, oldInst: int) returns (hs: Hde)
      ensures hs.Failed() <==> Decode(table, m, oldInst).Failed()
      ensures !hs.Failed() ==> hs == Decode(table, m, oldInst)
      ensures 1 <= hs.len <= 15
    {
      hide Decode;
      var oldInstBuffer := Buffer(stack, Read(m, oldInst, 16));
      ghost var seen;
      hs, seen := Disasm.Disassemble(table, oldInstBuffer, 0);
      BufferDecodes(table, stack, m, oldInst);
    }

    lemma SameEmission(m: Mem, m': Mem, i: Hde, kind: Kind, a: int, b: int)
      requires 1 <= i.len <= 15
      requires forall x {:trigger m'(x)} :: a <= x < a + 16 ==> m'(x) == m(x)
      ensures Emitted(m', i, kind, a, b) == Emitted(m, i, kind, a, b)
    {
      hide JmpAbs, CallAbs, JccAbs, NewDisp, DispOffset, Bytes4;
      assert Read(m', a, i.len) == Read(m, a, i.len);
      if kind.RipRelative? {
        assert Redisplaced(m', i, a, b) == Redisplaced(m, i, a, b);
      }
    }

    lemma SameDecode(m: Mem, m': Mem, a: int)
      requires forall x {:trigger m'(x)} :: a <= x < a + 16 ==> m'(x) == m(x)
      ensures Decode(table, m', a).Failed() <==> Decode(table, m, a).Failed()
      ensures !Decode(table, m, a).Failed() ==> Decode(table, m', a) == Decode(table, m, a)
    {
      hide Decode;
      SixteenBytesSuffice(table, m', a, m, a);
    }

    /** One round of the loop, up to the guards: the entry that Relocate makes. */
    method TranslateAt(m: Mem, ghost m0: Mem, stack: Mem, oldPos: int, newPos: int, jmpDest: int)
      returns (ok: bool, overrun: bool, hs: Hde, copySrc: seq<byte>, jmpDest': int, finished: bool)
      requires 0 < target
      requires forall x {:trigger m(x)} :: target + oldPos <= x < target + oldPos + 16 ==> m(x) == m0(x)
      ensures var e := MakeEntry(table, m0, target, trampoline, oldPos, newPos);
              && overrun == Overruns(e) && ok == (!e.inst.Failed() && !e.kind.LoopOut? && !overrun)
              && (ok ==> hs == e.inst && copySrc == e.bytes && jmpDest' == NextDest(e.kind, jmpDest)
                         && finished == Finishes(e, target, jmpDest))
    {
      hide Decode, Classify, Emitted, Finishes;
      overrun, copySrc, jmpDest', finished := false, [], jmpDest, false;
      hs := DecodeAt(m, stack, target + oldPos);
      SameDecode(m0, m, target + oldPos);
      Sim.EntryFields(table, m0, target, trampoline, oldPos, newPos);
      ok := !hs.Failed();
      if !ok {
        return;
      }
      ok, overrun, copySrc, jmpDest', finished := Translate(m, hs, oldPos, newPos, jmpDest);
      SameEmission(m0, m, hs, Classify(hs, oldPos, target), target + oldPos, trampoline + newPos);
    }

    /** Storing the next entry leaves the earlier ones. */
    lemma StoreEntry(m: Mem, m': Mem, es: seq<Entry>, oldPos: int, newPos: int, e: Entry)
      requires BackToBack(es, oldPos, newPos) && e.dst == newPos
      requires forall k :: 0 <= k < |es| ==> Holds(m, trampoline + es[k].dst, es[k].bytes)
      requires forall x {:trigger m'(x)} :: m'(x) == Write(m, trampoline + newPos, e.bytes)(x)
      ensures forall k :: 0 <= k < |es + [e]| ==> Holds(m', trampoline + (es + [e])[k].dst, (es + [e])[k].bytes)
    {
      hide BackToBack;
      var fs := es + [e];
      forall k | 0 <= k < |fs|
        ensures Holds(m', trampoline + fs[k].dst, fs[k].bytes)
      {
        if k < |es| {
          EndsBelow(es, oldPos, newPos, k);
          assert Holds(m, trampoline + es[k].dst, es[k].bytes);
        }
      }
    }

    /** Records the instruction boundary and copies the instruction. */
    method CopyInstruction(mm: Alloc.Memory, oldPos: byte, newPos: byte, copySrc: seq<byte>, ghost es: seq<Entry>, ghost e: Entry)
      requires BuffersOk() && Written(mm.mem, es) && nIP < 8 && BackToBack(es, oldPos, newPos)
      requires e.src == oldPos && e.dst == newPos && e.bytes == copySrc
      modifies this`nIP, this`oldIPs, this`newIPs, mm`mem
      ensures Written(mm.mem, es + [e]) && nIP == |es + [e]| && BuffersOk()
      ensures forall x {:trigger mm.mem(x)} ::
                x < trampoline + newPos || trampoline + newPos + |copySrc| <= x ==> mm.mem(x) == old(mm.mem)(x)
    {
      hide BackToBack, Holds;
      oldIPs := oldIPs[nIP := oldPos];
      newIPs := newIPs[nIP := newPos];
      nIP := nIP + 1;
      mm.Patch(trampoline + newPos, copySrc);
      StoreEntry(old(mm.mem), mm.mem, es, oldPos, newPos, e);
    }

    /** The relocation loop.  Nothing is promised about memory where a store misses its buffer. */
    method RelocateLoop(mm: Alloc.Memory, stack: Mem) returns (r: Creation, oldPos: byte, newPos: byte, ghost plan: Plan)
      requires BuffersOk() && SlotAway()
      modifies this`nIP, this`oldIPs, this`newIPs, mm`mem
      ensures BuffersOk()
      ensures !r.Overrun? ==> forall x {:trigger mm.mem(x)} ::
                x < trampoline || trampoline + TRAMPOLINE_MAX_SIZE <= x ==> mm.mem(x) == old(mm.mem)(x)
      ensures var p := RelocateAll(table, old(mm.mem), target, trampoline);
              && r == (match p case Rejected => Failed case Overrun => Creation.Overrun case Planned(_) => Created)
              && (r.Created? ==> p == Planned(plan))
      ensures r.Created? ==> Written(mm.mem, plan.entries) && oldPos == plan.oldEnd && newPos == plan.newEnd <= TRAMPOLINE_MAX_SIZE
    {
      hide MakeEntry, Laid, Accepts, Finishes, Written, BackToBack, Overruns;
      ghost var m0 := mm.mem;
      ghost var es := [];
      r, oldPos, newPos, nIP, plan := Failed, 0, 0, 0, Plan([], 0, 0, 0);
      var jmpDest, finished := 0, false;
      StartsLaid(m0);
      NothingWritten(mm.mem);
      while !finished
        invariant BuffersOk() && Written(mm.mem, es) && nIP == |es|
        invariant forall x {:trigger mm.mem(x)} ::
                    x < trampoline || trampoline + TRAMPOLINE_MAX_SIZE <= x ==> mm.mem(x) == m0(x)
        invariant !finished ==> Laid(table, m0, target, trampoline, es, oldPos, newPos, jmpDest) && Running(es, oldPos)
        invariant RelocateAll(table, m0, target, trampoline)
               == if finished then Planned(Plan(es, oldPos, newPos, jmpDest))
                  else Relocate(table, m0, target, trampoline, oldPos, newPos, jmpDest, es)
        invariant newPos <= TRAMPOLINE_MAX_SIZE
        decreases if finished then 0 else if oldPos >= JMP_REL_SIZE then 1 else 1 + JMP_REL_SIZE - oldPos
      {
        var accepted, overrun, hs, copySrc, jmpDest';
        ghost var e := MakeEntry(table, m0, target, trampoline, oldPos, newPos);
        accepted, overrun, hs, copySrc, jmpDest', finished := TranslateAt(mm.mem, m0, stack, oldPos, newPos, jmpDest);
        AcceptsMeans(m0, oldPos, newPos, jmpDest, |es|);
        if overrun {
          return Creation.Overrun, oldPos, newPos, plan;
        }
        if !accepted {
          return;
        }
        if target + oldPos < jmpDest' && |copySrc| != hs.len {
          return;
        }
        if newPos + |copySrc| > TRAMPOLINE_MAX_SIZE {
          return;
        }
        if nIP >= 8 {
          return;
        }
        StepFacts(m0, es, oldPos, newPos, jmpDest);
        CopyInstruction(mm, oldPos, newPos, copySrc, es, e);
        newPos := newPos + |copySrc|;
        oldPos := oldPos + hs.len;
        jmpDest := jmpDest';
        es := es + [e];
      }
      r, plan := Created, Plan(es, oldPos, newPos, jmpDest);
    }

    lemma NothingWritten(m: Mem)
      requires BuffersOk() && nIP == 0
      ensures Written(m, [])
    {
    }

    lemma StartsLaid(m: Mem)
      ensures Laid(table, m, target, trampoline, [], 0, 0, 0) && Running([], 0)
    {
    }

    /** The guards of the loop are Accepts. */
    lemma AcceptsMeans(m0: Mem, oldPos: int, newPos: int, jmpDest: int, n: int)
      ensures var e := MakeEntry(table, m0, target, trampoline, oldPos, newPos);
              Accepts(e, target, jmpDest, n) <==>
                && !e.inst.Failed() && !e.kind.LoopOut?
                && !(target + oldPos < NextDest(e.kind, jmpDest) && |e.bytes| != e.inst.len)
                && newPos + |e.bytes| <= TRAMPOLINE_MAX_SIZE && n < 8
    {
      hide MakeEntry;
      EntryPlace(table, m0, target, trampoline, oldPos, newPos);
    }

    /** What one accepted round does to the invariant. */
    lemma StepFacts(m0: Mem, es: seq<Entry>, oldPos: int, newPos: int, jmpDest: int)
      requires Laid(table, m0, target, trampoline, es, oldPos, newPos, jmpDest) && Running(es, oldPos)
      requires var e := MakeEntry(table, m0, target, trampoline, oldPos, newPos); Accepts(e, target, jmpDest, |es|) && !Overruns(e)
      ensures var e := MakeEntry(table, m0, target, trampoline, oldPos, newPos);
              && e.src == oldPos && e.dst == newPos && BackToBack(es, oldPos, newPos)
              && Laid(table, m0, target, trampoline, es + [e], oldPos + e.inst.len, newPos + |e.bytes|, NextDest(e.kind, jmpDest))
              && (!Finishes(e, target, jmpDest) ==> Running(es + [e], oldPos + e.inst.len) && oldPos < JMP_REL_SIZE)
    {
      hide MakeEntry, Accepts, Finishes, Overruns;
      var e := MakeEntry(table, m0, target, trampoline, oldPos, newPos);
      LaidExtend(table, m0, target, trampoline, es, oldPos, newPos, jmpDest);
      EntryPlace(table, m0, target, trampoline, oldPos, newPos);
      JumpBackIff(table, m0, target, trampoline, oldPos, newPos);
      FinishesAlike(e, target, jmpDest);
    }

    /** The hook that the fields describe. */
    ghost function AsHook(plan: Plan): Hook
      reads this`target, this`detour, this`trampoline, this`patchAbove
    {
      Hook(target, detour, trampoline, plan, patchAbove)
    }

    method CreateTrampolineFunction(mm: Alloc.Memory, stack: Mem) returns (r: Creation, ghost plan: Plan)
      requires BuffersOk() && SlotAway()
      modifies this`relay, this`patchAbove, this`nIP, this`oldIPs, this`newIPs, mm`mem
      ensures BuffersOk()
      ensures !r.Overrun? ==> forall x {:trigger mm.mem(x)} ::
                x < trampoline || trampoline + SLOT_SIZE <= x ==> mm.mem(x) == old(mm.mem)(x)
      ensures var p := RelocateAll(table, old(mm.mem), target, trampoline);
              && r.Overrun? == p.Overrun?
              && r.Created? == (p.Planned? && Placement(old(mm.mem), mm.space, target, p.plan.oldEnd).Some?)
              && (r.Created? ==> p == Planned(plan) && Placement(old(mm.mem), mm.space, target, plan.oldEnd) == Some(patchAbove))
      ensures r.Created? ==> SlotFilled(mm.mem, AsHook(plan)) && relay == AsHook(plan).Relay()
      ensures r.Created? ==> nIP == |plan.entries| <= 8
      ensures r.Created? ==> forall k :: 0 <= k < nIP ==> oldIPs[k] == plan.entries[k].src && newIPs[k] == plan.entries[k].dst
    {
      hide Relocate, RelocateAll, IsPadding, IsExecutable, Holds, PlanOk;
      ghost var m0 := mm.mem;
      patchAbove := false;
      var oldPos, newPos;
      r, oldPos, newPos, plan := RelocateLoop(mm, stack);
      if !r.Created? {
        return;
      }
      PlanIsOk(table, m0, target, trampoline);
      PlanEndsAt(table, m0, target, trampoline, plan);
      var ok;
      ok, patchAbove := DecidePlace(mm, m0, oldPos);
      if !ok {
        return Failed, plan;
      }
      relay := trampoline + newPos;
      ghost var before := mm.mem;
      mm.Patch(relay, JmpAbs(detour));
      StoreRelay(before, mm.mem, plan);
    }

    static lemma PlanEndsAt(t: Table, m0: Mem, target: int, tramp: int, plan: Plan)
      requires PlanOk(t, m0, target, tramp, plan)
      ensures 0 <= plan.newEnd <= TRAMPOLINE_MAX_SIZE && 0 <= plan.oldEnd
      ensures forall k :: 0 <= k < |plan.entries| ==>
                0 <= plan.entries[k].dst && plan.entries[k].dst + |plan.entries[k].bytes| <= plan.newEnd
    {
      hide MakeEntry, Finishes, SpanKept;
      forall k | 0 <= k < |plan.entries|
        ensures 0 <= plan.entries[k].dst && plan.entries[k].dst + |plan.entries[k].bytes| <= plan.newEnd
      {
        assert EntryOk(t, m0, target, tramp, plan.entries[k]);
        EndsBelow(plan.entries, plan.oldEnd, plan.newEnd, k);
      }
    }

    /** The relay goes behind the trampoline. */
    lemma StoreRelay(m: Mem, m': Mem, plan: Plan)
      requires Written(m, plan.entries)
      requires forall k :: 0 <= k < |plan.entries| ==> plan.entries[k].dst + |plan.entries[k].bytes| <= plan.newEnd
      requires forall x {:trigger m'(x)} :: m'(x) == Write(m, trampoline + plan.newEnd, JmpAbs(detour))(x)
      ensures SlotFilled(m', AsHook(plan))
    {
      hide JmpAbs;
      var es := plan.entries;
      forall k | 0 <= k < |es|
        ensures Holds(m', trampoline + es[k].dst, es[k].bytes)
      {
        assert Holds(m, trampoline + es[k].dst, es[k].bytes);
      }
    }

    /** The place for the long jump: at the target, or above it with a short jump at the target. */
    method DecidePlace(mm: Alloc.Memory, ghost m0: Mem, oldPos: byte) returns (ok: bool, above: bool)
      requires SlotAway()
      requires forall x {:trigger mm.mem(x)} :: x < trampoline || trampoline + SLOT_SIZE <= x ==> mm.mem(x) == m0(x)
      ensures ok == Placement(m0, mm.space, target, oldPos).Some?
      ensures ok ==> Placement(m0, mm.space, target, oldPos) == Some(above)
      ensures !ok ==> !above
    {
      hide IsPadding, IsExecutable;
      SamePadding(mm.mem, m0, target + oldPos, JMP_REL_SIZE - oldPos);
      SamePadding(mm.mem, m0, target + oldPos, JMP_REL_SHORT_SIZE - oldPos);
      SamePadding(mm.mem, m0, target - JMP_REL_SIZE, JMP_REL_SIZE);
      ok, above := true, false;
      if oldPos < JMP_REL_SIZE {
        var long := mm.IsCodePadding(target + oldPos, JMP_REL_SIZE - oldPos);
        if !long {
          if oldPos < JMP_REL_SHORT_SIZE {
            var short := mm.IsCodePadding(target + oldPos, JMP_REL_SHORT_SIZE - oldPos);
            if !short {
              return false, false;
            }
          }
          if !IsExecutable(mm.space, target - JMP_REL_SIZE) {
            return false, false;
          }
          var room := mm.IsCodePadding(target - JMP_REL_SIZE, JMP_REL_SIZE);
          if !room {
            return false, false;
          }
          above := true;
        }
      }
    }

    lemma SamePadding(m: Mem, m0: Mem, a: int, n: int)
      requires SlotAway() && target - JMP_REL_SIZE <= a && a + n <= target + CODE_READ
      requires forall x {:trigger m(x)} :: x < trampoline || trampoline + SLOT_SIZE <= x ==> m(x) == m0(x)
      ensures IsPadding(m, a, n) <==> IsPadding(m0, a, n)
    {
      assert forall x {:trigger m0(x)} :: a <= x < a + n ==> m0(x) == m(x);
    }

    // -------------------------------------------------------------------
    // Enable and Disable
    // -------------------------------------------------------------------

    /** Backs up what is there and writes the patch, store by store. */
    method PlacePatch(mm: Alloc.Memory, ghost plan: Plan)
      requires BuffersOk() && relay == AsHook(plan).Relay()
      modifies this`patchedPos, this`patchedSize, this`backup, mm`mem
      ensures BuffersOk()
      ensures var h := AsHook(plan);
              && patchedPos == h.PatchedPos() && patchedSize == h.PatchedSize()
              && backup[..patchedSize] == Read(old(mm.mem), patchedPos, patchedSize)
              && forall x {:trigger mm.mem(x)} :: mm.mem(x) == Write(old(mm.mem), patchedPos, h.Patch())(x)
    {
      hide Wrap32, Bytes4;
      var pos := target;
      var jmpDst := relay - (pos + JMP_REL_SIZE);
      var size := JMP_REL_SIZE;
      if patchAbove {
        pos := pos - JMP_REL_SIZE;
        size := size + JMP_REL_SHORT_SIZE;
      }
      patchedPos, patchedSize := pos, size;
      backup := Read(mm.mem, patchedPos, patchedSize) + backup[patchedSize..];
      mm.Patch(patchedPos, [0xE9]);
      mm.Patch(patchedPos + 1, Bytes4(Wrap32(jmpDst)));
      if patchAbove {
        // back over both jumps
        mm.Patch(target, [0xEB]);
        mm.Patch(target + 1, [0xF9]);
      }
    }

    /** The hook h is in force: its trampoline, relay and patch stand in memory, and the fields can undo it. */
    ghost predicate InForce(m: Mem, h: Hook)
      reads this
    {
      && enabled && BuffersOk()
      && target == h.target && detour == h.detour && trampoline == h.tramp && patchAbove == h.patchAbove
      && patchedPos == h.PatchedPos() && patchedSize == h.PatchedSize()
      && SlotFilled(m, h) && Holds(m, h.PatchedPos(), h.Patch())
    }

    lemma ForceFields(m: Mem, h: Hook)
      requires InForce(m, h)
      ensures enabled && target == h.target && detour == h.detour && trampoline == h.tramp && patchAbove == h.patchAbove
      ensures patchedPos == h.PatchedPos() && patchedSize == h.PatchedSize()
    {
      hide SlotFilled, Holds;
    }

    /** The part of Enable behind AllocateBuffer: builds the trampoline in slot a and patches the target. */
    method EnableIn(mm: Alloc.Memory, a: int, newTarget: int, newDetour: int, stack: Mem) returns (r: Creation, ghost plan: Plan)
      requires mm.Valid() && BuffersOk() && 0 <= newDetour < TWO64 && newTarget < USER_LIMIT
      requires Heap.Live(mm.heap, a) && Apart(mm.heap, newTarget) && JMP_REL_SIZE < newTarget && SLOT_SIZE < a < USER_LIMIT
      requires a + SLOT_SIZE <= newTarget - JMP_REL_SIZE || newTarget + CODE_READ <= a
      requires newTarget - MAX_MEMORY_RANGE <= a && a + SLOT_SIZE - 1 <= newTarget + MAX_MEMORY_RANGE
      modifies this, mm`mem
      ensures BuffersOk() && trampoline == a
      ensures r == Creates(table, old(mm.mem), mm.space, newTarget, a)
      ensures !r.Overrun? ==> mm.Valid()
      ensures r.Failed? ==>
                && enabled == old(enabled) && backup == old(backup)
                && patchedPos == old(patchedPos) && patchedSize == old(patchedSize)
                && forall x {:trigger mm.mem(x)} :: x < a || a + SLOT_SIZE <= x ==> mm.mem(x) == old(mm.mem)(x)
      ensures r.Created? ==>
                var h := Hook(newTarget, newDetour, a, plan, patchAbove);
                && WellPlaced(h) && InForce(mm.mem, h)
                && Enables(table, old(mm.mem), mm.space, h, mm.mem)
                && backup[..patchedSize] == Read(old(mm.mem), patchedPos, patchedSize)
    {
      hide Heap.HeapOk, Space.Valid, Space.OnePage, Relocate, RelocateAll, Placement, Heap.BlockOf, Heap.Live,
           SlotFilled, Holds, Hook.Patch, Apart, Heap.IsSlot;
      trampoline, target, detour := a, newTarget, newDetour;
      ghost var m1 := mm.mem;
      r, plan := CreateTrampolineFunction(mm, stack);
      if r.Overrun? {
        return;
      }
      Heap.ClientWriteKeeps(m1, mm.mem, mm.memoryBlocks, mm.heap, a);
      if r.Failed? {
        return;
      }
      enabled, queueEnable := false, false;
      PatchTarget(mm, m1, plan);
      enabled := true;
    }

    /** The part of Enable behind CreateTrampolineFunction; m1 is the memory before it. */
    method PatchTarget(mm: Alloc.Memory, ghost m1: Mem, ghost plan: Plan)
      requires mm.Valid() && BuffersOk() && relay == AsHook(plan).Relay() && Apart(mm.heap, target) && WellPlaced(AsHook(plan))
      requires RelocateAll(table, m1, target, trampoline) == Planned(plan) && SlotFilled(mm.mem, AsHook(plan))
      requires forall x {:trigger mm.mem(x)} :: x < trampoline || trampoline + SLOT_SIZE <= x ==> mm.mem(x) == m1(x)
      modifies this`patchedPos, this`patchedSize, this`backup, mm`mem
      ensures mm.Valid() && BuffersOk()
      ensures var h := AsHook(plan);
              && patchedPos == h.PatchedPos() && patchedSize == h.PatchedSize()
              && backup[..patchedSize] == Read(m1, patchedPos, patchedSize)
              && SlotFilled(mm.mem, h) && Holds(mm.mem, h.PatchedPos(), h.Patch())
              && forall x {:trigger mm.mem(x)} :: !h.InSlot(x) && !h.InWindow(x) ==> mm.mem(x) == m1(x)
    {
      hide Heap.HeapOk, Space.Valid, Space.OnePage, Relocate, RelocateAll, Heap.BlockOf, SlotFilled, Holds, Hook.Patch, Apart,
           WellPlaced;
      ghost var m2 := mm.mem;
      PlacePatch(mm, plan);
      ghost var h := AsHook(plan);
      PatchOutside(m2, mm.heap, h);
      Heap.OutsideWriteKeeps(m2, mm.mem, mm.memoryBlocks, mm.heap);
      PatchKeepsSlot(table, m1, m2, mm.mem, h);
      WindowAway(m1, m2, h);
    }

    /** The bytes that are backed up are those from before the trampoline was built. */
    lemma WindowAway(m1: Mem, m2: Mem, h: Hook)
      requires WellPlaced(h)
      requires forall x {:trigger m2(x)} :: x < h.tramp || h.tramp + SLOT_SIZE <= x ==> m2(x) == m1(x)
      ensures Read(m2, h.PatchedPos(), h.PatchedSize()) == Read(m1, h.PatchedPos(), h.PatchedSize())
    {
    }

    method Enable(mm: Alloc.Memory, newTarget: int, newDetour: int, si: Alloc.SystemInfo, grants: set<int>, stack: Mem)
      returns (r: EnableResult, ghost made: Attempt, ghost plan: Plan)
      requires mm.Valid() && si.Valid() && BuffersOk() && 0 <= newDetour < TWO64
      requires PAGE_SIZE < mm.space.granularity && (IsExecutable(mm.space, newTarget) ==> CodeAt(mm.space, mm.heap, newTarget))
      modifies this, mm
      // The result, in every case.
      ensures r == Verdict(table, old(mm.space), newTarget, newDetour, made)
      ensures if IsExecutable(old(mm.space), newTarget) && IsExecutable(old(mm.space), newDetour)
              then Alloc.Allocates(si, grants, newTarget, old(mm.heap), old(mm.space), made.slot, made.heap, made.space)
              else made == Attempt(Alloc.Null, old(mm.mem), old(mm.heap), old(mm.space))
                   && unchanged(this) && unchanged(mm)
      ensures !made.slot.Slot? ==> mm.mem == made.mem == old(mm.mem) && mm.memoryBlocks == old(mm.memoryBlocks)
      ensures BuffersOk()
      // Unless a store has missed its buffer the allocator is in order, slots in use are untouched, and Enable may be
      // called again.
      ensures !r.Undefined? ==> mm.Valid() && mm.heap == made.heap && mm.space == made.space
      ensures Preserved(old(mm.space), old(mm.heap), made.space, made.heap)
      ensures !r.Undefined? ==>
                forall u, x :: Heap.Live(old(mm.heap), u) && u <= x < u + SLOT_SIZE ==> made.mem(x) == mm.mem(x) == old(mm.mem)(x)
      // The slot stays in use whatever comes of it.
      ensures made.slot.Slot? ==>
                && trampoline == made.slot.address
                && Heap.Live(made.heap, made.slot.address) && !Heap.Live(old(mm.heap), made.slot.address)
                && Apart(made.heap, newTarget)
                && (forall x {:trigger made.mem(x)} :: Heap.BlockOf(x) !in made.heap.free ==> made.mem(x) == old(mm.mem)(x))
      // No byte outside the allocator's blocks has changed, but for the patch of a hook that is now in force.
      ensures !r.Undefined? ==>
                forall x {:trigger mm.mem(x)} :: Heap.BlockOf(x) !in mm.heap.free ==>
                  (r.Enabled? && patchedPos <= x < patchedPos + patchedSize) || mm.mem(x) == old(mm.mem)(x)
      // After a failure an earlier patch can still be undone.
      ensures !r.Undefined? && !r.Enabled? ==>
                && enabled == old(enabled) && backup == old(backup)
                && patchedPos == old(patchedPos) && patchedSize == old(patchedSize)
      ensures r.Enabled? ==>
                var h := Hook(newTarget, newDetour, r.origin, plan, patchAbove);
                && (forall x {:trigger h.InWindow(x)} :: h.InWindow(x) ==> CodeByte(mm.space, mm.heap, x))
                && WellPlaced(h) && InForce(mm.mem, h) && Enables(table, made.mem, mm.space, h, mm.mem)
                && backup[..patchedSize] == Read(made.mem, patchedPos, patchedSize)
    {
      hide Heap.HeapOk, Space.Valid, Space.OnePage, RelocateAll, Placement, Heap.BlockOf, Heap.Live, Preserved, Creates,
           SlotFilled, Holds, Hook.Patch, Alloc.Allocates, Apart, CodeAt, OwnPages, Heap.IsSlot, InForce, WellPlaced, Enables,
           IsExecutable;
      r, made, plan := Refused, Attempt(Alloc.Null, mm.mem, mm.heap, mm.space), Plan([], 0, 0, 0);
      ghost var m0, head0, h0, s0 := mm.mem, mm.memoryBlocks, mm.heap, mm.space;
      NothingLost(s0, h0);
      if !IsExecutable(mm.space, newTarget) || !IsExecutable(mm.space, newDetour) {
        return;
      }
      BelowLimit(mm.space, newTarget);
      var slot := mm.AllocateBuffer(newTarget, si, grants);
      made := Attempt(slot, mm.mem, mm.heap, mm.space);
      match slot
      case Hangs =>
        r := NeverReturns;
      case Null =>
        trampoline := 0;
      case Slot(a) =>
        ghost var m1 := mm.mem;
        LiveSlot(m1, mm.memoryBlocks, mm.heap, a);
        BlocksOwnPages(mm);
        AllocateKeeps(si, grants, m0, head0, h0, s0, newTarget, slot, mm.heap, mm.space);
        SlotIsAway(si, grants, m0, head0, h0, s0, newTarget, a, mm.heap, mm.space);
        Alloc.WithinReach(si, grants, newTarget, m0, head0, h0, s0, a, mm.heap, mm.space);
        CodeStillAt(s0, h0, mm.space, mm.heap, newTarget);
        LivesKept(s0, h0, mm.space, mm.heap);
        Untouched(table, m0, m1, m1, mm.space, h0, mm.heap, Hook(newTarget, newDetour, a, plan, false), false);
        var c;
        c, plan := EnableIn(mm, a, newTarget, newDetour, stack);
        if c.Overrun? {
          return Undefined, made, plan;
        }
        ghost var h := Hook(newTarget, newDetour, a, plan, patchAbove);
        Untouched(table, m0, m1, mm.mem, mm.space, h0, mm.heap, h, c.Created?);
        if c.Created? {
          ForceFields(mm.mem, h);
          WindowIsCode(table, m1, mm.mem, mm.space, mm.heap, h);
          r := Enabled(trampoline);
        }
    }

    /** The window is mapped code: above the target the place of the jump has been found executable. */
    static lemma WindowIsCode(t: Table, m1: Mem, m2: Mem, s: Space, h: Heap.Heap, k: Hook)
      requires Enables(t, m1, s, k, m2) && CodeAt(s, h, k.target) && Apart(h, k.target)
      ensures forall x {:trigger k.InWindow(x)} :: k.InWindow(x) ==> CodeByte(s, h, x)
    {
      hide RelocateAll, IsPadding, SlotFilled, Holds, Heap.BlockOf, Hook.Patch;
      assert k.patchAbove ==> IsExecutable(s, k.target - JMP_REL_SIZE);
      assert CodeByte(s, h, k.target);
      forall x {:trigger k.InWindow(x)} | k.InWindow(x)
        ensures CodeByte(s, h, x)
      {
        if x >= k.target {
          assert CodeByte(s, h, x);
        } else {
          assert x / PAGE_SIZE == (k.target - JMP_REL_SIZE) / PAGE_SIZE || x / PAGE_SIZE == k.target / PAGE_SIZE;
        }
      }
    }

    static lemma LivesKept(s: Space, h: Heap.Heap, s': Space, h': Heap.Heap)
      requires Preserved(s, h, s', h')
      ensures forall u :: Heap.Live(h, u) ==> Heap.Live(h', u)
    {
    }

    static lemma CodeStillAt(s: Space, h: Heap.Heap, s': Space, h': Heap.Heap, a: int)
      requires Preserved(s, h, s', h') && CodeAt(s, h, a)
      ensures CodeAt(s', h', a)
    {
    }

    static lemma NothingLost(s: Space, h: Heap.Heap)
      ensures Preserved(s, h, s, h)
    {
    }

    /** Neither the allocator nor the trampoline nor the patch touches slots in use or other code. */
    static lemma Untouched(t: Table, m0: Mem, m1: Mem, m2: Mem, s: Space, h0: Heap.Heap, h1: Heap.Heap, h: Hook, done: bool)
      requires Heap.Live(h1, h.tramp) && !Heap.Live(h0, h.tramp) && Apart(h1, h.target) && Heap.IsBlock(Heap.BlockOf(h.tramp))
      requires forall u :: Heap.Live(h0, u) ==> Heap.Live(h1, u)
      requires forall x {:trigger m1(x)} ::
                 x < Heap.BlockOf(h.tramp) || Heap.BlockOf(h.tramp) + Heap.BLOCK_SIZE <= x ==> m1(x) == m0(x)
      requires forall u, x :: Heap.Live(h0, u) && u <= x < u + SLOT_SIZE ==> m1(x) == m0(x)
      requires !done ==> forall x {:trigger m2(x)} :: x < h.tramp || h.tramp + SLOT_SIZE <= x ==> m2(x) == m1(x)
      requires done ==> Enables(t, m1, s, h, m2)
      ensures forall x {:trigger m1(x)} :: Heap.BlockOf(x) !in h1.free ==> m1(x) == m0(x)
      ensures forall x {:trigger m2(x)} :: Heap.BlockOf(x) !in h1.free ==> (done && h.InWindow(x)) || m2(x) == m0(x)
      ensures forall u, x :: Heap.Live(h0, u) && u <= x < u + SLOT_SIZE ==> m2(x) == m0(x)
    {
      hide Heap.Live, RelocateAll, Placement, SlotFilled, Holds, Hook.Patch, Heap.BlockOf, Heap.IsSlot;
      LiveIsSlot(h1, h.tramp);
      WindowNear(h);
      forall x {:trigger m1(x)} | Heap.BlockOf(x) !in h1.free
        ensures m1(x) == m0(x)
      {
        OutsideBlock(Heap.BlockOf(h.tramp), x);
      }
      forall x {:trigger m2(x)} | Heap.BlockOf(x) !in h1.free
        ensures (done && h.InWindow(x)) || m2(x) == m0(x)
      {
        SlotByteIn(Heap.BlockOf(h.tramp), h.tramp, x);
        assert m1(x) == m0(x);
      }
      forall u, x | Heap.Live(h0, u) && u <= x < u + SLOT_SIZE
        ensures m2(x) == m0(x)
      {
        OtherSlots(h1, u, h.tramp, x);
        assert m1(x) == m0(x);
      }
    }

    static lemma OutsideBlock(b: int, x: int)
      requires Heap.IsBlock(b) && Heap.BlockOf(x) != b
      ensures x < b || b + Heap.BLOCK_SIZE <= x
    {
    }

    static lemma SlotByteIn(b: int, a: int, x: int)
      requires Heap.IsBlock(b) && Heap.IsSlot(b, a)
      ensures a <= x < a + SLOT_SIZE ==> Heap.BlockOf(x) == b
    {
    }

    static lemma WindowNear(h: Hook)
      ensures forall x :: h.InWindow(x) ==> h.target - JMP_REL_SIZE <= x < h.target + CODE_READ
    {
    }

    lemma BlocksOwnPages(mm: Alloc.Memory)
      requires mm.Valid()
      ensures OwnPages(mm.space, mm.heap)
    {
      hide Heap.BlockOk, Heap.Linked, Space.OnePage;
    }

    lemma BelowLimit(s: Space, a: int)
      requires s.Valid() && IsExecutable(s, a)
      ensures 0 <= a < USER_LIMIT
    {
    }

    lemma LiveSlot(m: Mem, head: int, h: Heap.Heap, a: int)
      requires Heap.HeapOk(m, head, h) && Heap.Live(h, a)
      ensures Heap.IsBlock(Heap.BlockOf(a)) && Heap.IsSlot(Heap.BlockOf(a), a) && Heap.BlockOf(a) in h.free
    {
      hide Heap.BlockOk, Heap.Linked;
    }

    lemma PatchOutside(m1: Mem, h: Heap.Heap, k: Hook)
      requires Apart(h, k.target)
      ensures forall x {:trigger Heap.BlockOf(x)} :: k.InWindow(x) ==> Heap.BlockOf(x) !in h.free
      ensures forall x :: k.InWindow(x) ==> k.target - JMP_REL_SIZE <= x < k.target + JMP_REL_SIZE
    {
    }

    /** The patch does not touch the slot. */
    lemma PatchKeepsSlot(t: Table, m1: Mem, m2: Mem, m3: Mem, h: Hook)
      requires RelocateAll(t, m1, h.target, h.tramp) == Planned(h.plan) && SlotFilled(m2, h) && WellPlaced(h)
      requires forall x {:trigger m3(x)} :: m3(x) == Write(m2, h.PatchedPos(), h.Patch())(x)
      ensures SlotFilled(m3, h) && Holds(m3, h.PatchedPos(), h.Patch())
    {
      hide RelocateAll, PlanOk, JmpAbs, Hook.Patch;
      PlanIsOk(t, m1, h.target, h.tramp);
      PlanEndsAt(t, m1, h.target, h.tramp, h.plan);
      forall k | 0 <= k < |h.plan.entries|
        ensures Holds(m3, h.tramp + h.plan.entries[k].dst, h.plan.entries[k].bytes)
      {
        assert Holds(m2, h.tramp + h.plan.entries[k].dst, h.plan.entries[k].bytes);
      }
    }

    /** Puts back what the patch had overwritten. */
    method Disable(mm: Alloc.Memory) returns (ok: bool)
      requires BuffersOk() && 0 <= patchedSize <= 32
      modifies this`enabled, mm`mem
      ensures ok && !enabled
      ensures forall x {:trigger mm.mem(x)} :: mm.mem(x) == Write(old(mm.mem), patchedPos, backup[..patchedSize])(x)
      ensures old(mm.Valid()) && (forall x :: patchedPos <= x < patchedPos + patchedSize ==> Heap.BlockOf(x) !in mm.heap.free)
              ==> mm.Valid()
    {
      hide Heap.HeapOk, Heap.BlockOf;
      mm.Patch(patchedPos, backup[..patchedSize]);
      if old(mm.Valid()) && (forall x :: patchedPos <= x < patchedPos + patchedSize ==> Heap.BlockOf(x) !in mm.heap.free) {
        Heap.OutsideWriteKeeps(old(mm.mem), mm.mem, mm.memoryBlocks, mm.heap);
      }
      enabled := false;
      ok := true;
    }
  }
}
