/** What the relocation loop comes to, without the loop: the sequences of instructions that make a trampoline, by opcode
    and by byte.  src/trampoline.cpp:64-254. */
module Acceptance {
  import opened Words
  import opened Hde64
  import opened Hde64Laws
  import opened Instructions
  import opened X64
  import opened Relocation

  // ---------------------------------------------------------------------
  // One instruction
  // ---------------------------------------------------------------------

  /** (modrm & 0xC7) == 0x05. */
  predicate Addressed(i: Hde)
  {
    i.modrm < 0x40 && i.modrm % 8 == 5
  }

  /** Where the relative JMP, Jcc or LOOP at ip leads, -1 if it is none. */
  function Branch(i: Hde, ip: int): (at: int)
    ensures -1 <= at
  {
    if 0x70 <= i.opcode < 0x80 || 0xE0 <= i.opcode < 0xE4 || i.opcode == 0xEB then
      Wrap64(ip + i.len + SExt8(i.imm.b0))
    else if i.opcode == 0xE9 || 0x80 <= i.opcode2 < 0x90 then
      Wrap64(ip + i.len + SExt32(i.imm.Imm32()))
    else -1
  }

  /** A branch, among the instructions that must move, into the five bytes to be patched. */
  predicate BranchesInside(e: Entry, target: int)
  {
    && e.src < 5 && !Addressed(e.inst)
    && 0 <= Branch(e.inst, target + e.src) && target <= Branch(e.inst, target + e.src) < target + 5
  }

  predicate BranchesOutside(e: Entry, target: int)
  {
    && e.src < 5 && !Addressed(e.inst)
    && 0 <= Branch(e.inst, target + e.src) && !(target <= Branch(e.inst, target + e.src) < target + 5)
  }

  /** The code that stands for the instruction. */
  function Code(m: Mem, e: Entry, target: int, tramp: int): (bs: seq<byte>)
    requires e.inst.len >= 0
  {
    var i, ip := e.inst, target + e.src;
    if e.src >= 5 then [0xFF, 0x25, 0, 0, 0, 0] + Bytes8(ip)
    else if Addressed(i) then
      Splice(m, ip, i.len, i.len - i.flags.ImmField() - 4, Bytes4(Wrap32(ip + SExt32(i.disp) - (tramp + e.dst))))
    else if i.opcode == 0xE8 then
      [0xFF, 0x15, 2, 0, 0, 0, 0xEB, 8] + Bytes8(Wrap64(ip + i.len + SExt32(i.imm.Imm32())))
    else if !BranchesOutside(e, target) || 0xE0 <= i.opcode < 0xE4 then Read(m, ip, i.len)
    else if i.opcode == 0xE9 || i.opcode == 0xEB then [0xFF, 0x25, 0, 0, 0, 0] + Bytes8(Branch(i, ip))
    else [Opposite(if i.opcode == 0x0F then i.opcode2 else i.opcode), 0x0E, 0xFF, 0x25, 0, 0, 0, 0] + Bytes8(Branch(i, ip))
  }

  /** The short Jcc of the opposite condition, for 7x and for the second byte of 0F 8x. */
  function Opposite(op: byte): byte
  {
    0x70 + op % 16 + if op % 2 == 0 then 1 else -1
  }

  /** The relocator's store of a displacement is outside its buffer. */
  predicate Misses(e: Entry)
  {
    e.src < 5 && Addressed(e.inst) && !(0 <= e.inst.len - e.inst.flags.ImmField() - 4 <= 12)
  }

  /** An entry, by opcode and by byte. */
  lemma EntryMeans(t: Table, m: Mem, target: int, tramp: int, e: Entry)
    requires e == MakeEntry(t, m, target, tramp, e.src, e.dst)
    ensures e.inst == Decode(t, m, target + e.src) && 1 <= e.inst.len
    ensures e.bytes == Code(m, e, target, tramp)
  {
    hide Decode, Bytes8, Bytes4, SExt32, SExt8, Wrap64, Splice;
    TwoByteOpcode(t, m, target + e.src);
  }

  lemma KindMeans(t: Table, m: Mem, target: int, tramp: int, e: Entry)
    requires e == MakeEntry(t, m, target, tramp, e.src, e.dst)
    ensures Overruns(e) <==> !e.inst.Failed() && Misses(e)
    ensures e.kind.Inside? <==> BranchesInside(e, target)
    ensures e.kind.Inside? ==> e.kind.dest == Branch(e.inst, target + e.src)
    ensures e.kind.LoopOut? <==> BranchesOutside(e, target) && 0xE0 <= e.inst.opcode < 0xE4
  {
    hide Decode, Emitted, SExt32, SExt8, Wrap64;
    TwoByteOpcode(t, m, target + e.src);
  }

  // ---------------------------------------------------------------------
  // Sequences of instructions
  // ---------------------------------------------------------------------

  /** A branch into the patched bytes, at entry k or before, leads behind the start of entry k. */
  ghost predicate Pending(es: seq<Entry>, target: int, k: int)
    requires 0 <= k < |es|
  {
    exists i :: 0 <= i <= k && BranchesInside(es[i], target) && Branch(es[i].inst, target + es[i].src) > target + es[k].src
  }

  /** The code at target ends with entry k, as far as it must move: the five bytes are behind it; or it is FF /4 with a
      RIP-relative operand; or a JMP out or a RET, and no branch is pending. */
  ghost predicate Ends(es: seq<Entry>, target: int, k: int)
    requires 0 <= k < |es|
  {
    var i := es[k].inst;
    || es[k].src >= 5
    || (i.opcode == 0xFF && i.modrm == 0x25)
    || (!Addressed(i) && !Pending(es, target, k)
        && (i.opcode == 0xC2 || i.opcode == 0xC3 || ((i.opcode == 0xE9 || i.opcode == 0xEB) && BranchesOutside(es[k], target))))
  }

  /** What the relocator takes: an instruction that decodes, is no LOOP to the outside, is not lengthened while a branch is
      pending, and finds room. */
  ghost predicate Taken(es: seq<Entry>, target: int, k: int)
    requires 0 <= k < |es|
  {
    var e := es[k];
    && !e.inst.Failed()
    && !(BranchesOutside(e, target) && 0xE0 <= e.inst.opcode < 0xE4)
    && (Pending(es, target, k) ==> |e.bytes| == e.inst.len)
    && e.dst + |e.bytes| <= 50
  }

  /** The entries stand for the instructions from the target on, one behind the other, up to the given offsets, and all of
      them are taken. */
  ghost predicate Moved(t: Table, m: Mem, target: int, tramp: int, es: seq<Entry>, oldPos: int, newPos: int)
  {
    && oldPos == (if es == [] then 0 else es[|es| - 1].src + es[|es| - 1].inst.len)
    && newPos == (if es == [] then 0 else es[|es| - 1].dst + |es[|es| - 1].bytes|)
    && forall k :: 0 <= k < |es| ==> MovedAt(t, m, target, tramp, es, k)
  }

  ghost predicate MovedAt(t: Table, m: Mem, target: int, tramp: int, es: seq<Entry>, k: int)
    requires 0 <= k < |es|
  {
    && es[k] == MakeEntry(t, m, target, tramp, es[k].src, es[k].dst)
    && es[k].src == (if k == 0 then 0 else es[k - 1].src + es[k - 1].inst.len)
    && es[k].dst == (if k == 0 then 0 else es[k - 1].dst + |es[k - 1].bytes|)
    && Taken(es, target, k) && !Misses(es[k])
  }

  ghost predicate NoEnd(es: seq<Entry>, target: int)
  {
    forall k :: 0 <= k < |es| ==> !Ends(es, target, k)
  }

  /** d is the furthest destination of a branch into the patched bytes, 0 without any. */
  ghost predicate IsFurthest(es: seq<Entry>, target: int, d: int)
  {
    && (forall i :: 0 <= i < |es| && BranchesInside(es[i], target) ==> Branch(es[i].inst, target + es[i].src) <= d)
    && (d == 0 || exists i :: 0 <= i < |es| && BranchesInside(es[i], target) && Branch(es[i].inst, target + es[i].src) == d)
  }

  lemma FurthestNext(t: Table, m: Mem, target: int, tramp: int, es: seq<Entry>, e: Entry, d: int)
    requires 0 <= target && e == MakeEntry(t, m, target, tramp, e.src, e.dst) && IsFurthest(es, target, d)
    ensures IsFurthest(es + [e], target, NextDest(e.kind, d))
  {
    hide MakeEntry, BranchesInside;
    KindMeans(t, m, target, tramp, e);
    var fs := es + [e];
    assert fs[|es|] == e && forall i :: 0 <= i < |es| ==> fs[i] == es[i];
  }

  lemma PendingIff(es: seq<Entry>, target: int, d: int)
    requires es != [] && IsFurthest(es, target, d) && 0 <= target + es[|es| - 1].src
    ensures Pending(es, target, |es| - 1) <==> target + es[|es| - 1].src < d
  {
    hide BranchesInside;
  }

  /** The guards and the end of the loop, for the next instruction. */
  lemma GuardsMean(t: Table, m: Mem, target: int, tramp: int, es: seq<Entry>, e: Entry, d: int)
    requires 0 <= target && 0 <= e.src && |es| < 8
    requires e == MakeEntry(t, m, target, tramp, e.src, e.dst) && IsFurthest(es, target, d)
    ensures Accepts(e, target, d, |es|) <==> Taken(es + [e], target, |es|)
    ensures Finishes(e, target, d) <==> Ends(es + [e], target, |es|)
  {
    hide MakeEntry, Pending, IsFurthest, Branch, Decode, Emitted;
    KindMeans(t, m, target, tramp, e);
    EndKinds(t, m, target, tramp, e);
    FurthestNext(t, m, target, tramp, es, e, d);
    PendingIff(es + [e], target, NextDest(e.kind, d));
  }

  lemma EndKinds(t: Table, m: Mem, target: int, tramp: int, e: Entry)
    requires e == MakeEntry(t, m, target, tramp, e.src, e.dst)
    ensures e.kind.JumpBack? <==> e.src >= 5
    ensures e.kind.RipRelative? <==> e.src < 5 && Addressed(e.inst)
    ensures e.kind.JumpOut? <==> (e.inst.opcode == 0xE9 || e.inst.opcode == 0xEB) && BranchesOutside(e, target)
    ensures e.kind.Return? <==> e.src < 5 && !Addressed(e.inst) && (e.inst.opcode == 0xC2 || e.inst.opcode == 0xC3)
  {
    hide Decode, Emitted, SExt32, SExt8, Wrap64;
    TwoByteOpcode(t, m, target + e.src);
  }

  // ---------------------------------------------------------------------
  // The loop
  // ---------------------------------------------------------------------

  lemma Earlier(es: seq<Entry>, e: Entry, target: int, k: int)
    requires 0 <= k < |es|
    ensures Pending(es + [e], target, k) <==> Pending(es, target, k)
    ensures Taken(es + [e], target, k) <==> Taken(es, target, k)
    ensures Ends(es + [e], target, k) <==> Ends(es, target, k)
  {
    hide BranchesInside, Branch;
    var fs := es + [e];
    assert forall i :: 0 <= i < |es| ==> fs[i] == es[i];
  }

  lemma MovedNext(t: Table, m: Mem, target: int, tramp: int, es: seq<Entry>, oldPos: int, newPos: int)
    requires Moved(t, m, target, tramp, es, oldPos, newPos)
    requires var e := MakeEntry(t, m, target, tramp, oldPos, newPos); Taken(es + [e], target, |es|) && !Misses(e)
    ensures var e := MakeEntry(t, m, target, tramp, oldPos, newPos);
            Moved(t, m, target, tramp, es + [e], oldPos + e.inst.len, newPos + |e.bytes|)
  {
    hide MakeEntry, Taken, Misses;
    var e := MakeEntry(t, m, target, tramp, oldPos, newPos);
    EntryPlace(t, m, target, tramp, oldPos, newPos);
    var fs := es + [e];
    assert forall i :: 0 <= i < |es| ==> fs[i] == es[i];
    forall k | 0 <= k < |fs|
      ensures MovedAt(t, m, target, tramp, fs, k)
    {
      if k < |es| {
        Earlier(es, e, target, k);
        assert MovedAt(t, m, target, tramp, es, k);
      }
    }
  }

  lemma MovedBefore(t: Table, m: Mem, target: int, tramp: int, es: seq<Entry>, oldPos: int, newPos: int)
    requires es != [] && Moved(t, m, target, tramp, es, oldPos, newPos)
    ensures var n := |es| - 1; Moved(t, m, target, tramp, es[..n], es[n].src, es[n].dst)
  {
    hide MakeEntry, Taken, Misses;
    var n := |es| - 1;
    assert es[..n] + [es[n]] == es;
    assert MovedAt(t, m, target, tramp, es, n);
    forall k | 0 <= k < n
      ensures MovedAt(t, m, target, tramp, es[..n], k)
    {
      Earlier(es[..n], es[n], target, k);
      assert MovedAt(t, m, target, tramp, es, k);
    }
  }

  lemma NoEndNext(es: seq<Entry>, e: Entry, target: int)
    ensures NoEnd(es + [e], target) <==> NoEnd(es, target) && !Ends(es + [e], target, |es|)
  {
    hide Ends;
    forall k | 0 <= k < |es|
      ensures Ends(es + [e], target, k) <==> Ends(es, target, k)
    {
      Earlier(es, e, target, k);
    }
    if NoEnd(es + [e], target) {
      forall k | 0 <= k < |es|
        ensures !Ends(es, target, k)
      {
        assert !Ends(es + [e], target, k);
      }
    }
  }

  /** Before its end a function has at most five instructions that must move. */
  lemma {:induction false} FewBeforeEnd(t: Table, m: Mem, target: int, tramp: int, es: seq<Entry>, oldPos: int, newPos: int)
    requires Moved(t, m, target, tramp, es, oldPos, newPos) && NoEnd(es, target)
    ensures |es| <= 5 && |es| <= oldPos
  {
    hide MakeEntry, Taken, Misses;
    if es != [] {
      var n := |es| - 1;
      MovedBefore(t, m, target, tramp, es, oldPos, newPos);
      assert es[..n] + [es[n]] == es;
      NoEndNext(es[..n], es[n], target);
      FewBeforeEnd(t, m, target, tramp, es[..n], es[n].src, es[n].dst);
      assert !Ends(es, target, n) && MovedAt(t, m, target, tramp, es, n);
      EntryMeans(t, m, target, tramp, es[n]);
    }
  }

  /** The loop reaches every such sequence without an end. */
  lemma {:induction false} Reaches(t: Table, m: Mem, target: int, tramp: int, es: seq<Entry>, oldPos: int, newPos: int)
    returns (d: int)
    requires 0 <= target && Moved(t, m, target, tramp, es, oldPos, newPos) && NoEnd(es, target)
    ensures IsFurthest(es, target, d)
    ensures RelocateAll(t, m, target, tramp) == Relocate(t, m, target, tramp, oldPos, newPos, d, es)
  {
    hide MakeEntry, Taken, Misses, Ends, IsFurthest, Accepts, Finishes, Overruns;
    if es == [] {
      d := 0;
      NothingFurther(target);
    } else {
      var n := |es| - 1;
      var e := es[n];
      MovedBefore(t, m, target, tramp, es, oldPos, newPos);
      assert es[..n] + [e] == es;
      NoEndNext(es[..n], e, target);
      FewBeforeEnd(t, m, target, tramp, es[..n], e.src, e.dst);
      var d' := Reaches(t, m, target, tramp, es[..n], e.src, e.dst);
      assert MovedAt(t, m, target, tramp, es, n);
      KindMeans(t, m, target, tramp, e);
      GuardsMean(t, m, target, tramp, es[..n], e, d');
      FurthestNext(t, m, target, tramp, es[..n], e, d');
      d := NextDest(e.kind, d');
    }
  }

  lemma NothingFurther(target: int)
    ensures IsFurthest([], target, 0)
  {
  }

  /** A complete sequence: the last entry, and no other, ends it. */
  ghost predicate Completes(t: Table, m: Mem, target: int, tramp: int, p: Plan)
  {
    && p.entries != [] && Moved(t, m, target, tramp, p.entries, p.oldEnd, p.newEnd)
    && (forall k :: 0 <= k < |p.entries| ==> (Ends(p.entries, target, k) <==> k == |p.entries| - 1))
    && IsFurthest(p.entries, target, p.jmpDest)
  }

  /** The relocator comes to an instruction whose displacement it would store outside its buffer. */
  ghost predicate ComesToMiss(t: Table, m: Mem, target: int, tramp: int, es: seq<Entry>, oldPos: int, newPos: int)
  {
    && Moved(t, m, target, tramp, es, oldPos, newPos) && NoEnd(es, target)
    && var e := MakeEntry(t, m, target, tramp, oldPos, newPos); !e.inst.Failed() && Misses(e)
  }

  /** The relocator comes to an instruction that it does not take. */
  ghost predicate ComesToRefusal(t: Table, m: Mem, target: int, tramp: int, es: seq<Entry>, oldPos: int, newPos: int)
  {
    && Moved(t, m, target, tramp, es, oldPos, newPos) && NoEnd(es, target)
    && var e := MakeEntry(t, m, target, tramp, oldPos, newPos); (e.inst.Failed() || !Misses(e)) && !Taken(es + [e], target, |es|)
  }

  ghost predicate Explains(t: Table, m: Mem, target: int, tramp: int, r: Translation)
  {
    match r
    case Planned(p) => Completes(t, m, target, tramp, p)
    case Overrun => exists es, o, n :: ComesToMiss(t, m, target, tramp, es, o, n)
    case Rejected => exists es, o, n :: ComesToRefusal(t, m, target, tramp, es, o, n)
  }

  lemma {:induction false} LoopExplained(t: Table, m: Mem, target: int, tramp: int,
                                         oldPos: int, newPos: int, d: int, es: seq<Entry>)
    requires 0 <= target && Moved(t, m, target, tramp, es, oldPos, newPos) && NoEnd(es, target) && IsFurthest(es, target, d)
    ensures Explains(t, m, target, tramp, Relocate(t, m, target, tramp, oldPos, newPos, d, es))
    decreases if oldPos >= JMP_REL_SIZE then 0 else JMP_REL_SIZE - oldPos
  {
    hide MakeEntry, Taken, Misses, Ends, IsFurthest, Accepts, Finishes, Overruns, Moved, NoEnd;
    var e := MakeEntry(t, m, target, tramp, oldPos, newPos);
    EntryPlace(t, m, target, tramp, oldPos, newPos);
    FewBeforeEnd(t, m, target, tramp, es, oldPos, newPos);
    KindMeans(t, m, target, tramp, e);
    GuardsMean(t, m, target, tramp, es, e, d);
    if !e.inst.Failed() && Misses(e) {
      assert ComesToMiss(t, m, target, tramp, es, oldPos, newPos);
    } else if !Taken(es + [e], target, |es|) {
      assert ComesToRefusal(t, m, target, tramp, es, oldPos, newPos);
    } else {
      TakenDecodes(es + [e], target, |es|);
      MovedNext(t, m, target, tramp, es, oldPos, newPos);
      FurthestNext(t, m, target, tramp, es, e, d);
      NoEndNext(es, e, target);
      if Finishes(e, target, d) {
        OnlyLastEnds(es, e, target);
      } else {
        EndsBeyondFive(t, m, target, tramp, e, d);
        LoopExplained(t, m, target, tramp, oldPos + e.inst.len, newPos + |e.bytes|, NextDest(e.kind, d), es + [e]);
      }
    }
  }

  lemma TakenDecodes(es: seq<Entry>, target: int, k: int)
    requires 0 <= k < |es| && Taken(es, target, k)
    ensures !es[k].inst.Failed()
  {
  }

  lemma EndsBeyondFive(t: Table, m: Mem, target: int, tramp: int, e: Entry, d: int)
    requires e == MakeEntry(t, m, target, tramp, e.src, e.dst) && !Finishes(e, target, d)
    ensures e.src < JMP_REL_SIZE
  {
    hide MakeEntry;
    EndKinds(t, m, target, tramp, e);
  }

  lemma OnlyLastEnds(es: seq<Entry>, e: Entry, target: int)
    requires NoEnd(es, target) && Ends(es + [e], target, |es|)
    ensures forall k :: 0 <= k <= |es| ==> (Ends(es + [e], target, k) <==> k == |es|)
  {
    hide Ends;
    forall k | 0 <= k < |es|
      ensures !Ends(es + [e], target, k)
    {
      Earlier(es, e, target, k);
    }
  }

  /** What the loop comes to, in both directions: it lays out p exactly when p is the complete sequence of the code at
      target, and it gives up, or misses its buffer, exactly where it comes to an instruction that makes it. */
  lemma OutcomeIff(t: Table, m: Mem, target: int, tramp: int, p: Plan)
    requires 0 <= target
    ensures RelocateAll(t, m, target, tramp) == Planned(p) <==> Completes(t, m, target, tramp, p)
    ensures RelocateAll(t, m, target, tramp).Overrun? <==> exists es, o, n :: ComesToMiss(t, m, target, tramp, es, o, n)
    ensures RelocateAll(t, m, target, tramp).Rejected? <==> exists es, o, n :: ComesToRefusal(t, m, target, tramp, es, o, n)
  {
    hide MakeEntry, Relocate, Completes, ComesToMiss, ComesToRefusal, Moved, NoEnd, IsFurthest;
    NothingMoved(t, m, target, tramp);
    LoopExplained(t, m, target, tramp, 0, 0, 0, []);
    if Completes(t, m, target, tramp, p) {
      CompleteIsPlanned(t, m, target, tramp, p);
    }
    if es, o, n :| ComesToMiss(t, m, target, tramp, es, o, n) {
      MissIsOverrun(t, m, target, tramp, es, o, n);
    }
    if es, o, n :| ComesToRefusal(t, m, target, tramp, es, o, n) {
      RefusalIsRejected(t, m, target, tramp, es, o, n);
    }
  }

  lemma NothingMoved(t: Table, m: Mem, target: int, tramp: int)
    ensures Moved(t, m, target, tramp, [], 0, 0) && NoEnd([], target) && IsFurthest([], target, 0)
  {
  }

  lemma CompleteIsPlanned(t: Table, m: Mem, target: int, tramp: int, p: Plan)
    requires 0 <= target && Completes(t, m, target, tramp, p)
    ensures RelocateAll(t, m, target, tramp) == Planned(p)
  {
    hide MakeEntry, Taken, Misses, Ends, IsFurthest, Accepts, Finishes, Overruns, NoEnd;
    var n := |p.entries| - 1;
    var es, e := p.entries[..n], p.entries[n];
    assert es + [e] == p.entries;
    MovedBefore(t, m, target, tramp, p.entries, p.oldEnd, p.newEnd);
    FrontHasNoEnd(p.entries, target);
    FewBeforeEnd(t, m, target, tramp, es, e.src, e.dst);
    var d := Reaches(t, m, target, tramp, es, e.src, e.dst);
    assert MovedAt(t, m, target, tramp, p.entries, n);
    KindMeans(t, m, target, tramp, e);
    GuardsMean(t, m, target, tramp, es, e, d);
    FurthestNext(t, m, target, tramp, es, e, d);
    SameFurthest(p.entries, target, p.jmpDest, NextDest(e.kind, d));
  }

  lemma FrontHasNoEnd(es: seq<Entry>, target: int)
    requires es != [] && forall k :: 0 <= k < |es| - 1 ==> !Ends(es, target, k)
    ensures NoEnd(es[..|es| - 1], target)
  {
    hide Ends;
    var n := |es| - 1;
    assert es[..n] + [es[n]] == es;
    forall k | 0 <= k < n
      ensures !Ends(es[..n], target, k)
    {
      Earlier(es[..n], es[n], target, k);
    }
  }

  lemma SameFurthest(es: seq<Entry>, target: int, d: int, d': int)
    requires IsFurthest(es, target, d) && IsFurthest(es, target, d') && 0 <= target
    ensures d == d'
  {
  }

  lemma MissIsOverrun(t: Table, m: Mem, target: int, tramp: int, es: seq<Entry>, o: int, n: int)
    requires 0 <= target && ComesToMiss(t, m, target, tramp, es, o, n)
    ensures RelocateAll(t, m, target, tramp) == Overrun
  {
    hide MakeEntry, Moved, NoEnd, IsFurthest, Misses, Overruns;
    EntryPlace(t, m, target, tramp, o, n);
    var d := Reaches(t, m, target, tramp, es, o, n);
    KindMeans(t, m, target, tramp, MakeEntry(t, m, target, tramp, o, n));
  }

  lemma RefusalIsRejected(t: Table, m: Mem, target: int, tramp: int, es: seq<Entry>, o: int, n: int)
    requires 0 <= target && ComesToRefusal(t, m, target, tramp, es, o, n)
    ensures RelocateAll(t, m, target, tramp) == Rejected
  {
    hide MakeEntry, Moved, NoEnd, IsFurthest, Misses, Overruns, Taken, Accepts;
    EntryPlace(t, m, target, tramp, o, n);
    FewBeforeEnd(t, m, target, tramp, es, o, n);
    var d := Reaches(t, m, target, tramp, es, o, n);
    var e := MakeEntry(t, m, target, tramp, o, n);
    KindMeans(t, m, target, tramp, e);
    GuardsMean(t, m, target, tramp, es, e, d);
  }

  /** So relocation does not run on behind the end of the function: a RET or a JMP out that is not the last instruction
      stands before the destination of a branch that comes no later, and FF /4 through a RIP-relative pointer is last. */
  lemma NoneBehindEnd(t: Table, m: Mem, target: int, tramp: int, p: Plan, k: int)
    requires 0 <= target && RelocateAll(t, m, target, tramp) == Planned(p) && 0 <= k < |p.entries| - 1
    ensures var i := p.entries[k].inst;
            && p.entries[k].src < 5 && i == Decode(t, m, target + p.entries[k].src)
            && !(i.opcode == 0xFF && i.modrm == 0x25)
            && (!Addressed(i) && (i.opcode in {0xC2, 0xC3} || (i.opcode in {0xE9, 0xEB} && BranchesOutside(p.entries[k], target)))
                ==> exists j :: 0 <= j <= k && BranchesInside(p.entries[j], target)
                                && Branch(p.entries[j].inst, target + p.entries[j].src) > target + p.entries[k].src)
  {
    hide RelocateAll, Completes, MakeEntry, Code, BranchesInside, BranchesOutside, Branch, Decode;
    OutcomeIff(t, m, target, tramp, p);
    NotLast(t, m, target, tramp, p, k);
    EntryMeans(t, m, target, tramp, p.entries[k]);
  }

  lemma NotLast(t: Table, m: Mem, target: int, tramp: int, p: Plan, k: int)
    requires Completes(t, m, target, tramp, p) && 0 <= k < |p.entries| - 1
    ensures !Ends(p.entries, target, k)
    ensures p.entries[k] == MakeEntry(t, m, target, tramp, p.entries[k].src, p.entries[k].dst)
  {
    hide MakeEntry, Ends, Taken, Misses, IsFurthest;
    assert MovedAt(t, m, target, tramp, p.entries, k);
  }
}
