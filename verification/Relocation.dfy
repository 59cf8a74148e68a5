/** The relocation loop of Trampoline::CreateTrampolineFunction as a function of the code, and the shape of what it
    lays out.  src/trampoline.cpp:26-254. */
module Relocation {
  import opened Words
  import opened Hde64
  import opened Hde64Laws
  import opened Instructions
  import opened X64

  const TRAMPOLINE_MAX_SIZE: int := 50

  /** The loop decodes sixteen bytes at offset 19 of the target at most. */
  const CODE_READ: int := 35

  /** Size of instBuf and of the copy that is disassembled. */
  const BUFFER_SIZE: int := 16

  // ---------------------------------------------------------------------
  // One instruction
  // ---------------------------------------------------------------------

  /** How an instruction is treated, in the order in which the source asks. */
  datatype Kind =
    | JumpBack                // enough room: jump to the rest of the target
    | RipRelative             // copy with a new displacement
    | Call(dest: int)         // CALL rel32
    | Inside(dest: int)       // a branch into the patched bytes: copy
    | JumpOut(dest: int)      // a jump elsewhere
    | BranchOut(dest: int)    // a conditional jump elsewhere
    | LoopOut                 // LOOPcc, JRCXZ elsewhere: not supported
    | Return
    | Verbatim

  predicate InPatch(target: int, dest: int)
  {
    target <= dest < target + JMP_REL_SIZE
  }

  function Classify(i: Hde, oldPos: int, target: int): Kind
  {
    var ip := target + oldPos;
    if oldPos >= JMP_REL_SIZE then JumpBack
    else if RipForm(i) then RipRelative
    else if i.opcode == 0xE8 then Call(NearDest(ip, i))
    else if IsJmp(i) then
      if InPatch(target, JmpDest(ip, i)) then Inside(JmpDest(ip, i)) else JumpOut(JmpDest(ip, i))
    else if IsJcc8(i) || IsLoop(i) || IsJcc32(i) then
      if InPatch(target, BranchDest(ip, i)) then Inside(BranchDest(ip, i))
      else if IsLoop(i) then LoopOut
      else BranchOut(BranchDest(ip, i))
    else if IsRet(i) then Return
    else Verbatim
  }

  /** 0x71 ^ cond: the Jcc opcode of the opposite condition. */
  function InverseJcc(cond: int): (op: byte)
    requires 0 <= cond < 16
  {
    if cond % 2 == 0 then 0x71 + cond else 0x6F + cond
  }

  /** The operand that makes the instruction at newInst address what it addressed at oldInst. */
  function NewDisp(i: Hde, oldInst: int, newInst: int): int
  {
    Wrap32(oldInst + i.len + SExt32(i.disp) - (newInst + i.len))
  }

  /** The n bytes at a with those from offset k on replaced by the bytes bs. */
  function Splice(m: Mem, a: int, n: nat, k: int, bs: seq<byte>): (r: seq<byte>)
    ensures |r| == n
    ensures forall j :: 0 <= j < n ==> r[j] == if k <= j < k + |bs| then bs[j - k] else m(a + j)
  {
    seq(n, j requires 0 <= j < n => if k <= j < k + |bs| then bs[j - k] else m(a + j))
  }

  /** instBuf after the displacement at DispOffset(i) has been replaced. */
  function Redisplaced(m: Mem, i: Hde, oldInst: int, newInst: int): (bs: seq<byte>)
    requires i.len >= 0
    ensures |bs| == i.len
  {
    Splice(m, oldInst, i.len, DispOffset(i), Bytes4(NewDisp(i, oldInst, newInst)))
  }

  /** An instruction of the target and the code that stands for it; `src` and `dst` are offsets from
      target and trampoline. */
  datatype Entry = Entry(src: int, dst: int, inst: Hde, kind: Kind, bytes: seq<byte>)

  function Emitted(m: Mem, i: Hde, kind: Kind, oldInst: int, newInst: int): seq<byte>
    requires i.len >= 0
  {
    match kind
    case JumpBack => JmpAbs(oldInst)
    case RipRelative => Redisplaced(m, i, oldInst, newInst)
    case Call(dest) => CallAbs(dest)
    case JumpOut(dest) => JmpAbs(dest)
    case BranchOut(dest) => JccAbs(InverseJcc(ConditionCode(i)), dest)
    case _ => Read(m, oldInst, i.len)
  }

  function MakeEntry(t: Table, m: Mem, target: int, tramp: int, oldPos: int, newPos: int): (e: Entry)
    ensures 1 <= e.inst.len <= 15
  {
    var i := Decode(t, m, target + oldPos);
    var kind := Classify(i, oldPos, target);
    Entry(oldPos, newPos, i, kind, Emitted(m, i, kind, target + oldPos, tramp + newPos))
  }

  /** jmpDest after the instruction: the furthest destination of a branch into the patched bytes. */
  function NextDest(kind: Kind, jmpDest: int): int
  {
    if kind.Inside? && jmpDest < kind.dest then kind.dest else jmpDest
  }

  predicate Finishes(e: Entry, target: int, jmpDest: int)
  {
    match e.kind
    case JumpBack => true
    case RipRelative => e.inst.opcode == 0xFF && Reg(e.inst.modrm) == 4
    case JumpOut(_) => target + e.src >= jmpDest
    case Return => target + e.src >= jmpDest
    case _ => false
  }

  /** The four bytes of the new displacement are stored inside the 16-byte buffer that holds the copy. */
  predicate StoreInside(i: Hde)
  {
    0 <= DispOffset(i) && DispOffset(i) + 4 <= BUFFER_SIZE
  }

  /** The instruction is rewritten in the buffer, and the store misses it: the C++ program has no defined behaviour. */
  predicate Overruns(e: Entry)
  {
    !e.inst.Failed() && e.kind.RipRelative? && !StoreInside(e.inst)
  }

  /** The source's reasons to give up: a decoding error, a LOOPcc to the outside, a changed length inside a branch,
      a full slot, too many instructions. */
  predicate Accepts(e: Entry, target: int, jmpDest: int, nIP: int)
  {
    && !e.inst.Failed()
    && !e.kind.LoopOut?
    && (target + e.src < NextDest(e.kind, jmpDest) ==> |e.bytes| == e.inst.len)
    && e.dst + |e.bytes| <= TRAMPOLINE_MAX_SIZE
    && nIP < 8
  }

  // ---------------------------------------------------------------------
  // The loop
  // ---------------------------------------------------------------------

  datatype Plan = Plan(entries: seq<Entry>, oldEnd: int, newEnd: int, jmpDest: int)

  /** What the loop comes to: false is returned, a store misses its buffer, or a trampoline is laid out. */
  datatype Translation = Rejected | Overrun | Planned(plan: Plan)

  /** What the loop does from a given state on. */
  function Relocate(t: Table, m: Mem, target: int, tramp: int,
                    oldPos: int, newPos: int, jmpDest: int, es: seq<Entry>): Translation
    decreases if oldPos >= JMP_REL_SIZE then 0 else JMP_REL_SIZE - oldPos
  {
    var e := MakeEntry(t, m, target, tramp, oldPos, newPos);
    if Overruns(e) then Overrun
    else if !Accepts(e, target, jmpDest, |es|) then Rejected
    else
      var oldPos', newPos', jmpDest' := oldPos + e.inst.len, newPos + |e.bytes|, NextDest(e.kind, jmpDest);
      if Finishes(e, target, jmpDest) then Planned(Plan(es + [e], oldPos', newPos', jmpDest'))
      else Relocate(t, m, target, tramp, oldPos', newPos', jmpDest', es + [e])
  }

  function RelocateAll(t: Table, m: Mem, target: int, tramp: int): Translation
  {
    Relocate(t, m, target, tramp, 0, 0, 0, [])
  }

  // ---------------------------------------------------------------------
  // The layout invariant
  // ---------------------------------------------------------------------

  /** Instructions stand back to back, in the target and in the trampoline, up to oldPos and newPos. */
  ghost predicate BackToBack(es: seq<Entry>, oldPos: int, newPos: int)
  {
    if es == [] then oldPos == 0 && newPos == 0
    else
      var e := es[|es| - 1];
      && oldPos == e.src + e.inst.len && newPos == e.dst + |e.bytes|
      && BackToBack(es[..|es| - 1], e.src, e.dst)
  }

  /** The entry is the relocation of the instruction at its place. */
  ghost predicate EntryOk(t: Table, m: Mem, target: int, tramp: int, e: Entry)
  {
    && e == MakeEntry(t, m, target, tramp, e.src, e.dst)
    && 0 <= e.src && 0 <= e.dst && e.dst + |e.bytes| <= TRAMPOLINE_MAX_SIZE
    && !e.inst.Failed() && !e.kind.LoopOut? && !Overruns(e)
  }

  /** Nothing that starts before the destination of an earlier (or this) branch into the patch changes its length. */
  ghost predicate SpanKept(es: seq<Entry>, target: int, i: int, k: int)
    requires 0 <= i <= k < |es|
  {
    es[i].kind.Inside? && target + es[k].src < es[i].kind.dest ==> |es[k].bytes| == es[k].inst.len
  }

  ghost predicate Laid(t: Table, m: Mem, target: int, tramp: int, es: seq<Entry>, oldPos: int, newPos: int, jmpDest: int)
  {
    && BackToBack(es, oldPos, newPos)
    && |es| <= oldPos
    && 0 <= newPos <= TRAMPOLINE_MAX_SIZE
    && (forall k :: 0 <= k < |es| ==> EntryOk(t, m, target, tramp, es[k]))
    && (forall k :: 0 <= k < |es| && es[k].kind.Inside? ==> es[k].kind.dest <= jmpDest)
    && (forall i, k :: 0 <= i <= k < |es| ==> SpanKept(es, target, i, k))
  }

  ghost predicate PlanOk(t: Table, m: Mem, target: int, tramp: int, p: Plan)
  {
    && 1 <= |p.entries| <= 6
    && p.oldEnd <= 34
    && Laid(t, m, target, tramp, p.entries, p.oldEnd, p.newEnd, p.jmpDest)
    && Finishes(p.entries[|p.entries| - 1], target, p.jmpDest)
    && (forall k :: 0 <= k < |p.entries| - 1 ==> p.entries[k].src < JMP_REL_SIZE && !p.entries[k].kind.JumpBack?)
    && p.entries[|p.entries| - 1].src <= 19
  }

  lemma LaidExtend(t: Table, m: Mem, target: int, tramp: int, es: seq<Entry>, oldPos: int, newPos: int, jmpDest: int)
    requires Laid(t, m, target, tramp, es, oldPos, newPos, jmpDest)
    requires var e := MakeEntry(t, m, target, tramp, oldPos, newPos); Accepts(e, target, jmpDest, |es|) && !Overruns(e)
    ensures var e := MakeEntry(t, m, target, tramp, oldPos, newPos);
            Laid(t, m, target, tramp, es + [e], oldPos + e.inst.len, newPos + |e.bytes|, NextDest(e.kind, jmpDest))
  {
    hide MakeEntry;
    var e := MakeEntry(t, m, target, tramp, oldPos, newPos);
    var fs := es + [e];
    assert fs[..|fs| - 1] == es;
    EntryPlace(t, m, target, tramp, oldPos, newPos);
    forall i, k | 0 <= i <= k < |fs|
      ensures SpanKept(fs, target, i, k)
    {
      if k < |es| {
        assert SpanKept(es, target, i, k);
      }
    }
  }

  lemma EntryPlace(t: Table, m: Mem, target: int, tramp: int, oldPos: int, newPos: int)
    ensures var e := MakeEntry(t, m, target, tramp, oldPos, newPos); e.src == oldPos && e.dst == newPos
  {
  }

  lemma JumpBackIff(t: Table, m: Mem, target: int, tramp: int, oldPos: int, newPos: int)
    ensures var e := MakeEntry(t, m, target, tramp, oldPos, newPos); e.kind.JumpBack? <==> oldPos >= JMP_REL_SIZE
  {
    hide Decode, Emitted;
  }

  /** Whatever the loop accepts is well laid out; the loop runs at most six times. */
  lemma {:induction false} RelocateLays(t: Table, m: Mem, target: int, tramp: int,
                                        oldPos: int, newPos: int, jmpDest: int, es: seq<Entry>)
    requires Laid(t, m, target, tramp, es, oldPos, newPos, jmpDest)
    requires Running(es, oldPos)
    ensures var p := Relocate(t, m, target, tramp, oldPos, newPos, jmpDest, es);
            p.Planned? ==> PlanOk(t, m, target, tramp, p.plan)
    decreases if oldPos >= JMP_REL_SIZE then 0 else JMP_REL_SIZE - oldPos
  {
    hide MakeEntry, Laid, Finishes;
    var e := MakeEntry(t, m, target, tramp, oldPos, newPos);
    if Accepts(e, target, jmpDest, |es|) && !Overruns(e) {
      LaidExtend(t, m, target, tramp, es, oldPos, newPos, jmpDest);
      EntryPlace(t, m, target, tramp, oldPos, newPos);
      JumpBackIff(t, m, target, tramp, oldPos, newPos);
      FinishesAlike(e, target, jmpDest);
      if !Finishes(e, target, jmpDest) {
        RelocateLays(t, m, target, tramp, oldPos + e.inst.len, newPos + |e.bytes|, NextDest(e.kind, jmpDest), es + [e]);
      }
    }
  }

  /** The loop is about to relocate at oldPos. */
  ghost predicate Running(es: seq<Entry>, oldPos: int)
  {
    && |es| <= 5 && |es| <= oldPos <= 19
    && (forall k :: 0 <= k < |es| ==> es[k].src < JMP_REL_SIZE && !es[k].kind.JumpBack?)
  }

  lemma FinishesAlike(e: Entry, target: int, jmpDest: int)
    ensures Finishes(e, target, jmpDest) ==> Finishes(e, target, NextDest(e.kind, jmpDest))
    ensures e.kind.JumpBack? ==> Finishes(e, target, jmpDest)
  {
  }
}
