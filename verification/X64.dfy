/** A small-step machine for x86-64 code, as far as relocating code can tell instructions apart.

    Control transfers and RIP-relative operands are explicit.  Every other instruction is an uninterpreted
    transformer of the data (registers and data memory) that depends on its bytes alone, not on its address.
    A call is one step: it returns to the next instruction. */
module X64 {
  import opened Words
  import opened Hde64
  import opened Hde64Laws

  /** An effect on the data; `jump` is the absolute address of an indirect transfer. */
  datatype Effect<D> = Effect(data: D, jump: Option<int>)

  /** The meaning of instructions over data D.
      plain(bytes, d)             any other instruction
      rip(head, tail, ea, d)      an instruction with RIP-relative operand ea; head and tail are its bytes before
                                  and after the displacement
      flag(c, d)                  condition 2c of Jcc; condition 2c + 1 is its negation
      loop(bytes, d)              LOOPcc and JRCXZ: the data after, and whether the branch is taken
      ret(bytes, d)               RET: the data after, and the return address
      call(f, d)                  the data when the function at f has returned
      load(ea, d)                 the pointer that the data holds at ea
      pointer(head, tail, ea, d)  the function that any other indirect CALL calls; head and tail are its bytes, ea is
                                  its RIP-relative operand, 0 if it has none */
  datatype Isa<!D> = Isa(plain: (seq<byte>, D) -> Effect<D>,
                         rip: (seq<byte>, seq<byte>, int, D) -> Effect<D>,
                         flag: (int, D) -> bool,
                         loop: (seq<byte>, D) -> (D, bool),
                         ret: (seq<byte>, D) -> (D, int),
                         call: (int, D) -> D,
                         load: (int, D) -> int,
                         pointer: (seq<byte>, seq<byte>, int, D) -> int)

  /** `code` is the code memory; the program neither writes it nor keeps data in `frozen`, the library's slots. */
  datatype Machine<!D> = Machine(table: Table, isa: Isa<D>, code: Mem, frozen: iset<int>)

  datatype State<D> = State(ip: int, data: D)

  // ---------------------------------------------------------------------
  // Instruction classes
  // ---------------------------------------------------------------------

  predicate IsJcc8(i: Hde) { i.opcode / 16 == 7 }

  predicate IsLoop(i: Hde) { i.opcode / 4 == 0x38 }

  predicate IsJcc32(i: Hde) { i.opcode2 / 16 == 8 }

  predicate IsJmp(i: Hde) { i.opcode == 0xE9 || i.opcode == 0xEB }

  predicate IsRet(i: Hde) { i.opcode / 2 == 0x61 }

  /** FF /2 and FF /3. */
  predicate IsIndirectCall(i: Hde) { i.opcode == 0xFF && (Reg(i.modrm) == 2 || Reg(i.modrm) == 3) }

  /** None of the classes above, nor CALL rel32. */
  predicate IsPlain(i: Hde)
  {
    i.opcode != 0xE8 && !IsIndirectCall(i) && !IsJmp(i) && !IsLoop(i) && !IsJcc8(i) && !IsJcc32(i) && !IsRet(i)
  }

  /** The destination of a relative branch at address ip. */
  function ShortDest(ip: int, i: Hde): int
  {
    Wrap64(ip + i.len + SExt8(i.imm.Imm8()))
  }

  function NearDest(ip: int, i: Hde): int
  {
    Wrap64(ip + i.len + SExt32(i.imm.Imm32()))
  }

  function JmpDest(ip: int, i: Hde): int
  {
    if i.opcode == 0xEB then ShortDest(ip, i) else NearDest(ip, i)
  }

  function BranchDest(ip: int, i: Hde): int
  {
    if IsJcc8(i) || IsLoop(i) then ShortDest(ip, i) else NearDest(ip, i)
  }

  function ConditionCode(i: Hde): int
  {
    (if i.opcode != 0x0F then i.opcode else i.opcode2) % 16
  }

  function EffectiveAddress(ip: int, i: Hde): int
  {
    Wrap64(ip + i.len + SExt32(i.disp))
  }

  /** Code the machine gives no meaning to: operand-size prefixes on relative branches, address-size prefixes on
      memory operands, system-register moves with a memory form, XBEGIN. */
  predicate Covered(i: Hde)
  {
    && !(i.pre.p66 && i.flags.relative)
    && !(i.pre.p67 && i.flags.modrm && Mod(i.modrm) != 3)
    && !(RipForm(i) && !i.flags.disp32)
    && !(i.opcode == 0xC7 && i.modrm == 0xF8)
  }

  // ---------------------------------------------------------------------
  // Steps
  // ---------------------------------------------------------------------

  predicate Holds8<D>(mc: Machine<D>, ea: int)
  {
    && ea in mc.frozen && ea + 1 in mc.frozen && ea + 2 in mc.frozen && ea + 3 in mc.frozen
    && ea + 4 in mc.frozen && ea + 5 in mc.frozen && ea + 6 in mc.frozen && ea + 7 in mc.frozen
  }

  function LoadPointer<D>(mc: Machine<D>, ea: int, d: D): int
  {
    if Holds8(mc, ea) then Read64(mc.code, ea) else mc.isa.load(ea, d)
  }

  predicate Condition<D>(isa: Isa<D>, cc: int, d: D)
  {
    if cc % 2 == 0 then isa.flag(cc / 2, d) else !isa.flag(cc / 2, d)
  }

  function Follow<D>(e: Effect<D>, next: int): State<D>
  {
    State(if e.jump.Some? then e.jump.value else next, e.data)
  }

  /** The function that the instruction calls, if it is a call. */
  function CalleeRip<D>(mc: Machine<D>, st: State<D>, i: Hde): Option<int>
    requires RipOperand(i) && 0 <= DispOffset(i) <= i.len - 4
  {
    var ea := EffectiveAddress(st.ip, i);
    if !IsIndirectCall(i) then None
    else if Reg(i.modrm) == 2 then Some(LoadPointer(mc, ea, st.data))
    else Some(mc.isa.pointer(HeadBytes(mc.code, st.ip, i), TailBytes(mc.code, st.ip, i), ea, st.data))
  }

  function CalleeOther<D>(mc: Machine<D>, st: State<D>, i: Hde): Option<int>
    requires i.len >= 0
  {
    if i.opcode == 0xE8 then Some(NearDest(st.ip, i))
    else if IsIndirectCall(i) then Some(mc.isa.pointer(Read(mc.code, st.ip, i.len), [], 0, st.data))
    else None
  }

  /** The bytes of an instruction before and after its displacement. */
  function HeadBytes(m: Mem, ip: int, i: Hde): seq<byte>
    requires 0 <= DispOffset(i)
  {
    Read(m, ip, DispOffset(i))
  }

  function TailBytes(m: Mem, ip: int, i: Hde): seq<byte>
    requires DispOffset(i) <= i.len - 4
  {
    Read(m, ip + DispOffset(i) + 4, i.len - DispOffset(i) - 4)
  }

  function ExecuteRip<D>(mc: Machine<D>, st: State<D>, i: Hde): State<D>
    requires RipOperand(i) && 0 <= DispOffset(i) <= i.len - 4
  {
    var next := Wrap64(st.ip + i.len);
    var ea := EffectiveAddress(st.ip, i);
    var f := CalleeRip(mc, st, i);
    if f.Some? then State(next, mc.isa.call(f.value, st.data))
    else if i.opcode == 0xFF && Reg(i.modrm) == 4 then State(LoadPointer(mc, ea, st.data), st.data)
    else Follow(mc.isa.rip(HeadBytes(mc.code, st.ip, i), TailBytes(mc.code, st.ip, i), ea, st.data), next)
  }

  function ExecuteOther<D>(mc: Machine<D>, st: State<D>, i: Hde): State<D>
    requires i.len >= 0
  {
    var next := Wrap64(st.ip + i.len);
    var d := st.data;
    var f := CalleeOther(mc, st, i);
    if f.Some? then State(next, mc.isa.call(f.value, d))
    else if IsJmp(i) then State(JmpDest(st.ip, i), d)
    else if IsLoop(i) then
      var r := mc.isa.loop(Read(mc.code, st.ip, i.len), d);
      State(if r.1 then BranchDest(st.ip, i) else next, r.0)
    else if IsJcc8(i) || IsJcc32(i) then
      State(if Condition(mc.isa, ConditionCode(i), d) then BranchDest(st.ip, i) else next, d)
    else if IsRet(i) then
      var r := mc.isa.ret(Read(mc.code, st.ip, i.len), d);
      State(r.1, r.0)
    else Follow(mc.isa.plain(Read(mc.code, st.ip, i.len), d), next)
  }

  /** One step, None where the machine gives the code no meaning. */
  function Step<D>(mc: Machine<D>, st: State<D>): Option<State<D>>
  {
    var i := Decode(mc.table, mc.code, st.ip);
    if i.Failed() || !Covered(i) then None
    else if RipForm(i) then
      if 0 <= DispOffset(i) <= i.len - 4 then Some(ExecuteRip(mc, st, i)) else None
    else Some(ExecuteOther(mc, st, i))
  }

  /** The function that the step from st calls, if it is a call. */
  function Callee<D>(mc: Machine<D>, st: State<D>): Option<int>
  {
    var i := Decode(mc.table, mc.code, st.ip);
    if RipForm(i) then
      if i.flags.disp32 && 0 <= DispOffset(i) <= i.len - 4 then CalleeRip(mc, st, i) else None
    else CalleeOther(mc, st, i)
  }

  /** The step from st takes its next address from the data: a return, an indirect jump. */
  predicate ByValue<D>(mc: Machine<D>, st: State<D>)
  {
    var i := Decode(mc.table, mc.code, st.ip);
    if RipForm(i) then
      && i.flags.disp32 && 0 <= DispOffset(i) <= i.len - 4 && !IsIndirectCall(i)
      && ((i.opcode == 0xFF && Reg(i.modrm) == 4)
          || mc.isa.rip(HeadBytes(mc.code, st.ip, i), TailBytes(mc.code, st.ip, i), EffectiveAddress(st.ip, i), st.data).jump.Some?)
    else IsRet(i) || (IsPlain(i) && mc.isa.plain(Read(mc.code, st.ip, i.len), st.data).jump.Some?)
  }

  /** n steps. */
  function Run<D>(mc: Machine<D>, st: State<D>, n: nat): Option<State<D>>
  {
    if n == 0 then Some(st)
    else
      var before := Run(mc, st, n - 1);
      if before.None? then None else Step(mc, before.value)
  }

  lemma {:induction false} RunFrom<D>(mc: Machine<D>, st: State<D>, n: nat, k: nat)
    requires Run(mc, st, n).Some?
    ensures Run(mc, st, n + k) == Run(mc, Run(mc, st, n).value, k)
  {
    hide Step;
    if k > 0 {
      RunFrom(mc, st, n, k - 1);
    }
  }

  /** A second memory for the same program: other code bytes, and so other effects of calls. */
  ghost predicate OtherCode<D>(mc: Machine<D>, mc': Machine<D>)
  {
    mc' == mc.(code := mc'.code, isa := mc.isa.(call := mc'.isa.call))
  }

  /** If the step from st is a call, it has the same effect on both machines. */
  ghost predicate CallKept<D>(mc: Machine<D>, mc': Machine<D>, st: State<D>)
  {
    var f := Callee(mc, st);
    f.Some? ==> mc'.isa.call(f.value, st.data) == mc.isa.call(f.value, st.data)
  }

  /** A step depends on the code memory through the instruction at ip, the library's slots and the function called. */
  lemma StepLocal<D>(mc: Machine<D>, mc': Machine<D>, st: State<D>)
    requires OtherCode(mc, mc') && CallKept(mc, mc', st)
    requires Step(mc, st).Some?
    requires Agree(mc.code, st.ip, mc'.code, st.ip, 0, Decode(mc.table, mc.code, st.ip).len)
    requires forall x :: x in mc.frozen ==> mc.code(x) == mc'.code(x)
    ensures Step(mc', st) == Step(mc, st)
  {
    hide Decode;
    var i := Decode(mc.table, mc.code, st.ip);
    DecodeLocal(mc.table, mc.code, st.ip, mc'.code, st.ip);
    assert Read(mc.code, st.ip, i.len) == Read(mc'.code, st.ip, i.len);
    if RipForm(i) {
      assert HeadBytes(mc.code, st.ip, i) == HeadBytes(mc'.code, st.ip, i);
      assert TailBytes(mc.code, st.ip, i) == TailBytes(mc'.code, st.ip, i);
    }
  }
}
