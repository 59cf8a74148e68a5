/** Code bytes, and what the decoder and the relocator make of them with the shipped table. */
module Samples {
  import opened Words
  import opened AddressSpace
  import opened Hde64
  import opened Hde64Laws
  import opened DecodedFields
  import opened Table64
  import opened OpcodeMap
  import opened Instructions
  import opened X64
  import opened Relocation
  import opened Patching
  import L = Limits
  import A = Acceptance
  import Sim = Simulation

  lemma NoPrefix(m: Mem, a: int)
    requires !PrefixByte(m(a)) && !(0x40 <= m(a) < 0x50)
    ensures CountPrefixes(m, a, a + 16) == 0 && OpcodeAt(m, a) == RexAt(m, a) == a
    ensures Decode(Hde64Table(), m, a).pre == NO_PREFIX
  {
    hide ReadHead, Attribute, ReadOperand, ImmediateWidths, ReadImmediate, Hde64Table;
  }

  lemma SampleMaps()
    ensures MapOf(0x8b, false) == 0x01 && MapOf(0xf6, true) == 0x01 && MapOf(0xf7, true) == 0x01
    ensures !NoMember(0x8b, false, 0) && !NoMember(0xf6, true, 0)
    ensures NotWith(0xf6) == 6 && NotWith(0xb8) == 0 && MapOf(0xb8, true) == 0
  {
  }

  /** 8B 45 08: MOV EAX, [RBP + 8]. */
  lemma LoadFromFrame(m: Mem, a: int)
    requires m(a) == 0x8b && m(a + 1) == 0x45 && m(a + 2) == 0x08
    ensures var d := Decode(Hde64Table(), m, a); !d.Failed() && d.len == 3 && d.flags.disp8 && d.disp == 8
  {
    hide Decode, Hde64Table, MapOf, CountPrefixes, Cflags, Consistent, NoMember, Lockable;
    NoPrefix(m, a);
    SampleMaps();
    OpcodeErrorIff(m, a);
    TableConsistent();
    TooLongIff(Hde64Table(), m, a);
    ReportedOpcode(Hde64Table(), m, a);
    DecodesByMap(m, a);
    ReportedOperand(Hde64Table(), m, a);
    ReportedImmediate(Hde64Table(), m, a);
    OtherErrorsIff(m, a);
  }

  /** 0F F6 C1: PSADBW MM0, MM1, which is three bytes long. */
  lemma PsadbwTooLong(m: Mem, a: int)
    requires m(a) == 0x0f && m(a + 1) == 0xf6 && m(a + 2) == 0xc1
    ensures var d := Decode(Hde64Table(), m, a); !d.Failed() && d.len == 4
  {
    hide Decode, Hde64Table, MapOf, CountPrefixes, Cflags, Consistent, NoMember, Lockable;
    NoPrefix(m, a);
    SampleMaps();
    OpcodeErrorIff(m, a);
    TableConsistent();
    TooLongIff(Hde64Table(), m, a);
    ReportedOpcode(Hde64Table(), m, a);
    DecodesByMap(m, a);
    ReportedOperand(Hde64Table(), m, a);
    ReportedImmediate(Hde64Table(), m, a);
    OtherErrorsIff(m, a);
  }

  lemma NotOne(m: Mem, a: int, c: byte)
    requires m(a) != c
    ensures !Occurs(m, a, a + 1, c)
  {
  }

  /** F3 0F B8 C1: POPCNT EAX, ECX, which is four bytes long; the table gives 0F B8 no ModR/M byte. */
  lemma PopcntTooShort(m: Mem, a: int)
    requires m(a) == 0xf3 && m(a + 1) == 0x0f && m(a + 2) == 0xb8
    ensures var d := Decode(Hde64Table(), m, a); !d.Failed() && d.len == 3
  {
    hide Decode, Hde64Table, MapOf, Cflags, Consistent, NoMember, Lockable, Occurs;
    assert CountPrefixes(m, a + 1, a + 16) == 0;
    assert CountPrefixes(m, a, a + 16) == 1;
    ReportedPrefixes(Hde64Table(), m, a);
    NotOne(m, a, 0xf0);
    SampleMaps();
    OpcodeErrorIff(m, a);
    TableConsistent();
    TooLongIff(Hde64Table(), m, a);
    ReportedOpcode(Hde64Table(), m, a);
    DecodesByMap(m, a);
    ReportedOperand(Hde64Table(), m, a);
    ReportedImmediate(Hde64Table(), m, a);
    OtherErrorsIff(m, a);
  }

  // ---------------------------------------------------------------------
  // Relocation
  // ---------------------------------------------------------------------

  lemma BranchMap()
    ensures MapOf(0x84, true) == 0x50 && !Rejects(0x84, NO_PREFIX) && MapOf(0x31, false) == 0x01 && !NoMember(0x31, false, 0)
  {
  }

  lemma DecodeNearBranch(m: Mem, a: int)
    requires m(a) == 0x0f && m(a + 1) == 0x84
    ensures var d := Decode(Hde64Table(), m, a);
            && !d.Failed() && d.len == 6 && d.opcode == 0x0f && d.opcode2 == 0x84 && d.modrm == 0
            && d.imm.Imm32() == Read32(m, a + 2)
  {
    hide Decode, Hde64Table, MapOf, CountPrefixes, Cflags, Consistent, NoMember, Lockable, Rejects, Read32, Union.Imm32;
    NoPrefix(m, a);
    BranchMap();
    OpcodeErrorIff(m, a);
    TableConsistent();
    TooLongIff(Hde64Table(), m, a);
    ReportedOpcode(Hde64Table(), m, a);
    DecodesByMap(m, a);
    ReportedOperand(Hde64Table(), m, a);
    ReportedImmediate(Hde64Table(), m, a);
    OtherErrorsIff(m, a);
    ReportedBranch(Hde64Table(), m, a);
  }

  /** 0F 84 00 01 00 00 (JE to 100h behind it) becomes 75 0E (JNE over the jump), FF 25 00 00 00 00 and the destination. */
  lemma NearBranchRelocates(m: Mem, target: int, tramp: int)
    requires 0 < target < USER_LIMIT && m(target) == 0x0f && m(target + 1) == 0x84 && Read32(m, target + 2) == 0x100
    ensures var e := MakeEntry(Hde64Table(), m, target, tramp, 0, 0);
            e.bytes == [0x75, 0x0E, 0xFF, 0x25, 0, 0, 0, 0] + Bytes8(target + 0x106)
  {
    hide Decode, Hde64Table, Read32, Bytes8, MakeEntry;
    DecodeNearBranch(m, target);
    Sim.EntryFields(Hde64Table(), m, target, tramp, 0, 0);
    A.EntryMeans(Hde64Table(), m, target, tramp, MakeEntry(Hde64Table(), m, target, tramp, 0, 0));
  }

  lemma DecodeClear(m: Mem, a: int)
    requires m(a) == 0x31 && m(a + 1) == 0xc0
    ensures var d := Decode(Hde64Table(), m, a); !d.Failed() && d.len == 2 && d.opcode == 0x31 && d.opcode2 == 0 && d.modrm == 0xc0
  {
    hide Decode, Hde64Table, MapOf, CountPrefixes, Cflags, Consistent, NoMember, Lockable;
    NoPrefix(m, a);
    BranchMap();
    OpcodeErrorIff(m, a);
    TableConsistent();
    TooLongIff(Hde64Table(), m, a);
    ReportedOpcode(Hde64Table(), m, a);
    DecodesByMap(m, a);
    ReportedOperand(Hde64Table(), m, a);
    ReportedImmediate(Hde64Table(), m, a);
    OtherErrorsIff(m, a);
  }

  /** 31 C0 C3 (XOR EAX, EAX; RET): relocation stops behind the RET, and whether there is a place for the jump depends on
      the two bytes behind and, should they not be a gap, on the five bytes above. */
  lemma ShortFunction(m: Mem, s: Space, target: int, tramp: int)
    requires 0 < target < USER_LIMIT && m(target) == 0x31 && m(target + 1) == 0xc0 && m(target + 2) == 0xc3
    ensures var p := RelocateAll(Hde64Table(), m, target, tramp);
            && p.Planned? && p.plan.oldEnd == 3 && p.plan.newEnd == 3
            && (Gap(m, target + 3, 2) ==> Placement(m, s, target, 3) == Some(false))
            && (!Gap(m, target + 3, 2) && !Gap(m, target - 5, 5) ==> Placement(m, s, target, 3) == None)
  {
    hide Decode, Hde64Table, MakeEntry, Gap, Placement;
    var t := Hde64Table();
    var e0, e1 := MakeEntry(t, m, target, tramp, 0, 0), MakeEntry(t, m, target, tramp, 2, 2);
    DecodeClear(m, target);
    L.DecodeRet(m, target + 2);
    Sim.EntryFields(t, m, target, tramp, 0, 0);
    Sim.EntryFields(t, m, target, tramp, 2, 2);
    assert e0.kind == Verbatim && e1.kind == Return;
    assert [] + [e0] == [e0];
    assert Relocate(t, m, target, tramp, 2, 2, 0, [e0]) == Planned(Plan([e0] + [e1], 3, 3, 0));
    assert RelocateAll(t, m, target, tramp) == Relocate(t, m, target, tramp, 2, 2, 0, [e0]);
    PlacementIff(m, s, target, 3);
  }
}
