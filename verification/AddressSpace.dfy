/** The process address space as VirtualQuery and VirtualAlloc show it, and the two searches for a free place near an
    address.  src/memory.cpp:121-195, 247-289, 336-348. */
module AddressSpace {
  import opened Words

  const PAGE_SIZE: int := 0x1000

  ghost predicate Aligned(a: int, g: int)
    requires g > 0
  {
    a % g == 0
  }

  /** a -= a % g. */
  function Down(a: int, g: int): int
    requires g > 0
  {
    a - a % g
  }

  /** A page is free or belongs to the allocation with the given base. */
  datatype Page = Free | Used(allocationBase: int, executable: bool)

  /** The pages from address 0 on; queries beyond them fail. */
  datatype Space = Space(pages: seq<Page>, granularity: int)
  {
    function Limit(): int {
      |pages| * PAGE_SIZE
    }

    predicate FreeAt(a: int) {
      0 <= a < Limit() && pages[a / PAGE_SIZE].Free?
    }

    /** Allocations start on the allocation granularity and are contiguous. */
    ghost predicate Valid() {
      && 0 < granularity < TWO32 && granularity % PAGE_SIZE == 0
      && Limit() <= USER_LIMIT
      && forall i :: 0 <= i < |pages| && pages[i].Used? ==> OwnedFrom(pages[i].allocationBase, i)
    }

    ghost predicate OwnedFrom(base: int, i: int)
      requires 0 <= i < |pages|
    {
      && granularity > 0 && 0 <= base <= i * PAGE_SIZE && Aligned(base, granularity)
      && forall j :: base / PAGE_SIZE <= j <= i ==> pages[j].Used? && pages[j].allocationBase == base
    }

    /** A place where VirtualAlloc may succeed. */
    ghost predicate Candidate(a: int)
      requires granularity > 0
    {
      Aligned(a, granularity) && FreeAt(a)
    }

    /** The page at b is an allocation of its own. */
    ghost predicate OnePage(b: int) {
      && 0 <= b < Limit() && pages[b / PAGE_SIZE] == Used(b, true)
      && (b / PAGE_SIZE + 1 < |pages| && pages[b / PAGE_SIZE + 1].Used? ==> pages[b / PAGE_SIZE + 1].allocationBase != b)
    }

    /** The end of the run of like pages from page i on: BaseAddress + RegionSize. */
    function RegionEnd(i: int): (e: int)
      requires 0 <= i < |pages|
      ensures i < e / PAGE_SIZE <= |pages| && e % PAGE_SIZE == 0
      ensures forall j :: i <= j < e / PAGE_SIZE ==> pages[j] == pages[i]
      decreases |pages| - i
    {
      if i + 1 < |pages| && pages[i + 1] == pages[i] then RegionEnd(i + 1) else (i + 1) * PAGE_SIZE
    }
  }

  /** MEMORY_BASIC_INFORMATION, as far as it is used. */
  datatype Mbi = Mbi(free: bool, allocationBase: int, regionEnd: int)

  function VirtualQuery(s: Space, a: int): Option<Mbi>
  {
    if 0 <= a < s.Limit() then
      var page := s.pages[a / PAGE_SIZE];
      Some(Mbi(page.Free?, if page.Used? then page.allocationBase else 0, s.RegionEnd(a / PAGE_SIZE)))
    else None
  }

  predicate PaddingByte(b: byte)
  {
    b == 0x00 || b == 0x90 || b == 0xCC
  }

  /** A uniform run of padding bytes. */
  ghost predicate IsPadding(m: Mem, a: int, n: int)
  {
    n >= 1 && PaddingByte(m(a)) && forall x :: a <= x < a + n ==> m(x) == m(a)
  }

  /** The n bytes at a are all c, one of the three that compilers fill gaps with. */
  ghost predicate Filler(m: Mem, a: int, n: int, c: byte)
  {
    (c == 0x00 || c == 0x90 || c == 0xCC) && forall x {:trigger m(x)} :: a <= x < a + n ==> m(x) == c
  }

  lemma PaddingIff(m: Mem, a: int, n: int)
    requires n >= 1
    ensures IsPadding(m, a, n) <==> exists c :: Filler(m, a, n, c)
  {
    if IsPadding(m, a, n) {
      assert Filler(m, a, n, m(a));
    }
  }

  predicate IsExecutable(s: Space, a: int)
  {
    0 <= a < s.Limit() && s.pages[a / PAGE_SIZE].Used? && s.pages[a / PAGE_SIZE].executable
  }

  /** The greatest candidate in [lo, hi], 0 (NULL) if there is none. */
  ghost predicate NearestBelow(s: Space, lo: int, hi: int, r: int)
    requires s.granularity > 0
  {
    if r != 0 then lo <= r <= hi && s.Candidate(r) && forall x :: r < x <= hi ==> !s.Candidate(x)
    else forall x :: lo <= x <= hi && 0 < x ==> !s.Candidate(x)
  }

  /** The least candidate in [lo, hi], 0 (NULL) if there is none. */
  ghost predicate NearestAbove(s: Space, lo: int, hi: int, r: int)
    requires s.granularity > 0
  {
    if r != 0 then lo <= r <= hi && s.Candidate(r) && forall x :: lo <= x < r ==> !s.Candidate(x)
    else forall x :: lo <= x <= hi && 0 < x ==> !s.Candidate(x)
  }

  // ---------------------------------------------------------------------
  // Multiples
  // ---------------------------------------------------------------------

  lemma AtLeast(k: int, g: int)
    requires k >= 1 && g > 0
    ensures k * g >= g
  {
    assert (k - 1) * g >= 0;
  }

  lemma MultipleOf(q: int, g: int)
    requires g > 0
    ensures q * g % g == 0
  {
    var d, r := q * g / g, q * g % g;
    assert (q - d) * g == r;
    if q - d >= 1 {
      AtLeast(q - d, g);
      assert false;
    } else if d - q >= 1 {
      AtLeast(d - q, g);
      assert false;
    }
  }

  /** Distinct multiples are at least g apart. */
  lemma AlignedGap(x: int, b: int, g: int)
    requires g > 0 && Aligned(x, g) && Aligned(b, g) && x < b
    ensures x <= b - g
  {
    var k := b / g - x / g;
    assert k * g == b - x;
    if k >= 1 {
      AtLeast(k, g);
    } else if k <= -1 {
      AtLeast(-k, g);
      assert false;
    }
  }

  lemma AlignedStep(b: int, g: int)
    requires g > 0 && Aligned(b, g)
    ensures Aligned(b - g, g) && Aligned(b + g, g)
  {
    var q := b / g;
    assert b - g == (q - 1) * g && b + g == (q + 1) * g;
    MultipleOf(q - 1, g);
    MultipleOf(q + 1, g);
  }

  lemma RoundsDown(a: int, g: int)
    requires g > 0
    ensures Aligned(Down(a, g), g) && a - g < Down(a, g) <= a
    ensures 0 <= a ==> 0 <= Down(a, g)
  {
    assert a - a % g == a / g * g;
    MultipleOf(a / g, g);
  }

  // ---------------------------------------------------------------------
  // The searches
  // ---------------------------------------------------------------------

  /** Nothing between the base of an allocation less one granule and an address in it is a candidate. */
  lemma AllocationSkipped(s: Space, a: int, x: int)
    requires s.Valid() && 0 <= a < s.Limit() && s.pages[a / PAGE_SIZE].Used?
    requires s.pages[a / PAGE_SIZE].allocationBase - s.granularity < x <= a
    ensures !s.Candidate(x)
  {
    hide Aligned;
    var base := s.pages[a / PAGE_SIZE].allocationBase;
    assert s.OwnedFrom(base, a / PAGE_SIZE);
    if x < base {
      if Aligned(x, s.granularity) {
        AlignedGap(x, base, s.granularity);
      }
    } else {
      assert base / PAGE_SIZE <= x / PAGE_SIZE <= a / PAGE_SIZE;
    }
  }

  /** Nothing between an address in a used region and the region's end, rounded up, is a candidate. */
  lemma RegionSkipped(s: Space, a: int, x: int, up: int)
    requires s.Valid() && 0 <= a < s.Limit() && s.pages[a / PAGE_SIZE].Used?
    requires Aligned(up, s.granularity) && up < s.RegionEnd(a / PAGE_SIZE) + s.granularity
    requires a <= x < up
    ensures !s.Candidate(x)
  {
    hide Aligned;
    var end := s.RegionEnd(a / PAGE_SIZE);
    if x < end {
      assert a / PAGE_SIZE <= x / PAGE_SIZE < end / PAGE_SIZE;
    } else if Aligned(x, s.granularity) {
      AlignedGap(x, up, s.granularity);
    }
  }

  lemma WrapsOnce(x: int)
    requires -TWO32 <= x < TWO64
    ensures Wrap64(x) == if x < 0 then x + TWO64 else x
  {
  }

  /** The search below: from allocation to allocation, starting at the granule below the one of address. */
  method FindPrevFreeRegion(s: Space, address: int, minAddr: int) returns (r: int)
    requires s.Valid() && 0 <= address < TWO64 && 0 <= minAddr
    ensures var top := Down(address, s.granularity) - s.granularity;
            if top < s.Limit() then NearestBelow(s, minAddr, top, r) else r == 0
  {
    hide Aligned, Down, Wrap64;
    var g := s.granularity;
    ghost var top := Down(address, g) - g;
    RoundsDown(address, g);
    AlignedStep(Down(address, g), g);
    var tryAddr := Down(address, g);
    WrapsOnce(tryAddr - g);
    tryAddr := Wrap64(tryAddr - g);
    while tryAddr >= minAddr
      invariant 0 <= tryAddr
      invariant if top < 0 then s.Limit() <= tryAddr else tryAddr <= top && Aligned(tryAddr, g)
      invariant s.Limit() <= top ==> s.Limit() <= tryAddr
      invariant top < s.Limit() ==> forall x :: tryAddr < x <= top ==> !s.Candidate(x)
      decreases tryAddr
    {
      var mbi := VirtualQuery(s, tryAddr);
      if mbi.None? {
        break;
      }
      if mbi.value.free {
        return tryAddr;
      }
      forall x | mbi.value.allocationBase - g < x <= tryAddr
        ensures !s.Candidate(x)
      {
        AllocationSkipped(s, tryAddr, x);
      }
      assert s.OwnedFrom(mbi.value.allocationBase, tryAddr / PAGE_SIZE);
      if mbi.value.allocationBase < g {
        break;
      }
      AlignedStep(mbi.value.allocationBase, g);
      tryAddr := mbi.value.allocationBase - g;
    }
    return 0;
  }

  /** The search above: from region to region, starting at the granule above the one of address. */
  method FindNextFreeRegion(s: Space, address: int, maxAddr: int) returns (r: int)
    requires s.Valid() && 0 <= address < TWO64 - s.granularity
    ensures NearestAbove(s, Down(address, s.granularity) + s.granularity, maxAddr, r)
  {
    hide Aligned, Down;
    var g := s.granularity;
    ghost var bottom := Down(address, g) + g;
    RoundsDown(address, g);
    AlignedStep(Down(address, g), g);
    var tryAddr := Down(address, g);
    tryAddr := tryAddr + g;
    while tryAddr <= maxAddr
      invariant bottom <= tryAddr && Aligned(tryAddr, g)
      invariant forall x :: bottom <= x < tryAddr ==> !s.Candidate(x)
      decreases s.Limit() + g - tryAddr
    {
      var mbi := VirtualQuery(s, tryAddr);
      if mbi.None? {
        break;
      }
      if mbi.value.free {
        return tryAddr;
      }
      var up := mbi.value.regionEnd + (g - 1);
      RoundsDown(up, g);
      forall x | tryAddr <= x < Down(up, g)
        ensures !s.Candidate(x)
      {
        RegionSkipped(s, tryAddr, x, Down(up, g));
      }
      tryAddr := Down(up, g);
    }
    return 0;
  }

  // ---------------------------------------------------------------------
  // Allocation near an address
  // ---------------------------------------------------------------------

  /** `grants` are the places at which VirtualAlloc would succeed.  The greatest such candidate in [lo, hi], 0 if
      there is none. */
  ghost predicate GrantedBelow(s: Space, grants: set<int>, lo: int, hi: int, r: int)
    requires s.granularity > 0
  {
    if r != 0 then lo <= r <= hi && s.Candidate(r) && r in grants && forall x :: r < x <= hi && s.Candidate(x) ==> x !in grants
    else forall x :: lo <= x <= hi && 0 < x && s.Candidate(x) ==> x !in grants
  }

  /** The least such candidate in [lo, hi], 0 if there is none. */
  ghost predicate GrantedAbove(s: Space, grants: set<int>, lo: int, hi: int, r: int)
    requires s.granularity > 0
  {
    if r != 0 then lo <= r <= hi && s.Candidate(r) && r in grants && forall x :: lo <= x < r && s.Candidate(x) ==> x !in grants
    else forall x :: lo <= x <= hi && 0 < x && s.Candidate(x) ==> x !in grants
  }

  /** The places at which VirtualAlloc is tried, in order: every candidate from hi down to block, or down to lo if there
      is none to be had, each of them once; only the last one may be granted. */
  ghost predicate TriedBelow(s: Space, grants: set<int>, lo: int, hi: int, block: int, tried: seq<int>)
    requires s.granularity > 0
  {
    && (forall i, j :: 0 <= i < j < |tried| ==> tried[i] > tried[j])
    && (forall x :: x in tried <==> s.Candidate(x) && lo <= x <= hi && 0 < x && block <= x)
    && (forall i :: 0 <= i < |tried| && tried[i] in grants ==> i == |tried| - 1 && tried[i] == block)
  }

  ghost predicate TriedAbove(s: Space, grants: set<int>, lo: int, hi: int, block: int, tried: seq<int>)
    requires s.granularity > 0
  {
    && (forall i, j :: 0 <= i < j < |tried| ==> tried[i] < tried[j])
    && (forall x :: x in tried <==> s.Candidate(x) && lo <= x <= hi && 0 < x && (block == 0 || x <= block))
    && (forall i :: 0 <= i < |tried| && tried[i] in grants ==> i == |tried| - 1 && tried[i] == block)
  }

  lemma CandidateIsAligned(s: Space, a: int)
    requires s.granularity > 0 && s.Candidate(a)
    ensures Aligned(a, s.granularity) && 0 <= a < s.Limit()
  {
    hide Aligned;
  }

  lemma DownOfAligned(a: int, g: int)
    requires g > 0 && Aligned(a, g)
    ensures Down(a, g) == a
  {
  }

  /** tried lists the candidates in [lo, hi] from bound on, none of them granted, highest first. */
  ghost predicate TriedDownTo(s: Space, grants: set<int>, lo: int, hi: int, bound: int, tried: seq<int>)
    requires s.granularity > 0
  {
    && (forall i, j :: 0 <= i < j < |tried| ==> tried[i] > tried[j])
    && (forall x :: x in tried <==> s.Candidate(x) && lo <= x <= hi && 0 < x && bound < x)
    && (forall i :: 0 <= i < |tried| ==> tried[i] !in grants)
  }

  ghost predicate TriedUpTo(s: Space, grants: set<int>, lo: int, hi: int, bound: int, tried: seq<int>)
    requires s.granularity > 0
  {
    && (forall i, j :: 0 <= i < j < |tried| ==> tried[i] < tried[j])
    && (forall x :: x in tried <==> s.Candidate(x) && lo <= x <= hi && 0 < x && x < bound)
    && (forall i :: 0 <= i < |tried| ==> tried[i] !in grants)
  }

  /** The nearest candidate below the bound is the next one tried. */
  lemma TryBelow(s: Space, grants: set<int>, lo: int, hi: int, bound: int, tried: seq<int>, r: int)
    requires s.granularity > 0 && 0 <= lo && bound <= hi
    requires TriedDownTo(s, grants, lo, hi, bound, tried) && NearestBelow(s, lo, bound, r)
    ensures r == 0 || r in grants ==> GrantedBelow(s, grants, lo, hi, r)
    ensures r == 0 ==> TriedBelow(s, grants, lo, hi, 0, tried)
    ensures r != 0 && r in grants ==> TriedBelow(s, grants, lo, hi, r, tried + [r])
    ensures r != 0 && r !in grants ==> TriedDownTo(s, grants, lo, hi, r - s.granularity, tried + [r])
  {
    hide Aligned, Space.Candidate;
    forall x | s.Candidate(x)
      ensures x in tried ==> x !in grants
    {
      if x in tried {
        var i :| 0 <= i < |tried| && tried[i] == x;
      }
    }
    if r != 0 {
      forall i | 0 <= i < |tried|
        ensures tried[i] > r
      {
        assert tried[i] in tried;
      }
      forall x | r - s.granularity < x <= r && s.Candidate(x)
        ensures x == r
      {
        CandidatesApart(s, x, r);
      }
    }
  }

  lemma TryAbove(s: Space, grants: set<int>, lo: int, hi: int, bound: int, tried: seq<int>, r: int)
    requires s.granularity > 0 && 0 < lo <= bound
    requires TriedUpTo(s, grants, lo, hi, bound, tried) && NearestAbove(s, bound, hi, r)
    ensures r == 0 || r in grants ==> GrantedAbove(s, grants, lo, hi, r)
    ensures r == 0 ==> TriedAbove(s, grants, lo, hi, 0, tried)
    ensures r != 0 && r in grants ==> TriedAbove(s, grants, lo, hi, r, tried + [r])
    ensures r != 0 && r !in grants ==> TriedUpTo(s, grants, lo, hi, r + s.granularity, tried + [r])
  {
    hide Aligned, Space.Candidate;
    forall x | s.Candidate(x)
      ensures x in tried ==> x !in grants
    {
      if x in tried {
        var i :| 0 <= i < |tried| && tried[i] == x;
      }
    }
    if r != 0 {
      CandidateIsAligned(s, r);
      forall i | 0 <= i < |tried|
        ensures tried[i] < r
      {
        assert tried[i] in tried;
      }
      forall x | r <= x < r + s.granularity && s.Candidate(x)
        ensures x == r
      {
        CandidatesApart(s, r, x);
      }
    }
  }

  lemma CandidatesApart(s: Space, x: int, y: int)
    requires s.granularity > 0 && s.Candidate(x) && s.Candidate(y)
    ensures x < y ==> x <= y - s.granularity
  {
    hide Aligned;
    if x < y {
      AlignedGap(x, y, s.granularity);
    }
  }

  /** Tries the candidates below origin, nearest first, until VirtualAlloc succeeds. */
  method AllocateBelow(s: Space, origin: int, minAddr: int, grants: set<int>) returns (block: int, ghost tried: seq<int>)
    requires s.Valid() && 0 <= origin < TWO64 && 0 <= minAddr
    ensures var top := Down(origin, s.granularity) - s.granularity;
            if top < s.Limit() then GrantedBelow(s, grants, minAddr, top, block) else block == 0
    ensures var top := Down(origin, s.granularity) - s.granularity;
            if top < s.Limit() then TriedBelow(s, grants, minAddr, top, block, tried) else tried == []
  {
    hide Aligned, Down, Space.Candidate, TriedDownTo, TriedBelow, GrantedBelow;
    var g := s.granularity;
    ghost var top := Down(origin, g) - g;
    RoundsDown(origin, g);
    var alloc := origin;
    tried := [];
    NothingTried(s, grants, minAddr, top);
    while alloc >= minAddr
      invariant 0 <= alloc < TWO64 && Down(alloc, g) <= alloc && Down(alloc, g) - g <= top
      invariant alloc == origin || (Down(alloc, g) == alloc && minAddr <= alloc && top < s.Limit())
      invariant top < s.Limit() ==> TriedDownTo(s, grants, minAddr, top, Down(alloc, g) - g, tried)
      invariant s.Limit() <= top ==> tried == []
      decreases alloc
    {
      RoundsDown(alloc, g);
      ghost var bound := Down(alloc, g) - g;
      alloc := FindPrevFreeRegion(s, alloc, minAddr);
      if top < s.Limit() {
        TryBelow(s, grants, minAddr, top, bound, tried, alloc);
      }
      if alloc == 0 {
        return 0, tried;
      }
      tried := tried + [alloc];
      if alloc in grants {
        return alloc, tried;
      }
      CandidateIsAligned(s, alloc);
      DownOfAligned(alloc, g);
    }
    NoneBelow(s, grants, minAddr, top, Down(alloc, g) - g, tried);
    return 0, tried;
  }

  lemma NothingTried(s: Space, grants: set<int>, lo: int, hi: int)
    requires s.granularity > 0
    ensures TriedDownTo(s, grants, lo, hi, hi, []) && TriedUpTo(s, grants, lo, hi, lo, [])
  {
  }

  /** The search ends where the next place would be below lo. */
  lemma NoneBelow(s: Space, grants: set<int>, lo: int, hi: int, bound: int, tried: seq<int>)
    requires s.granularity > 0 && 0 <= lo && bound < lo && bound <= hi
    ensures TriedDownTo(s, grants, lo, hi, bound, tried) ==>
              GrantedBelow(s, grants, lo, hi, 0) && TriedBelow(s, grants, lo, hi, 0, tried)
  {
    hide Space.Candidate, Aligned;
    if TriedDownTo(s, grants, lo, hi, bound, tried) {
      TryBelow(s, grants, lo, hi, bound, tried, 0);
    }
  }

  /** Tries the candidates above origin, nearest first, until VirtualAlloc succeeds. */
  method AllocateAbove(s: Space, origin: int, maxAddr: int, grants: set<int>) returns (block: int, ghost tried: seq<int>)
    requires s.Valid() && 0 <= origin < TWO64 - 2 * s.granularity
    ensures GrantedAbove(s, grants, Down(origin, s.granularity) + s.granularity, maxAddr, block)
    ensures TriedAbove(s, grants, Down(origin, s.granularity) + s.granularity, maxAddr, block, tried)
  {
    hide Aligned, Down, Space.Candidate, TriedUpTo, TriedAbove, GrantedAbove;
    var g := s.granularity;
    ghost var bottom := Down(origin, g) + g;
    RoundsDown(origin, g);
    var alloc := origin;
    tried := [];
    NothingTried(s, grants, bottom, maxAddr);
    while alloc <= maxAddr
      invariant 0 <= alloc < Down(alloc, g) + g && bottom <= Down(alloc, g) + g
      invariant alloc == origin || (Down(alloc, g) == alloc && alloc <= maxAddr && alloc < s.Limit())
      invariant TriedUpTo(s, grants, bottom, maxAddr, Down(alloc, g) + g, tried)
      decreases maxAddr - alloc
    {
      RoundsDown(alloc, g);
      ghost var bound := Down(alloc, g) + g;
      alloc := FindNextFreeRegion(s, alloc, maxAddr);
      TryAbove(s, grants, bottom, maxAddr, bound, tried, alloc);
      if alloc == 0 {
        return 0, tried;
      }
      tried := tried + [alloc];
      if alloc in grants {
        return alloc, tried;
      }
      CandidateIsAligned(s, alloc);
      DownOfAligned(alloc, g);
    }
    NoneAbove(s, grants, bottom, maxAddr, Down(alloc, g) + g, tried);
    return 0, tried;
  }

  lemma NoneAbove(s: Space, grants: set<int>, lo: int, hi: int, bound: int, tried: seq<int>)
    requires s.granularity > 0 && hi < bound && 0 < lo <= bound && TriedUpTo(s, grants, lo, hi, bound, tried)
    ensures GrantedAbove(s, grants, lo, hi, 0) && TriedAbove(s, grants, lo, hi, 0, tried)
  {
    hide Space.Candidate, Aligned;
    TryAbove(s, grants, lo, hi, bound, tried, 0);
  }

  // ---------------------------------------------------------------------
  // VirtualAlloc and VirtualFree
  // ---------------------------------------------------------------------

  /** VirtualAlloc(a, PAGE_SIZE) has succeeded. */
  function Commit(s: Space, a: int): Space
    requires 0 <= a < s.Limit()
  {
    s.(pages := s.pages[a / PAGE_SIZE := Used(a, true)])
  }

  /** VirtualFree(a, 0, MEM_RELEASE). */
  function Decommit(s: Space, a: int): Space
  {
    s.(pages := seq(|s.pages|, i requires 0 <= i < |s.pages| =>
                      if s.pages[i].Used? && s.pages[i].allocationBase == a then Free else s.pages[i]))
  }

  lemma CandidateIsPage(s: Space, a: int)
    requires s.Valid() && s.Candidate(a)
    ensures a % PAGE_SIZE == 0
  {
    var q, r := a / s.granularity, s.granularity / PAGE_SIZE;
    assert a == q * (r * PAGE_SIZE) == q * r * PAGE_SIZE;
    MultipleOf(q * r, PAGE_SIZE);
  }

  lemma CommitKeeps(s: Space, a: int)
    requires s.Valid() && s.Candidate(a)
    ensures Commit(s, a).Valid()
  {
    hide Aligned;
    CandidateIsPage(s, a);
    var s' := Commit(s, a);
    forall i | 0 <= i < |s'.pages| && s'.pages[i].Used?
      ensures s'.OwnedFrom(s'.pages[i].allocationBase, i)
    {
      if i != a / PAGE_SIZE {
        assert s.OwnedFrom(s.pages[i].allocationBase, i);
      }
    }
  }

  lemma DecommitKeeps(s: Space, a: int)
    requires s.Valid()
    ensures Decommit(s, a).Valid()
  {
    hide Aligned;
    var s' := Decommit(s, a);
    forall i | 0 <= i < |s'.pages| && s'.pages[i].Used?
      ensures s'.OwnedFrom(s'.pages[i].allocationBase, i)
    {
      assert s.OwnedFrom(s.pages[i].allocationBase, i);
    }
  }

  /** The page committed at a candidate is an allocation of its own, and the others stay so. */
  lemma CommitOnePage(s: Space, a: int, b: int)
    requires s.Valid() && s.Candidate(a) && (b == a || s.OnePage(b))
    ensures Commit(s, a).OnePage(b)
  {
    hide Aligned;
    CandidateIsPage(s, a);
    var i := a / PAGE_SIZE + 1;
    if i < |s.pages| && s.pages[i].Used? {
      assert s.OwnedFrom(s.pages[i].allocationBase, i);
    }
  }

  /** Where the granularity is more than a page, nothing is allocated right behind a one-page allocation. */
  lemma NothingBehind(s: Space, b: int)
    requires s.Valid() && PAGE_SIZE < s.granularity && s.OnePage(b) && b % PAGE_SIZE == 0 && b + PAGE_SIZE < s.Limit()
    ensures s.pages[b / PAGE_SIZE + 1].Free?
  {
    hide Aligned;
    var i := b / PAGE_SIZE;
    assert s.OwnedFrom(b, i);
    if s.pages[i + 1].Used? {
      var base := s.pages[i + 1].allocationBase;
      assert s.OwnedFrom(base, i + 1);
      if base / PAGE_SIZE == i + 1 {
        AlignedGap(b, base, s.granularity);
      }
      assert false;
    }
  }

  /** Releasing a page that was free restores the address space. */
  lemma CommitThenDecommit(s: Space, a: int)
    requires s.Valid() && s.Candidate(a)
    ensures Decommit(Commit(s, a), a) == s
  {
    hide Aligned;
    CandidateIsPage(s, a);
    var s' := Decommit(Commit(s, a), a);
    forall i | 0 <= i < |s.pages|
      ensures s'.pages[i] == s.pages[i]
    {
      if s.pages[i].Used? {
        assert s.OwnedFrom(s.pages[i].allocationBase, i);
      }
    }
  }
}
