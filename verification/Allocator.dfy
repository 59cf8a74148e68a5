/** class Memory: slots of 64 bytes near an address.  src/memory.cpp:28-119, 197-334, 350-378. */
module Allocator {
  import opened Words
  import opened AddressSpace
  import opened SlotHeap

  /** The bounds of the application's address space, from GetSystemInfo. */
  datatype SystemInfo = SystemInfo(minAddress: int, maxAddress: int)
  {
    predicate Valid() {
      0 <= minAddress && BLOCK_SIZE <= maxAddress < USER_LIMIT
    }

    /** The least address of a block for origin. */
    function Low(origin: int): int {
      if origin > MAX_MEMORY_RANGE && minAddress < origin - MAX_MEMORY_RANGE then origin - MAX_MEMORY_RANGE else minAddress
    }

    /** The greatest address of a block for origin. */
    function High(origin: int): int {
      (if maxAddress > origin + MAX_MEMORY_RANGE then origin + MAX_MEMORY_RANGE else maxAddress) - (BLOCK_SIZE - 1)
    }
  }

  /** Every byte of a block at b is the application's, and less than 1 GiB from o. */
  ghost predicate Reachable(si: SystemInfo, o: int, b: int)
  {
    forall x :: b <= x < b + 0x1000 ==> NearByte(si, o, x)
  }

  ghost predicate NearByte(si: SystemInfo, o: int, x: int)
  {
    si.minAddress <= x < si.maxAddress && o - 0x4000_0000 <= x < o + 0x4000_0000
  }

  /** The limits of the lookup: the addresses of reachable blocks. */
  lemma RangeIff(si: SystemInfo, o: int, b: int)
    requires si.Valid() && 0 <= o < USER_LIMIT
    ensures si.Low(o) <= b < si.High(o) <==>
              && si.minAddress <= b && o - 0x4000_0000 <= b
              && b + 0xFFF < o + 0x4000_0000 && b + 0xFFF < si.maxAddress
    ensures si.Low(o) <= b < si.High(o) <==> Reachable(si, o, b)
  {
    if Reachable(si, o, b) {
      assert NearByte(si, o, b) && NearByte(si, o, b + 0xFFF);
    }
  }

  /** The limits of the searches: the application's addresses within 1 GiB of o; a block may also end at the last one, where
      the lookup does not find it again. */
  lemma SearchLimits(si: SystemInfo, o: int, b: int)
    requires si.Valid() && 0 <= o < USER_LIMIT
    ensures si.Low(o) <= b <==> si.minAddress <= b && o - 0x4000_0000 <= b
    ensures b <= si.High(o) <==> b + 0xFFF <= o + 0x4000_0000 && b + 0xFFF <= si.maxAddress
  {
  }

  // ---------------------------------------------------------------------
  // Looking for a registered block
  // ---------------------------------------------------------------------

  /** What the loop over the registered blocks comes to; Spins: it goes round on one block for ever. */
  datatype Lookup = Found(block: int) | NotFound | Spins

  function FirstUsable(blocks: seq<int>, free: map<int, seq<int>>, lo: int, hi: int): (r: Lookup)
    ensures r.Found? ==> r.block in blocks && r.block in free && free[r.block] != [] && lo <= r.block < hi
  {
    if blocks == [] then NotFound
    else
      var b := blocks[0];
      if b < lo || b >= hi then Spins
      else if b in free && free[b] != [] then Found(b)
      else FirstUsable(blocks[1..], free, lo, hi)
  }

  /** One round of the loop, on the block list in memory: it stands at a block, or has ended with a result. */
  datatype Cursor = AtBlock(block: int) | Done(result: Lookup)

  function LookupRound(m: Mem, c: Cursor, lo: int, hi: int): Cursor
  {
    match c
    case Done(_) => c
    case AtBlock(b) =>
      if b == 0 then Done(NotFound)
      else if b < lo || b >= hi then c
      else if Read64(m, b + FREE_OFFSET) != 0 then Done(Found(b))
      else AtBlock(Read64(m, b))
  }

  function LookupRounds(m: Mem, c: Cursor, lo: int, hi: int, n: nat): Cursor
    decreases n
  {
    if n == 0 then c else LookupRounds(m, LookupRound(m, c, lo, hi), lo, hi, n - 1)
  }

  lemma {:induction false} StuckForever(m: Mem, b: int, lo: int, hi: int, n: nat)
    requires b != 0 && (b < lo || b >= hi)
    ensures LookupRounds(m, AtBlock(b), lo, hi, n) == AtBlock(b)
  {
    if n > 0 {
      StuckForever(m, b, lo, hi, n - 1);
    }
  }

  /** b is out of range and every block before it is in range and full. */
  ghost predicate Blocked(h: Heap, lo: int, hi: int, i: int)
  {
    && 0 <= i < |h.blocks| && (h.blocks[i] < lo || h.blocks[i] >= hi)
    && forall j :: 0 <= j < i ==> h.blocks[j] in h.free && h.free[h.blocks[j]] == []
  }

  /** From block k on the rounds follow FirstUsable. */
  lemma {:induction false} LookupFrom(m: Mem, head: int, h: Heap, lo: int, hi: int, k: nat) returns (n: nat)
    requires HeapOk(m, head, h) && k <= |h.blocks|
    requires forall j :: 0 <= j < k ==> h.blocks[j] in h.free && h.free[h.blocks[j]] == []
    ensures var u := FirstUsable(h.blocks[k..], h.free, lo, hi);
            var start := AtBlock(First(h.blocks[k..]));
            if u.Spins? then (exists i :: Blocked(h, lo, hi, i)) && (forall j: nat :: !LookupRounds(m, start, lo, hi, j).Done?)
            else LookupRounds(m, start, lo, hi, n) == Done(u)
    decreases |h.blocks| - k
  {
    hide Read64, HeapOk, LookupRounds, Blocked;
    n := 1;
    if k < |h.blocks| {
      var b := h.blocks[k];
      var start := AtBlock(b);
      BlockAt(m, head, h, k);
      assert h.blocks[k..][0] == b && h.blocks[k..][1..] == h.blocks[k + 1..];
      OneRound(m, start, lo, hi, 0);
      if b < lo || b >= hi {
        BlockedAt(h, lo, hi, k);
        forall j: nat
          ensures !LookupRounds(m, start, lo, hi, j).Done?
        {
          StuckForever(m, b, lo, hi, j);
        }
      } else if h.free[b] == [] {
        n := LookupFrom(m, head, h, lo, hi, k + 1);
        var next := AtBlock(First(h.blocks[k + 1..]));
        assert LookupRound(m, start, lo, hi) == next;
        forall j: nat | FirstUsable(h.blocks[k + 1..], h.free, lo, hi).Spins?
          ensures !LookupRounds(m, start, lo, hi, j).Done?
        {
          if j == 0 {
            NoRound(m, start, lo, hi);
          } else {
            OneRound(m, start, lo, hi, j - 1);
          }
        }
        OneRound(m, start, lo, hi, n);
        n := n + 1;
      } else {
        NoRound(m, Done(Found(b)), lo, hi);
      }
    } else {
      OneRound(m, AtBlock(0), lo, hi, 0);
      NoRound(m, Done(NotFound), lo, hi);
    }
  }

  lemma OneRound(m: Mem, c: Cursor, lo: int, hi: int, n: nat)
    ensures LookupRounds(m, c, lo, hi, n + 1) == LookupRounds(m, LookupRound(m, c, lo, hi), lo, hi, n)
  {
  }

  lemma NoRound(m: Mem, c: Cursor, lo: int, hi: int)
    ensures LookupRounds(m, c, lo, hi, 0) == c
  {
  }

  lemma BlockedAt(h: Heap, lo: int, hi: int, k: nat)
    requires k < |h.blocks| && (h.blocks[k] < lo || h.blocks[k] >= hi)
    requires forall j :: 0 <= j < k ==> h.blocks[j] in h.free && h.free[h.blocks[j]] == []
    ensures exists i :: Blocked(h, lo, hi, i)
  {
    assert Blocked(h, lo, hi, k);
  }

  lemma BlockAt(m: Mem, head: int, h: Heap, k: nat)
    requires HeapOk(m, head, h) && k < |h.blocks|
    ensures var b := h.blocks[k];
            && b in h.free && b != 0 && Read64(m, b) == First(h.blocks[k + 1..])
            && (Read64(m, b + FREE_OFFSET) != 0 <==> h.free[b] != [])
  {
    hide Read64, BlockOk;
    assert h.blocks[k] in h.free;
    FreeNonzero(m, h.blocks[k], h.free[h.blocks[k]]);
  }

  lemma FreeNonzero(m: Mem, b: int, fs: seq<int>)
    requires IsBlock(b) && BlockOk(m, b, fs)
    ensures Read64(m, b + FREE_OFFSET) != 0 <==> fs != []
  {
    hide Read64;
    if fs != [] {
      assert IsSlot(b, fs[0]);
    }
  }

  lemma {:induction false} BlockedSpins(h: Heap, lo: int, hi: int, i: int, k: int)
    requires Blocked(h, lo, hi, i) && 0 <= k <= i
    ensures FirstUsable(h.blocks[k..], h.free, lo, hi).Spins?
    decreases i - k
  {
    assert h.blocks[k..][0] == h.blocks[k] && h.blocks[k..][1..] == h.blocks[k + 1..];
    if k < i && lo <= h.blocks[k] < hi {
      BlockedSpins(h, lo, hi, i, k + 1);
    }
  }

  /** The loop over the registered blocks ends exactly when no out-of-range block precedes the first usable one, and
      then it ends with that block. */
  lemma LookupEndsIff(m: Mem, head: int, h: Heap, lo: int, hi: int)
    requires HeapOk(m, head, h)
    ensures (exists n: nat :: LookupRounds(m, AtBlock(head), lo, hi, n).Done?) <==> !(exists i :: Blocked(h, lo, hi, i))
    ensures forall n: nat :: LookupRounds(m, AtBlock(head), lo, hi, n).Done? ==>
              LookupRounds(m, AtBlock(head), lo, hi, n).result == FirstUsable(h.blocks, h.free, lo, hi)
  {
    hide Read64, BlockOk, FirstUsable, LookupRound, IsBlock;
    var n := LookupFrom(m, head, h, lo, hi, 0);
    assert h.blocks[0..] == h.blocks;
    if i :| Blocked(h, lo, hi, i) {
      BlockedSpins(h, lo, hi, i, 0);
    }
    forall k: nat | LookupRounds(m, AtBlock(head), lo, hi, k).Done? && !FirstUsable(h.blocks, h.free, lo, hi).Spins?
      ensures LookupRounds(m, AtBlock(head), lo, hi, k) == LookupRounds(m, AtBlock(head), lo, hi, n)
    {
      DoneIsFinal(m, AtBlock(head), lo, hi, k, n);
    }
  }

  lemma {:induction false} DoneIsFinal(m: Mem, c: Cursor, lo: int, hi: int, k: nat, n: nat)
    requires LookupRounds(m, c, lo, hi, k).Done? && LookupRounds(m, c, lo, hi, n).Done?
    ensures LookupRounds(m, c, lo, hi, k) == LookupRounds(m, c, lo, hi, n)
    decreases k + n
  {
    if k == 0 {
      if n > 0 {
        DoneIsFinal(m, c, lo, hi, 0, n - 1);
      }
    } else if n == 0 {
      DoneIsFinal(m, c, lo, hi, k - 1, 0);
    } else {
      DoneIsFinal(m, LookupRound(m, c, lo, hi), lo, hi, k - 1, n - 1);
    }
  }

  // ---------------------------------------------------------------------
  // The allocator
  // ---------------------------------------------------------------------

  /** What AllocateBuffer does; Hangs where its lookup never ends. */
  datatype Outcome = Slot(address: int) | Null | Hangs

  /** The state that AllocateBuffer leaves, but for the bytes: the slot comes from the first usable registered block,
      or from a new block at the nearest candidate below origin, else above it, where VirtualAlloc succeeds. */
  ghost predicate Allocates(si: SystemInfo, grants: set<int>, origin: int, h: Heap, s: Space, r: Outcome, h': Heap, s': Space)
    requires s.Valid()
  {
    var lo, hi, g := si.Low(origin), si.High(origin), s.granularity;
    match FirstUsable(h.blocks, h.free, lo, hi)
    case Spins => r == Hangs && h' == h && s' == s
    case Found(b) => b in h.free && h.free[b] != [] && r == Slot(h.free[b][0]) && h' == Pop(h, b) && s' == s
    case NotFound =>
      match r
      case Hangs => false
      case Null =>
        && h' == h && s' == s
        && BlockBelow(s, grants, lo, origin, 0) && GrantedAbove(s, grants, Down(origin, g) + g, hi, 0)
      case Slot(a) =>
        var b := BlockOf(a);
        && 0 < b < s.Limit() && b !in h.free && a == SlotAt(b, SLOT_COUNT)
        && h' == Pop(Link(h, b), b) && s' == Commit(s, b)
        && (BlockBelow(s, grants, lo, origin, b)
            || (BlockBelow(s, grants, lo, origin, 0) && GrantedAbove(s, grants, Down(origin, g) + g, hi, b)))
  }

  /** b is the result of the search below origin, which fails at once for an origin outside the address space. */
  ghost predicate BlockBelow(s: Space, grants: set<int>, lo: int, origin: int, b: int)
    requires s.Valid()
  {
    var top := Down(origin, s.granularity) - s.granularity;
    if top < s.Limit() then GrantedBelow(s, grants, lo, top, b) else b == 0
  }

  /** Block i serves origin o: it is reachable and has a free slot, and the blocks before it are reachable and full. */
  ghost predicate Serving(si: SystemInfo, o: int, h: Heap, i: int)
  {
    && 0 <= i < |h.blocks| && Reachable(si, o, h.blocks[i]) && h.blocks[i] in h.free && h.free[h.blocks[i]] != []
    && forall j :: 0 <= j < i ==> Reachable(si, o, h.blocks[j]) && h.blocks[j] in h.free && h.free[h.blocks[j]] == []
  }

  /** Block i is out of reach, and the blocks before it are full. */
  ghost predicate InTheWay(si: SystemInfo, o: int, h: Heap, i: int)
  {
    && 0 <= i < |h.blocks| && !Reachable(si, o, h.blocks[i])
    && forall j :: 0 <= j < i ==> h.blocks[j] in h.free && h.free[h.blocks[j]] == []
  }

  lemma {:induction false} WalkFinds(h: Heap, lo: int, hi: int, i: int, k: int)
    requires 0 <= k <= i < |h.blocks| && lo <= h.blocks[i] < hi && h.blocks[i] in h.free && h.free[h.blocks[i]] != []
    requires forall j :: 0 <= j < i ==> lo <= h.blocks[j] < hi && h.blocks[j] in h.free && h.free[h.blocks[j]] == []
    ensures FirstUsable(h.blocks[k..], h.free, lo, hi) == Found(h.blocks[i])
    decreases i - k
  {
    assert h.blocks[k..][0] == h.blocks[k] && h.blocks[k..][1..] == h.blocks[k + 1..];
    if k < i {
      WalkFinds(h, lo, hi, i, k + 1);
    }
  }

  lemma {:induction false} WalkStops(h: Heap, lo: int, hi: int, k: int)
    requires 0 <= k <= |h.blocks| && forall j :: 0 <= j < |h.blocks| ==> h.blocks[j] in h.free
    requires forall j :: 0 <= j < k ==> h.free[h.blocks[j]] == []
    ensures FirstUsable(h.blocks[k..], h.free, lo, hi).Spins? ==> exists i :: Blocked(h, lo, hi, i)
    decreases |h.blocks| - k
  {
    if k < |h.blocks| {
      assert h.blocks[k..][0] == h.blocks[k] && h.blocks[k..][1..] == h.blocks[k + 1..];
      if h.blocks[k] < lo || h.blocks[k] >= hi {
        assert Blocked(h, lo, hi, k);
      } else if h.free[h.blocks[k]] == [] {
        WalkStops(h, lo, hi, k + 1);
      }
    }
  }

  /** Which registered block serves, and when the lookup goes round for ever, by reach. */
  lemma LookupByReach(si: SystemInfo, o: int, h: Heap)
    requires si.Valid() && 0 <= o < USER_LIMIT && forall j :: 0 <= j < |h.blocks| ==> h.blocks[j] in h.free
    ensures forall i :: Serving(si, o, h, i) ==> FirstUsable(h.blocks, h.free, si.Low(o), si.High(o)) == Found(h.blocks[i])
    ensures FirstUsable(h.blocks, h.free, si.Low(o), si.High(o)).Spins? <==> exists i :: InTheWay(si, o, h, i)
  {
    hide SystemInfo.Low, SystemInfo.High, Reachable, FirstUsable;
    var lo, hi := si.Low(o), si.High(o);
    forall b
      ensures lo <= b < hi <==> Reachable(si, o, b)
    {
      RangeIff(si, o, b);
    }
    assert h.blocks[0..] == h.blocks;
    forall i | Serving(si, o, h, i)
      ensures FirstUsable(h.blocks, h.free, lo, hi) == Found(h.blocks[i])
    {
      WalkFinds(h, lo, hi, i, 0);
    }
    WalkStops(h, lo, hi, 0);
    if i :| Blocked(h, lo, hi, i) {
      assert InTheWay(si, o, h, i);
    }
    if i :| InTheWay(si, o, h, i) {
      assert Blocked(h, lo, hi, i);
      BlockedSpins(h, lo, hi, i, 0);
    }
  }

  /** The same of an allocation. */
  lemma ServedByReach(si: SystemInfo, grants: set<int>, o: int, h: Heap, s: Space, r: Outcome, h': Heap, s': Space)
    requires s.Valid() && si.Valid() && 0 <= o < USER_LIMIT && Allocates(si, grants, o, h, s, r, h', s')
    requires forall j :: 0 <= j < |h.blocks| ==> h.blocks[j] in h.free
    ensures forall i :: Serving(si, o, h, i) ==> r == Slot(h.free[h.blocks[i]][0]) && h' == Pop(h, h.blocks[i]) && s' == s
    ensures r == Hangs <==> exists i :: InTheWay(si, o, h, i)
  {
    hide SystemInfo.Low, SystemInfo.High, Reachable, FirstUsable, Down, InTheWay;
    LookupByReach(si, o, h);
  }

  /** A place for a new block below o, or above it, where VirtualAlloc succeeds. */
  ghost predicate OfferBelow(si: SystemInfo, grants: set<int>, o: int, s: Space, x: int)
    requires s.granularity > 0
  {
    && 0 < x && x % s.granularity == 0 && s.FreeAt(x) && x in grants
    && si.minAddress <= x && o - 0x4000_0000 <= x && x + s.granularity <= o - o % s.granularity
  }

  ghost predicate OfferAbove(si: SystemInfo, grants: set<int>, o: int, s: Space, x: int)
    requires s.granularity > 0
  {
    && x % s.granularity == 0 && s.FreeAt(x) && x in grants
    && o - o % s.granularity + s.granularity <= x && x + 0xFFF <= o + 0x4000_0000 && x + 0xFFF <= si.maxAddress
  }

  lemma OfferMeans(si: SystemInfo, grants: set<int>, o: int, s: Space, x: int)
    requires s.Valid() && si.Valid() && 0 <= o < USER_LIMIT
    ensures var g := s.granularity;
            && (OfferBelow(si, grants, o, s, x)
                <==> si.Low(o) <= x <= Down(o, g) - g && 0 < x && s.Candidate(x) && x in grants)
            && (OfferAbove(si, grants, o, s, x)
                <==> Down(o, g) + g <= x <= si.High(o) && s.Candidate(x) && x in grants)
  {
    SearchLimits(si, o, x);
  }

  lemma {:induction false} WalkEnds(h: Heap, lo: int, hi: int, k: int)
    requires 0 <= k <= |h.blocks|
    requires forall j :: 0 <= j < |h.blocks| ==> lo <= h.blocks[j] < hi && h.blocks[j] in h.free && h.free[h.blocks[j]] == []
    ensures FirstUsable(h.blocks[k..], h.free, lo, hi) == NotFound
    decreases |h.blocks| - k
  {
    if k < |h.blocks| {
      assert h.blocks[k..][0] == h.blocks[k] && h.blocks[k..][1..] == h.blocks[k + 1..];
      WalkEnds(h, lo, hi, k + 1);
    }
  }

  /** Where all registered blocks are reachable and full, the slot is the last one of a new block: at the nearest place on
      offer below, else at the nearest one above; there is no slot exactly where nothing is on offer. */
  lemma NewBlockNearest(si: SystemInfo, grants: set<int>, o: int, h: Heap, s: Space, r: Outcome, h': Heap, s': Space)
    requires s.Valid() && si.Valid() && 0 <= o < USER_LIMIT && o < s.Limit() && Allocates(si, grants, o, h, s, r, h', s')
    requires forall j :: 0 <= j < |h.blocks| ==> Reachable(si, o, h.blocks[j]) && h.blocks[j] in h.free && h.free[h.blocks[j]] == []
    ensures r == Null ==> forall x :: !OfferBelow(si, grants, o, s, x) && !OfferAbove(si, grants, o, s, x)
    ensures r != Null ==>
              && r.Slot?
              && var b := r.address - 0xFC0;
                 || (b < o && OfferBelow(si, grants, o, s, b) && forall x :: OfferBelow(si, grants, o, s, x) ==> x <= b)
                 || (o < b && OfferAbove(si, grants, o, s, b)
                     && forall x :: !OfferBelow(si, grants, o, s, x) && (OfferAbove(si, grants, o, s, x) ==> b <= x))
  {
    hide SystemInfo.Low, SystemInfo.High, FirstUsable, OfferBelow, OfferAbove, Down, Space.Candidate, Reachable, SlotsBelow;
    var g := s.granularity;
    forall x
      ensures OfferBelow(si, grants, o, s, x)
              <==> si.Low(o) <= x <= Down(o, g) - g && 0 < x && s.Candidate(x) && x in grants
      ensures OfferAbove(si, grants, o, s, x)
              <==> Down(o, g) + g <= x <= si.High(o) && s.Candidate(x) && x in grants
    {
      OfferMeans(si, grants, o, s, x);
    }
    forall b
      ensures si.Low(o) <= b < si.High(o) <==> Reachable(si, o, b)
    {
      RangeIff(si, o, b);
    }
    WalkEnds(h, si.Low(o), si.High(o), 0);
    assert h.blocks[0..] == h.blocks;
    RoundsDown(o, g);
  }

  /** A slot allocated for origin lies, with all of its bytes, within MAX_MEMORY_RANGE of it. */
  lemma WithinReach(si: SystemInfo, grants: set<int>, origin: int, m: Mem, head: int, h: Heap, s: Space, a: int, h': Heap, s': Space)
    requires s.Valid() && si.Valid() && 0 <= origin < USER_LIMIT && HeapOk(m, head, h)
    requires Allocates(si, grants, origin, h, s, Slot(a), h', s')
    ensures origin - MAX_MEMORY_RANGE <= a && a + SLOT_SIZE - 1 <= origin + MAX_MEMORY_RANGE
  {
    hide Read64, Aligned, Down, FirstUsable;
    RoundsDown(origin, s.granularity);
    var f := FirstUsable(h.blocks, h.free, si.Low(origin), si.High(origin));
    if f.Found? {
      assert BlockOk(m, f.block, h.free[f.block]);
      SlotInBlock(f.block, a);
    }
  }

  /** Allocating and freeing again restores the allocator's state: the free list of a registered block, or the block
      list and the address space when the block was new. */
  lemma AllocateThenFree(si: SystemInfo, grants: set<int>, origin: int, m: Mem, head: int, h: Heap, s: Space, a: int, h': Heap, s': Space)
    requires s.Valid() && si.Valid() && 0 <= origin < USER_LIMIT && HeapOk(m, head, h)
    requires forall b :: b in h.free ==> |h.free[b]| < SLOT_COUNT
    requires Allocates(si, grants, origin, h, s, Slot(a), h', s')
    ensures BlockOf(a) in h'.free && BlockOf(a) in h'.blocks && Release(h', a) == h
    ensures s == if BlockOf(a) in h.free then s' else Decommit(s', BlockOf(a))
  {
    hide Read64, Aligned, Down, FirstUsable, BlockOf, Release, IsSlot, Commit, Decommit, SlotsBelow;
    var f := FirstUsable(h.blocks, h.free, si.Low(origin), si.High(origin));
    if f.Found? {
      PopThenRelease(m, head, h, f.block);
    } else {
      var b := BlockOf(a);
      CandidateIsPage(s, b);
      LinkThenRelease(h, b);
      CommitThenDecommit(s, b);
    }
  }

  /** How the lookup comes to loop for ever: after one allocation into an empty allocator, any allocation for an origin
      more than twice the range away does, whatever else is free. */
  lemma FarOriginHangs(si: SystemInfo, grants: set<int>, o1: int, s: Space, a: int, h1: Heap, s1: Space,
                       grants2: set<int>, o2: int, r: Outcome, h2: Heap, s2: Space)
    requires s.Valid() && si.Valid() && s1.Valid() && 0 <= o1 < USER_LIMIT && 0 <= o2 < USER_LIMIT
    requires Allocates(si, grants, o1, EMPTY_HEAP, s, Slot(a), h1, s1)
    requires o2 > o1 + 2 * MAX_MEMORY_RANGE || o2 < o1 - 2 * MAX_MEMORY_RANGE
    requires Allocates(si, grants2, o2, h1, s1, r, h2, s2)
    ensures r == Hangs
  {
    hide Aligned, Down, BlockOf, SlotsBelow;
    RoundsDown(o1, s.granularity);
    var b := BlockOf(a);
    assert h1.blocks == [b];
    assert FirstUsable(h1.blocks, h1.free, si.Low(o2), si.High(o2)) == Spins;
  }

  /** Another way, without a second function: the searches go one address further than the lookup.  After one allocation
      into an empty allocator the next one for the same origin loops exactly where the new block ends at the last address
      of the range, or of the application. */
  lemma EdgeBlockHangsIff(si: SystemInfo, grants: set<int>, o: int, s: Space, a: int, h1: Heap, s1: Space,
                          grants2: set<int>, r: Outcome, h2: Heap, s2: Space)
    requires s.Valid() && si.Valid() && s1.Valid() && 0 <= o < USER_LIMIT && si.minAddress <= o < s.Limit()
    requires Allocates(si, grants, o, EMPTY_HEAP, s, Slot(a), h1, s1)
    requires Allocates(si, grants2, o, h1, s1, r, h2, s2)
    ensures r == Hangs <==> BlockOf(a) + 0xFFF == o + 0x4000_0000 || BlockOf(a) + 0xFFF >= si.maxAddress
  {
    hide Aligned, Down, BlockOf, SlotsBelow, Reachable, OfferBelow, OfferAbove, SystemInfo.Low, SystemInfo.High;
    var b := BlockOf(a);
    NewBlockNearest(si, grants, o, EMPTY_HEAP, s, Slot(a), h1, s1);
    FirstBlock(si, grants, o, s, a, h1, s1);
    OfferNear(si, grants, o, s, b);
    RangeIff(si, o, b);
    ServedByReach(si, grants2, o, h1, s1, r, h2, s2);
    if !Reachable(si, o, b) {
      assert InTheWay(si, o, h1, 0);
    }
  }

  lemma FirstBlock(si: SystemInfo, grants: set<int>, o: int, s: Space, a: int, h1: Heap, s1: Space)
    requires s.Valid() && Allocates(si, grants, o, EMPTY_HEAP, s, Slot(a), h1, s1)
    ensures h1.blocks == [BlockOf(a)] && BlockOf(a) in h1.free && a == BlockOf(a) + 0xFC0
  {
    hide Aligned, Down, BlockOf, SlotsBelow;
  }

  lemma OfferNear(si: SystemInfo, grants: set<int>, o: int, s: Space, b: int)
    requires s.Valid() && si.Valid() && si.minAddress <= o
    ensures OfferBelow(si, grants, o, s, b) ==> si.minAddress <= b && o - 0x4000_0000 <= b && b + 0xFFF < o + 0x4000_0000
    ensures OfferAbove(si, grants, o, s, b) ==>
              si.minAddress <= b && o - 0x4000_0000 <= b && b + 0xFFF <= o + 0x4000_0000 && b + 0xFFF <= si.maxAddress
  {
  }

  class Memory {
    /** All memory of the process, the blocks included. */
    var mem: Mem
    /** memory_blocks_. */
    var memoryBlocks: int
    var space: Space
    ghost var heap: Heap

    constructor (m: Mem, s: Space)
      requires s.Valid()
      ensures Valid() && heap == EMPTY_HEAP && mem == m && space == s
    {
      mem, memoryBlocks, space, heap := m, 0, s, EMPTY_HEAP;
    }

    /** The block list, headers and free lists stand in memory; every registered block is a page of its own and
        has a slot in use. */
    ghost predicate Valid()
      reads this
    {
      && space.Valid()
      && HeapOk(mem, memoryBlocks, heap)
      && (forall b :: b in heap.free ==> space.OnePage(b) && |heap.free[b]| < SLOT_COUNT)
    }

    ghost function State(): HeapState
      reads this
    {
      HeapState(mem, memoryBlocks, heap)
    }

    /** Memory outside block b is untouched. */
    twostate predicate OnlyBlock(b: int)
      reads this
    {
      forall x {:trigger mem(x)} :: x < b || b + BLOCK_SIZE <= x ==> mem(x) == old(mem)(x)
    }

    // -------------------------------------------------------------------
    // Byte stores, include/memory.h:138-155
    // -------------------------------------------------------------------

    /** Patch and Copy: data goes to address, byte by byte. */
    method Patch(address: int, data: seq<byte>)
      modifies this`mem
      ensures forall x {:trigger mem(x)} :: mem(x) == Write(old(mem), address, data)(x)
    {
      var i := 0;
      while i < |data|
        invariant 0 <= i <= |data|
        invariant forall x {:trigger mem(x)} :: mem(x) == if address <= x < address + i then data[x - address] else old(mem)(x)
      {
        mem := Set(mem, address + i, data[i]);
        i := i + 1;
      }
    }

    /** IsCodePadding. */
    method IsCodePadding(pInst: int, size: int) returns (r: bool)
      requires size >= 1
      ensures r == IsPadding(mem, pInst, size)
      ensures r <==> && (mem(pInst) == 0x00 || mem(pInst) == 0x90 || mem(pInst) == 0xCC)
                     && forall x {:trigger mem(x)} :: pInst <= x < pInst + size ==> mem(x) == mem(pInst)
    {
      var b := mem(pInst);
      if b != 0x00 && b != 0x90 && b != 0xCC {
        return false;
      }
      var i := 1;
      while i < size
        invariant 1 <= i <= size
        invariant forall x :: pInst <= x < pInst + i ==> mem(x) == b
      {
        if mem(pInst + i) != b {
          return false;
        }
        i := i + 1;
      }
      return true;
    }

    method Store64(address: int, v: int)
      requires 0 <= v < TWO64
      modifies this`mem
      ensures Stored(old(mem), mem, address, v) && Updated(old(mem), mem, address, v)
      ensures forall x {:trigger mem(x)} :: x < address || address + 8 <= x ==> mem(x) == old(mem)(x)
    {
      Patch(address, Bytes8(v));
      StoredUpdates(old(mem), mem, address, v);
    }

    // -------------------------------------------------------------------
    // GetMemoryBlock
    // -------------------------------------------------------------------

    method FindRegistered(lo: int, hi: int) returns (r: Lookup)
      requires HeapOk(mem, memoryBlocks, heap)
      ensures r == FirstUsable(heap.blocks, heap.free, lo, hi)
    {
      hide Read64, HeapOk, FirstUsable;
      var block := memoryBlocks;
      ghost var k := 0;
      assert heap.blocks[0..] == heap.blocks;
      ListStart(mem, memoryBlocks, heap);
      while block != 0
        invariant 0 <= k <= |heap.blocks| && block == (if k < |heap.blocks| then heap.blocks[k] else 0)
        invariant FirstUsable(heap.blocks, heap.free, lo, hi) == FirstUsable(heap.blocks[k..], heap.free, lo, hi)
        decreases |heap.blocks| - k
      {
        UsableFrom(heap, lo, hi, k);
        ListNext(mem, memoryBlocks, heap, k);
        if block < lo || block >= hi {
          // the round starts again on the same block
          return Spins;
        }
        if Read64(mem, block + FREE_OFFSET) != 0 {
          return Found(block);
        }
        block := Read64(mem, block);
        k := k + 1;
      }
      UsableEnd(heap, lo, hi);
      assert heap.blocks[k..] == heap.blocks[|heap.blocks|..];
      return NotFound;
    }

    lemma UsableFrom(h: Heap, lo: int, hi: int, k: int)
      requires 0 <= k < |h.blocks|
      ensures FirstUsable(h.blocks[k..], h.free, lo, hi)
           == (var b := h.blocks[k];
               if b < lo || b >= hi then Spins
               else if b in h.free && h.free[b] != [] then Found(b)
               else FirstUsable(h.blocks[k + 1..], h.free, lo, hi))
    {
      assert h.blocks[k..][0] == h.blocks[k] && h.blocks[k..][1..] == h.blocks[k + 1..];
    }

    lemma UsableEnd(h: Heap, lo: int, hi: int)
      ensures FirstUsable(h.blocks[|h.blocks|..], h.free, lo, hi) == NotFound
    {
    }

    /** Builds the list of all slots of the new block. */
    method BuildBlock(block: int)
      requires IsBlock(block) && 0 <= memoryBlocks < TWO64
      modifies this`mem
      ensures BlockOk(mem, block, SlotsBelow(block, SLOT_COUNT + 1)) && Read64(mem, block) == memoryBlocks
      ensures OnlyBlock(block)
    {
      hide Read64, Bytes8, BlockOf, Linked, SlotsBelow, BlockOk, Stored;
      Store64(block + FREE_OFFSET, 0);
      Store64(block + COUNT_OFFSET, 0);
      EmptyList(mem, block);
      var slot := block + SLOT_SIZE;
      ghost var k := 1;
      var more := true;
      while more
        invariant 1 <= k <= SLOT_COUNT + 1 && slot == SlotAt(block, k) && more == (k <= SLOT_COUNT)
        invariant Linked(mem, Read64(mem, block + FREE_OFFSET), SlotsBelow(block, k))
        invariant Read64(mem, block + COUNT_OFFSET) == 0
        invariant OnlyBlock(block)
        decreases SLOT_COUNT + 1 - k
      {
        ghost var m := mem;
        Store64(slot, Read64(mem, block + FREE_OFFSET));
        ghost var m1 := mem;
        Store64(block + FREE_OFFSET, slot);
        BuildStep(m, m1, mem, block, k);
        slot := slot + SLOT_SIZE;
        k := k + 1;
        more := slot - block <= BLOCK_SIZE - SLOT_SIZE;
      }
      FullList(mem, block);
      ghost var m := mem;
      Store64(block, memoryBlocks);
      LinkOnly(m, mem, block, block, SlotsBelow(block, SLOT_COUNT + 1));
    }

    lemma EmptyList(m: Mem, b: int)
      requires Read64(m, b + FREE_OFFSET) == 0
      ensures Linked(m, Read64(m, b + FREE_OFFSET), SlotsBelow(b, 1))
    {
      hide Read64;
    }

    lemma FullList(m: Mem, b: int)
      requires Linked(m, Read64(m, b + FREE_OFFSET), SlotsBelow(b, SLOT_COUNT + 1)) && Read64(m, b + COUNT_OFFSET) == 0
      ensures BlockOk(m, b, SlotsBelow(b, SLOT_COUNT + 1))
    {
      hide Read64, Linked, SlotsOf;
      SlotsBelowOk(b, SLOT_COUNT + 1);
    }

    /** Everything but the last clause of Valid. */
    ghost predicate Sound()
      reads this
    {
      && space.Valid()
      && HeapOk(mem, memoryBlocks, heap)
      && (forall b :: b in heap.free ==> space.OnePage(b))
    }

    /** What GetMemoryBlock leaves: nothing changed, or the new block b registered. */
    twostate predicate Registers(b: int)
      reads this
    {
      && b !in old(heap).free && 0 < b < old(space).Limit() && b % BLOCK_SIZE == 0
      && heap == Link(old(heap), b) && space == Commit(old(space), b) && OnlyBlock(b)
      && LinkStep(old(State()), State(), b)
    }

    twostate predicate SameState()
      reads this
    {
      mem == old(mem) && memoryBlocks == old(memoryBlocks) && space == old(space) && heap == old(heap)
    }

    /** Builds the free list of a new block and puts it in front of the list of blocks. */
    method RegisterBlock(block: int)
      requires Sound() && space.Candidate(block) && block != 0
      modifies this
      ensures Sound() && Registers(block)
    {
      hide Read64, Aligned, BlockOk, SlotsBelow, IsSlot, HeapOk, Space.Valid;
      NewBlock(space, heap, block);
      CommitKeeps(space, block);
      ghost var s, s0 := State(), space;
      BuildBlock(block);
      space := Commit(space, block);
      heap := Link(heap, block);
      memoryBlocks := block;
      LinkStepKeeps(s, State(), block);
      forall b | b in heap.free
        ensures space.OnePage(b)
      {
        CommitOnePage(s0, block, b);
      }
    }

    method GetMemoryBlock(origin: int, si: SystemInfo, grants: set<int>) returns (r: Lookup)
      requires Valid() && si.Valid() && 0 <= origin < USER_LIMIT
      modifies this
      ensures Sound()
      ensures var lo, hi, g := si.Low(origin), si.High(origin), old(space).granularity;
              match FirstUsable(old(heap).blocks, old(heap).free, lo, hi)
              case NotFound =>
                (match r
                 case NotFound =>
                   SameState() && BlockBelow(old(space), grants, lo, origin, 0)
                   && GrantedAbove(old(space), grants, Down(origin, g) + g, hi, 0)
                 case Found(b) =>
                   Registers(b)
                   && (BlockBelow(old(space), grants, lo, origin, b)
                       || (BlockBelow(old(space), grants, lo, origin, 0)
                           && GrantedAbove(old(space), grants, Down(origin, g) + g, hi, b)))
                 case Spins => false)
              case f => SameState() && r == f
      ensures forall i :: Serving(si, origin, old(heap), i) ==> r == Found(old(heap).blocks[i]) && SameState()
      ensures r == Spins <==> exists i :: InTheWay(si, origin, old(heap), i)
    {
      hide Aligned, Down, FirstUsable, HeapOk, LinkStep, Space.OnePage, Serving, InTheWay, Reachable;
      BlocksInFree(mem, memoryBlocks, heap);
      LookupByReach(si, origin, heap);
      var minAddr, maxAddr := si.Low(origin), si.High(origin);
      r := FindRegistered(minAddr, maxAddr);
      if r != NotFound {
        return;
      }
      ghost var tried;
      var block;
      block, tried := AllocateBelow(space, origin, minAddr, grants);
      if block == 0 {
        block, tried := AllocateAbove(space, origin, maxAddr, grants);
      }
      if block != 0 {
        RegisterBlock(block);
        r := Found(block);
      }
    }

    lemma BlocksInFree(m: Mem, head: int, h: Heap)
      requires HeapOk(m, head, h)
      ensures forall j :: 0 <= j < |h.blocks| ==> h.blocks[j] in h.free
    {
      hide Read64, BlockOk;
    }

    /** A candidate is a page that no registered block occupies. */
    lemma NewBlock(s: Space, h: Heap, b: int)
      requires Sound() && s == space && h == heap && s.Candidate(b) && b != 0
      ensures IsBlock(b) && b !in h.free && 0 < b < s.Limit() && 0 <= memoryBlocks < TWO64
    {
      hide Read64, Aligned, BlockOk, IsSlot;
      CandidateIsPage(s, b);
      if h.blocks != [] {
        assert h.blocks[0] in h.free;
      }
    }

    /** Only the header of block b has changed. */
    twostate predicate OnlyHeader(b: int)
      reads this
    {
      forall x {:trigger mem(x)} :: x < b || b + SLOT_SIZE <= x ==> mem(x) == old(mem)(x)
    }

    /** Removes the first unused slot from the list of the block. */
    method TakeSlot(block: int) returns (slot: int)
      requires Sound() && block in heap.free && heap.free[block] != []
      modifies this`mem, this`heap
      ensures Sound() && heap == Pop(old(heap), block) && slot == old(heap).free[block][0]
      ensures OnlyHeader(block)
      ensures exists m1 :: PopStep(old(State()), State(), block, m1)
    {
      hide Read64, Aligned, BlockOf, IsSlot, Bytes8, Stored, HeapOk, Space.Valid, Space.OnePage;
      ghost var s := State();
      HeadOfFree(mem, memoryBlocks, heap, block);
      slot := Read64(mem, block + FREE_OFFSET);
      Store64(block + FREE_OFFSET, Read64(mem, slot));
      ghost var m1 := mem;
      Store64(block + COUNT_OFFSET, Read64(mem, block + COUNT_OFFSET) + 1);
      heap := Pop(heap, block);
      assert PopStep(s, State(), block, m1);
      PopStepKeeps(s, State(), block, m1);
    }

    /** Bytes of slots in use lie outside the headers and outside new blocks. */
    lemma LiveOutside(m: Mem, head: int, h: Heap, u: int, b: int)
      requires HeapOk(m, head, h) && Live(h, u)
      ensures u + SLOT_SIZE <= BlockOf(u) + BLOCK_SIZE && BlockOf(u) + SLOT_SIZE <= u
      ensures IsBlock(b) && b !in h.free ==> u + SLOT_SIZE <= b || b + BLOCK_SIZE <= u
      ensures IsBlock(b) && b in h.free ==> u + SLOT_SIZE <= b || b + SLOT_SIZE <= u
    {
      hide Read64, BlockOk;
      SlotInBlock(BlockOf(u), u);
      if IsBlock(b) && b != BlockOf(u) {
        BlocksApart(b, BlockOf(u));
      }
    }

    lemma PoppedIsLive(m: Mem, head: int, h: Heap, b: int)
      requires HeapOk(m, head, h) && b in h.free && h.free[b] != []
      ensures var s := h.free[b][0]; BlockOf(s) == b && Live(Pop(h, b), s) && !Live(h, s) && IsBlock(b)
    {
      hide Read64;
      SlotInBlock(b, h.free[b][0]);
      TailOk(b, h.free[b]);
    }

    method AllocateBuffer(origin: int, si: SystemInfo, grants: set<int>) returns (r: Outcome)
      requires Valid() && si.Valid() && 0 <= origin < USER_LIMIT
      modifies this
      ensures Valid()
      ensures Allocates(si, grants, origin, old(heap), old(space), r, heap, space)
      ensures forall i :: Serving(si, origin, old(heap), i) ==> r == Slot(old(heap).free[old(heap).blocks[i]][0])
      ensures r == Hangs <==> exists i :: InTheWay(si, origin, old(heap), i)
      ensures !r.Slot? ==> SameState()
      ensures r.Slot? ==> Live(heap, r.address) && !Live(old(heap), r.address)
      ensures r.Slot? ==> OnlyBlock(BlockOf(r.address))
      ensures forall u, x :: Live(old(heap), u) && u <= x < u + SLOT_SIZE ==> mem(x) == old(mem)(x)
    {
      hide Read64, Aligned, Down, FirstUsable, BlockOf, IsSlot, HeapOk, SlotsBelow, GrantedAbove, BlockBelow, Live, LinkStep,
           InTheWay, Reachable;
      ghost var m0, head0, h0 := mem, memoryBlocks, heap;
      var b := GetMemoryBlock(origin, si, grants);
      match b
      case Spins =>
        return Hangs;
      case NotFound =>
        return Null;
      case Found(block) =>
        NewListStart(block);
        PoppedIsLive(mem, memoryBlocks, heap, block);
        var slot := TakeSlot(block);
        NotLiveElsewhere(h0, block, slot);
        forall u, x | Live(h0, u) && u <= x < u + SLOT_SIZE
          ensures mem(x) == m0(x)
        {
          LiveOutside(m0, head0, h0, u, block);
        }
        r := Slot(slot);
    }

    lemma NewListStart(b: int)
      ensures SlotsBelow(b, SLOT_COUNT + 1) != [] && SlotsBelow(b, SLOT_COUNT + 1)[0] == SlotAt(b, SLOT_COUNT)
    {
    }

    lemma NotLiveElsewhere(h: Heap, b: int, s: int)
      requires BlockOf(s) == b
      ensures b !in h.free ==> !Live(h, s)
    {
    }

    // -------------------------------------------------------------------
    // FreeBuffer
    // -------------------------------------------------------------------

    /** Puts the slot back in front of its block's list.  Nothing is checked: for an address that is no live slot the
        same stores are made. */
    method ReturnSlot(slot: int)
      requires Sound() && BlockOf(slot) in heap.free
      modifies this`mem, this`heap
      ensures old(Live(heap, slot)) ==> Sound() && heap == Push(old(heap), slot)
      ensures old(Live(heap, slot)) ==> Read64(mem, BlockOf(slot) + COUNT_OFFSET) == SLOT_COUNT - |heap.free[BlockOf(slot)]|
      ensures old(Live(heap, slot)) ==> exists m1, m2 :: PushStep(old(State()), State(), slot, m1, m2)
      ensures !old(Live(heap, slot)) ==> heap == old(heap) && forall fs :: !BlockOk(mem, BlockOf(slot), fs)
      ensures forall x {:trigger mem(x)} ::
                (x < BlockOf(slot) || BlockOf(slot) + SLOT_SIZE <= x) && (x < slot || slot + SLOT_SIZE <= x) ==> mem(x) == old(mem)(x)
    {
      hide Read64, Aligned, BlockOf, IsSlot, Bytes8, Stored, HeapOk, Live, Space.Valid, Space.OnePage, BlockOk;
      ghost var s := State();
      var block := BlockOf(slot);
      RegisteredBlock(mem, slot);
      Store64(slot, Read64(mem, block + FREE_OFFSET));
      ghost var m1 := mem;
      Store64(block + FREE_OFFSET, slot);
      ghost var m2 := mem;
      Store64(block + COUNT_OFFSET, Wrap64(Read64(mem, block + COUNT_OFFSET) - 1));
      if Live(heap, slot) {
        ReturnApart(s.mem, slot);
        heap := Push(heap, slot);
        assert PushStep(s, State(), slot, m1, m2);
        PushStepKeeps(s, State(), slot, m1, m2);
        ReturnCount(slot);
      } else {
        assert PushStores(s.mem, m1, m2, mem, slot);
        forall fs
          ensures !BlockOk(mem, BlockOf(slot), fs)
        {
          FreeingTwiceBreaks(s.mem, m1, m2, mem, memoryBlocks, heap, slot, fs);
        }
      }
    }

    lemma RegisteredBlock(m: Mem, slot: int)
      requires HeapOk(m, memoryBlocks, heap) && BlockOf(slot) in heap.free
      ensures var b := BlockOf(slot);
              IsBlock(b) && b <= slot < b + BLOCK_SIZE && 0 < slot < TWO64
    {
      hide Read64, BlockOk, Linked;
      AddressInBlock(slot);
    }

    lemma ReturnCount(slot: int)
      requires HeapOk(mem, memoryBlocks, heap) && BlockOf(slot) in heap.free
      ensures Read64(mem, BlockOf(slot) + COUNT_OFFSET) == SLOT_COUNT - |heap.free[BlockOf(slot)]|
    {
      hide Read64, BlockOf, Linked, SlotsOf;
      assert BlockOk(mem, BlockOf(slot), heap.free[BlockOf(slot)]);
    }

    lemma ReturnApart(m: Mem, slot: int)
      requires HeapOk(m, memoryBlocks, heap) && Live(heap, slot)
      ensures var b := BlockOf(slot);
              && b in heap.free && IsBlock(b) && b + SLOT_SIZE <= slot < b + BLOCK_SIZE
              && 1 <= Read64(m, b + COUNT_OFFSET) == SLOT_COUNT - |heap.free[b]|
    {
      hide Read64, BlockOf;
      SlotInBlock(BlockOf(slot), slot);
      LiveAndFree(m, memoryBlocks, heap, BlockOf(slot));
      assert slot in LiveSlots(heap, BlockOf(slot));
    }

    /** The slot goes back to its block, and a block without slots in use goes back to the system. */
    method GiveBack(buffer: int, block: int, prevBlock: int)
      requires Valid() && block == BlockOf(buffer) && block in heap.blocks && block in heap.free
      requires var i := IndexOf(heap.blocks, block); prevBlock == if i == 0 then 0 else heap.blocks[i - 1]
      modifies this
      ensures old(Live(heap, buffer)) ==>
                && Valid() && heap == Release(old(heap), buffer)
                && space == (if block in heap.free then old(space) else Decommit(old(space), block))
                && forall u, x :: Live(old(heap), u) && u != buffer && u <= x < u + SLOT_SIZE ==> mem(x) == old(mem)(x)
      ensures !old(Live(heap, buffer)) ==> heap == old(heap) && Broken(block)
    {
      hide Read64, Aligned, BlockOf, HeapOk, Live, IndexOf, Space.Valid, Space.OnePage, BlockOk;
      ghost var m0, head0, h0 := mem, memoryBlocks, heap;
      ghost var live := Live(heap, buffer);
      ReturnSlot(buffer);
      var useCount := Read64(mem, block + COUNT_OFFSET);
      if useCount == 0 {
        UnlinkBlock(block, prevBlock, live);
      }
      BlocksAreBlocks(m0, head0, h0);
      if live {
        forall u, x | Live(h0, u) && u != buffer && u <= x < u + SLOT_SIZE
          ensures mem(x) == m0(x)
        {
          LiveOutside(m0, head0, h0, u, block);
          if prevBlock != 0 {
            LiveOutside(m0, head0, h0, u, prevBlock);
          }
          LivesApart(h0, u, buffer);
        }
      } else {
        SomeLive(m0, head0, h0, block);
      }
    }

    /** What freeing an address that is no live slot leaves of its block: no free list any more, or, if the counter came
        to 0, no page, although a slot of it is in use. */
    twostate predicate Broken(block: int)
      reads this
    {
      || (space == old(space) && forall fs :: !BlockOk(mem, block, fs))
      || (space == Decommit(old(space), block) && exists u :: BlockOf(u) == block && Live(old(heap), u))
    }

    lemma SomeLive(m: Mem, head: int, h: Heap, b: int)
      requires HeapOk(m, head, h) && b in h.free && |h.free[b]| < SLOT_COUNT
      ensures exists u :: BlockOf(u) == b && Live(h, u)
    {
      hide Read64, BlockOf, IsSlot, Live;
      LiveAndFree(m, head, h, b);
      var u :| u in LiveSlots(h, b);
      SlotInBlock(b, u);
    }

    method FreeBuffer(buffer: int)
      requires Valid()
      modifies this
      ensures Valid() <==> (BlockOf(buffer) in old(heap).free ==> Live(old(heap), buffer))
      ensures BlockOf(buffer) !in old(heap).free ==> SameState()
      ensures Live(old(heap), buffer) ==>
                && BlockOf(buffer) in old(heap).blocks
                && heap == Release(old(heap), buffer)
                && (space == if BlockOf(buffer) in heap.free then old(space) else Decommit(old(space), BlockOf(buffer)))
                && forall u, x :: Live(old(heap), u) && u != buffer && u <= x < u + SLOT_SIZE ==> mem(x) == old(mem)(x)
      ensures BlockOf(buffer) in old(heap).free && !Live(old(heap), buffer) ==> heap == old(heap) && Broken(BlockOf(buffer))
    {
      hide Read64, Aligned, BlockOf, Live, HeapOk, IndexOf, Release, Space.Valid, Space.OnePage, Decommit, BlockOk;
      var block, prevBlock := memoryBlocks, 0;
      var targetBlock := BlockOf(buffer);
      ghost var k, h0 := 0, heap;
      assert h0.blocks[0..] == h0.blocks;
      ListStart(mem, memoryBlocks, heap);
      LiveIsRegistered(heap, buffer);
      while block != 0
        invariant 0 <= k <= |h0.blocks| && block == (if k < |h0.blocks| then h0.blocks[k] else 0)
        invariant prevBlock == if k == 0 then 0 else h0.blocks[k - 1]
        invariant forall j :: 0 <= j < k ==> h0.blocks[j] != targetBlock
        invariant SameState()
        decreases |h0.blocks| - k
      {
        if block == targetBlock {
          IndexIs(heap.blocks, block, k);
          ListNext(mem, memoryBlocks, heap, k);
          GiveBack(buffer, block, prevBlock);
          if !Live(h0, buffer) {
            BrokenIsInvalid(block);
          }
          return;
        }
        ListNext(mem, memoryBlocks, heap, k);
        prevBlock := block;
        block := Read64(mem, block);
        k := k + 1;
      }
      NotRegistered(mem, memoryBlocks, heap, targetBlock);
    }

    lemma LiveIsRegistered(h: Heap, s: int)
      ensures Live(h, s) ==> BlockOf(s) in h.free
    {
    }

    twostate lemma BrokenIsInvalid(block: int)
      requires old(Valid()) && block in old(heap).free && heap == old(heap) && Broken(block)
      ensures !Valid()
    {
      hide Read64, Aligned, BlockOk, Linked, Distinct, Live;
      if space != old(space) {
        assert old(space).OnePage(block);
        assert !space.OnePage(block);
      } else {
        assert !BlockOk(mem, block, heap.free[block]);
      }
    }

    lemma ListStart(m: Mem, head: int, h: Heap)
      requires HeapOk(m, head, h)
      ensures head == (if h.blocks == [] then 0 else h.blocks[0])
      ensures forall j :: 0 <= j < |h.blocks| ==> h.blocks[j] != 0
    {
      hide Read64, BlockOk;
      BlocksAreBlocks(m, head, h);
    }

    lemma ListNext(m: Mem, head: int, h: Heap, k: int)
      requires HeapOk(m, head, h) && 0 <= k < |h.blocks|
      ensures h.blocks[k] in h.free
      ensures Read64(m, h.blocks[k]) == if k + 1 < |h.blocks| then h.blocks[k + 1] else 0
      ensures Read64(m, h.blocks[k] + FREE_OFFSET) != 0 <==> h.free[h.blocks[k]] != []
    {
      hide Read64, BlockOk;
      assert h.blocks[k] in h.free;
      FreeNonzero(m, h.blocks[k], h.free[h.blocks[k]]);
    }

    lemma NotRegistered(m: Mem, head: int, h: Heap, b: int)
      requires HeapOk(m, head, h) && forall j :: 0 <= j < |h.blocks| ==> h.blocks[j] != b
      ensures b !in h.free
    {
      hide Read64, BlockOk;
    }

    static lemma LivesApart(h: Heap, u: int, s: int)
      requires Live(h, u) && Live(h, s) && u != s
      ensures u + SLOT_SIZE <= s || s + SLOT_SIZE <= u
    {
      hide BlockOf;
      BlockOfAligned(u);
      BlockOfAligned(s);
      SlotInBlock(BlockOf(u), u);
      SlotInBlock(BlockOf(s), s);
      if BlockOf(u) == BlockOf(s) {
        SlotsApart(BlockOf(u), u, s);
      } else {
        BlocksApart(BlockOf(u), BlockOf(s));
      }
    }

    static lemma BlockOfAligned(a: int)
      ensures BlockOf(a) % BLOCK_SIZE == 0
    {
    }

    /** Takes the block off the list and gives it back to the system.  sound: whether the heap is still well-formed. */
    method UnlinkBlock(block: int, prevBlock: int, ghost sound: bool)
      requires sound ==> Sound() && block in heap.blocks
      requires sound ==> var i := IndexOf(heap.blocks, block); prevBlock == if i == 0 then 0 else heap.blocks[i - 1]
      modifies this
      ensures sound ==> Sound() && heap == Unlink(old(heap), block) && UnlinkStep(old(State()), State(), block)
      ensures !sound ==> heap == old(heap)
      ensures space == Decommit(old(space), block)
      ensures forall x {:trigger mem(x)} :: prevBlock == 0 || x < prevBlock || prevBlock + 8 <= x ==> mem(x) == old(mem)(x)
    {
      hide Read64, Aligned, IndexOf, HeapOk, Bytes8, Space.Valid, Space.OnePage, Decommit;
      ghost var s := State();
      if prevBlock != 0 {
        Store64(prevBlock, Read64(mem, block));
      } else {
        memoryBlocks := Read64(mem, block);
      }
      if sound {
        BlocksAreBlocks(s.mem, s.head, s.heap);
        heap := Unlink(heap, block);
        UnlinkStepKeeps(s, State(), block);
        DecommitKeeps(space, block);
        StillOnePage(s.heap, block);
      }
      space := Decommit(space, block);
    }

    lemma BlocksAreBlocks(m: Mem, head: int, h: Heap)
      requires HeapOk(m, head, h)
      ensures forall j :: 0 <= j < |h.blocks| ==> h.blocks[j] in h.free && 0 < h.blocks[j]
      ensures forall b :: b in h.free ==> IsBlock(b)
    {
      hide Read64, BlockOk, Linked, Distinct;
    }

    /** Releasing one block leaves the other blocks' pages. */
    lemma StillOnePage(h: Heap, block: int)
      requires forall b :: b in h.free ==> space.OnePage(b)
      ensures forall b :: b in h.free && b != block ==>
                Decommit(space, block).OnePage(b)
    {
    }
  }
}
