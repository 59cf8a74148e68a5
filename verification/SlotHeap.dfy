/** The slot allocator's data in memory: a linked list of blocks, and in each block a free list whose links overlay the
    free slots.  include/memory.h:18-53. */
module SlotHeap {
  import opened Words
  import opened AddressSpace

  const BLOCK_SIZE: int := 0x1000
  const SLOT_COUNT: int := 63

  // MemoryBlock: next, free, usedCount
  const FREE_OFFSET: int := 8
  const COUNT_OFFSET: int := 16

  /** What the bytes stand for: the registered blocks in list order, and the free slots of each in list order. */
  datatype Heap = Heap(blocks: seq<int>, free: map<int, seq<int>>)

  const EMPTY_HEAP := Heap([], map[])

  function BlockOf(a: int): int
  {
    a / BLOCK_SIZE * BLOCK_SIZE
  }

  /** s is one of the 63 slots of block b. */
  predicate IsSlot(b: int, s: int)
  {
    b < s < b + BLOCK_SIZE && (s - b) % SLOT_SIZE == 0
  }

  function First(xs: seq<int>): int
  {
    if xs == [] then 0 else xs[0]
  }

  function After(xs: seq<int>, j: int): int
    requires 0 <= j < |xs|
  {
    if j + 1 < |xs| then xs[j + 1] else 0
  }

  ghost predicate Distinct(xs: seq<int>)
  {
    forall i, j :: 0 <= i < j < |xs| ==> xs[i] != xs[j]
  }

  /** A singly linked list from p through the words at xs. */
  ghost predicate Linked(m: Mem, p: int, xs: seq<int>)
  {
    p == First(xs) && forall j :: 0 <= j < |xs| ==> Read64(m, xs[j]) == After(xs, j)
  }

  ghost predicate SlotsOf(b: int, fs: seq<int>)
  {
    Distinct(fs) && forall j :: 0 <= j < |fs| ==> IsSlot(b, fs[j])
  }

  ghost predicate IsBlock(b: int)
  {
    b % BLOCK_SIZE == 0 && 0 < b && b + BLOCK_SIZE <= USER_LIMIT
  }

  /** The block header and the free list of b. */
  ghost predicate BlockOk(m: Mem, b: int, fs: seq<int>)
  {
    && SlotsOf(b, fs)
    && Linked(m, Read64(m, b + FREE_OFFSET), fs)
    && Read64(m, b + COUNT_OFFSET) == SLOT_COUNT - |fs|
  }

  /** The heap h stands in memory m, its block list starting at head. */
  ghost predicate HeapOk(m: Mem, head: int, h: Heap)
  {
    && Distinct(h.blocks) && Linked(m, head, h.blocks)
    && (forall j :: 0 <= j < |h.blocks| ==> h.blocks[j] in h.free)
    && (forall b :: b in h.free ==> b in h.blocks)
    && (forall b :: b in h.free ==> IsBlock(b) && BlockOk(m, b, h.free[b]))
  }

  /** s has been handed out. */
  predicate Live(h: Heap, s: int)
  {
    var b := BlockOf(s);
    b in h.free && IsSlot(b, s) && s !in h.free[b]
  }

  // ---------------------------------------------------------------------
  // Operations
  // ---------------------------------------------------------------------

  /** Takes the first free slot of b. */
  function Pop(h: Heap, b: int): Heap
    requires b in h.free && h.free[b] != []
  {
    h.(free := h.free[b := h.free[b][1..]])
  }

  /** Gives s back to its block. */
  function Push(h: Heap, s: int): Heap
    requires BlockOf(s) in h.free
  {
    h.(free := h.free[BlockOf(s) := [s] + h.free[BlockOf(s)]])
  }

  function IndexOf(xs: seq<int>, x: int): (i: int)
    requires x in xs
    ensures 0 <= i < |xs| && xs[i] == x
  {
    if xs[0] == x then 0 else 1 + IndexOf(xs[1..], x)
  }

  lemma {:induction false} IndexIs(xs: seq<int>, x: int, k: int)
    requires 0 <= k < |xs| && xs[k] == x && forall j :: 0 <= j < k ==> xs[j] != x
    ensures IndexOf(xs, x) == k
  {
    if k > 0 {
      IndexIs(xs[1..], x, k - 1);
    }
  }

  /** Deregisters block b. */
  function Unlink(h: Heap, b: int): Heap
    requires b in h.blocks
  {
    Heap(Without(h.blocks, IndexOf(h.blocks, b)), h.free - {b})
  }

  function SlotAt(b: int, k: int): int
  {
    b + SLOT_SIZE * k
  }

  /** The slots of b below index k, highest first. */
  function SlotsBelow(b: int, k: int): (fs: seq<int>)
    ensures k >= 1 ==> |fs| == k - 1
  {
    if k <= 1 then [] else [b + SLOT_SIZE * (k - 1)] + SlotsBelow(b, k - 1)
  }

  /** Registers the new block b, all of its slots free. */
  function Link(h: Heap, b: int): Heap
  {
    Heap([b] + h.blocks, h.free[b := SlotsBelow(b, SLOT_COUNT + 1)])
  }

  /** FreeBuffer: the slot goes back; a block without live slots is released. */
  function Release(h: Heap, s: int): Heap
    requires BlockOf(s) in h.free && BlockOf(s) in h.blocks
  {
    var h' := Push(h, s);
    if |h'.free[BlockOf(s)]| == SLOT_COUNT then Unlink(h', BlockOf(s)) else h'
  }

  // ---------------------------------------------------------------------
  // Word updates
  // ---------------------------------------------------------------------

  /** m' is m with the 64-bit word v stored at a. */
  ghost predicate Stored(m: Mem, m': Mem, a: int, v: int)
  {
    forall x {:trigger m'(x)} :: m'(x) == Write(m, a, Bytes8(v))(x)
  }

  /** The same for words only. */
  ghost predicate Updated(m: Mem, m': Mem, a: int, v: int)
  {
    && Read64(m', a) == v
    && forall c {:trigger Read64(m', c)} :: c + 8 <= a || a + 8 <= c ==> Read64(m', c) == Read64(m, c)
  }

  lemma SameWord(m: Mem, m': Mem, c: int)
    requires forall x {:trigger m'(x)} :: c <= x < c + 8 ==> m'(x) == m(x)
    ensures Read64(m', c) == Read64(m, c)
  {
  }

  lemma StoredUpdates(m: Mem, m': Mem, a: int, v: int)
    requires Stored(m, m', a, v) && 0 <= v < TWO64
    ensures Updated(m, m', a, v)
  {
    hide Read64, Bytes8;
    forall c {:trigger Read64(m', c)} | c + 8 <= a || a + 8 <= c
      ensures Read64(m', c) == Read64(m, c)
    {
      SameWord(m, m', c);
    }
    assert Read(m', a, 8) == Bytes8(v);
    Read64OfBytes8(m', a, v);
  }

  lemma BlocksApart(b: int, c: int)
    requires b % BLOCK_SIZE == 0 && c % BLOCK_SIZE == 0 && b != c
    ensures b + BLOCK_SIZE <= c || c + BLOCK_SIZE <= b
  {
  }

  lemma SlotsApart(b: int, s: int, u: int)
    requires IsSlot(b, s) && IsSlot(b, u) && s != u
    ensures s + SLOT_SIZE <= u || u + SLOT_SIZE <= s
  {
  }

  lemma SlotInBlock(b: int, s: int)
    requires IsSlot(b, s) && b % BLOCK_SIZE == 0
    ensures BlockOf(s) == b && b + SLOT_SIZE <= s <= b + BLOCK_SIZE - SLOT_SIZE
  {
  }

  /** A block whose words are unchanged stays as it is. */
  lemma BlockFrame(m: Mem, m': Mem, b: int, fs: seq<int>)
    requires BlockOk(m, b, fs)
    requires Read64(m', b + FREE_OFFSET) == Read64(m, b + FREE_OFFSET)
    requires Read64(m', b + COUNT_OFFSET) == Read64(m, b + COUNT_OFFSET)
    requires forall j :: 0 <= j < |fs| ==> Read64(m', fs[j]) == Read64(m, fs[j])
    ensures BlockOk(m', b, fs)
  {
    hide Read64, IsSlot, Distinct;
  }

  /** The words of block b are the same in both memories. */
  ghost predicate SameBlock(m: Mem, m': Mem, b: int)
  {
    forall a {:trigger Read64(m', a)} :: b <= a <= b + BLOCK_SIZE - 8 ==> Read64(m', a) == Read64(m, a)
  }

  lemma SameBlockOk(m: Mem, m': Mem, b: int, fs: seq<int>)
    requires IsBlock(b) && BlockOk(m, b, fs) && SameBlock(m, m', b)
    ensures BlockOk(m', b, fs) && Read64(m', b) == Read64(m, b)
  {
    hide Read64;
    forall j | 0 <= j < |fs|
      ensures Read64(m', fs[j]) == Read64(m, fs[j])
    {
      SlotInBlock(b, fs[j]);
    }
    BlockFrame(m, m', b, fs);
  }

  /** A change inside block b leaves the other blocks alone. */
  lemma UpdateElsewhere(m: Mem, m': Mem, b: int, a: int, v: int, c: int)
    requires IsBlock(b) && IsBlock(c) && b != c
    requires Updated(m, m', a, v) && b <= a <= b + BLOCK_SIZE - 8
    ensures SameBlock(m, m', c)
  {
    hide Read64;
    BlocksApart(b, c);
  }

  // ---------------------------------------------------------------------
  // The operations keep the heap
  // ---------------------------------------------------------------------

  /** From a heap in which only block b changed, and b is well-formed again. */
  lemma OneBlockChanged(m: Mem, m': Mem, head: int, h: Heap, b: int, fs: seq<int>)
    requires HeapOk(m, head, h) && b in h.free
    requires Read64(m', b) == Read64(m, b) && BlockOk(m', b, fs)
    requires forall c :: c in h.free && c != b ==> SameBlock(m, m', c)
    ensures HeapOk(m', head, h.(free := h.free[b := fs]))
  {
    hide Read64, BlockOk, SameBlock;
    var h' := h.(free := h.free[b := fs]);
    forall c | c in h.free
      ensures IsBlock(c) && BlockOk(m', c, h'.free[c]) && Read64(m', c) == Read64(m, c)
    {
      if c != b {
        SameBlockOk(m, m', c, h.free[c]);
      }
    }
    forall j | 0 <= j < |h.blocks|
      ensures Read64(m', h.blocks[j]) == After(h.blocks, j)
    {
      assert h.blocks[j] in h.free;
    }
  }

  lemma TailOk(b: int, fs: seq<int>)
    requires SlotsOf(b, fs) && fs != []
    ensures SlotsOf(b, fs[1..]) && fs[0] !in fs[1..]
  {
  }

  /** Taking the first free slot off block b: the list starts at its link, and one more slot counts as used. */
  lemma PopKeeps(m: Mem, m1: Mem, m2: Mem, head: int, h: Heap, b: int)
    requires HeapOk(m, head, h) && b in h.free && h.free[b] != []
    requires Updated(m, m1, b + FREE_OFFSET, Read64(m, h.free[b][0]))
    requires Updated(m1, m2, b + COUNT_OFFSET, Read64(m, b + COUNT_OFFSET) + 1)
    ensures HeapOk(m2, head, Pop(h, b))
  {
    hide Read64, IsSlot, Distinct;
    var fs := h.free[b];
    TailOk(b, fs);
    forall j | 0 <= j < |fs|
      ensures Read64(m2, fs[j]) == Read64(m, fs[j])
    {
      SlotInBlock(b, fs[j]);
    }
    forall j | 0 <= j < |fs[1..]|
      ensures Read64(m2, fs[1..][j]) == After(fs[1..], j)
    {
      assert fs[1..][j] == fs[j + 1];
    }
    assert BlockOk(m2, b, fs[1..]);
    forall c | c in h.free && c != b
      ensures SameBlock(m, m2, c)
    {
      UpdateElsewhere(m, m1, b, b + FREE_OFFSET, Read64(m, fs[0]), c);
      UpdateElsewhere(m1, m2, b, b + COUNT_OFFSET, Read64(m, b + COUNT_OFFSET) + 1, c);
    }
    OneBlockChanged(m, m2, head, h, b, fs[1..]);
  }

  lemma ConsOk(b: int, s: int, fs: seq<int>)
    requires SlotsOf(b, fs) && IsSlot(b, s) && s !in fs
    ensures SlotsOf(b, [s] + fs)
  {
  }

  /** Putting slot s back: it links to the old head, becomes the head, and one slot less counts as used. */
  lemma PushKeeps(m: Mem, m1: Mem, m2: Mem, m3: Mem, head: int, h: Heap, s: int)
    requires HeapOk(m, head, h) && Live(h, s)
    requires Updated(m, m1, s, Read64(m, BlockOf(s) + FREE_OFFSET))
    requires Updated(m1, m2, BlockOf(s) + FREE_OFFSET, s)
    requires Updated(m2, m3, BlockOf(s) + COUNT_OFFSET, Read64(m, BlockOf(s) + COUNT_OFFSET) - 1)
    ensures HeapOk(m3, head, Push(h, s))
  {
    hide Read64, IsSlot, Distinct;
    var b := BlockOf(s);
    var fs := h.free[b];
    var gs := [s] + fs;
    ConsOk(b, s, fs);
    SlotInBlock(b, s);
    forall j | 0 <= j < |fs|
      ensures Read64(m3, fs[j]) == Read64(m, fs[j])
    {
      SlotInBlock(b, fs[j]);
      SlotsApart(b, s, fs[j]);
    }
    forall j | 0 <= j < |gs|
      ensures Read64(m3, gs[j]) == After(gs, j)
    {
      if j > 0 {
        assert gs[j] == fs[j - 1];
      }
    }
    assert BlockOk(m3, b, gs);
    forall c | c in h.free && c != b
      ensures SameBlock(m, m3, c)
    {
      UpdateElsewhere(m, m1, b, s, Read64(m, b + FREE_OFFSET), c);
      UpdateElsewhere(m1, m2, b, b + FREE_OFFSET, s, c);
      UpdateElsewhere(m2, m3, b, b + COUNT_OFFSET, Read64(m, b + COUNT_OFFSET) - 1, c);
    }
    OneBlockChanged(m, m3, head, h, b, gs);
  }

  lemma WithoutMembers(xs: seq<int>, i: int)
    requires 0 <= i < |xs| && Distinct(xs)
    ensures Distinct(Without(xs, i)) && |Without(xs, i)| == |xs| - 1
    ensures forall j :: 0 <= j < |xs| - 1 ==> Without(xs, i)[j] == xs[if j < i then j else j + 1] != xs[i]
    ensures forall x :: x in xs && x != xs[i] ==> x in Without(xs, i)
  {
    var ys := Without(xs, i);
    forall x | x in xs && x != xs[i]
      ensures x in ys
    {
      var j :| 0 <= j < |xs| && xs[j] == x;
      assert ys[if j < i then j else j - 1] == x;
    }
    forall j, k | 0 <= j < k < |ys|
      ensures ys[j] != ys[k]
    {
      assert ys[j] == xs[if j < i then j else j + 1] && ys[k] == xs[if k < i then k else k + 1];
    }
  }

  /** The list without its element i: only the link before it changes. */
  lemma LinkedWithout(m: Mem, m': Mem, p: int, xs: seq<int>, i: int)
    requires Linked(m, p, xs) && 0 <= i < |xs|
    requires forall j :: 0 <= j < |xs| && j != i && j + 1 != i ==> Read64(m', xs[j]) == Read64(m, xs[j])
    requires i > 0 ==> Read64(m', xs[i - 1]) == Read64(m, xs[i])
    ensures Linked(m', if i > 0 then p else Read64(m, xs[i]), Without(xs, i))
  {
    hide Read64;
    var ys := Without(xs, i);
    forall j | 0 <= j < |ys|
      ensures Read64(m', ys[j]) == After(ys, j)
    {
      assert ys[j] == xs[if j < i then j else j + 1];
      if j + 1 < |ys| {
        assert ys[j + 1] == xs[if j + 1 < i then j + 1 else j + 2];
      }
    }
  }

  /** The link before the i-th block, if there is one, leads past it. */
  ghost predicate LinkBypassed(m: Mem, m': Mem, xs: seq<int>, i: int)
    requires 0 <= i < |xs|
  {
    if i > 0 then Updated(m, m', xs[i - 1], Read64(m, xs[i]))
    else forall a {:trigger Read64(m', a)} :: Read64(m', a) == Read64(m, a)
  }

  lemma UnlinkList(m: Mem, m': Mem, head: int, h: Heap, i: int)
    requires HeapOk(m, head, h) && 0 <= i < |h.blocks| && LinkBypassed(m, m', h.blocks, i)
    ensures Linked(m', if i > 0 then head else Read64(m, h.blocks[i]), Without(h.blocks, i))
  {
    hide Read64, BlockOk, Distinct, Without;
    var xs := h.blocks;
    forall j | 0 <= j < |xs| && j != i && j + 1 != i
      ensures Read64(m', xs[j]) == Read64(m, xs[j])
    {
      if i > 0 {
        assert IsBlock(xs[j]) && IsBlock(xs[i - 1]);
        DistinctBlocks(xs, j, i - 1);
        BlocksApart(xs[j], xs[i - 1]);
      }
    }
    LinkedWithout(m, m', head, xs, i);
  }

  lemma UnlinkBlocks(m: Mem, m': Mem, head: int, h: Heap, i: int, c: int)
    requires HeapOk(m, head, h) && 0 <= i < |h.blocks| && LinkBypassed(m, m', h.blocks, i) && c in h.free
    ensures BlockOk(m', c, h.free[c]) && IsBlock(c)
  {
    hide Read64, BlockOk, Distinct, Linked;
    LinkOnly(m, m', if i > 0 then h.blocks[i - 1] else c, c, h.free[c]);
  }

  lemma UnlinkKeeps(m: Mem, m': Mem, head: int, h: Heap, b: int)
    requires HeapOk(m, head, h) && b in h.blocks && LinkBypassed(m, m', h.blocks, IndexOf(h.blocks, b))
    ensures HeapOk(m', if IndexOf(h.blocks, b) > 0 then head else Read64(m, b), Unlink(h, b))
  {
    hide Read64, IndexOf, BlockOk, Linked, Distinct, Without, LinkBypassed, IsBlock;
    var i := IndexOf(h.blocks, b);
    var xs, ys := h.blocks, Without(h.blocks, i);
    WithoutMembers(xs, i);
    forall j | 0 <= j < |ys|
      ensures ys[j] in h.free - {b}
    {
      assert xs[if j < i then j else j + 1] in h.free;
    }
    UnlinkList(m, m', head, h, i);
    forall c | c in h.free
      ensures BlockOk(m', c, h.free[c]) && IsBlock(c)
    {
      UnlinkBlocks(m, m', head, h, i, c);
    }
  }

  lemma DistinctBlocks(xs: seq<int>, j: int, k: int)
    requires Distinct(xs) && 0 <= j < |xs| && 0 <= k < |xs| && j != k
    ensures xs[j] != xs[k]
  {
  }

  /** Storing a block's list link leaves headers and slots alone. */
  lemma LinkOnly(m: Mem, m': Mem, p: int, c: int, fs: seq<int>)
    requires IsBlock(p) && IsBlock(c) && BlockOk(m, c, fs)
    requires forall a {:trigger Read64(m', a)} :: a + 8 <= p || p + 8 <= a ==> Read64(m', a) == Read64(m, a)
    ensures BlockOk(m', c, fs)
  {
    hide Read64;
    if p != c {
      BlocksApart(p, c);
    }
    forall j | 0 <= j < |fs|
      ensures Read64(m', fs[j]) == Read64(m, fs[j])
    {
      SlotInBlock(c, fs[j]);
    }
    BlockFrame(m, m', c, fs);
  }

  /** A new block in front of the list. */
  lemma LinkKeeps(m: Mem, m': Mem, head: int, h: Heap, b: int)
    requires HeapOk(m, head, h) && IsBlock(b) && b !in h.free
    requires Read64(m', b) == head && BlockOk(m', b, SlotsBelow(b, SLOT_COUNT + 1))
    requires forall c :: c in h.free ==> SameBlock(m, m', c)
    ensures HeapOk(m', b, Link(h, b))
  {
    hide Read64, BlockOk, SameBlock, SlotsBelow;
    var h' := Link(h, b);
    forall c | c in h.free
      ensures BlockOk(m', c, h.free[c]) && Read64(m', c) == Read64(m, c)
    {
      SameBlockOk(m, m', c, h.free[c]);
    }
    ConsDistinct(b, h.blocks);
    ConsLinked(m, m', head, b, h.blocks);
  }

  lemma ConsDistinct(b: int, xs: seq<int>)
    requires Distinct(xs) && b !in xs
    ensures Distinct([b] + xs)
  {
  }

  lemma ConsLinked(m: Mem, m': Mem, p: int, b: int, xs: seq<int>)
    requires Linked(m, p, xs) && Read64(m', b) == p
    requires forall j :: 0 <= j < |xs| ==> Read64(m', xs[j]) == Read64(m, xs[j])
    ensures Linked(m', b, [b] + xs)
  {
    hide Read64;
    var ys := [b] + xs;
    forall j | 0 <= j < |ys|
      ensures Read64(m', ys[j]) == After(ys, j)
    {
      if j > 0 {
        assert ys[j] == xs[j - 1];
      }
    }
  }

  /** Whatever a client writes into a live slot, the heap stands. */
  lemma ClientWriteKeeps(m: Mem, m': Mem, head: int, h: Heap, s: int)
    requires HeapOk(m, head, h) && Live(h, s)
    requires forall x {:trigger m'(x)} :: x < s || s + SLOT_SIZE <= x ==> m'(x) == m(x)
    ensures HeapOk(m', head, h)
  {
    hide Read64, BlockOf;
    var b := BlockOf(s);
    SlotInBlock(b, s);
    forall a {:trigger Read64(m', a)} | a + 8 <= s || s + SLOT_SIZE <= a
      ensures Read64(m', a) == Read64(m, a)
    {
      SameWord(m, m', a);
    }
    forall c | c in h.free
      ensures BlockOk(m', c, h.free[c]) && Read64(m', c) == Read64(m, c)
    {
      if c != b {
        BlocksApart(b, c);
        SameBlockOk(m, m', c, h.free[c]);
      } else {
        forall j | 0 <= j < |h.free[b]|
          ensures Read64(m', h.free[b][j]) == Read64(m, h.free[b][j])
        {
          SlotsApart(b, s, h.free[b][j]);
        }
        BlockFrame(m, m', b, h.free[b]);
      }
    }
    forall j | 0 <= j < |h.blocks|
      ensures Read64(m', h.blocks[j]) == After(h.blocks, j)
    {
      assert h.blocks[j] in h.free;
    }
  }

  /** Writes outside the registered blocks leave the heap. */
  lemma OutsideWriteKeeps(m: Mem, m': Mem, head: int, h: Heap)
    requires HeapOk(m, head, h)
    requires forall x {:trigger m'(x)} :: BlockOf(x) in h.free ==> m'(x) == m(x)
    ensures HeapOk(m', head, h)
  {
    hide Read64, BlockOk, SameBlock, BlockOf;
    forall c | c in h.free
      ensures BlockOk(m', c, h.free[c]) && Read64(m', c) == Read64(m, c)
    {
      InsideSame(m, m', h, c);
      SameBlockOk(m, m', c, h.free[c]);
    }
    forall j | 0 <= j < |h.blocks|
      ensures Read64(m', h.blocks[j]) == After(h.blocks, j)
    {
      assert h.blocks[j] in h.free;
    }
  }

  lemma InsideSame(m: Mem, m': Mem, h: Heap, c: int)
    requires IsBlock(c) && c in h.free
    requires forall x {:trigger m'(x)} :: BlockOf(x) in h.free ==> m'(x) == m(x)
    ensures SameBlock(m, m', c)
  {
    hide Read64;
    forall a {:trigger Read64(m', a)} | c <= a <= c + BLOCK_SIZE - 8
      ensures Read64(m', a) == Read64(m, a)
    {
      forall x {:trigger m'(x)} | a <= x < a + 8
        ensures m'(x) == m(x)
      {
        assert BlockOf(x) == c;
      }
      SameWord(m, m', a);
    }
  }

  /** The free list built for a new block consists of its slots, each once. */
  lemma {:induction false} SlotsBelowOk(b: int, k: int)
    requires 1 <= k <= SLOT_COUNT + 1
    ensures SlotsOf(b, SlotsBelow(b, k))
    ensures forall j :: 0 <= j < k - 1 ==> SlotsBelow(b, k)[j] == SlotAt(b, k - 1 - j)
  {
    if k > 1 {
      SlotsBelowOk(b, k - 1);
      var fs := SlotsBelow(b, k);
      forall j | 0 <= j < k - 1
        ensures fs[j] == SlotAt(b, k - 1 - j)
      {
        if j > 0 {
          assert fs[j] == SlotsBelow(b, k - 1)[j - 1];
        }
      }
    }
  }

  lemma SlotsBelowNext(b: int, k: int)
    requires 1 <= k
    ensures SlotsBelow(b, k + 1) == [SlotAt(b, k)] + SlotsBelow(b, k)
  {
  }

  /** The k-th slot of a new block becomes the head of its list. */
  lemma BuildStep(m: Mem, m1: Mem, m2: Mem, b: int, k: int)
    requires IsBlock(b) && 1 <= k <= SLOT_COUNT
    requires Linked(m, Read64(m, b + FREE_OFFSET), SlotsBelow(b, k))
    requires Updated(m, m1, SlotAt(b, k), Read64(m, b + FREE_OFFSET))
    requires Updated(m1, m2, b + FREE_OFFSET, SlotAt(b, k))
    ensures Linked(m2, Read64(m2, b + FREE_OFFSET), SlotsBelow(b, k + 1))
    ensures Read64(m2, b + COUNT_OFFSET) == Read64(m, b + COUNT_OFFSET)
  {
    hide Read64, SlotsBelow;
    var fs, gs := SlotsBelow(b, k), SlotsBelow(b, k + 1);
    SlotsBelowOk(b, k);
    SlotsBelowNext(b, k);
    forall j | 0 <= j < |gs|
      ensures Read64(m2, gs[j]) == After(gs, j)
    {
      if j > 0 {
        assert gs[j] == fs[j - 1] == SlotAt(b, k - j);
      }
    }
  }

  // ---------------------------------------------------------------------
  // Counting and round trips
  // ---------------------------------------------------------------------

  lemma {:induction false} DistinctSize(fs: seq<int>)
    requires Distinct(fs)
    ensures |set s | s in fs| == |fs|
  {
    if fs != [] {
      var rest := fs[1..];
      DistinctSize(rest);
      assert (set s | s in fs) == (set s | s in rest) + {fs[0]};
    }
  }

  /** The first n slots of b. */
  ghost function SlotSet(b: int, n: int): set<int>
  {
    set k | 1 <= k <= n :: SlotAt(b, k)
  }

  lemma {:induction false} SlotSetSize(b: int, n: int)
    requires 0 <= n
    ensures |SlotSet(b, n)| == n
  {
    if n > 0 {
      SlotSetSize(b, n - 1);
      assert SlotSet(b, n) == SlotSet(b, n - 1) + {SlotAt(b, n)};
    }
  }

  lemma InSlotSet(b: int, s: int)
    ensures s in SlotSet(b, SLOT_COUNT) <==> IsSlot(b, s)
  {
    var k := (s - b) / SLOT_SIZE;
    if IsSlot(b, s) {
      assert s == SlotAt(b, k) && 1 <= k <= SLOT_COUNT;
    }
  }

  /** The slots of b that have been handed out. */
  ghost function LiveSlots(h: Heap, b: int): set<int>
    requires b in h.free
  {
    set s | s in SlotSet(b, SLOT_COUNT) && s !in h.free[b]
  }

  /** Where the fields of a block stand: next at 0, free at 8, usedCount at 16; then 63 slots of 64 bytes. */
  lemma BlockLayout(m: Mem, head: int, h: Heap, k: nat)
    requires HeapOk(m, head, h) && k < |h.blocks|
    ensures var b := h.blocks[k];
            && b % 0x1000 == 0 && b in h.free
            && head == h.blocks[0] && Read64(m, b) == (if k + 1 < |h.blocks| then h.blocks[k + 1] else 0)
            && Read64(m, b + 8) == (if h.free[b] == [] then 0 else h.free[b][0])
            && Read64(m, b + 16) == 63 - |h.free[b]|
            && (forall s :: IsSlot(b, s) <==> s % 64 == 0 && b + 64 <= s <= b + 64 * 63)
            && (forall j :: 0 <= j < |h.free[b]| ==> IsSlot(b, h.free[b][j]))
            && (forall j :: 0 <= j < |h.free[b]| ==>
                  Read64(m, h.free[b][j]) == if j + 1 < |h.free[b]| then h.free[b][j + 1] else 0)
  {
    hide Read64, IsSlot, Distinct;
    var b := h.blocks[k];
    assert b in h.free && IsBlock(b) && BlockOk(m, b, h.free[b]);
    forall s
      ensures IsSlot(b, s) <==> s % 64 == 0 && b + 64 <= s <= b + 64 * 63
    {
      SlotPlace(b, s);
    }
  }

  lemma SlotPlace(b: int, s: int)
    requires b % 0x1000 == 0
    ensures IsSlot(b, s) <==> s % 64 == 0 && b + 64 <= s <= b + 64 * 63
  {
    var q := b / 0x1000;
    assert b == 64 * (64 * q);
    var k, r := (s - b) / 64, (s - b) % 64;
    assert s == 64 * (64 * q + k) + r;
    assert s % 64 == r;
  }

  /** Live and free slots partition the 63 slots of a block, and usedCount counts the live ones. */
  lemma LiveAndFree(m: Mem, head: int, h: Heap, b: int)
    requires HeapOk(m, head, h) && b in h.free
    ensures |LiveSlots(h, b)| + |h.free[b]| == SLOT_COUNT
    ensures Read64(m, b + COUNT_OFFSET) == |LiveSlots(h, b)|
    ensures forall s :: IsSlot(b, s) <==> s in LiveSlots(h, b) || s in h.free[b]
    ensures forall s :: s in LiveSlots(h, b) ==> s !in h.free[b] && Live(h, s)
  {
    hide Read64, BlockOf, IsSlot, SlotSet;
    var fs := h.free[b];
    var freeSet := set s | s in fs;
    DistinctSize(fs);
    SlotSetSize(b, SLOT_COUNT);
    forall s
      ensures s in SlotSet(b, SLOT_COUNT) <==> IsSlot(b, s)
      ensures IsSlot(b, s) ==> BlockOf(s) == b
    {
      InSlotSet(b, s);
      if IsSlot(b, s) {
        SlotInBlock(b, s);
      }
    }
    assert freeSet <= SlotSet(b, SLOT_COUNT);
    assert LiveSlots(h, b) == SlotSet(b, SLOT_COUNT) - freeSet;
  }

  /** Allocating from a registered block and freeing restores the heap. */
  lemma PopThenRelease(m: Mem, head: int, h: Heap, b: int)
    requires HeapOk(m, head, h) && b in h.free && 1 <= |h.free[b]| < SLOT_COUNT
    ensures var s := h.free[b][0]; BlockOf(s) == b && Release(Pop(h, b), s) == h
  {
    hide Read64, BlockOf, Linked;
    SlotInBlock(b, h.free[b][0]);
    assert [h.free[b][0]] + h.free[b][1..] == h.free[b];
    assert Push(Pop(h, b), h.free[b][0]).free == h.free;
  }

  /** Allocating from a new block and freeing restores the heap too: the block is released. */
  lemma LinkThenRelease(h: Heap, b: int)
    requires IsBlock(b) && b !in h.free && b !in h.blocks
    ensures var s := SlotAt(b, SLOT_COUNT);
            && BlockOf(s) == b && SlotsBelow(b, SLOT_COUNT + 1) != [] && SlotsBelow(b, SLOT_COUNT + 1)[0] == s
            && Release(Pop(Link(h, b), b), s) == h
  {
    var s := SlotAt(b, SLOT_COUNT);
    var fs := SlotsBelow(b, SLOT_COUNT + 1);
    SlotInBlock(b, s);
    var h' := Push(Pop(Link(h, b), b), s);
    assert |h'.free[b]| == SLOT_COUNT;
    assert IndexOf(h'.blocks, b) == 0;
    assert Without(h'.blocks, 0) == h.blocks;
    assert h'.free - {b} == h.free;
  }

  // ---------------------------------------------------------------------
  // Whole runs
  // ---------------------------------------------------------------------

  /** Memory, memory_blocks_, and the heap that they stand for. */
  datatype HeapState = HeapState(mem: Mem, head: int, heap: Heap)

  /** The stores of AllocateBuffer in block b. */
  ghost predicate PopStep(s: HeapState, s': HeapState, b: int, m1: Mem)
  {
    && b in s.heap.free && s.heap.free[b] != [] && s'.head == s.head && s'.heap == Pop(s.heap, b)
    && Stored(s.mem, m1, b + FREE_OFFSET, Read64(s.mem, Read64(s.mem, b + FREE_OFFSET)))
    && Stored(m1, s'.mem, b + COUNT_OFFSET, Read64(m1, b + COUNT_OFFSET) + 1)
  }

  /** The stores of FreeBuffer for slot a. */
  ghost predicate PushStep(s: HeapState, s': HeapState, a: int, m1: Mem, m2: Mem)
  {
    && Live(s.heap, a) && s'.head == s.head && s'.heap == Push(s.heap, a)
    && PushStores(s.mem, m1, m2, s'.mem, a)
  }

  ghost predicate PushStores(m: Mem, m1: Mem, m2: Mem, m': Mem, a: int)
  {
    var b := BlockOf(a);
    && Stored(m, m1, a, Read64(m, b + FREE_OFFSET))
    && Stored(m1, m2, b + FREE_OFFSET, a)
    && Stored(m2, m', b + COUNT_OFFSET, Wrap64(Read64(m2, b + COUNT_OFFSET) - 1))
  }

  /** The unlinking of block b. */
  ghost predicate UnlinkStep(s: HeapState, s': HeapState, b: int)
  {
    && b in s.heap.blocks && s'.heap == Unlink(s.heap, b)
    && var i := IndexOf(s.heap.blocks, b);
       if i > 0 then s'.head == s.head && Stored(s.mem, s'.mem, s.heap.blocks[i - 1], Read64(s.mem, s.heap.blocks[i]))
       else s'.head == Read64(s.mem, b) && s'.mem == s.mem
  }

  /** Arbitrary writes of a client in its slot a, and by anyone outside the registered blocks. */
  ghost predicate ClientStep(s: HeapState, s': HeapState, a: int)
  {
    && Live(s.heap, a) && s'.head == s.head && s'.heap == s.heap
    && forall x {:trigger s'.mem(x)} :: BlockOf(x) in s.heap.free && (x < a || a + SLOT_SIZE <= x) ==> s'.mem(x) == s.mem(x)
  }

  ghost predicate OutsideStep(s: HeapState, s': HeapState)
  {
    && s'.head == s.head && s'.heap == s.heap
    && forall x {:trigger s'.mem(x)} :: BlockOf(x) in s.heap.free ==> s'.mem(x) == s.mem(x)
  }

  /** The registration of the new block b, its free list built. */
  ghost predicate LinkStep(s: HeapState, s': HeapState, b: int)
  {
    && IsBlock(b) && b !in s.heap.free && s'.heap == Link(s.heap, b) && s'.head == b
    && Read64(s'.mem, b) == s.head && BlockOk(s'.mem, b, SlotsBelow(b, SLOT_COUNT + 1))
    && forall x {:trigger s'.mem(x)} :: x < b || b + BLOCK_SIZE <= x ==> s'.mem(x) == s.mem(x)
  }

  ghost predicate HeapStep(s: HeapState, s': HeapState)
  {
    || OutsideStep(s, s')
    || (exists b, m1 :: PopStep(s, s', b, m1))
    || (exists a, m1, m2 :: PushStep(s, s', a, m1, m2))
    || (exists b :: UnlinkStep(s, s', b))
    || (exists b :: LinkStep(s, s', b))
    || (exists a :: ClientStep(s, s', a))
  }

  lemma PopStepKeeps(s: HeapState, s': HeapState, b: int, m1: Mem)
    requires HeapOk(s.mem, s.head, s.heap) && PopStep(s, s', b, m1)
    ensures HeapOk(s'.mem, s'.head, s'.heap)
  {
    hide Read64, Bytes8, Stored, HeapOk, Pop;
    HeadOfFree(s.mem, s.head, s.heap, b);
    StoredUpdates(s.mem, m1, b + FREE_OFFSET, Read64(s.mem, s.heap.free[b][0]));
    StoredUpdates(m1, s'.mem, b + COUNT_OFFSET, Read64(m1, b + COUNT_OFFSET) + 1);
    PopKeeps(s.mem, m1, s'.mem, s.head, s.heap, b);
  }

  lemma HeadOfFree(m: Mem, head: int, h: Heap, b: int)
    requires HeapOk(m, head, h) && b in h.free && h.free[b] != []
    ensures Read64(m, b + FREE_OFFSET) == h.free[b][0] && Read64(m, b + COUNT_OFFSET) < SLOT_COUNT
  {
    hide Read64, IsSlot;
    assert BlockOk(m, b, h.free[b]);
  }

  lemma PushStepKeeps(s: HeapState, s': HeapState, a: int, m1: Mem, m2: Mem)
    requires HeapOk(s.mem, s.head, s.heap) && PushStep(s, s', a, m1, m2)
    ensures HeapOk(s'.mem, s'.head, s'.heap)
  {
    hide Read64, Bytes8, BlockOf, Stored, Linked;
    var b := BlockOf(a);
    SlotInBlock(b, a);
    LiveAndFree(s.mem, s.head, s.heap, b);
    assert a in LiveSlots(s.heap, b);
    StoredUpdates(s.mem, m1, a, Read64(s.mem, b + FREE_OFFSET));
    StoredUpdates(m1, m2, b + FREE_OFFSET, a);
    assert Read64(m2, b + COUNT_OFFSET) == Read64(s.mem, b + COUNT_OFFSET) >= 1;
    assert Wrap64(Read64(m2, b + COUNT_OFFSET) - 1) == Read64(m2, b + COUNT_OFFSET) - 1;
    StoredUpdates(m2, s'.mem, b + COUNT_OFFSET, Read64(m2, b + COUNT_OFFSET) - 1);
    PushKeeps(s.mem, m1, m2, s'.mem, s.head, s.heap, a);
  }

  /** The same stores for an address in a registered block that is no live slot: a slot freed twice, or no slot at all.
      The block's free list is then no list of distinct slots any more. */
  lemma FreeingTwiceBreaks(m: Mem, m1: Mem, m2: Mem, m3: Mem, head: int, h: Heap, a: int, fs: seq<int>)
    requires HeapOk(m, head, h) && BlockOf(a) in h.free && !Live(h, a) && PushStores(m, m1, m2, m3, a)
    ensures !BlockOk(m3, BlockOf(a), fs)
  {
    hide Read64, BlockOf, PushStores, IsSlot, Distinct;
    var b := BlockOf(a);
    if BlockOk(m3, b, fs) {
      AddressInBlock(a);
      PushWords(m, m1, m2, m3, a);
      assert IsSlot(b, a) && fs[0] == a;
      assert BlockOk(m, b, h.free[b]);
      FollowsOldList(m, m3, b, a, h.free[b], fs);
      assert false;
    }
  }

  lemma AddressInBlock(a: int)
    requires IsBlock(BlockOf(a))
    ensures BlockOf(a) <= a < BlockOf(a) + BLOCK_SIZE && 0 < a < TWO64
  {
  }

  /** What the stores leave in the words of the free list. */
  lemma PushWords(m: Mem, m1: Mem, m2: Mem, m3: Mem, a: int)
    requires IsBlock(BlockOf(a)) && PushStores(m, m1, m2, m3, a)
    ensures Read64(m3, BlockOf(a) + FREE_OFFSET) == a
    ensures IsSlot(BlockOf(a), a) ==>
              && Read64(m3, a) == Read64(m, BlockOf(a) + FREE_OFFSET)
              && forall c {:trigger Read64(m3, c)} :: IsSlot(BlockOf(a), c) && c != a ==> Read64(m3, c) == Read64(m, c)
  {
    hide Read64, BlockOf, Stored, Wrap64, IsSlot;
    var b := BlockOf(a);
    AddressInBlock(a);
    StoredUpdates(m, m1, a, Read64(m, b + FREE_OFFSET));
    StoredUpdates(m1, m2, b + FREE_OFFSET, a);
    StoredUpdates(m2, m3, b + COUNT_OFFSET, Wrap64(Read64(m2, b + COUNT_OFFSET) - 1));
    if IsSlot(b, a) {
      SlotInBlock(b, a);
      forall c {:trigger Read64(m3, c)} | IsSlot(b, c) && c != a
        ensures Read64(m3, c) == Read64(m, c)
      {
        SlotInBlock(b, c);
        SlotsApart(b, a, c);
      }
    }
  }

  /** From slot a, which is in the old list, the new links lead through the old list back to a. */
  lemma FollowsOldList(m: Mem, m3: Mem, b: int, a: int, gs: seq<int>, fs: seq<int>)
    requires IsBlock(b) && IsSlot(b, a) && a in gs && SlotsOf(b, gs) && Linked(m, First(gs), gs)
    requires Linked(m3, a, fs) && Read64(m3, a) == First(gs)
    requires forall c {:trigger Read64(m3, c)} :: IsSlot(b, c) && c != a ==> Read64(m3, c) == Read64(m, c)
    ensures !Distinct(fs)
  {
    hide Read64, IsSlot;
    var j := IndexOf(gs, a);
    ListsAgree(m, m3, b, a, gs, fs, j);
  }

  lemma {:induction false} ListsAgree(m: Mem, m3: Mem, b: int, a: int, gs: seq<int>, fs: seq<int>, i: int)
    requires IsBlock(b) && IsSlot(b, a) && SlotsOf(b, gs) && Linked(m, First(gs), gs)
    requires Linked(m3, a, fs) && Read64(m3, a) == First(gs)
    requires forall c {:trigger Read64(m3, c)} :: IsSlot(b, c) && c != a ==> Read64(m3, c) == Read64(m, c)
    requires 0 <= i < |gs| && forall k :: 0 <= k < i ==> gs[k] != a
    ensures i + 1 < |fs| && fs[i + 1] == gs[i] && fs[0] == a
  {
    hide Read64, IsSlot, Distinct;
    SlotIsNotNull(b, a);
    SlotIsNotNull(b, gs[i]);
    if i > 0 {
      ListsAgree(m, m3, b, a, gs, fs, i - 1);
      assert Read64(m3, fs[i]) == Read64(m, gs[i - 1]) == gs[i];
    }
  }

  lemma SlotIsNotNull(b: int, a: int)
    requires IsBlock(b) && IsSlot(b, a)
    ensures a != 0
  {
  }

  lemma UnlinkStepKeeps(s: HeapState, s': HeapState, b: int)
    requires HeapOk(s.mem, s.head, s.heap) && UnlinkStep(s, s', b)
    ensures HeapOk(s'.mem, s'.head, s'.heap)
  {
    hide Read64, Bytes8, Stored, BlockOk, IndexOf;
    var i := IndexOf(s.heap.blocks, b);
    if i > 0 {
      StoredUpdates(s.mem, s'.mem, s.heap.blocks[i - 1], Read64(s.mem, s.heap.blocks[i]));
    }
    UnlinkKeeps(s.mem, s'.mem, s.head, s.heap, b);
  }

  lemma LinkStepKeeps(s: HeapState, s': HeapState, b: int)
    requires HeapOk(s.mem, s.head, s.heap) && LinkStep(s, s', b)
    ensures HeapOk(s'.mem, s'.head, s'.heap)
  {
    hide Read64, BlockOk, SlotsBelow, SameBlock;
    forall c | c in s.heap.free
      ensures SameBlock(s.mem, s'.mem, c)
    {
      DisjointSame(s.mem, s'.mem, b, c);
    }
    LinkKeeps(s.mem, s'.mem, s.head, s.heap, b);
  }

  lemma DisjointSame(m: Mem, m': Mem, b: int, c: int)
    requires IsBlock(b) && IsBlock(c) && b != c
    requires forall x {:trigger m'(x)} :: x < b || b + BLOCK_SIZE <= x ==> m'(x) == m(x)
    ensures SameBlock(m, m', c)
  {
    hide Read64;
    BlocksApart(b, c);
    forall a {:trigger Read64(m', a)} | c <= a <= c + BLOCK_SIZE - 8
      ensures Read64(m', a) == Read64(m, a)
    {
      SameWord(m, m', a);
    }
  }

  lemma ClientStepKeeps(s: HeapState, s': HeapState, a: int)
    requires HeapOk(s.mem, s.head, s.heap) && ClientStep(s, s', a)
    ensures HeapOk(s'.mem, s'.head, s'.heap)
  {
    hide HeapOk, Live, BlockOf;
    // first the writes in the slot, then those outside the blocks
    var m1: Mem := x => if a <= x < a + SLOT_SIZE then s'.mem(x) else s.mem(x);
    ClientWriteKeeps(s.mem, m1, s.head, s.heap, a);
    OutsideWriteKeeps(m1, s'.mem, s.head, s.heap);
  }

  lemma HeapStepKeeps(s: HeapState, s': HeapState)
    requires HeapOk(s.mem, s.head, s.heap) && HeapStep(s, s')
    ensures HeapOk(s'.mem, s'.head, s'.heap)
  {
    hide HeapOk, OutsideStep, PopStep, PushStep, UnlinkStep, LinkStep, ClientStep;
    if OutsideStep(s, s') {
      OutsideKeeps(s, s');
    } else if b, m1 :| PopStep(s, s', b, m1) {
      PopStepKeeps(s, s', b, m1);
    } else if a, m1, m2 :| PushStep(s, s', a, m1, m2) {
      PushStepKeeps(s, s', a, m1, m2);
    } else if b :| UnlinkStep(s, s', b) {
      UnlinkStepKeeps(s, s', b);
    } else if b :| LinkStep(s, s', b) {
      LinkStepKeeps(s, s', b);
    } else {
      var a :| ClientStep(s, s', a);
      ClientStepKeeps(s, s', a);
    }
  }

  lemma OutsideKeeps(s: HeapState, s': HeapState)
    requires HeapOk(s.mem, s.head, s.heap) && OutsideStep(s, s')
    ensures HeapOk(s'.mem, s'.head, s'.heap)
  {
    hide HeapOk;
    OutsideWriteKeeps(s.mem, s'.mem, s.head, s.heap);
  }

  /** After any run of allocator operations, mixed with arbitrary writes in slots in use and outside the blocks, the
      bytes still make up the block list and the free lists, and live and free slots partition every block. */
  lemma {:induction false} HeapRun(ss: seq<HeapState>, k: int)
    requires 0 <= k < |ss| && ss[0].heap == EMPTY_HEAP && ss[0].head == 0
    requires forall j :: 0 <= j < |ss| - 1 ==> HeapStep(ss[j], ss[j + 1])
    ensures HeapOk(ss[k].mem, ss[k].head, ss[k].heap)
    ensures forall b :: b in ss[k].heap.free ==> |LiveSlots(ss[k].heap, b)| + |ss[k].heap.free[b]| == SLOT_COUNT
  {
    if k == 0 {
      EmptyHeapOk(ss[0].mem);
    } else {
      HeapRun(ss, k - 1);
      HeapStepKeeps(ss[k - 1], ss[k]);
    }
    forall b | b in ss[k].heap.free
      ensures |LiveSlots(ss[k].heap, b)| + |ss[k].heap.free[b]| == SLOT_COUNT
    {
      LiveAndFree(ss[k].mem, ss[k].head, ss[k].heap, b);
    }
  }

  lemma EmptyHeapOk(m: Mem)
    ensures HeapOk(m, 0, EMPTY_HEAP)
  {
  }
}
