/** Machine words, little-endian layout and the flat byte memory of the process. */
module Words {

  type byte = x: int | 0 <= x < 256

  const TWO8: int := 0x100
  const TWO31: int := 0x8000_0000
  const TWO32: int := 0x1_0000_0000
  const TWO64: int := 0x1_0000_0000_0000_0000

  /** Size of one of the allocator's slots. */
  const SLOT_SIZE: int := 64

  /** How far from its origin a slot may be. */
  const MAX_MEMORY_RANGE: int := 0x4000_0000

  /** End of the user-mode address space. */
  const USER_LIMIT: int := 0x8000_0000_0000

  datatype Option<+T> = None | Some(value: T)

  /** xs but for its element i. */
  function Without<T>(xs: seq<T>, i: int): seq<T>
    requires 0 <= i < |xs|
  {
    xs[..i] + xs[i + 1..]
  }

  /** The conversions (UINT32)x and (uintptr_t)x. */
  function Wrap32(x: int): (w: int)
    ensures 0 <= w < TWO32
  {
    x % TWO32
  }

  function Wrap64(x: int): (w: int)
    ensures 0 <= w < TWO64
  {
    x % TWO64
  }

  /** The conversions (INT8)x and (INT32)x of an unsigned value. */
  function SExt8(x: int): int
  {
    var low := x % TWO8;
    if low < 0x80 then low else low - TWO8
  }

  function SExt32(x: int): int
  {
    var low := x % TWO32;
    if low < TWO31 then low else low - TWO32
  }

  /** x is the value of some signed 32-bit displacement. */
  predicate Fits32(x: int)
  {
    -TWO31 <= x < TWO31
  }

  /** Bit k of a byte. */
  predicate Bit(b: byte, k: int)
  {
    match k
    case 0 => b % 2 == 1
    case 1 => b / 2 % 2 == 1
    case 2 => b / 4 % 2 == 1
    case 3 => b / 8 % 2 == 1
    case 4 => b / 16 % 2 == 1
    case 5 => b / 32 % 2 == 1
    case 6 => b / 64 % 2 == 1
    case 7 => b / 128 == 1
    case _ => false
  }

  /** Truncating to 32 bits and sign-extending back is lossless exactly on the signed 32-bit range. */
  lemma TruncationKeepsFitting(x: int)
    ensures SExt32(Wrap32(x)) == x <==> Fits32(x)
  {
  }

  /** The conversions take off a multiple of the size of the word. */
  lemma Truncation(x: int)
    ensures 0 <= Wrap32(x) < 0x1_0000_0000 && x - Wrap32(x) == x / 0x1_0000_0000 * 0x1_0000_0000
    ensures 0 <= Wrap64(x) < 0x1_0000_0000_0000_0000 && x - Wrap64(x) == x / 0x1_0000_0000_0000_0000 * 0x1_0000_0000_0000_0000
  {
  }

  lemma SignExtension(x: int)
    ensures -0x80 <= SExt8(x) < 0x80 && x - SExt8(x) == (x + 0x80) / 0x100 * 0x100
    ensures -0x8000_0000 <= SExt32(x) < 0x8000_0000 && x - SExt32(x) == (x + 0x8000_0000) / 0x1_0000_0000 * 0x1_0000_0000
  {
  }

  // ---------------------------------------------------------------------
  // Little-endian layout
  // ---------------------------------------------------------------------

  function Bytes4(x: int): (bs: seq<byte>)
    ensures |bs| == 4
  {
    [x % 256, x / 256 % 256, x / 65536 % 256, x / 16777216 % 256]
  }

  function Bytes8(x: int): (bs: seq<byte>)
    ensures |bs| == 8
  {
    Bytes4(x) + Bytes4(x / TWO32)
  }

  function Join4(b0: byte, b1: byte, b2: byte, b3: byte): int
  {
    (b0 as int) + 256 * b1 + 65536 * b2 + 16777216 * b3
  }

  lemma Digits(x: int)
    ensures x % TWO32 == x % 256 + 256 * (x / 256 % 256) + 65536 * (x / 65536 % 256) + 16777216 * (x / 16777216 % 256)
  {
    var y := x / 256;
    var z := y / 256;
    var w := z / 256;
    assert z == x / 65536;
    assert w == x / 16777216;
    assert x == x % 256 + 256 * (y % 256 + 256 * (z % 256 + 256 * w));
    assert w == w % 256 + 256 * (w / 256);
    var low := x % 256 + 256 * (y % 256) + 65536 * (z % 256) + 16777216 * (w % 256);
    assert x == low + TWO32 * (w / 256);
  }

  // ---------------------------------------------------------------------
  // Memory
  // ---------------------------------------------------------------------

  /** One byte at every address. */
  type Mem = int -> byte

  function Read(m: Mem, a: int, n: nat): (bs: seq<byte>)
    ensures |bs| == n
    ensures forall k :: 0 <= k < n ==> bs[k] == m(a + k)
  {
    seq(n, i requires 0 <= i < n => m(a + i))
  }

  function Set(m: Mem, a: int, b: byte): (m': Mem)
    ensures forall x {:trigger m'(x)} :: m'(x) == if x == a then b else m(x)
  {
    x => if x == a then b else m(x)
  }

  function Write(m: Mem, a: int, bs: seq<byte>): (m': Mem)
    ensures forall x {:trigger m'(x)} :: m'(x) == if a <= x < a + |bs| then bs[x - a] else m(x)
  {
    x => if a <= x < a + |bs| then bs[x - a] else m(x)
  }

  function Read16(m: Mem, a: int): (w: int)
    ensures 0 <= w < 65536
  {
    (m(a) as int) + 256 * m(a + 1)
  }

  function Read32(m: Mem, a: int): (w: int)
    ensures 0 <= w < TWO32
  {
    Join4(m(a), m(a + 1), m(a + 2), m(a + 3))
  }

  function Read64(m: Mem, a: int): (w: int)
    ensures 0 <= w < TWO64
  {
    Read32(m, a) + TWO32 * Read32(m, a + 4)
  }

  /** The lowest byte stands first. */
  lemma LittleEndian(m: Mem, a: int)
    ensures Read16(m, a) == m(a) as int + 0x100 * m(a + 1)
    ensures Read32(m, a) == m(a) as int + 0x100 * m(a + 1) + 0x1_0000 * m(a + 2) + 0x100_0000 * m(a + 3)
    ensures Read64(m, a) == m(a) as int + 0x100 * m(a + 1) + 0x1_0000 * m(a + 2) + 0x100_0000 * m(a + 3)
                          + 0x1_0000_0000 * m(a + 4) + 0x100_0000_0000 * m(a + 5) + 0x1_0000_0000_0000 * m(a + 6)
                          + 0x100_0000_0000_0000 * m(a + 7)
  {
  }

  /** Offsets lo to hi from a in m and from b in m' hold the same bytes. */
  ghost predicate Agree(m: Mem, a: int, m': Mem, b: int, lo: int, hi: int)
  {
    forall x {:trigger m(x)} :: a + lo <= x < a + hi ==> m(x) == m'(x - a + b)
  }

  lemma AgreeAt(m: Mem, a: int, m': Mem, b: int, lo: int, hi: int, k: int)
    requires Agree(m, a, m', b, lo, hi) && lo <= k < hi
    ensures m(a + k) == m'(b + k)
  {
    assert a + k - a + b == b + k;
  }

  lemma AgreeSymmetric(m: Mem, a: int, m': Mem, b: int, lo: int, hi: int)
    requires Agree(m, a, m', b, lo, hi)
    ensures Agree(m', b, m, a, lo, hi)
  {
    forall x | b + lo <= x < b + hi
      ensures m'(x) == m(x - b + a)
    {
      AgreeAt(m, a, m', b, lo, hi, x - b);
    }
  }

  /** Agreeing bytes make agreeing words. */
  lemma WordsAgree(m: Mem, a: int, m': Mem, b: int, lo: int, hi: int, k: int)
    requires Agree(m, a, m', b, lo, hi) && lo <= k
    ensures k < hi ==> m(a + k) == m'(b + k)
    ensures k + 2 <= hi ==> Read16(m, a + k) == Read16(m', b + k)
    ensures k + 4 <= hi ==> Read32(m, a + k) == Read32(m', b + k)
    ensures k + 8 <= hi ==> Read64(m, a + k) == Read64(m', b + k)
  {
    assert a + k - a + b == b + k;
    assert a + k + 1 - a + b == b + k + 1;
    assert a + k + 2 - a + b == b + k + 2;
    assert a + k + 3 - a + b == b + k + 3;
    if k + 8 <= hi {
      assert Read32(m, a + k) == Read32(m', b + k);
      assert a + k + 4 - a + b == b + k + 4;
      assert a + k + 5 - a + b == b + k + 5;
      assert a + k + 6 - a + b == b + k + 6;
      assert a + k + 7 - a + b == b + k + 7;
      assert Read32(m, a + k + 4) == Read32(m', b + k + 4);
    }
  }

  lemma Read32OfBytes4(m: Mem, a: int, x: int)
    requires Read(m, a, 4) == Bytes4(x)
    ensures Read32(m, a) == Wrap32(x)
  {
    var bs := Read(m, a, 4);
    assert m(a + 0) == bs[0] && m(a + 1) == bs[1] && m(a + 2) == bs[2] && m(a + 3) == bs[3];
    Digits(x);
  }

  lemma Read64OfBytes8(m: Mem, a: int, x: int)
    requires Read(m, a, 8) == Bytes8(x)
    ensures Read64(m, a) == Wrap64(x)
  {
    var bs := Read(m, a, 8);
    assert Read(m, a, 4) == bs[..4] == Bytes4(x);
    assert Read(m, a + 4, 4) == bs[4..] == Bytes4(x / TWO32);
    Read32OfBytes4(m, a, x);
    Read32OfBytes4(m, a + 4, x / TWO32);
    SplitWord(x);
  }

  lemma SplitWord(x: int)
    ensures x % TWO64 == x % TWO32 + TWO32 * (x / TWO32 % TWO32)
  {
    var h := x / TWO32;
    assert x == x % TWO32 + TWO32 * (h % TWO32 + TWO32 * (h / TWO32));
    assert x == (x % TWO32 + TWO32 * (h % TWO32)) + TWO64 * (h / TWO32);
  }
}
