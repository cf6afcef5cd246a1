/** Header words of mm.c and the arithmetic on block sizes.

    An address is a word index into the heap: index p stands for the byte address mem_heap_lo() + 8 * p.  Index 0 holds
    the prologue and is never a block, so it also stands for NULL.  Block sizes are counted in 8-byte words, so the
    16-byte alignment of the source reads "even number of words". */
module BoundaryTags {
  import opened LittleEndian

  const TWO_64 := 0x1_0000_0000_0000_0000
  const TWO_61 := 0x2000_0000_0000_0000

  type Units = u: int | 0 <= u < TWO_61

  /** A 64-bit word, cut as the masks of mm.c cut it: the three status bits, and the rest counted in 8 bytes. */
  datatype Word = Word(units: Units, prevMini: bool, prevAlloc: bool, alloc: bool)

  // Minimum block: a header and one payload word (16 bytes).
  const MIN_WORDS := 2

  // Smallest heap extension (4096 bytes).
  const CHUNK_WORDS := 512

  // Number of size-class lists.
  const LENGTH := 14

  // Heaps have fewer words than this: at most 2^62 bytes.
  const MAX_HEAP_WORDS := 0x800_0000_0000_0001

  // The number a word stands for.
  function Value(w: Word): (v: int)
    ensures 0 <= v < TWO_64
  {
    8 * w.units + Bit(w.prevMini, 4) + Bit(w.prevAlloc, 2) + Bit(w.alloc, 1)
  }

  function Bit(b: bool, weight: int): int {
    if b then weight else 0
  }

  // The word that stands for a number.
  function WordOf(v: int): (w: Word)
    requires 0 <= v < TWO_64
    ensures Value(w) == v
  {
    var low := v % 8;
    assert v == 8 * (v / 8) + low;
    Word(v / 8, low >= 4, low % 4 >= 2, low % 2 == 1)
  }

  lemma ValueInjective(w1: Word, w2: Word)
    requires Value(w1) == Value(w2)
    ensures w1 == w2
  {
  }

  // The packed header of a block of n words.
  function PackAll(n: int, alloc: bool, prevAlloc: bool, prevMini: bool): (w: Word)
    requires 0 <= n < MAX_HEAP_WORDS && n % 2 == 0
    ensures w.units == SizeOf(w) == n && w.alloc == alloc && w.prevAlloc == prevAlloc && w.prevMini == prevMini
    ensures Value(w) == 8 * n + (if alloc then 1 else 0) + (if prevAlloc then 2 else 0) + (if prevMini then 4 else 0)
  {
    Word(n, prevMini, prevAlloc, alloc)
  }

  // Size in words: size_mask clears one more bit.
  function SizeOf(w: Word): int {
    w.units - w.units % 2
  }

  // The word with its prev_alloc bit set.
  function WithPrevAlloc(w: Word): Word {
    w.(prevAlloc := true)
  }

  /** What the masks of mm.c read off the number: bit 0, bit 1, bit 2, and everything but the low four bits. */
  lemma FieldsOf(w: Word)
    ensures w.alloc <==> Value(w) % 2 == 1
    ensures w.prevAlloc <==> Value(w) / 2 % 2 == 1
    ensures w.prevMini <==> Value(w) / 4 % 2 == 1
    ensures 8 * SizeOf(w) == Value(w) - Value(w) % 16
    ensures Value(WithPrevAlloc(w)) == Value(w) + if Value(w) / 2 % 2 == 1 then 0 else 2
  {
    var v, u := Value(w), w.units;
    var third := 2 * u + Bit(w.prevMini, 1);
    var second := 2 * third + Bit(w.prevAlloc, 1);
    assert v == 2 * second + Bit(w.alloc, 1);
    assert v / 2 == second && second / 2 == third && v / 4 == third;
    Sixteens(u, v - 8 * u);
  }

  lemma Sixteens(u: int, low: int)
    requires 0 <= low < 8
    ensures 8 * (u - u % 2) == 8 * u + low - (8 * u + low) % 16
  {
    var half, odd := u / 2, u % 2;
    assert 8 * u + low == 16 * half + (8 * odd + low) && 0 <= 8 * odd + low < 16;
  }

  // A stored pointer to the block at p.
  function Pointer(p: int): (w: Word)
    requires 0 <= p < MAX_HEAP_WORDS
    ensures AddressOf(w) == p && Value(w) == 8 * p
  {
    Word(p, false, false, false)
  }

  // Where a pointer that is no multiple of 8 leads to: no word of the heap.
  const ASTRAY := -1

  // The word a stored pointer leads to.
  function AddressOf(w: Word): int {
    if w.prevMini || w.prevAlloc || w.alloc then ASTRAY else w.units
  }

  /** The whole pointer counts: a word leads to p exactly when it is the pointer to p. */
  lemma PointerExact(w: Word, p: int)
    requires 0 <= p
    ensures AddressOf(w) == p <==> Value(w) == 8 * p
  {
  }

  // Rounded up to the next multiple of n.
  function RoundUp(size: int, n: int): (r: int)
    requires n > 0
    ensures size <= r < size + n && r % n == 0
  {
    RoundUpMeets(size, n);
    n * ((size + (n - 1)) / n)
  }

  lemma RoundUpMeets(size: int, n: int)
    requires n > 0
    ensures var r := n * ((size + (n - 1)) / n);
            size <= r < size + n && r % n == 0
  {
    var q := (size + (n - 1)) / n;
    assert size + (n - 1) == n * q + (size + (n - 1)) % n;
    MultipleMod(n, q);
  }

  lemma MultipleMod(n: int, q: int)
    requires n > 0
    ensures n * q % n == 0
  {
    var d, r := n * q / n, n * q % n;
    assert n * q == n * d + r;
    if q < d {
      ProductMonotone(n, q, d);
    } else if d < q {
      ProductMonotone(n, d, q);
    }
  }

  function Max(x: int, y: int): (r: int)
    ensures x <= r && y <= r && (r == x || r == y)
  {
    if x > y then x else y
  }

  /** Index of the free list for a block of `bytes` bytes.  The bounds are strict, as in the code. */
  function FindClass(bytes: int): (c: int)
    ensures 0 <= c < LENGTH
  {
    if bytes < 32 then 0
    else if bytes < 64 then 1
    else if bytes < 128 then 2
    else if bytes < 256 then 3
    else if bytes < 512 then 4
    else if bytes < 1024 then 5
    else if bytes < 2048 then 6
    else if bytes < 3072 then 7
    else if bytes < 4096 then 8
    else if bytes < 6656 then 9
    else if bytes < 8192 then 10
    else if bytes < 16384 then 11
    else if bytes < 32768 then 12
    else 13
  }

  /** Two sizes belong to the same class exactly when none of the bounds separates them. */
  lemma SameClass(a: int, b: int)
    ensures FindClass(a) == FindClass(b)
            <==> && (a < 32 <==> b < 32) && (a < 64 <==> b < 64) && (a < 128 <==> b < 128) && (a < 256 <==> b < 256)
                 && (a < 512 <==> b < 512) && (a < 1024 <==> b < 1024) && (a < 2048 <==> b < 2048)
                 && (a < 3072 <==> b < 3072) && (a < 4096 <==> b < 4096) && (a < 6656 <==> b < 6656)
                 && (a < 8192 <==> b < 8192) && (a < 16384 <==> b < 16384) && (a < 32768 <==> b < 32768)
  {
  }

  // Unsigned 64-bit wrap-around.
  function Wrap(x: int): (r: int)
    ensures 0 <= r < TWO_64
    ensures 0 <= x < TWO_64 ==> r == x
  {
    x % TWO_64
  }

  // round_up(size + wsize, dsize) on 64-bit unsigned arithmetic, in bytes.
  function AdjustedSize(size: int): int
    requires 0 <= size < TWO_64
  {
    Wrap(16 * (Wrap(Wrap(size + 8) + 15) / 16))
  }

  /** The block size malloc computes has room for a header and the request exactly when size + 23 does not wrap; then it
      is the least multiple of 16 that has, so the overhead is between 8 and 23 bytes. */
  lemma AdjustedSizeFits(size: int)
    requires 0 <= size < TWO_64
    ensures size + 23 < TWO_64 <==> size + 8 <= AdjustedSize(size)
    ensures size + 23 < TWO_64 ==>
      AdjustedSize(size) % 16 == 0 && 16 <= AdjustedSize(size) && 8 <= AdjustedSize(size) - size <= 23
    ensures size + 23 >= TWO_64 ==> AdjustedSize(size) == 0 || AdjustedSize(size) == 16
  {
    if size + 8 >= TWO_64 {
      assert Wrap(size + 8) == size + 8 - TWO_64;
    } else if size + 23 >= TWO_64 {
      assert Wrap(size + 23) == size + 23 - TWO_64;
    }
  }

  /** A request that wraps: malloc(2^64 - 1) asks for a block of 16 bytes. */
  lemma HugeRequestWraps()
    ensures AdjustedSize(TWO_64 - 1) == 16
  {
  }

  /** calloc's division test on the wrapped product rejects exactly the products that do not fit 64 bits. */
  lemma OverflowTestExact(elements: int, size: int)
    requires 0 < elements < TWO_64 && 0 <= size < TWO_64
    ensures Wrap(elements * size) / elements == size <==> elements * size < TWO_64
  {
    var product := elements * size;
    if product < TWO_64 {
      assert product >= 0;
      QuotientExact(elements, size);
    } else {
      QuotientBelow(Wrap(product), elements, size);
    }
  }

  // malloc's block size in words: the least even number with room for a header and the request.
  function BlockWords(size: int): (n: int)
    requires 0 <= size && size + 23 < TWO_64
    ensures MIN_WORDS <= n && n % 2 == 0 && size <= 8 * n - 8 && 8 * n <= size + 23
  {
    2 * ((size + 23) / 16)
  }

  /** It is what the code computes on 64 bits. */
  lemma BlockWordsAdjusted(size: int)
    requires 0 <= size && size + 23 < TWO_64
    ensures 8 * BlockWords(size) == AdjustedSize(size)
  {
    AdjustedSizeFits(size);
  }
}
