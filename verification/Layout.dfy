/** The implicit list of blocks: how the heap is cut into blocks, and how boundary tags in memory describe the cut. */
module Layout {
  import opened BoundaryTags

  /** The blocks of a heap: the address of each header with the size of the block in words, header included; the size is
      negated for a free block. */
  type Blocks = map<int, int>

  function BlockOf(size: int, alloc: bool): int {
    if alloc then size else -size
  }

  function SizeAt(bs: Blocks, p: int): int {
    if p !in bs then 0 else if bs[p] < 0 then -bs[p] else bs[p]
  }

  predicate FreeAt(bs: Blocks, p: int) {
    p in bs && bs[p] < 0
  }

  // An address where a header is found: a block or the epilogue.
  ghost predicate Boundary(bs: Blocks, epilogue: int, a: int) {
    a == epilogue || a in bs
  }

  // A block of n words at p lies in front of the epilogue and ends where a header is.
  ghost predicate Fits(bs: Blocks, epilogue: int, p: int, n: int) {
    1 <= p && MIN_WORDS <= n && p + n <= epilogue && Boundary(bs, epilogue, p + n)
  }

  // A block of n words at p does not reach into one of k words at q.
  predicate Apart(p: int, n: int, q: int, k: int) {
    p < q ==> p + n <= q < q + k
  }

  // The blocks fill the words from 1 up to the epilogue without gap or overlap.
  ghost predicate Tiling(bs: Blocks, epilogue: int) {
    && 1 <= epilogue
    && Boundary(bs, epilogue, 1)
    && (forall p {:trigger SizeAt(bs, p)} :: p in bs ==> Fits(bs, epilogue, p, SizeAt(bs, p)))
    && (forall p, q {:trigger SizeAt(bs, p), SizeAt(bs, q)} ::
          p in bs && q in bs ==> Apart(p, SizeAt(bs, p), q, SizeAt(bs, q)))
  }

  predicate AlignedAt(p: int, n: int) {
    p % 2 == 1 && n % 2 == 0
  }

  // Headers sit at 8 mod 16 and sizes are multiples of 16, so payloads are 16-byte aligned.
  ghost predicate Aligned(bs: Blocks, epilogue: int) {
    && epilogue % 2 == 1
    && forall p {:trigger SizeAt(bs, p)} :: p in bs ==> AlignedAt(p, SizeAt(bs, p))
  }

  // No two neighbouring blocks are both free; a pair is not looked at when it contains x.
  ghost predicate NoAdjacentFree(bs: Blocks, x: int) {
    forall p, q {:trigger SizeAt(bs, p), FreeAt(bs, q)} ::
      FreeAt(bs, p) && FreeAt(bs, q) && p != x && q != x ==> q != p + SizeAt(bs, p)
  }

  // The allocated blocks, with their sizes.
  ghost function Live(bs: Blocks): map<int, int> {
    map p | p in bs && !(bs[p] < 0) :: bs[p]
  }

  // ------------------------------------------------------------------ walking

  // Every boundary except the first has a block that ends there.
  lemma {:induction false} PredecessorFrom(bs: Blocks, epilogue: int, from: int, a: int) returns (p: int)
    requires Tiling(bs, epilogue) && from in bs && from < a && Boundary(bs, epilogue, a)
    ensures p in bs && p + SizeAt(bs, p) == a
    decreases a - from
  {
    var next := from + SizeAt(bs, from);
    if next == a {
      p := from;
    } else {
      assert SizeAt(bs, a) >= 0;
      p := PredecessorFrom(bs, epilogue, next, a);
    }
  }

  lemma Predecessor(bs: Blocks, epilogue: int, a: int) returns (p: int)
    requires Tiling(bs, epilogue) && Boundary(bs, epilogue, a) && a != 1
    ensures p in bs && p + SizeAt(bs, p) == a
  {
    assert SizeAt(bs, a) >= 0;
    p := PredecessorFrom(bs, epilogue, 1, a);
  }

  // ------------------------------------------------------------------ one layout per set of live blocks

  /** A layout without adjacent free blocks is determined by its allocated blocks and its end: the free blocks are the
      maximal gaps.  So whatever order blocks were freed in, coalescing leads to the same cut. */
  lemma LayoutUnique(b1: Blocks, b2: Blocks, epilogue: int)
    requires Tiling(b1, epilogue) && NoAdjacentFree(b1, 0)
    requires Tiling(b2, epilogue) && NoAdjacentFree(b2, 0)
    requires Live(b1) == Live(b2)
    ensures b1 == b2
  {
    forall p | p in b1 ensures p in b2 && b1[p] == b2[p] {
      assert SizeAt(b1, p) >= 0;
      SameBlock(b1, b2, epilogue, 1, p);
    }
    forall p | p in b2 ensures p in b1 {
      assert SizeAt(b2, p) >= 0;
      SameBlock(b2, b1, epilogue, 1, p);
    }
  }

  lemma {:induction false} SameBlock(b1: Blocks, b2: Blocks, epilogue: int, from: int, p: int)
    requires Tiling(b1, epilogue) && NoAdjacentFree(b1, 0)
    requires Tiling(b2, epilogue) && NoAdjacentFree(b2, 0)
    requires Live(b1) == Live(b2)
    requires p in b1 && Boundary(b1, epilogue, from) && Boundary(b2, epilogue, from) && from <= p
    ensures p in b2 && b1[p] == b2[p]
    decreases p - from
  {
    assert from + SizeAt(b1, from) <= epilogue && p + SizeAt(b1, p) <= epilogue;
    SameSize(b1, b2, epilogue, from);
    if from < p {
      assert SizeAt(b2, from) == SizeAt(b1, from);
      SameBlock(b1, b2, epilogue, from + SizeAt(b1, from), p);
    }
  }

  lemma SameSize(b1: Blocks, b2: Blocks, epilogue: int, p: int)
    requires Tiling(b1, epilogue) && NoAdjacentFree(b1, 0)
    requires Tiling(b2, epilogue) && NoAdjacentFree(b2, 0)
    requires Live(b1) == Live(b2)
    requires p in b1 && p in b2
    ensures b1[p] == b2[p]
  {
    assert p in Live(b1) <==> p in Live(b2);
    if p in Live(b1) {
      assert Live(b1)[p] == Live(b2)[p];
    } else {
      NotShorter(b1, b2, epilogue, p);
      NotShorter(b2, b1, epilogue, p);
    }
  }

  // A free block cannot end inside a free block of the other layout: what follows it is allocated there too.
  lemma NotShorter(b1: Blocks, b2: Blocks, epilogue: int, p: int)
    requires Tiling(b1, epilogue) && NoAdjacentFree(b1, 0) && Tiling(b2, epilogue)
    requires Live(b1) == Live(b2)
    requires FreeAt(b1, p) && p in b2
    ensures SizeAt(b2, p) <= SizeAt(b1, p)
  {
    var q := p + SizeAt(b1, p);
    assert p + SizeAt(b2, p) <= epilogue;
    if q != epilogue {
      assert !FreeAt(b1, q);
      assert q in Live(b1);
      assert q in Live(b2);
      assert SizeAt(b2, q) >= 0;
    }
  }

  // ------------------------------------------------------------------ changing the cut

  // The blocks from lo up to hi become one free block.
  ghost function Fuse(bs: Blocks, lo: int, hi: int): (r: Blocks)
    requires lo < hi
    ensures forall p {:trigger p in r} :: p in r <==> p == lo || (p in bs && !(lo <= p < hi))
    ensures forall p {:trigger SizeAt(r, p)} :: SizeAt(r, p) ==
              if p == lo then hi - lo else if lo < p < hi then 0 else SizeAt(bs, p)
    ensures forall p {:trigger FreeAt(r, p)} :: FreeAt(r, p) <==> p == lo || (FreeAt(bs, p) && !(lo <= p < hi))
  {
    (map p | p in bs && !(lo <= p < hi) :: bs[p])[lo := BlockOf(hi - lo, false)]
  }

  // The block at p is cut after n words.
  ghost function Cut(bs: Blocks, p: int, n: int): (r: Blocks)
    requires 0 < n < SizeAt(bs, p)
    ensures forall q {:trigger q in r} :: q in r <==> q == p || q == p + n || q in bs
    ensures forall q {:trigger SizeAt(r, q)} ::
              SizeAt(r, q) == if q == p then n else if q == p + n then SizeAt(bs, p) - n else SizeAt(bs, q)
    ensures forall q {:trigger FreeAt(r, q)} :: FreeAt(r, q) <==> q == p + n || (q != p && FreeAt(bs, q))
  {
    bs[p := BlockOf(n, true)][p + n := BlockOf(SizeAt(bs, p) - n, false)]
  }

  // A free block of n words takes the place of the epilogue.
  ghost function Grow(bs: Blocks, epilogue: int, n: int): (r: Blocks)
    requires 0 < n
    ensures forall p {:trigger p in r} :: p in r <==> p == epilogue || p in bs
    ensures forall p {:trigger SizeAt(r, p)} :: SizeAt(r, p) == if p == epilogue then n else SizeAt(bs, p)
    ensures forall p {:trigger FreeAt(r, p)} :: FreeAt(r, p) <==> p == epilogue || FreeAt(bs, p)
  {
    bs[epilogue := BlockOf(n, false)]
  }

  // The block at p becomes allocated or free.
  ghost function WithStatus(bs: Blocks, p: int, alloc: bool): (r: Blocks)
    requires 0 < SizeAt(bs, p)
    ensures forall q {:trigger q in r} :: q in r <==> q in bs
    ensures forall q {:trigger SizeAt(r, q)} :: SizeAt(r, q) == SizeAt(bs, q)
    ensures forall q {:trigger FreeAt(r, q)} :: FreeAt(r, q) <==> if q == p then !alloc else FreeAt(bs, q)
  {
    bs[p := BlockOf(SizeAt(bs, p), alloc)]
  }

  lemma FuseTiles(bs: Blocks, epilogue: int, lo: int, hi: int)
    requires Tiling(bs, epilogue) && lo in bs && lo + MIN_WORDS <= hi && Boundary(bs, epilogue, hi)
    ensures Tiling(Fuse(bs, lo, hi), epilogue)
  {
    assert 1 <= lo + SizeAt(bs, lo) && hi + SizeAt(bs, hi) <= epilogue;
  }

  lemma CutTiles(bs: Blocks, epilogue: int, p: int, n: int)
    requires Tiling(bs, epilogue) && p in bs && MIN_WORDS <= n && MIN_WORDS <= SizeAt(bs, p) - n
    ensures Tiling(Cut(bs, p, n), epilogue)
  {
  }

  lemma GrowTiles(bs: Blocks, epilogue: int, n: int)
    requires Tiling(bs, epilogue) && MIN_WORDS <= n
    ensures Tiling(Grow(bs, epilogue, n), epilogue + n)
  {
  }

  lemma StatusTiles(bs: Blocks, epilogue: int, p: int, alloc: bool)
    requires Tiling(bs, epilogue) && Aligned(bs, epilogue) && p in bs && 0 < SizeAt(bs, p)
    ensures Tiling(WithStatus(bs, p, alloc), epilogue) && Aligned(WithStatus(bs, p, alloc), epilogue)
    ensures if alloc then Live(WithStatus(bs, p, alloc)) == Live(bs)[p := SizeAt(bs, p)]
            else Live(WithStatus(bs, p, alloc)) == Live(bs) - {p}
  {
  }

  lemma FuseAligned(bs: Blocks, epilogue: int, lo: int, hi: int)
    requires Tiling(bs, epilogue) && Aligned(bs, epilogue) && lo in bs && lo < hi && Boundary(bs, epilogue, hi)
    ensures Aligned(Fuse(bs, lo, hi), epilogue)
  {
    assert AlignedAt(lo, SizeAt(bs, lo)) && (hi in bs ==> AlignedAt(hi, SizeAt(bs, hi)));
  }

  lemma CutAligned(bs: Blocks, epilogue: int, p: int, n: int)
    requires Aligned(bs, epilogue) && p in bs && n % 2 == 0 && 0 < n < SizeAt(bs, p)
    ensures Aligned(Cut(bs, p, n), epilogue)
  {
    assert AlignedAt(p, SizeAt(bs, p));
  }

  lemma GrowAligned(bs: Blocks, epilogue: int, n: int)
    requires Aligned(bs, epilogue) && n % 2 == 0 && 0 < n
    ensures Aligned(Grow(bs, epilogue, n), epilogue + n)
  {
  }

  // What lies between lo and hi, all free.
  ghost predicate AllFree(bs: Blocks, lo: int, hi: int) {
    forall p {:trigger SizeAt(bs, p)} {:trigger FreeAt(bs, p)} :: p in bs && lo <= p < hi ==> FreeAt(bs, p)
  }

  lemma FuseLive(bs: Blocks, lo: int, hi: int)
    requires lo in bs && lo < hi && AllFree(bs, lo, hi)
    ensures Live(Fuse(bs, lo, hi)) == Live(bs)
  {
    forall p | p in Live(bs) ensures p in Live(Fuse(bs, lo, hi)) {
      assert !FreeAt(bs, p);
    }
  }

  // Fusing a whole run of free blocks, x among them, leaves no neighbouring free blocks.
  lemma FuseSeparates(bs: Blocks, epilogue: int, x: int, lo: int, hi: int)
    requires Tiling(bs, epilogue) && NoAdjacentFree(bs, x) && lo in bs && lo <= x < hi && Boundary(bs, epilogue, hi)
    requires !FreeAt(bs, hi)
    requires forall p {:trigger SizeAt(bs, p)} :: FreeAt(bs, p) ==> p + SizeAt(bs, p) != lo
    ensures NoAdjacentFree(Fuse(bs, lo, hi), 0)
  {
  }
}
