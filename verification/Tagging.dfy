/** How boundary tags in memory describe the blocks, and what each write of a tag does to that description. */
module Tagging {
  import opened BoundaryTags
  import opened Layout
  import opened FreeIndex

  // What memory says about a block of n words at p.  Its neighbour's copy of its status does not count when stale.
  ghost predicate Tagged(m: seq<Word>, p: int, n: int, free: bool, stale: bool)
    requires 0 <= p && MIN_WORDS <= n && p + n < |m|
  {
    && m[p].units == n && m[p].alloc == !free
    && (!stale ==> m[p + n].prevAlloc == !free && m[p + n].prevMini == (n == MIN_WORDS))
    && (free && n != MIN_WORDS ==> m[p + n - 1] == m[p])
  }

  /** The prologue, the epilogue and all tags describe the blocks; only the successor of `stale` may be out of date. */
  ghost predicate Tags(m: seq<Word>, bs: Blocks, epilogue: int, stale: int)
    requires Tiling(bs, epilogue)
  {
    && epilogue < |m|
    && m[0].units == 0 && m[0].alloc
    && m[epilogue].units == 0 && m[epilogue].alloc
    && m[1].prevAlloc && !m[1].prevMini
    && forall p {:trigger SizeAt(bs, p)} :: p in bs ==> Tagged(m, p, SizeAt(bs, p), FreeAt(bs, p), p == stale)
  }

  predicate HasTag(w: Word, n: int, alloc: bool, prevAlloc: bool, prevMini: bool) {
    w.units == n && w.alloc == alloc && w.prevAlloc == prevAlloc && w.prevMini == prevMini
  }

  /** write_pack turns memory m1 into m2: a header at p, and a footer for a free block that is not mini. */
  ghost predicate Packed(m1: seq<Word>, m2: seq<Word>, p: int, n: int, alloc: bool, prevAlloc: bool, prevMini: bool) {
    && |m1| == |m2| && 0 <= p < |m1|
    && HasTag(m2[p], n, alloc, prevAlloc, prevMini)
    && (!alloc && n != MIN_WORDS ==> p < p + n - 1 < |m1| && m2[p + n - 1] == m2[p])
    && forall a {:trigger m2[a]} ::
         0 <= a < |m1| && a != p && (alloc || n == MIN_WORDS || a != p + n - 1) ==> m1[a] == m2[a]
  }

  /** write_prev_alloc with true on an allocated block at p. */
  ghost predicate PrevAllocSet(m1: seq<Word>, m2: seq<Word>, p: int) {
    && |m1| == |m2| && 0 <= p < |m1|
    && HasTag(m2[p], m1[p].units, m1[p].alloc, true, m1[p].prevMini)
    && forall a {:trigger m2[a]} :: 0 <= a < |m1| && a != p ==> m1[a] == m2[a]
  }

  // A header, or the epilogue, is not a link.
  lemma HeaderNotLink(bs: Blocks, epilogue: int, s: set<int>, a: int)
    requires Tiling(bs, epilogue) && Boundary(bs, epilogue, a) && forall q :: q in s ==> q in bs
    ensures !IsLink(bs, s, a)
  {
    assert SizeAt(bs, a) >= 0;
  }

  // The last word of a block that is not mini is not a link.
  lemma FooterNotLink(bs: Blocks, epilogue: int, s: set<int>, p: int)
    requires Tiling(bs, epilogue) && p in bs && SizeAt(bs, p) >= 4 && forall q :: q in s ==> q in bs
    ensures !IsLink(bs, s, p + SizeAt(bs, p) - 1)
  {
  }

  // Links live inside free blocks, so writing them leaves every tag alone.
  lemma TagsFrame(m1: seq<Word>, m2: seq<Word>, bs: Blocks, epilogue: int, stale: int, s: set<int>)
    requires Tiling(bs, epilogue) && Aligned(bs, epilogue) && Tags(m1, bs, epilogue, stale)
    requires (forall q :: q in s ==> q in bs) && SameExceptLinks(m1, m2, bs, s)
    ensures Tags(m2, bs, epilogue, stale)
  {
    assert !IsLink(bs, s, 0);
    HeaderNotLink(bs, epilogue, s, 1);
    HeaderNotLink(bs, epilogue, s, epilogue);
    assert m2[0] == m1[0] && m2[1] == m1[1] && m2[epilogue] == m1[epilogue];
    forall p {:trigger SizeAt(bs, p)} | p in bs ensures Tagged(m2, p, SizeAt(bs, p), FreeAt(bs, p), p == stale) {
      TaggedFrame(m1, m2, bs, epilogue, stale, s, p);
    }
  }

  lemma TaggedFrame(m1: seq<Word>, m2: seq<Word>, bs: Blocks, epilogue: int, stale: int, s: set<int>, p: int)
    requires Tiling(bs, epilogue) && Aligned(bs, epilogue) && Tags(m1, bs, epilogue, stale)
    requires (forall q :: q in s ==> q in bs) && SameExceptLinks(m1, m2, bs, s) && p in bs
    ensures p + SizeAt(bs, p) < |m1| && Tagged(m2, p, SizeAt(bs, p), FreeAt(bs, p), p == stale)
  {
    var n := SizeAt(bs, p);
    HeaderNotLink(bs, epilogue, s, p);
    HeaderNotLink(bs, epilogue, s, p + n);
    assert m2[p] == m1[p] && m2[p + n] == m1[p + n];
    if n != MIN_WORDS {
      FooterNotLink(bs, epilogue, s, p);
      assert m2[p + n - 1] == m1[p + n - 1];
    }
  }

  /** Coalescing: after the blocks from lo up to hi have become one, its header and footer written and its successor
      told, the tags describe the new cut. */
  lemma FuseTags(m1: seq<Word>, m2: seq<Word>, bs: Blocks, epilogue: int, x: int, lo: int, hi: int)
    requires Tiling(bs, epilogue) && Tags(m1, bs, epilogue, x)
    requires lo in bs && lo <= x < hi && lo + MIN_WORDS <= hi && Boundary(bs, epilogue, hi) && !FreeAt(bs, hi)
    requires Tiling(Fuse(bs, lo, hi), epilogue)
    requires |m1| == |m2| && 0 <= lo && hi < |m1|
    requires forall a {:trigger m2[a]} ::
               0 <= a < |m1| && a != lo && a != hi && (hi - lo != MIN_WORDS ==> a != hi - 1) ==>
               m1[a] == m2[a]
    requires m2[lo].units == hi - lo && !m2[lo].alloc
    requires m2[lo].prevAlloc == m1[lo].prevAlloc && m2[lo].prevMini == m1[lo].prevMini
    requires hi - lo != MIN_WORDS ==> m2[hi - 1] == m2[lo]
    requires m2[hi].units == m1[hi].units && m2[hi].alloc == m1[hi].alloc
    requires !m2[hi].prevAlloc && m2[hi].prevMini == (hi - lo == MIN_WORDS)
    ensures Tags(m2, Fuse(bs, lo, hi), epilogue, 0)
  {
    var fused := Fuse(bs, lo, hi);
    assert SizeAt(fused, lo) == hi - lo && FreeAt(fused, lo);
    assert 1 <= lo + SizeAt(bs, lo) && hi + SizeAt(bs, hi) <= epilogue;
    forall p {:trigger SizeAt(fused, p)} | p in fused
      ensures Tagged(m2, p, SizeAt(fused, p), FreeAt(fused, p), false)
    {
      if p != lo {
        assert SizeAt(fused, p) == SizeAt(bs, p) && FreeAt(fused, p) == FreeAt(bs, p);
        assert p < lo || hi <= p;
        assert p < lo ==> p + SizeAt(bs, p) <= lo;
      }
    }
  }

  // The header behind block p is the epilogue's or that of a block inside the heap.
  lemma NextHeader(m: seq<Word>, bs: Blocks, epilogue: int, stale: int, p: int)
    requires Tiling(bs, epilogue) && Aligned(bs, epilogue) && Tags(m, bs, epilogue, stale) && p in bs
    ensures 1 <= p && MIN_WORDS <= SizeAt(bs, p) && SizeAt(bs, p) % 2 == 0 && SizeOf(m[p]) == SizeAt(bs, p)
    ensures var next := p + SizeAt(bs, p);
            next <= epilogue && m[next].alloc == !FreeAt(bs, next)
            && (m[next].alloc || (MIN_WORDS <= SizeOf(m[next]) && next + SizeOf(m[next]) <= epilogue))
  {
    assert SizeAt(bs, p) % 2 == 0;
    var next := p + SizeAt(bs, p);
    assert next in bs ==> SizeAt(bs, next) % 2 == 0;
  }
}
