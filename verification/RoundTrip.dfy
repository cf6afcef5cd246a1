/** malloc followed by free, and what the order of calls cannot influence. */
module RoundTrip {
  import opened BoundaryTags
  import opened Layout
  import opened Coalescing
  import opened FreeIndex
  import opened FitSearch
  import opened Placement
  import opened Allocator

  /** Two heaps of the same extent with the same live blocks are cut in the same way, whatever calls led to them. */
  lemma HistoryIndependent(h1: Heap, h2: Heap)
    requires h1.Ready() && h2.Ready() && h1.brk == h2.brk && Live(h1.blocks) == Live(h2.blocks)
    ensures h1.blocks == h2.blocks
  {
    LayoutUnique(h1.blocks, h2.blocks, h1.brk - 1);
  }

  // bs2 is bs1, or bs1 with what lies between the two epilogues joined to its end.
  ghost predicate Restored(bs1: Blocks, end1: int, bs2: Blocks, end2: int) {
    if end1 == end2 then bs2 == bs1
    else end1 < end2 && exists r {:trigger FreeAt(bs2, r)} :: Joined(Grow(bs1, end1, end2 - end1), bs2, end1, r)
  }

  lemma SameLiveRestored(bs1: Blocks, end1: int, bs2: Blocks, end2: int)
    requires Tiling(bs1, end1) && NoAdjacentFree(bs1, 0) && Tiling(bs2, end2) && NoAdjacentFree(bs2, 0)
    requires Live(bs1) == Live(bs2) && (end1 == end2 || end1 + MIN_WORDS <= end2)
    ensures Restored(bs1, end1, bs2, end2)
  {
    if end1 == end2 {
      LayoutUnique(bs1, bs2, end1);
    } else {
      var tail, lo := TailJoined(bs1, end1, end2 - end1);
      LayoutUnique(tail, bs2, end2);
      assert FreeAt(bs2, lo);
    }
  }

  /** malloc and then free of what it gave: the same cut as before; when the heap had to grow, the cut before with the
      new words joined to its end. */
  method MallocThenFree(h: Heap, size: int) returns (bp: int)
    requires h.Ready() && 0 <= size && size + 23 < TWO_64
    modifies h, h.mem, h.segList
    ensures h.Ready() && KeepsPayloads(old(h.mem[..]), h.mem[..], Live(old(h.blocks)))
    ensures bp == NULL ==> h.blocks == old(h.blocks)
    ensures var n := BlockWords(size);
            && (bp != NULL <==> size != 0
                                && (!NoFit(old(h.blocks), n) || old(h.Grants(h.brk, if 8 * n < 4096 then 512 else n))))
            && 8 * (h.brk - old(h.brk)) == if bp == NULL || !NoFit(old(h.blocks), n) then 0
                                           else if 8 * n < 4096 then 4096 else 8 * n
    ensures Restored(old(h.blocks), old(h.brk) - 1, h.blocks, h.brk - 1)
    ensures h.brk != old(h.brk) ==>
              NoFit(old(h.blocks), BlockWords(size)) && h.brk == old(h.brk) + Max(BlockWords(size), CHUNK_WORDS)
  {
    ghost var m1, live, bs, end := h.mem[..], Live(h.blocks), h.blocks, h.brk - 1;
    bp := Request(h, size);
    if bp != NULL {
      ghost var m2 := h.mem[..];
      GiveBack(h, bp);
      assert Live(h.blocks) == live;
      KeepsFewer(m1, m2, h.mem[..], live, live);
      SameLiveRestored(bs, end, h.blocks, h.brk - 1);
    }
  }

  // free of a live payload: the part of its contract that is needed here.
  method GiveBack(h: Heap, bp: int)
    requires h.Ready() && bp - 1 in Live(h.blocks) && bp != NULL
    modifies h, h.mem, h.segList
    ensures h.Ready() && h.brk == old(h.brk) && Live(h.blocks) == Live(old(h.blocks)) - {bp - 1}
    ensures KeepsPayloads(old(h.mem[..]), h.mem[..], Live(h.blocks))
  {
    h.Free(bp);
  }

  // malloc on a heap in use: when a block is had, and how far the heap grows.
  method Request(h: Heap, size: int) returns (bp: int)
    requires h.Ready() && 0 <= size && size + 23 < TWO_64
    modifies h, h.mem, h.segList
    ensures h.Ready() && KeepsPayloads(old(h.mem[..]), h.mem[..], Live(old(h.blocks)))
    ensures bp == NULL ==> h.blocks == old(h.blocks) && h.brk == old(h.brk)
    ensures bp != NULL ==> bp - 1 in Live(h.blocks) && Live(h.blocks) - {bp - 1} == Live(old(h.blocks))
    ensures var n := BlockWords(size);
            && (bp != NULL <==> size != 0
                                && (!NoFit(old(h.blocks), n) || old(h.Grants(h.brk, if 8 * n < 4096 then 512 else n))))
            && 8 * (h.brk - old(h.brk)) == (if bp == NULL || !NoFit(old(h.blocks), n) then 0
                                            else if 8 * n < 4096 then 4096 else 8 * n)
            && h.brk - old(h.brk) == (if bp == NULL || !NoFit(old(h.blocks), n) then 0 else Max(n, CHUNK_WORDS))
  {
    ghost var s1, live := h.Now(), Live(h.blocks);
    bp := h.Malloc(size);
    GrownBy(h, s1, size, bp, h.Now());
    if bp != NULL {
      BackAgain(live, bp - 1, BlockWords(size));
    }
  }

  lemma BackAgain(live: map<int, int>, p: int, n: int)
    requires p !in live
    ensures live[p := n] - {p} == live
  {
  }

  // The growth of the heap, in bytes.
  lemma GrownBy(h: Heap, s1: State, size: int, bp: int, s2: State)
    requires 0 <= size && size + 23 < TWO_64 && s1.inUse && h.Answered(s1, size, bp, s2)
    ensures var n := BlockWords(size);
            && (bp != NULL <==> size != 0
                                && (!NoFit(s1.blocks, n) || h.Grants(s1.brk, if 8 * n < 4096 then 512 else n)))
            && 8 * (s2.brk - s1.brk) == (if bp == NULL || !NoFit(s1.blocks, n) then 0
                                         else if 8 * n < 4096 then 4096 else 8 * n)
            && s2.brk - s1.brk == (if bp == NULL || !NoFit(s1.blocks, n) then 0 else Max(n, CHUNK_WORDS))
  {
  }

  // ------------------------------------------------------------------ last in, first out

  // A live block between live blocks.
  ghost predicate Enclosed(bs: Blocks, p: int) {
    p in Live(bs) && Lonely(bs, p)
  }

  // Freeing such a block joins nothing, and puts it in front of its list.
  lemma EnclosedFreed(s1: State, p: int, s2: State)
    requires s1.inUse && Laid(s1) && Laid(s2) && Enclosed(s1.blocks, p) && Freed(s1, p, s2)
    ensures s2.blocks == WithStatus(s1.blocks, p, false) && s2.index == Added(s1.index, SizeAt(s1.blocks, p), p)
  {
    var bs := WithStatus(s1.blocks, p, false);
    StatusTiles(s1.blocks, s1.brk - 1, p, false);
    var r :| FreeAt(s2.blocks, r) && Merged(bs, s1.index, p, r, s2.blocks, s2.index);
    assert SizeAt(bs, p) == SizeAt(s1.blocks, p);
    assert forall q {:trigger SizeAt(bs, q)} :: SizeAt(bs, q) == SizeAt(s1.blocks, q);
    LonelyMerged(bs, s1.index, s1.brk - 1, p, r, s2.blocks, s2.index);
  }

  // A block of exactly n words in front of its list is what find_fit picks for n words.
  lemma FrontChosen(bs: Blocks, ix: Index, n: int, p: int, r: int)
    requires SizeAt(bs, p) == n && MIN_WORDS <= n && |ix.lists| == LENGTH
    requires Chosen(bs, Added(ix, n, p).lists, Added(ix, n, p).minis, n, r)
    ensures r == p
  {
    if n != MIN_WORDS {
      var lists, first := Added(ix, n, p).lists, FindClass(8 * n);
      assert lists[first][0] == p;
      var c {:trigger lists[c]} :| first <= c < LENGTH && EndsFirstDescent(bs, lists[c], n, r)
             && forall d {:trigger lists[d]} :: first <= d < c ==> NoneFits(bs, lists[d], n);
      assert c == first by {
        assert p in lists[first];
      }
      FrontEnds(bs, lists[c], n, r);
    }
  }

  // The first fitting block of a list is the smallest when it fits exactly.
  lemma FrontEnds(bs: Blocks, s: seq<int>, n: int, r: int)
    requires s != [] && SizeAt(bs, s[0]) == n && EndsFirstDescent(bs, s, n, r)
    ensures r == s[0]
  {
    var f := Fitting(bs, s, |s|, n);
    FittingBegins(bs, s, 1, |s|, n);
    assert Fitting(bs, s, 0, n) == [] && Fitting(bs, s, 1, n) == [s[0]];
    var k :| EndsDescent(bs, f, k) && f[k] == r;
    if k > 0 {
      assert f[1] in f && SizeAt(bs, f[1]) < SizeAt(bs, f[0]);
      FittingMember(bs, s, |s|, n, f[1]);
    }
  }

  // What a list says about a live block.
  lemma LiveUnlisted(h: Heap, p: int)
    requires h.Ready() && p in Live(h.blocks)
    ensures p !in h.minis && |h.lists| == LENGTH
    ensures forall c {:trigger h.lists[c]} :: 0 <= c < LENGTH ==> p !in h.lists[c]
  {
    forall c {:trigger h.lists[c]} | 0 <= c < LENGTH ensures p !in h.lists[c] {
      assert ClassList(h.mem[..], h.blocks, h.listed, c, h.segList[..][c], h.lists[c]);
    }
  }

  lemma BackInPlace(h: Heap, s1: State, p: int, s2: State, size: int, bp: int, s3: State)
    requires 0 < size && size + 23 < TWO_64 && Returned(s1, p, BlockWords(size), s2) && h.Answered(s2, size, bp, s3)
    requires bp != NULL ==> Live(s3.blocks) == Live(s2.blocks)[bp - 1 := BlockWords(size)]
    requires p in Live(s1.blocks) && Live(s1.blocks)[p] == BlockWords(size) && Laid(s1) && Laid(s3)
    ensures bp == p + 1 && s3 == s1
  {
    FrontAnswered(h, s2, s1.index, p, size, bp, s3);
    SameAgain(s1, s2, s3, p, BlockWords(size));
  }

  // The block p of n words has been put in front of its list, and nothing else has changed.
  ghost predicate Returned(s1: State, p: int, n: int, s2: State) {
    && s1.inUse && s2.inUse && s2.brk == s1.brk && FreeAt(s2.blocks, p) && SizeAt(s2.blocks, p) == n
    && Live(s2.blocks) == Live(s1.blocks) - {p} && s2.index == Added(s1.index, n, p)
    && |s1.index.lists| == LENGTH && p !in s1.index.minis
    && forall c {:trigger s1.index.lists[c]} :: 0 <= c < LENGTH ==> p !in s1.index.lists[c]
  }

  lemma SameAgain(s1: State, s2: State, s3: State, p: int, n: int)
    requires s1.inUse && s3.inUse && Laid(s1) && Laid(s3) && s3.brk == s2.brk == s1.brk && s3.index == s1.index
    requires p in Live(s1.blocks) && Live(s1.blocks)[p] == n
    requires Live(s2.blocks) == Live(s1.blocks) - {p} && Live(s3.blocks) == Live(s2.blocks)[p := n]
    ensures s3 == s1
  {
    LiveAgain(Live(s1.blocks), p, n);
    LayoutUnique(s3.blocks, s1.blocks, s1.brk - 1);
  }

  lemma LiveAgain(live: map<int, int>, p: int, n: int)
    requires p in live && live[p] == n
    ensures (live - {p})[p := n] == live
  {
  }

  // A request that fits the block in front of its list exactly gets it, and leaves the lists without it.
  lemma FrontAnswered(h: Heap, s2: State, ix: Index, p: int, size: int, bp: int, s3: State)
    requires s2.inUse && 0 < size && size + 23 < TWO_64 && |ix.lists| == LENGTH && FreeAt(s2.blocks, p)
    requires SizeAt(s2.blocks, p) == BlockWords(size) && s2.index == Added(ix, BlockWords(size), p)
    requires p !in ix.minis && forall c {:trigger ix.lists[c]} :: 0 <= c < LENGTH ==> p !in ix.lists[c]
    requires h.Answered(s2, size, bp, s3)
    ensures bp == p + 1 && s3.inUse && s3.brk == s2.brk && s3.index == ix
  {
    var n := BlockWords(size);
    h.AnswerMeans(s2, size, bp, s3);
    FrontChosen(s2.blocks, ix, n, p, bp - 1);
    TakenAdded(ix, n, p);
  }

  /** free and then malloc for the same block size: a block between live blocks is had again at once, and the heap is as
      if nothing had happened. */
  method FreeThenMalloc(h: Heap, bp: int, size: int) returns (r: int)
    requires h.Ready() && bp != NULL && Enclosed(h.blocks, bp - 1)
    requires 0 < size && size + 23 < TWO_64 && Live(h.blocks)[bp - 1] == BlockWords(size)
    modifies h, h.mem, h.segList
    ensures h.Ready() && r == bp && h.Now() == old(h.Now())
    ensures KeepsPayloads(old(h.mem[..]), h.mem[..], Live(h.blocks) - {bp - 1})
  {
    ghost var m1, s1 := h.mem[..], h.Now();
    Release(h, bp, BlockWords(size));
    ghost var m2, live := h.mem[..], Live(h.blocks);
    r := Again(h, size, s1, bp - 1);
    KeepsFewer(m1, m2, h.mem[..], live, live);
  }

  // free of a live payload of n words between live blocks.
  method Release(h: Heap, bp: int, ghost n: int)
    requires h.Ready() && bp != NULL && Enclosed(h.blocks, bp - 1) && Live(h.blocks)[bp - 1] == n
    modifies h, h.mem, h.segList
    ensures h.Ready() && Returned(old(h.Now()), bp - 1, n, h.Now())
    ensures KeepsPayloads(old(h.mem[..]), h.mem[..], Live(h.blocks))
  {
    ghost var s1 := h.Now();
    LiveUnlisted(h, bp - 1);
    h.Free(bp);
    EnclosedReturned(s1, bp - 1, n, h.Now());
  }

  lemma EnclosedReturned(s1: State, p: int, n: int, s2: State)
    requires s1.inUse && Laid(s1) && Laid(s2) && Enclosed(s1.blocks, p) && Freed(s1, p, s2)
    requires Live(s1.blocks)[p] == n && Live(s2.blocks) == Live(s1.blocks) - {p}
    requires |s1.index.lists| == LENGTH && p !in s1.index.minis
    requires forall c {:trigger s1.index.lists[c]} :: 0 <= c < LENGTH ==> p !in s1.index.lists[c]
    ensures Returned(s1, p, n, s2)
  {
    assert SizeAt(s1.blocks, p) == n;
    EnclosedFreed(s1, p, s2);
  }

  // malloc on a heap in use, with the part of its contract that is needed here.
  method Ask(h: Heap, size: int) returns (bp: int)
    requires h.Ready() && 0 < size && size + 23 < TWO_64
    modifies h, h.mem, h.segList
    ensures h.Ready() && Laid(h.Now()) && h.Answered(old(h.Now()), size, bp, h.Now())
    ensures bp != NULL ==> Live(h.blocks) == Live(old(h.blocks))[bp - 1 := BlockWords(size)]
    ensures KeepsPayloads(old(h.mem[..]), h.mem[..], Live(old(h.blocks)))
  {
    bp := h.Malloc(size);
  }

  // malloc for the block p, which has just come back.
  method Again(h: Heap, size: int, ghost s1: State, ghost p: int) returns (bp: int)
    requires h.Ready() && 0 < size && size + 23 < TWO_64 && Returned(s1, p, BlockWords(size), h.Now())
    requires p in Live(s1.blocks) && Live(s1.blocks)[p] == BlockWords(size) && Laid(s1)
    modifies h, h.mem, h.segList
    ensures h.Ready() && bp == p + 1 && h.Now() == s1
    ensures KeepsPayloads(old(h.mem[..]), h.mem[..], Live(old(h.blocks)))
  {
    ghost var s2 := h.Now();
    bp := Ask(h, size);
    BackInPlace(h, s1, p, s2, size, bp, h.Now());
  }

  // ------------------------------------------------------------------ small classes first

  // The lists of a heap in use hold the free blocks, each in its class.
  lemma ReadyGathered(h: Heap)
    requires h.Ready()
    ensures |h.lists| == LENGTH
    ensures forall c {:trigger h.lists[c]} :: 0 <= c < LENGTH ==> Gathered(h.blocks, h.lists[c], c)
    ensures forall p {:trigger p in h.minis} :: p in h.minis <==> FreeAt(h.blocks, p) && IsMini(h.blocks, p)
  {
    assert SizeAt(h.blocks, 0) == 0;
    forall c {:trigger h.lists[c]} | 0 <= c < LENGTH ensures Gathered(h.blocks, h.lists[c], c) {
      assert ClassList(h.mem[..], h.blocks, h.listed, c, h.segList[..][c], h.lists[c]);
    }
  }

  /** When a block q below one of the bounds of the classes fits, malloc takes a block below that bound. */
  method MallocBelow(h: Heap, size: int, ghost q: int, ghost bound: int) returns (bp: int)
    requires h.Ready() && 0 < size && size + 23 < TWO_64
    requires bound in [32, 64, 128, 256, 512, 1024, 2048, 3072, 4096, 6656, 8192, 16384, 32768]
    requires FreeAt(h.blocks, q) && BlockWords(size) <= SizeAt(h.blocks, q) && 8 * SizeAt(h.blocks, q) < bound
    modifies h, h.mem, h.segList
    ensures h.Ready() && bp != NULL && FreeAt(old(h.blocks), bp - 1) && 8 * SizeAt(old(h.blocks), bp - 1) < bound
  {
    ghost var bs, lists, minis := h.blocks, h.lists, h.minis;
    ReadyGathered(h);
    bp := Pick(h, size);
    SegregatedFit(bs, lists, minis, BlockWords(size), bp - 1, q, bound);
    ChosenFree(bs, lists, minis, BlockWords(size), bp - 1);
  }

  // malloc when a block fits.
  method Pick(h: Heap, size: int) returns (bp: int)
    requires h.Ready() && 0 < size && size + 23 < TWO_64 && !NoFit(h.blocks, BlockWords(size))
    modifies h, h.mem, h.segList
    ensures h.Ready() && bp != NULL && Chosen(old(h.blocks), old(h.lists), old(h.minis), BlockWords(size), bp - 1)
  {
    bp := h.Malloc(size);
  }
}
