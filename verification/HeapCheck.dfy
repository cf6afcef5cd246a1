/** mm_checkheap: what a positive answer means, and why it is always positive on a heap in use. */
module HeapCheck {
  import opened BoundaryTags
  import opened Layout
  import opened FreeIndex
  import opened Tagging
  import opened Coalescing
  import opened FitSearch
  import opened Allocator

  // ------------------------------------------------------------------ the walk over the blocks

  function FindNext(m: seq<Word>, p: int): int
    requires 0 <= p < |m|
  {
    p + SizeOf(m[p])
  }

  // The checks on one block that only need its header: alignment of its payload, place in the heap, size.
  predicate HeaderPasses(m: seq<Word>, p: int)
    requires 0 <= p < |m|
  {
    8 * (p + 1) % 16 == 0 && MIN_WORDS <= SizeOf(m[p]) && 8 * SizeOf(m[p]) % 16 == 0
  }

  // The checks that look at the footer and at the next header.
  predicate NeighbourPasses(m: seq<Word>, p: int)
    requires 0 <= p < |m| && p < FindNext(m, p) < |m|
  {
    var next := FindNext(m, p);
    && (!m[p].alloc && !m[next].prevMini ==> m[p] == m[next - 1])
    && (m[p].alloc || m[next].alloc)
  }

  /** No block that the walk from p on looks at reaches behind the epilogue.  The checker follows sizes before it has
      compared them with the end of the heap, so it needs this to stay inside the heap. */
  ghost predicate Contained(m: seq<Word>, p: int, epilogue: int)
    requires 0 <= p && epilogue < |m|
    decreases epilogue - p
  {
    p == epilogue
    || (p < epilogue
        && (HeaderPasses(m, p) ==> FindNext(m, p) <= epilogue)
        && (HeaderPasses(m, p) && NeighbourPasses(m, p) ==> Contained(m, FindNext(m, p), epilogue)))
  }

  /** Every block from p on passes, and the walk ends at the epilogue. */
  ghost predicate Passes(m: seq<Word>, p: int, epilogue: int)
    requires 0 <= p && epilogue < |m|
    decreases epilogue - p
  {
    p == epilogue
    || (p < epilogue && HeaderPasses(m, p) && FindNext(m, p) <= epilogue && NeighbourPasses(m, p)
        && Passes(m, FindNext(m, p), epilogue))
  }

  // The prologue and the epilogue are allocated and have size zero.
  predicate EndsPass(m: seq<Word>, epilogue: int)
    requires 0 <= epilogue < |m|
  {
    m[0].alloc && m[epilogue].alloc && SizeOf(m[0]) == 0 && SizeOf(m[epilogue]) == 0
  }

  method CheckPrologueEpilogue(h: Heap) returns (ok: bool)
    requires 2 <= h.brk <= h.mem.Length
    ensures ok <==> EndsPass(h.mem[..], h.brk - 1)
  {
    var epilogue := h.brk - 1;
    if !h.mem[0].alloc || !h.mem[epilogue].alloc {
      return false;
    }
    if SizeOf(h.mem[0]) != 0 || SizeOf(h.mem[epilogue]) != 0 {
      return false;
    }
    return true;
  }

  /** general_heap_checker: true exactly when the ends and every block on the way pass. */
  method GeneralHeapChecker(h: Heap) returns (ok: bool)
    requires 2 <= h.brk <= h.mem.Length && h.heapStart == 1
    requires EndsPass(h.mem[..], h.brk - 1) ==> Contained(h.mem[..], 1, h.brk - 1)
    ensures ok <==> EndsPass(h.mem[..], h.brk - 1) && Passes(h.mem[..], 1, h.brk - 1)
  {
    ok := CheckPrologueEpilogue(h);
    if !ok {
      return false;
    }
    ghost var m := h.mem[..];
    var curr, epilogue := h.heapStart, h.brk - 1;
    while curr != epilogue
      invariant 1 <= curr <= epilogue && Contained(m, curr, epilogue)
      invariant Passes(m, 1, epilogue) <==> Passes(m, curr, epilogue)
      decreases epilogue - curr
    {
      if 8 * (curr + 1) % 16 != 0 {
        return false;
      }
      if curr > epilogue || curr < 0 {
        return false;
      }
      var size := SizeOf(h.mem[curr]);
      if size < MIN_WORDS || 8 * size % 16 != 0 {
        return false;
      }
      var next := curr + size;
      if !h.mem[curr].alloc && !h.mem[next].prevMini && h.mem[curr] != h.mem[next - 1] {
        return false;
      }
      if !h.mem[curr].alloc && !h.mem[next].alloc {
        return false;
      }
      curr := next;
    }
  }

  // ------------------------------------------------------------------ what the walk tells

  /** The blocks that a walk from p to the epilogue reads off the headers. */
  ghost function BlocksFrom(m: seq<Word>, p: int, epilogue: int): Blocks
    requires 0 <= p && epilogue < |m|
    decreases epilogue - p
  {
    if p >= epilogue || SizeOf(m[p]) <= 0 then map[]
    else InFront(BlocksFrom(m, FindNext(m, p), epilogue), p, SizeOf(m[p]), m[p].alloc)
  }

  // One more block in front of the others.
  ghost function InFront(bs: Blocks, p: int, n: int, alloc: bool): (r: Blocks)
    requires 0 < n
    ensures forall q {:trigger q in r} :: q in r <==> q == p || q in bs
    ensures forall q {:trigger SizeAt(r, q)} :: SizeAt(r, q) == if q == p then n else SizeAt(bs, q)
    ensures forall q {:trigger FreeAt(r, q)} :: FreeAt(r, q) <==> if q == p then !alloc else FreeAt(bs, q)
  {
    bs[p := BlockOf(n, alloc)]
  }

  // What holds of the blocks read from p on.
  ghost predicate Read(m: seq<Word>, bs: Blocks, p: int, epilogue: int) {
    && Boundary(bs, epilogue, p) && epilogue % 2 == 1
    && (forall q {:trigger SizeAt(bs, q)} :: q in bs ==> p <= q && Fits(bs, epilogue, q, SizeAt(bs, q)))
    && (forall q, r {:trigger SizeAt(bs, q), SizeAt(bs, r)} ::
          q in bs && r in bs ==> Apart(q, SizeAt(bs, q), r, SizeAt(bs, r)))
    && (forall q {:trigger SizeAt(bs, q)} :: q in bs ==> AlignedAt(q, SizeAt(bs, q)))
    && (forall q {:trigger FreeAt(bs, q)} :: FreeAt(bs, q) ==> 0 <= q < |m| && !m[q].alloc)
    && (forall q, r {:trigger SizeAt(bs, q), FreeAt(bs, r)} :: FreeAt(bs, q) && FreeAt(bs, r) ==>
          r != q + SizeAt(bs, q))
  }

  // One more block in front of those read from next on.
  lemma ReadMore(m: seq<Word>, rest: Blocks, p: int, next: int, epilogue: int)
    requires 1 <= p < next <= epilogue < |m| && next == FindNext(m, p) && Read(m, rest, next, epilogue)
    requires HeaderPasses(m, p) && NeighbourPasses(m, p)
    ensures Read(m, InFront(rest, p, next - p, m[p].alloc), p, epilogue)
  {
    assert SizeAt(rest, next) >= 0 && SizeAt(rest, p) >= 0;
  }

  lemma {:induction false} ReadBlocks(m: seq<Word>, p: int, epilogue: int)
    requires 1 <= p <= epilogue < |m| && p % 2 == 1 && Passes(m, p, epilogue)
    ensures Read(m, BlocksFrom(m, p, epilogue), p, epilogue)
    decreases epilogue - p
  {
    if p < epilogue {
      var next := FindNext(m, p);
      ReadBlocks(m, next, epilogue);
      ReadMore(m, BlocksFrom(m, next, epilogue), p, next, epilogue);
    }
  }

  /** A positive answer of the block walk means that the headers cut the words from heap_start to the epilogue,
      without gap or overlap, into aligned blocks of which no two neighbours are free. */
  lemma CheckSound(m: seq<Word>, epilogue: int)
    requires 1 <= epilogue < |m| && Passes(m, 1, epilogue)
    ensures var bs := BlocksFrom(m, 1, epilogue);
            Tiling(bs, epilogue) && Aligned(bs, epilogue) && NoAdjacentFree(bs, 0)
  {
    ReadBlocks(m, 1, epilogue);
  }

  // ------------------------------------------------------------------ the walk on a heap in use

  // What the headers around the block p say when everything agrees.
  lemma BlockPasses(m: seq<Word>, bs: Blocks, epilogue: int, p: int)
    requires Tiling(bs, epilogue) && Aligned(bs, epilogue) && epilogue < |m| && Tags(m, bs, epilogue, 0)
    requires NoAdjacentFree(bs, 0) && p in bs
    ensures 1 <= p < |m| && HeaderPasses(m, p) && FindNext(m, p) == p + SizeAt(bs, p) <= epilogue
            && NeighbourPasses(m, p)
    ensures BlockOf(SizeOf(m[p]), m[p].alloc) == bs[p]
  {
    assert SizeAt(bs, 0) == 0;
    NextHeader(m, bs, epilogue, 0, p);
    assert AlignedAt(p, SizeAt(bs, p)) && Tagged(m, p, SizeAt(bs, p), FreeAt(bs, p), false);
  }

  lemma {:induction false} WalkPasses(m: seq<Word>, bs: Blocks, epilogue: int, p: int)
    requires Tiling(bs, epilogue) && Aligned(bs, epilogue) && epilogue < |m| && Tags(m, bs, epilogue, 0)
    requires NoAdjacentFree(bs, 0) && Boundary(bs, epilogue, p) && 1 <= p <= epilogue
    ensures Contained(m, p, epilogue) && Passes(m, p, epilogue)
    ensures forall q :: q in BlocksFrom(m, p, epilogue) <==> q in bs && p <= q
    ensures forall q :: q in BlocksFrom(m, p, epilogue) ==> BlocksFrom(m, p, epilogue)[q] == bs[q]
    decreases epilogue - p
  {
    if p < epilogue {
      BlockPasses(m, bs, epilogue, p);
      var next := FindNext(m, p);
      WalkPasses(m, bs, epilogue, next);
      forall q | q in bs && p <= q ensures q == p || next <= q {
        assert SizeAt(bs, q) >= 0;
      }
    } else {
      forall q | q in bs ensures q < p {
        assert SizeAt(bs, q) > 0;
      }
    }
  }

  /** The header of a block as a number: the size in bytes, and bits for its status, the status of the block in front
      and whether that one has 16 bytes; the last word of a larger free block is a copy of the header. */
  lemma HeaderNumber(h: Heap, p: int)
    requires h.Ready() && p in h.blocks
    ensures 1 <= p && p + SizeAt(h.blocks, p) < h.mem.Length
    ensures var v := Value(h.mem[p]);
            && v - v % 16 == 8 * SizeAt(h.blocks, p)
            && (v % 2 == 1 <==> !FreeAt(h.blocks, p))
            && (v / 2 % 2 == 1 <==> forall q {:trigger SizeAt(h.blocks, q)} ::
                                      FreeAt(h.blocks, q) ==> q + SizeAt(h.blocks, q) != p)
            && (v / 4 % 2 == 1 <==> exists q {:trigger SizeAt(h.blocks, q)} ::
                                      q in h.blocks && SizeAt(h.blocks, q) == 2 && q + 2 == p)
    ensures FreeAt(h.blocks, p) && SizeAt(h.blocks, p) != 2 ==> h.mem[p + SizeAt(h.blocks, p) - 1] == h.mem[p]
  {
    var bs, epilogue := h.blocks, h.brk - 1;
    assert SizeAt(bs, 0) == 0;
    BlockPasses(h.mem[..], bs, epilogue, p);
    FieldsOf(h.mem[p]);
    if p != 1 {
      var q := Predecessor(bs, epilogue, p);
      assert Tagged(h.mem[..], q, SizeAt(bs, q), FreeAt(bs, q), false);
      forall r {:trigger SizeAt(bs, r)} | r in bs && r + SizeAt(bs, r) == p ensures r == q {
        assert Fits(bs, epilogue, r, SizeAt(bs, r));
      }
    } else {
      forall r {:trigger SizeAt(bs, r)} | r in bs ensures r + SizeAt(bs, r) != p {
        assert Fits(bs, epilogue, r, SizeAt(bs, r));
      }
    }
  }

  // The sizes of the blocks from p to the epilogue, added up.
  ghost function Total(m: seq<Word>, p: int, epilogue: int): int
    requires 0 <= p && epilogue < |m|
    decreases epilogue - p
  {
    if p >= epilogue || SizeOf(m[p]) <= 0 then 0 else SizeOf(m[p]) + Total(m, FindNext(m, p), epilogue)
  }

  lemma {:induction false} TotalSize(m: seq<Word>, p: int, epilogue: int)
    requires 0 <= p && epilogue < |m| && Passes(m, p, epilogue)
    ensures Total(m, p, epilogue) == epilogue - p
    decreases epilogue - p
  {
    if p < epilogue {
      TotalSize(m, FindNext(m, p), epilogue);
    }
  }

  /** The heap is 16 bytes larger than its blocks together. */
  lemma HeapSize(h: Heap)
    requires h.Ready()
    ensures 8 * h.brk == 16 + 8 * Total(h.mem[..], 1, h.brk - 1)
  {
    WalkComplete(h);
    TotalSize(h.mem[..], 1, h.brk - 1);
  }

  /** Following find_next from heap_start visits exactly the blocks, reads their sizes and statuses correctly and ends
      at the epilogue. */
  lemma WalkComplete(h: Heap)
    requires h.Ready()
    ensures Contained(h.mem[..], 1, h.brk - 1) && Passes(h.mem[..], 1, h.brk - 1) && EndsPass(h.mem[..], h.brk - 1)
    ensures BlocksFrom(h.mem[..], 1, h.brk - 1) == h.blocks
  {
    WalkExact(h.mem[..], h.blocks, h.brk - 1);
  }

  // The same for memory and layout.
  lemma WalkExact(m: seq<Word>, bs: Blocks, epilogue: int)
    requires Tiling(bs, epilogue) && Aligned(bs, epilogue) && epilogue < |m| && Tags(m, bs, epilogue, 0)
    requires NoAdjacentFree(bs, 0)
    ensures Contained(m, 1, epilogue) && Passes(m, 1, epilogue) && EndsPass(m, epilogue)
    ensures BlocksFrom(m, 1, epilogue) == bs
  {
    WalkPasses(m, bs, epilogue, 1);
    var read := BlocksFrom(m, 1, epilogue);
    forall q ensures q in read <==> q in bs {
      assert SizeAt(bs, q) >= 0;
    }
    assert read.Keys == bs.Keys;
    assert forall q :: q in read ==> read[q] == bs[q];
  }

  // ------------------------------------------------------------------ the lists

  // The links from head lead through exactly the blocks of s.
  ghost predicate Chain(m: seq<Word>, head: int, s: seq<int>) {
    head == At(s, 0) && InHeap(m, s) && Linked(m, s, NEXT)
  }

  // What check_list looks for in the block s[i] on the list of class c.
  predicate LinkPasses(m: seq<Word>, c: int, s: seq<int>, i: int, limit: int) {
    && 0 <= i < |s| && 0 <= s[i] < limit && s[i] < |m| && FindClass(8 * SizeOf(m[s[i]])) == c
    && (i + 1 < |s| ==> 0 <= s[i + 1] && s[i + 1] + PREV < |m| && AddressOf(m[s[i + 1] + PREV]) == s[i])
  }

  ghost predicate ListPasses(m: seq<Word>, c: int, s: seq<int>, limit: int) {
    forall i {:trigger LinkPasses(m, c, s, i, limit)} :: 0 <= i < |s| ==> LinkPasses(m, c, s, i, limit)
  }

  /** The inner loop of check_list: true exactly when every block of the list lies in the heap, belongs to class c and
      is what its successor's prev link leads to. */
  method CheckClass(h: Heap, c: int, ghost s: seq<int>) returns (ok: bool)
    requires h.segList.Length == LENGTH && 0 <= c < LENGTH && h.brk <= h.mem.Length && Chain(h.mem[..], h.segList[c], s)
    ensures ok <==> ListPasses(h.mem[..], c, s, h.brk)
    ensures ok <==> (forall i {:trigger s[i]} :: 0 <= i < |s| ==>
                       0 <= s[i] < h.brk && FindClass(8 * SizeOf(h.mem[s[i]])) == c)
                    && forall i, j {:trigger s[i], s[j]} :: 0 <= i && j == i + 1 && j < |s| ==>
                         AddressOf(h.mem[s[j] + PREV]) == s[i]
  {
    ghost var m, limit, i := h.mem[..], h.brk, 0;
    Literally(m, c, s, limit);
    var curr := h.segList[c];
    while curr != NULL
      invariant 0 <= i <= |s| && curr == At(s, i) && (curr == NULL ==> i == |s|)
      invariant forall k {:trigger LinkPasses(m, c, s, k, limit)} :: 0 <= k < i ==> LinkPasses(m, c, s, k, limit)
      decreases |s| - i
    {
      NextLink(m, s, i, NEXT);
      ghost var here := LinkPasses(m, c, s, i, limit);
      if curr >= h.brk || curr < 0 {
        return false;
      }
      var next := AddressOf(h.mem[curr + NEXT]);
      if next != NULL {
        if AddressOf(h.mem[next + PREV]) != curr {
          return false;
        }
      }
      if FindClass(8 * SizeOf(h.mem[curr])) != c {
        return false;
      }
      curr := AddressOf(h.mem[curr + NEXT]);
      i := i + 1;
    }
    return true;
  }

  // What passing says of every block and of every two neighbours.
  lemma Literally(m: seq<Word>, c: int, s: seq<int>, limit: int)
    requires InHeap(m, s) && limit <= |m|
    ensures ListPasses(m, c, s, limit)
            <==> (forall i {:trigger s[i]} :: 0 <= i < |s| ==> 0 <= s[i] < limit && FindClass(8 * SizeOf(m[s[i]])) == c)
                 && forall i, j {:trigger s[i], s[j]} :: 0 <= i && j == i + 1 && j < |s| ==>
                      AddressOf(m[s[j] + PREV]) == s[i]
  {
    if ListPasses(m, c, s, limit) {
      forall i {:trigger s[i]} | 0 <= i < |s| ensures 0 <= s[i] < limit && FindClass(8 * SizeOf(m[s[i]])) == c {
        assert LinkPasses(m, c, s, i, limit);
      }
      forall i, j {:trigger s[i], s[j]} | 0 <= i && j == i + 1 && j < |s| ensures AddressOf(m[s[j] + PREV]) == s[i] {
        assert LinkPasses(m, c, s, i, limit);
      }
    }
  }

  // The links of every class list lead to an end, through the blocks given for it.
  ghost predicate ListsEnd(h: Heap, lists: seq<seq<int>>)
    requires h.segList.Length == LENGTH == |lists|
    reads h.mem, h.segList
  {
    forall c {:trigger lists[c]} :: 0 <= c < LENGTH ==> Chain(h.mem[..], h.segList[c], lists[c])
  }

  ghost predicate AllListsPass(h: Heap, lists: seq<seq<int>>)
    requires LENGTH == |lists|
    reads h, h.mem
  {
    forall c {:trigger lists[c]} :: 0 <= c < LENGTH ==> ListPasses(h.mem[..], c, lists[c], h.brk)
  }

  /** check_list, on any heap whose class lists end: true exactly when all of them pass. */
  method CheckList(h: Heap, ghost lists: seq<seq<int>>) returns (ok: bool)
    requires h.segList.Length == LENGTH == |lists| && h.brk <= h.mem.Length && ListsEnd(h, lists)
    ensures ok <==> AllListsPass(h, lists)
  {
    for i := 0 to LENGTH
      invariant forall c {:trigger lists[c]} :: 0 <= c < i ==> ListPasses(h.mem[..], c, lists[c], h.brk)
    {
      ok := CheckClass(h, i, lists[i]);
      if !ok {
        return false;
      }
    }
    return true;
  }

  lemma ListsPass(m: seq<Word>, bs: Blocks, epilogue: int, listed: set<int>, heads: seq<int>, lists: seq<seq<int>>,
                  mini: int, minis: seq<int>, c: int)
    requires Consistent(m, bs, epilogue, listed, heads, lists, mini, minis, 0) && 0 <= c < LENGTH
    ensures Chain(m, heads[c], lists[c]) && ListPasses(m, c, lists[c], epilogue + 1)
  {
    var s := lists[c];
    assert ClassList(m, bs, listed, c, heads[c], s);
    forall i {:trigger LinkPasses(m, c, s, i, epilogue + 1)} | 0 <= i < |s|
      ensures LinkPasses(m, c, s, i, epilogue + 1)
    {
      OnList(m, bs, epilogue, listed, heads, lists, mini, minis, c, i);
      assert s[i] in s;
      assert s[i] + SizeAt(bs, s[i]) <= epilogue;
      assert i + 1 < |s| ==> s[i + 1] + 2 < |m| && AddressOf(m[s[i + 1] + PREV]) == s[i];
    }
  }

  // ------------------------------------------------------------------ mm_checkheap

  /** mm_checkheap: true exactly when the ends, every block on the walk and every class list pass.  The lists are
      looked at only when the blocks have passed, so only then do they have to end. */
  method MmCheckHeap(h: Heap, ghost lists: seq<seq<int>>) returns (ok: bool)
    requires 2 <= h.brk <= h.mem.Length && h.heapStart == 1 && h.segList.Length == LENGTH == |lists|
    requires EndsPass(h.mem[..], h.brk - 1) ==> Contained(h.mem[..], 1, h.brk - 1)
    requires EndsPass(h.mem[..], h.brk - 1) && Passes(h.mem[..], 1, h.brk - 1) ==> ListsEnd(h, lists)
    ensures ok <==> EndsPass(h.mem[..], h.brk - 1) && Passes(h.mem[..], 1, h.brk - 1) && AllListsPass(h, lists)
  {
    ok := GeneralHeapChecker(h);
    if !ok {
      return false;
    }
    ok := CheckList(h, lists);
    if !ok {
      return false;
    }
    return true;
  }

  /** On a heap in use mm_checkheap stays inside the heap, ends and answers true. */
  lemma ReadyPasses(h: Heap)
    requires h.Ready()
    ensures 2 <= h.brk <= h.mem.Length && h.heapStart == 1 && h.segList.Length == LENGTH == |h.lists|
    ensures EndsPass(h.mem[..], h.brk - 1) && Contained(h.mem[..], 1, h.brk - 1) && Passes(h.mem[..], 1, h.brk - 1)
    ensures ListsEnd(h, h.lists) && AllListsPass(h, h.lists)
  {
    WalkComplete(h);
    forall c {:trigger h.lists[c]} | 0 <= c < LENGTH
      ensures Chain(h.mem[..], h.segList[c], h.lists[c]) && ListPasses(h.mem[..], c, h.lists[c], h.brk)
    {
      ListsPass(h.mem[..], h.blocks, h.brk - 1, h.listed, h.segList[..], h.lists, h.miniList, h.minis, c);
    }
  }
}
