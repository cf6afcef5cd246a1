/** realloc and calloc, which are built from malloc, free and the copying and filling of memory. */
module Reallocation {
  import opened BoundaryTags
  import opened Layout
  import opened Coalescing
  import opened Placement
  import opened Tagging
  import opened FreeIndex
  import opened Allocator
  import opened Copying
  import opened FitSearch

  function Min(x: int, y: int): int {
    if x < y then x else y
  }

  lemma MinIsLeast(x: int, y: int)
    ensures Min(x, y) <= x && Min(x, y) <= y && (Min(x, y) == x || Min(x, y) == y)
  {
  }

  // Copies into the payload of the live block p of n words.
  method CopyPayload(h: Heap, p: int, ghost n: int, src: int, numBytes: int)
    requires h.Ready() && p in Live(h.blocks) && Live(h.blocks)[p] == n && 0 <= numBytes <= 8 * n - 8
    requires src - 1 in Live(h.blocks) && src - 1 != p && numBytes <= 8 * Live(h.blocks)[src - 1] - 8
    modifies h.mem
    ensures h.Ready() && 0 <= p && SameBytes(old(h.mem[..]), src, h.mem[..], p + 1, numBytes)
    ensures KeepsPayloads(old(h.mem[..]), h.mem[..], Live(h.blocks) - {p})
  {
    ghost var m, heads := h.mem[..], h.segList[..];
    LiveApart(h.blocks, h.brk - 1, p, src - 1);
    MemCpy(h, p + 1, src, numBytes);
    assert h.segList[..] == heads;
    WritePayload(m, h.mem[..], h.blocks, h.brk - 1, h.listed, heads, h.lists, h.miniList, h.minis, p);
  }

  // Two live blocks lie inside the heap, apart.
  lemma LiveApart(bs: Blocks, epilogue: int, p: int, q: int)
    requires Tiling(bs, epilogue) && p in Live(bs) && q in Live(bs)
    ensures 1 <= p && p + Live(bs)[p] <= epilogue && MIN_WORDS <= Live(bs)[p]
    ensures 1 <= q && q + Live(bs)[q] <= epilogue && MIN_WORDS <= Live(bs)[q]
    ensures p != q ==> p + Live(bs)[p] <= q || q + Live(bs)[q] <= p
  {
    assert SizeAt(bs, p) == Live(bs)[p] && SizeAt(bs, q) == Live(bs)[q];
  }

  /** realloc: keeps the first min(new size, old payload size) bytes, gives the old block back, and changes nothing when
      no new block can be had. */
  method Realloc(h: Heap, ptr: int, size: int) returns (bp: int)
    requires h.Valid() && 0 <= size && size + 23 < TWO_64
    requires ptr == NULL || (h.Ready() && ptr - 1 in Live(h.blocks))
    modifies h, h.mem, h.segList
    ensures h.Valid() && KeepsPayloads(old(h.mem[..]), h.mem[..], Live(old(h.blocks)) - {ptr - 1})
    ensures size == 0 ==> bp == NULL && Live(h.blocks) == Live(old(h.blocks)) - {ptr - 1}
    ensures Reallocated(h, old(h.Now()), ptr, size, bp, h.Now())
    ensures old(h.Ready()) && size != 0 && !NoFit(old(h.blocks), BlockWords(size)) ==>
              Chosen(old(h.blocks), old(h.lists), old(h.minis), BlockWords(size), bp - 1)
    ensures size != 0 && bp == NULL ==> Live(h.blocks) == Live(old(h.blocks))
    ensures size != 0 && bp == NULL && ptr != NULL ==> h.blocks == old(h.blocks) && h.mem[..] == old(h.mem[..])
    ensures bp != NULL ==> bp - 1 !in Live(old(h.blocks))
                           && Live(h.blocks) == Live(old(h.blocks))[bp - 1 := BlockWords(size)] - {ptr - 1}
    ensures bp != NULL && ptr != NULL ==>
              SameBytes(old(h.mem[..]), ptr, h.mem[..], bp, Min(size, 8 * Live(old(h.blocks))[ptr - 1] - 8))
  {
    if size == 0 {
      Discard(h, ptr);
      return NULL;
    }
    ghost var s := h.Now();
    bp := Resize(h, ptr, size);
    ReallocMeans(h, s, ptr, size, bp, h.Now());
  }

  // What a realloc to a size that is not zero does to live blocks and payloads.
  ghost predicate Carried(m1: seq<Word>, bs1: Blocks, ptr: int, size: int, bp: int, m2: seq<Word>, bs2: Blocks)
    requires 0 <= size && size + 23 < TWO_64 && (ptr == NULL || ptr - 1 in Live(bs1))
  {
    && KeepsPayloads(m1, m2, Live(bs1) - {ptr - 1})
    && (bp == NULL ==> Live(bs2) == Live(bs1))
    && (bp == NULL && ptr != NULL ==> bs2 == bs1 && m2 == m1)
    && (bp != NULL ==> bp - 1 !in Live(bs1) && Live(bs2) == Live(bs1)[bp - 1 := BlockWords(size)] - {ptr - 1})
    && (bp != NULL && ptr != NULL ==> SameBytes(m1, ptr, m2, bp, Min(size, 8 * Live(bs1)[ptr - 1] - 8)))
  }

  // The part of realloc for a size that is not zero.
  method Resize(h: Heap, ptr: int, size: int) returns (bp: int)
    requires h.Valid() && 0 < size && size + 23 < TWO_64
    requires ptr == NULL || (h.Ready() && ptr - 1 in Live(h.blocks))
    modifies h, h.mem, h.segList
    ensures h.Valid() && Reallocated(h, old(h.Now()), ptr, size, bp, h.Now())
    ensures Carried(old(h.mem[..]), old(h.blocks), ptr, size, bp, h.mem[..], h.blocks)
  {
    if ptr == NULL {
      bp := FromNull(h, ptr, size);
    } else {
      bp := Move(h, ptr, size);
    }
  }

  // realloc(ptr, 0).
  method Discard(h: Heap, ptr: int)
    requires h.Valid() && (ptr == NULL || (h.Ready() && ptr - 1 in Live(h.blocks)))
    modifies h, h.mem, h.segList
    ensures h.Valid() && KeepsPayloads(old(h.mem[..]), h.mem[..], Live(old(h.blocks)) - {ptr - 1})
    ensures Live(h.blocks) == Live(old(h.blocks)) - {ptr - 1}
    ensures Reallocated(h, old(h.Now()), ptr, 0, NULL, h.Now())
  {
    h.Free(ptr);
  }

  // malloc for realloc(NULL, size).
  method FromNull(h: Heap, ptr: int, size: int) returns (bp: int)
    requires h.Valid() && 0 < size && size + 23 < TWO_64 && ptr == NULL
    modifies h, h.mem, h.segList
    ensures h.Valid() && Reallocated(h, old(h.Now()), ptr, size, bp, h.Now())
    ensures Carried(old(h.mem[..]), old(h.blocks), ptr, size, bp, h.mem[..], h.blocks)
  {
    NoNullBlock(h);
    ghost var live := Live(h.blocks);
    bp := h.Malloc(size);
    NoNullBlock(h);
    MinusAbsent(live, ptr - 1);
    MinusAbsent(Live(h.blocks), ptr - 1);
  }

  lemma MinusAbsent(live: map<int, int>, k: int)
    requires k !in live
    ensures live - {k} == live
  {
  }

  /** The answer bp of realloc(ptr, size) in state s1, and the state s2 after it: malloc, and free of the old block. */
  ghost predicate Reallocated(h: Heap, s1: State, ptr: int, size: int, bp: int, s2: State)
    requires 0 <= size && size + 23 < TWO_64
  {
    if size == 0 then bp == NULL && if ptr == NULL then s2 == s1 else Freed(s1, ptr - 1, s2)
    else if ptr == NULL || bp == NULL then h.Answered(s1, size, bp, s2)
    else exists mid {:trigger Laid(mid)} :: Laid(mid) && h.Answered(s1, size, bp, mid) && Freed(mid, ptr - 1, s2)
                                            && Live(mid.blocks) == Live(s1.blocks)[bp - 1 := BlockWords(size)]
  }

  lemma ReallocMeans(h: Heap, s1: State, ptr: int, size: int, bp: int, s2: State)
    requires 0 < size && size + 23 < TWO_64 && Reallocated(h, s1, ptr, size, bp, s2)
    ensures s1.inUse && !NoFit(s1.blocks, BlockWords(size)) ==>
              Chosen(s1.blocks, s1.index.lists, s1.index.minis, BlockWords(size), bp - 1)
  {
    if ptr == NULL || bp == NULL {
      h.AnswerMeans(s1, size, bp, s2);
    } else {
      var mid {:trigger Laid(mid)} :| Laid(mid) && h.Answered(s1, size, bp, mid);
      h.AnswerMeans(s1, size, bp, mid);
    }
  }

  lemma MovedBy(h: Heap, s1: State, ptr: int, size: int, bp: int, mid: State, s2: State)
    requires 0 < size && size + 23 < TWO_64 && ptr != NULL && bp != NULL && Laid(mid) && h.Answered(s1, size, bp, mid)
    requires Freed(mid, ptr - 1, s2) && Live(mid.blocks) == Live(s1.blocks)[bp - 1 := BlockWords(size)]
    ensures Reallocated(h, s1, ptr, size, bp, s2)
  {
  }

  // No block belongs to the NULL pointer.
  lemma NoNullBlock(h: Heap)
    requires h.Valid()
    ensures NULL - 1 !in Live(h.blocks)
  {
    if h.Ready() {
      assert SizeAt(h.blocks, NULL - 1) == 0;
    }
  }

  // The part of realloc for a live pointer and a size that is not zero.
  method Move(h: Heap, ptr: int, size: int) returns (bp: int)
    requires h.Ready() && 0 < size && size + 23 < TWO_64 && ptr != NULL && ptr - 1 in Live(h.blocks)
    modifies h, h.mem, h.segList
    ensures h.Valid() && Reallocated(h, old(h.Now()), ptr, size, bp, h.Now())
    ensures Carried(old(h.mem[..]), old(h.blocks), ptr, size, bp, h.mem[..], h.blocks)
  {
    ghost var m, live, s1 := h.mem[..], Live(h.blocks), h.Now();
    bp := Fetch(h, size);
    if bp != NULL {
      ghost var mid := h.Now();
      HandOver(h, ptr, bp, size, m, live);
      MovedBy(h, s1, ptr, size, bp, mid, h.Now());
    }
  }

  // malloc on a heap that is in use, for a size that is not zero.
  method Fetch(h: Heap, size: int) returns (bp: int)
    requires h.Ready() && 0 < size && size + 23 < TWO_64
    modifies h, h.mem, h.segList
    ensures h.Ready() && KeepsPayloads(old(h.mem[..]), h.mem[..], Live(old(h.blocks)))
    ensures h.Answered(old(h.Now()), size, bp, h.Now())
    ensures bp == NULL ==> h.blocks == old(h.blocks) && h.mem[..] == old(h.mem[..])
    ensures bp != NULL ==> bp - 1 !in Live(old(h.blocks)) && size <= 8 * BlockWords(size) - 8
                           && Live(h.blocks) == Live(old(h.blocks))[bp - 1 := BlockWords(size)]
  {
    bp := h.Malloc(size);
  }

  // Copies what fits from the payload ptr to the new payload bp and gives ptr back; m0 and live0 are from before bp.
  method HandOver(h: Heap, ptr: int, bp: int, size: int, ghost m0: seq<Word>, ghost live0: map<int, int>)
    requires 0 < size && size + 23 < TWO_64 && size <= 8 * BlockWords(size) - 8
    requires h.Ready() && ptr - 1 in live0 && bp - 1 !in live0 && ptr != NULL
    requires Live(h.blocks) == live0[bp - 1 := BlockWords(size)] && KeepsPayloads(m0, h.mem[..], live0)
    modifies h, h.mem, h.segList
    ensures h.Ready() && Live(h.blocks) == live0[bp - 1 := BlockWords(size)] - {ptr - 1}
    ensures Laid(old(h.Now())) && Freed(old(h.Now()), ptr - 1, h.Now())
    ensures KeepsPayloads(m0, h.mem[..], live0 - {ptr - 1})
    ensures SameBytes(m0, ptr, h.mem[..], bp, Min(size, 8 * live0[ptr - 1] - 8))
  {
    ghost var live := Live(h.blocks);
    LiveApart(h.blocks, h.brk - 1, ptr - 1, bp - 1);
    ghost var bytes := CopyInto(h, ptr, bp, size, m0, live0);
    ghost var m2 := h.mem[..];
    Drop(h, ptr);
    DropKeeps(m0, m2, h.mem[..], live0, live, ptr, bp, size, bytes);
  }

  // Everything is where it was, and the new payload begins with the bytes of the old one.
  ghost predicate Transferred(m0: seq<Word>, m: seq<Word>, live0: map<int, int>, ptr: int, bp: int, size: int,
                              bytes: int)
    requires ptr - 1 in live0
  {
    && bytes == Min(size, 8 * live0[ptr - 1] - 8) && 0 <= bytes
    && KeepsPayloads(m0, m, live0) && SameBytes(m0, ptr, m, bp, bytes)
  }

  // The copy alone.
  method CopyInto(h: Heap, ptr: int, bp: int, size: int, ghost m0: seq<Word>, ghost live0: map<int, int>)
    returns (ghost bytes: int)
    requires 0 < size && size + 23 < TWO_64 && size <= 8 * BlockWords(size) - 8
    requires h.Ready() && ptr - 1 in live0 && bp - 1 !in live0
    requires Live(h.blocks) == live0[bp - 1 := BlockWords(size)] && KeepsPayloads(m0, h.mem[..], live0)
    modifies h.mem
    ensures h.Ready() && Transferred(m0, h.mem[..], live0, ptr, bp, size, bytes)
  {
    ghost var m1, live := h.mem[..], Live(h.blocks);
    LiveApart(h.blocks, h.brk - 1, ptr - 1, bp - 1);
    bytes := CopyOver(h, ptr, bp, size);
    MinIsLeast(size, 8 * live0[ptr - 1] - 8);
    CopyKeeps(m0, m1, h.mem[..], live0, live, ptr - 1, bp - 1, BlockWords(size), bytes);
  }

  // free of a live payload.
  method Drop(h: Heap, ptr: int)
    requires h.Ready() && ptr - 1 in Live(h.blocks) && ptr != NULL
    modifies h, h.mem, h.segList
    ensures h.Ready() && Laid(old(h.Now())) && Freed(old(h.Now()), ptr - 1, h.Now())
    ensures Live(h.blocks) == Live(old(h.blocks)) - {ptr - 1}
    ensures KeepsPayloads(old(h.mem[..]), h.mem[..], Live(old(h.blocks)) - {ptr - 1})
  {
    h.Free(ptr);
  }

  // The copy of realloc.
  method CopyOver(h: Heap, ptr: int, bp: int, size: int) returns (ghost bytes: int)
    requires h.Ready() && ptr - 1 in Live(h.blocks) && bp - 1 in Live(h.blocks) && ptr != bp && 0 < size
    requires size <= 8 * Live(h.blocks)[bp - 1] - 8
    modifies h.mem
    ensures h.Ready() && bytes == Min(size, 8 * Live(h.blocks)[ptr - 1] - 8) && 0 <= bytes
    ensures KeepsPayloads(old(h.mem[..]), h.mem[..], Live(h.blocks) - {bp - 1})
    ensures SameBytes(old(h.mem[..]), ptr, h.mem[..], bp, bytes)
  {
    var p := h.PayloadToHeader(ptr);
    LiveApart(h.blocks, h.brk - 1, p, bp - 1);
    var copySize := OldPayload(h, p);
    if size < copySize {
      copySize := size;
    }
    CopyPayload(h, bp - 1, Live(h.blocks)[bp - 1], ptr, copySize);
    bytes := copySize;
  }

  // The payload size of a live block in bytes, from its header.
  method OldPayload(h: Heap, p: int) returns (bytes: int)
    requires h.Ready() && p in Live(h.blocks)
    ensures bytes == 8 * Live(h.blocks)[p] - 8 && bytes >= 8
  {
    NextHeader(h.mem[..], h.blocks, h.brk - 1, 0, p);
    assert SizeAt(h.blocks, p) == Live(h.blocks)[p];
    bytes := 8 * SizeOf(h.mem[p]) - 8;
  }

  // What malloc and the copy keep together.
  lemma CopyKeeps(m0: seq<Word>, m1: seq<Word>, m2: seq<Word>, live0: map<int, int>, live: map<int, int>, p: int,
                  q: int, n: int, bytes: int)
    requires p in live0 && q !in live0 && live == live0[q := n] && 0 <= p && 1 <= live0[p] && p + live0[p] <= |m1|
    requires 0 <= bytes <= 8 * live0[p] - 8
    requires KeepsPayloads(m0, m1, live0) && KeepsPayloads(m1, m2, live - {q})
    requires SameBytes(m1, p + 1, m2, q + 1, bytes)
    ensures KeepsPayloads(m0, m2, live0) && SameBytes(m0, p + 1, m2, q + 1, bytes)
  {
    assert live - {q} == live0;
    KeepsFewer(m0, m1, m2, live0, live0);
    assert SameWords(m0, m1, p + 1, p + live0[p]);
    WordsToBytes(m0, m1, p + 1, p + live0[p], bytes);
    SameBytesTransitive(m0, p + 1, m1, p + 1, m2, q + 1, bytes);
  }

  // What the free keeps of it.
  lemma DropKeeps(m0: seq<Word>, m2: seq<Word>, m3: seq<Word>, live0: map<int, int>, live: map<int, int>, ptr: int,
                  bp: int, size: int, bytes: int)
    requires 0 < size && size + 23 < TWO_64 && ptr - 1 in live0 && bp - 1 !in live0
    requires live == live0[bp - 1 := BlockWords(size)] && 1 <= bp && bp - 1 + BlockWords(size) <= |m2|
    requires Transferred(m0, m2, live0, ptr, bp, size, bytes) && KeepsPayloads(m2, m3, live - {ptr - 1})
    ensures KeepsPayloads(m0, m3, live0 - {ptr - 1})
    ensures SameBytes(m0, ptr, m3, bp, Min(size, 8 * live0[ptr - 1] - 8))
  {
    var q, n := bp - 1, BlockWords(size);
    MinIsLeast(size, 8 * live0[ptr - 1] - 8);
    KeepsSome(m0, m2, live0 - {ptr - 1}, live0);
    KeepsFewer(m0, m2, m3, live0 - {ptr - 1}, live - {ptr - 1});
    assert q in live - {ptr - 1};
    assert SameWords(m2, m3, q + 1, q + n);
    WordsToBytes(m2, m3, q + 1, q + n, bytes);
    SameBytesTransitive(m0, ptr, m2, bp, m3, bp, bytes);
  }

  /** calloc: NULL when the product of its arguments does not fit 64 bits, else a payload of that many zero bytes. */
  method Calloc(h: Heap, elements: int, size: int, ghost product: int) returns (bp: int)
    requires h.Valid() && 0 <= elements < TWO_64 && 0 <= size < TWO_64
    requires product == elements * size && (product < TWO_64 ==> product + 23 < TWO_64)
    modifies h, h.mem, h.segList
    ensures h.Valid() && KeepsPayloads(old(h.mem[..]), h.mem[..], Live(old(h.blocks)))
    ensures elements == 0 || product >= TWO_64 ==>
              bp == NULL && h.Now() == old(h.Now()) && h.mem[..] == old(h.mem[..])
    ensures elements != 0 && 0 <= product < TWO_64 ==> h.Answered(old(h.Now()), product, bp, h.Now())
    ensures old(h.Ready()) && elements != 0 && size != 0 && product < TWO_64
            && !NoFit(old(h.blocks), BlockWords(product)) ==>
              Chosen(old(h.blocks), old(h.lists), old(h.minis), BlockWords(product), bp - 1)
    ensures bp == NULL ==> Live(h.blocks) == Live(old(h.blocks))
    ensures bp != NULL ==> 0 <= product && product + 23 < TWO_64 && bp - 1 !in Live(old(h.blocks))
                           && Live(h.blocks) == Live(old(h.blocks))[bp - 1 := BlockWords(product)]
                           && AllBytes(h.mem[..], bp, product, 0)
  {
    var bytes, fits := Multiply(elements, size);
    if elements == 0 {
      return NULL;
    }
    if !fits {
      return NULL;
    }
    ghost var s := h.Now();
    bp := MallocZeroed(h, bytes);
    if size != 0 {
      h.AnswerMeans(s, bytes, bp, h.Now());
    }
  }

  // The wrapped product, and whether dividing it by the first factor gives the second one back.
  method Multiply(elements: int, size: int) returns (bytes: int, fits: bool)
    requires 0 <= elements < TWO_64 && 0 <= size < TWO_64
    ensures elements != 0 ==> (fits <==> elements * size < TWO_64)
    ensures fits && elements != 0 ==> bytes == elements * size && 0 <= bytes
  {
    bytes, fits := Wrap(elements * size), false;
    if elements != 0 {
      OverflowTestExact(elements, size);
      fits := bytes / elements == size;
    }
  }

  // The part of calloc behind the overflow test.
  method MallocZeroed(h: Heap, bytes: int) returns (bp: int)
    requires h.Valid() && 0 <= bytes && bytes + 23 < TWO_64
    modifies h, h.mem, h.segList
    ensures h.Valid() && KeepsPayloads(old(h.mem[..]), h.mem[..], Live(old(h.blocks)))
    ensures h.Answered(old(h.Now()), bytes, bp, h.Now())
    ensures bp == NULL ==> Live(h.blocks) == Live(old(h.blocks))
    ensures bp != NULL ==> bp - 1 !in Live(old(h.blocks))
                           && Live(h.blocks) == Live(old(h.blocks))[bp - 1 := BlockWords(bytes)]
    ensures bp != NULL ==> AllBytes(h.mem[..], bp, bytes, 0)
  {
    ghost var m1, live := h.mem[..], Live(h.blocks);
    bp := h.Malloc(bytes);
    if bp != NULL {
      ghost var m2 := h.mem[..];
      ClearPayload(h, bp, bytes);
      KeepsFewer(m1, m2, h.mem[..], live, Live(h.blocks) - {bp - 1});
    }
  }

  method ClearPayload(h: Heap, bp: int, bytes: int)
    requires h.Ready() && bp - 1 in Live(h.blocks) && 0 <= bytes <= 8 * Live(h.blocks)[bp - 1] - 8
    modifies h.mem
    ensures h.Ready() && AllBytes(h.mem[..], bp, bytes, 0)
    ensures KeepsPayloads(old(h.mem[..]), h.mem[..], Live(h.blocks) - {bp - 1})
  {
    ghost var m, heads := h.mem[..], h.segList[..];
    LiveApart(h.blocks, h.brk - 1, bp - 1, bp - 1);
    MemSet(h, bp, 0, bytes);
    assert h.segList[..] == heads;
    WritePayload(m, h.mem[..], h.blocks, h.brk - 1, h.listed, heads, h.lists, h.miniList, h.minis, bp - 1);
  }
}
