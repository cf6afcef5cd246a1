/** The script of a client determines everything: every answer, every address, and the order of every list. */
module Determinism {
  import opened BoundaryTags
  import opened Layout
  import opened FreeIndex
  import opened Coalescing
  import opened Placement
  import opened FitSearch
  import opened Allocator
  import opened Reallocation
  import opened ObjectStore

  // The two heaps have the same limit.
  ghost predicate SameLimit(h1: Heap, h2: Heap) {
    h1.mem.Length == h2.mem.Length && h1.accessible == h2.accessible
  }

  // malloc has one answer, and leaves one state.
  lemma AnswerDetermined(h1: Heap, h2: Heap, s: State, size: int, bp1: int, s1: State, bp2: int, s2: State)
    requires SameLimit(h1, h2) && 0 <= size && size + 23 < TWO_64 && Laid(s) && Laid(s1) && Laid(s2)
    requires h1.Answered(s, size, bp1, s1) && h2.Answered(s, size, bp2, s2)
    requires bp1 != NULL ==> Live(s1.blocks) == Live(s.blocks)[bp1 - 1 := BlockWords(size)]
    requires bp2 != NULL ==> Live(s2.blocks) == Live(s.blocks)[bp2 - 1 := BlockWords(size)]
    ensures bp1 == bp2 && s1 == s2
  {
    NoneDetermined(h1, h2, s, size, bp1, s1, bp2, s2);
    if bp1 != NULL && bp2 != NULL {
      GivenDetermined(h1, h2, s, size, bp1, s1, bp2, s2);
    }
  }

  // Without a block the state is the one in which it was looked for.
  lemma NoneDetermined(h1: Heap, h2: Heap, s: State, size: int, bp1: int, s1: State, bp2: int, s2: State)
    requires SameLimit(h1, h2) && 0 <= size && size + 23 < TWO_64
    requires h1.Answered(s, size, bp1, s1) && h2.Answered(s, size, bp2, s2)
    ensures bp1 == NULL <==> bp2 == NULL
    ensures bp1 == NULL ==> s1 == s2
  {
  }

  lemma GivenDetermined(h1: Heap, h2: Heap, s: State, size: int, bp1: int, s1: State, bp2: int, s2: State)
    requires SameLimit(h1, h2) && 0 <= size && size + 23 < TWO_64 && Laid(s) && Laid(s1) && Laid(s2)
    requires bp1 != NULL && h1.Answered(s, size, bp1, s1) && bp2 != NULL && h2.Answered(s, size, bp2, s2)
    requires Live(s1.blocks) == Live(s.blocks)[bp1 - 1 := BlockWords(size)]
    requires Live(s2.blocks) == Live(s.blocks)[bp2 - 1 := BlockWords(size)]
    ensures bp1 == bp2 && s1 == s2
  {
    var t, n := h1.SetUp(s), BlockWords(size);
    SetUpLaid(h1, s);
    GivenBy(h1, s, size, bp1, s1);
    GivenBy(h2, s, size, bp2, s2);
    PlaceUnique(t, n, bp1 - 1, bp2 - 1);
    ProvidedDetermined(h1, h2, t, n, bp1, s1, s2);
  }

  lemma GivenBy(h: Heap, s1: State, size: int, bp: int, s2: State)
    requires 0 <= size && size + 23 < TWO_64 && bp != NULL && h.Answered(s1, size, bp, s2)
    ensures h.SetUp(s1).inUse && h.Provided(h.SetUp(s1), BlockWords(size), bp, s2)
    ensures Located(h.SetUp(s1), BlockWords(size), bp - 1)
  {
  }

  // There is one place for a new block.
  lemma PlaceUnique(s: State, n: int, p: int, q: int)
    requires s.inUse && Laid(s) && Located(s, n, p) && Located(s, n, q)
    ensures p == q
  {
    if NoFit(s.blocks, n) {
      TailUnique(s.blocks, s.brk - 1, p, q);
    } else {
      ChosenUnique(s.blocks, s.index.lists, s.index.minis, n, p, q);
    }
  }

  // A block given at one place leaves one state.
  lemma ProvidedDetermined(h1: Heap, h2: Heap, s: State, n: int, bp: int, s1: State, s2: State)
    requires bp != NULL && h1.Provided(s, n, bp, s1) && h2.Provided(s, n, bp, s2) && Laid(s1) && Laid(s2)
    requires Live(s1.blocks) == Live(s2.blocks)
    ensures s1 == s2
  {
    LayoutUnique(s1.blocks, s2.blocks, s1.brk - 1);
  }

  lemma SetUpLaid(h: Heap, s: State)
    requires Laid(s)
    ensures Laid(h.SetUp(s))
  {
    if !s.inUse && h.Grants(0, 2) && h.Grants(2, CHUNK_WORDS) {
      ChunkTiles();
    }
  }

  // free leaves one state.
  lemma FreedDetermined(s: State, p: int, s1: State, s2: State)
    requires s.inUse && Laid(s1) && Laid(s2) && Freed(s, p, s1) && Freed(s, p, s2)
    ensures s1 == s2
  {
    var bs := WithStatus(s.blocks, p, false);
    var r1 :| FreeAt(s1.blocks, r1) && Merged(bs, s.index, p, r1, s1.blocks, s1.index);
    var r2 :| FreeAt(s2.blocks, r2) && Merged(bs, s.index, p, r2, s2.blocks, s2.index);
    MergedUnique(bs, s.index, s.brk - 1, p, r1, s1.blocks, s1.index, r2, s2.blocks, s2.index);
  }

  // Joining a block with its neighbours leaves one layout and one order of the lists.
  lemma MergedUnique(bs: Blocks, ix: Index, epilogue: int, x: int, r1: int, bs1: Blocks, ix1: Index, r2: int,
                     bs2: Blocks, ix2: Index)
    requires Merged(bs, ix, x, r1, bs1, ix1) && Merged(bs, ix, x, r2, bs2, ix2) && 0 < SizeAt(bs, x)
    requires Tiling(bs1, epilogue) && NoAdjacentFree(bs1, 0) && Tiling(bs2, epilogue) && NoAdjacentFree(bs2, 0)
    ensures bs1 == bs2 && ix1 == ix2
  {
    SameJoined(bs, epilogue, x, r1, bs1, r2, bs2);
  }

  lemma SameJoined(bs: Blocks, epilogue: int, x: int, r1: int, bs1: Blocks, r2: int, bs2: Blocks)
    requires Joined(bs, bs1, x, r1) && Joined(bs, bs2, x, r2) && 0 < SizeAt(bs, x)
    requires Tiling(bs1, epilogue) && NoAdjacentFree(bs1, 0) && Tiling(bs2, epilogue) && NoAdjacentFree(bs2, 0)
    ensures bs1 == bs2 && r1 == r2
  {
    LayoutUnique(bs1, bs2, epilogue);
    assert SizeAt(bs1, r1) > 0 && SizeAt(bs1, r2) > 0;
  }

  // realloc of a live block has one answer, and leaves one state.
  lemma ReallocDetermined(h1: Heap, h2: Heap, s: State, ptr: int, size: int, bp1: int, s1: State, bp2: int, s2: State)
    requires SameLimit(h1, h2) && 0 < size && size + 23 < TWO_64 && ptr != NULL
    requires Laid(s) && s.inUse && Laid(s1) && Laid(s2)
    requires Reallocated(h1, s, ptr, size, bp1, s1) && Reallocated(h2, s, ptr, size, bp2, s2)
    ensures bp1 == bp2 && s1 == s2
  {
    var mid1 := Between(h1, s, ptr, size, bp1, s1);
    var mid2 := Between(h2, s, ptr, size, bp2, s2);
    AnswerDetermined(h1, h2, s, size, bp1, mid1, bp2, mid2);
    if bp1 != NULL {
      FreedDetermined(mid1, ptr - 1, s1, s2);
    }
  }

  // The state between malloc and free.
  lemma Between(h: Heap, s1: State, ptr: int, size: int, bp: int, s2: State) returns (mid: State)
    requires 0 < size && size + 23 < TWO_64 && ptr != NULL && s1.inUse && Laid(s2)
    requires Reallocated(h, s1, ptr, size, bp, s2)
    ensures Laid(mid) && h.Answered(s1, size, bp, mid)
    ensures if bp == NULL then mid == s2
            else mid.inUse && Freed(mid, ptr - 1, s2) && Live(mid.blocks) == Live(s1.blocks)[bp - 1 := BlockWords(size)]
  {
    if bp == NULL {
      mid := s2;
    } else {
      mid :| Laid(mid) && h.Answered(s1, size, bp, mid) && Freed(mid, ptr - 1, s2)
             && Live(mid.blocks) == Live(s1.blocks)[bp - 1 := BlockWords(size)];
    }
  }

  // Every object has a live block in the state, so NULL is not among the addresses.
  ghost predicate Placed(s: State, ptr: map<int, int>) {
    forall id {:trigger ptr[id]} :: id in ptr ==> s.inUse && ptr[id] != NULL
  }

  lemma ServedDetermined(h1: Heap, h2: Heap, s: State, ptr: map<int, int>, id: int, size: int, ok1: bool, s1: State,
                         ptr1: map<int, int>, ok2: bool, s2: State, ptr2: map<int, int>)
    requires SameLimit(h1, h2) && Laid(s) && Laid(s1) && Laid(s2) && Placed(s, ptr) && (id in ptr ==> size != 0)
    requires Served(h1, s, ptr, id, size, ok1, s1, ptr1) && Served(h2, s, ptr, id, size, ok2, s2, ptr2)
    ensures ok1 == ok2 && s1 == s2 && ptr1 == ptr2
  {
    var bp1 := Replied(h1, s, ptr, id, size, ok1, s1, ptr1);
    var bp2 := Replied(h2, s, ptr, id, size, ok2, s2, ptr2);
    ReplyDetermined(h1, h2, s, ptr, id, size, bp1, s1, bp2, s2);
  }

  // The payload that was given, or NULL.
  lemma Replied(h: Heap, s: State, ptr: map<int, int>, id: int, size: int, ok: bool, s2: State, ptr2: map<int, int>)
    returns (bp: int)
    requires Served(h, s, ptr, id, size, ok, s2, ptr2)
    ensures 0 <= size && size + 23 < TWO_64 && Reply(h, s, ptr, id, size, bp, s2)
    ensures (ok <==> bp != NULL) && ptr2 == if bp == NULL then ptr else ptr[id := bp]
    ensures bp != NULL && id !in ptr ==> Live(s2.blocks) == Live(s.blocks)[bp - 1 := BlockWords(size)]
  {
    bp := if ok then ptr2[id] else NULL;
  }

  lemma ReplyDetermined(h1: Heap, h2: Heap, s: State, ptr: map<int, int>, id: int, size: int, bp1: int, s1: State,
                        bp2: int, s2: State)
    requires SameLimit(h1, h2) && Laid(s) && Laid(s1) && Laid(s2) && Placed(s, ptr) && (id in ptr ==> size != 0)
    requires 0 <= size && size + 23 < TWO_64
    requires Reply(h1, s, ptr, id, size, bp1, s1) && Reply(h2, s, ptr, id, size, bp2, s2)
    requires bp1 != NULL && id !in ptr ==> Live(s1.blocks) == Live(s.blocks)[bp1 - 1 := BlockWords(size)]
    requires bp2 != NULL && id !in ptr ==> Live(s2.blocks) == Live(s.blocks)[bp2 - 1 := BlockWords(size)]
    ensures bp1 == bp2 && s1 == s2
  {
    if id in ptr {
      ReallocDetermined(h1, h2, s, ptr[id], size, bp1, s1, bp2, s2);
    } else {
      AnswerDetermined(h1, h2, s, size, bp1, s1, bp2, s2);
    }
  }

  /** A step from one state leads to one state, with one answer and the same addresses, on heaps of the same limit. */
  lemma StepDetermined(h1: Heap, h2: Heap, s: State, ptr: map<int, int>, step: Step, ok1: bool, s1: State,
                       ptr1: map<int, int>, ok2: bool, s2: State, ptr2: map<int, int>)
    requires SameLimit(h1, h2) && Laid(s) && Laid(s1) && Laid(s2) && Placed(s, ptr)
    requires Stepped(h1, s, ptr, step, ok1, s1, ptr1) && Stepped(h2, s, ptr, step, ok2, s2, ptr2)
    ensures ok1 == ok2 && s1 == s2 && ptr1 == ptr2
  {
    match step {
      case Malloc(id, size) =>
        if id !in ptr {
          ServedDetermined(h1, h2, s, ptr, id, size, ok1, s1, ptr1, ok2, s2, ptr2);
        }
      case Calloc(id, elements, size) =>
        if !(id in ptr || elements == 0 || elements * size >= TWO_64) {
          ServedDetermined(h1, h2, s, ptr, id, elements * size, ok1, s1, ptr1, ok2, s2, ptr2);
        }
      case Realloc(id, size) =>
        if size != 0 {
          ServedDetermined(h1, h2, s, ptr, id, size, ok1, s1, ptr1, ok2, s2, ptr2);
        } else if id in ptr {
          FreedDetermined(s, ptr[id] - 1, s1, s2);
        }
      case Free(id) =>
        if id in ptr {
          FreedDetermined(s, ptr[id] - 1, s1, s2);
        }
      case Write(_, _, _) =>
    }
  }

  // After a step the objects still have blocks.
  lemma StepPlaced(h: Heap, s1: State, ptr1: map<int, int>, step: Step, ok: bool, s2: State, ptr2: map<int, int>)
    requires Stepped(h, s1, ptr1, step, ok, s2, ptr2) && Placed(s1, ptr1)
    ensures Placed(s2, ptr2)
  {
  }

  /** Two runs of the same script, on heaps of the same limit and from the same state, agree in every answer, every
      address and every state. */
  lemma {:induction false} RunDetermined(h1: Heap, h2: Heap, steps: seq<Step>, oks1: seq<bool>, states1: seq<State>,
                                         ptrs1: seq<map<int, int>>, oks2: seq<bool>, states2: seq<State>,
                                         ptrs2: seq<map<int, int>>, n: nat)
    requires SameLimit(h1, h2) && Trace(h1, steps, oks1, states1, ptrs1) && Trace(h2, steps, oks2, states2, ptrs2)
    requires states1[0] == states2[0] && ptrs1[0] == ptrs2[0] == map[] && n <= |oks1| && n <= |oks2|
    ensures states1[n] == states2[n] && ptrs1[n] == ptrs2[n] && Placed(states1[n], ptrs1[n])
    ensures n > 0 ==> oks1[n - 1] == oks2[n - 1]
  {
    if n > 0 {
      RunDetermined(h1, h2, steps, oks1, states1, ptrs1, oks2, states2, ptrs2, n - 1);
      assert oks1[n - 1] == oks1[n - 1] && oks2[n - 1] == oks2[n - 1];
      StepDetermined(h1, h2, states1[n - 1], ptrs1[n - 1], steps[n - 1], oks1[n - 1], states1[n], ptrs1[n],
                     oks2[n - 1], states2[n], ptrs2[n]);
      StepPlaced(h1, states1[n - 1], ptrs1[n - 1], steps[n - 1], oks1[n - 1], states1[n], ptrs1[n]);
    }
  }
}
