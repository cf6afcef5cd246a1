/** Memory and list heads determine all that the model says about a heap; mm_checkheap checks a part of it. */
module HeapState {
  import opened BoundaryTags
  import opened Layout
  import opened FreeIndex
  import opened Tagging
  import opened Coalescing
  import opened FitSearch
  import opened HeapCheck

  ghost function FreeBlocks(bs: Blocks): set<int> {
    set p | p in bs && FreeAt(bs, p)
  }

  // ------------------------------------------------------------------ lists and links

  // A chain that ends has no block twice.
  lemma {:induction false} ChainDistinct(m: seq<Word>, s: seq<int>, next: int)
    requires InHeap(m, s) && 0 <= next <= 2 && Linked(m, s, next)
    ensures Distinct(s)
  {
    forall i, j {:trigger s[i], s[j]} | 0 <= i < j < |s| ensures s[i] != s[j] {
      NotTwice(m, s, next, i, j);
    }
  }

  lemma {:induction false} NotTwice(m: seq<Word>, s: seq<int>, next: int, i: nat, j: nat)
    requires InHeap(m, s) && 0 <= next <= 2 && Linked(m, s, next) && i < j < |s|
    ensures s[i] != s[j]
    decreases |s| - j
  {
    NextLink(m, s, i, next);
    NextLink(m, s, j, next);
    if j + 1 < |s| {
      NotTwice(m, s, next, i + 1, j + 1);
    }
  }

  /** Links lead through one list only. */
  lemma {:induction false} ChainUnique(m: seq<Word>, s: seq<int>, t: seq<int>, next: int)
    requires InHeap(m, s) && InHeap(m, t) && 0 <= next <= 2 && Linked(m, s, next) && Linked(m, t, next)
    requires At(s, 0) == At(t, 0)
    ensures s == t
  {
    SamePrefix(m, s, t, next, if |s| < |t| then |s| else |t|);
    SamePrefix(m, t, s, next, if |s| < |t| then |s| else |t|);
  }

  lemma {:induction false} SamePrefix(m: seq<Word>, s: seq<int>, t: seq<int>, next: int, k: nat)
    requires InHeap(m, s) && InHeap(m, t) && 0 <= next <= 2 && Linked(m, s, next) && Linked(m, t, next)
    requires At(s, 0) == At(t, 0) && k <= |s| && k <= |t|
    ensures s[..k] == t[..k] && At(s, k) == At(t, k) && (|s| == k <==> |t| == k)
  {
    if k == 0 {
      assert s != [] ==> s[0] >= 1;
      assert t != [] ==> t[0] >= 1;
    } else {
      SamePrefix(m, s, t, next, k - 1);
      NextLink(m, s, k - 1, next);
      NextLink(m, t, k - 1, next);
      assert s[..k] == s[..k - 1] + [s[k - 1]] && t[..k] == t[..k - 1] + [t[k - 1]];
    }
  }

  // ------------------------------------------------------------------ memory determines the state

  /** Two descriptions of the same memory, heads and end agree: which blocks there are, which are listed, and in what
      order. */
  lemma StateDetermined(m: seq<Word>, epilogue: int, heads: seq<int>, mini: int, bs1: Blocks, listed1: set<int>,
                        lists1: seq<seq<int>>, minis1: seq<int>, bs2: Blocks, listed2: set<int>,
                        lists2: seq<seq<int>>, minis2: seq<int>)
    requires Consistent(m, bs1, epilogue, listed1, heads, lists1, mini, minis1, 0)
    requires Consistent(m, bs2, epilogue, listed2, heads, lists2, mini, minis2, 0)
    ensures bs1 == bs2 && listed1 == listed2 && lists1 == lists2 && minis1 == minis2
  {
    ListedFree(m, bs1, epilogue, listed1, heads, lists1, mini, minis1);
    ListedFree(m, bs2, epilogue, listed2, heads, lists2, mini, minis2);
    forall c {:trigger lists1[c]} {:trigger lists2[c]} | 0 <= c < LENGTH ensures lists1[c] == lists2[c] {
      assert ClassList(m, bs1, listed1, c, heads[c], lists1[c]) && ClassList(m, bs2, listed2, c, heads[c], lists2[c]);
      ChainUnique(m, lists1[c], lists2[c], NEXT);
    }
    ChainUnique(m, minis1, minis2, MINI_NEXT);
  }

  // The blocks are those that the walk reads off the headers, and the listed ones are those that are free.
  lemma ListedFree(m: seq<Word>, bs: Blocks, epilogue: int, listed: set<int>, heads: seq<int>, lists: seq<seq<int>>,
                   mini: int, minis: seq<int>)
    requires Consistent(m, bs, epilogue, listed, heads, lists, mini, minis, 0)
    ensures bs == BlocksFrom(m, 1, epilogue) && listed == FreeBlocks(bs)
  {
    WalkExact(m, bs, epilogue);
    forall p {:trigger p in listed} ensures p in listed <==> p in FreeBlocks(bs) {
      assert FreeAt(bs, p) ==> SizeAt(bs, p) > 0;
    }
  }

  // ------------------------------------------------------------------ what mm_checkheap leaves unchecked

  // The checks of mm_checkheap on memory m with the given heads, whose lists end.
  ghost predicate Checked(m: seq<Word>, epilogue: int, heads: seq<int>, lists: seq<seq<int>>)
    requires 1 <= epilogue < |m| && |heads| == |lists| == LENGTH
  {
    && EndsPass(m, epilogue) && Passes(m, 1, epilogue)
    && forall c {:trigger lists[c]} :: 0 <= c < LENGTH ==>
         Chain(m, heads[c], lists[c]) && ListPasses(m, c, lists[c], epilogue + 1)
  }

  // The header of a block has no stray bit, and the next header has the right bits about it.
  ghost predicate Told(m: seq<Word>, p: int, n: int, free: bool) {
    0 <= p < p + n < |m| && m[p].units == n && m[p + n].prevAlloc == !free && m[p + n].prevMini == (n == MIN_WORDS)
  }

  /** The rest of the invariant: stray bits, the prev bits, which blocks the class lists hold, and the mini list. */
  ghost predicate Unchecked(m: seq<Word>, bs: Blocks, epilogue: int, lists: seq<seq<int>>, mini: int, minis: seq<int>)
    requires 1 <= epilogue < |m| && |lists| == LENGTH
  {
    && m[0].units == 0 && m[epilogue].units == 0 && m[1].prevAlloc && !m[1].prevMini
    && (forall p {:trigger SizeAt(bs, p)} :: p in bs ==> Told(m, p, SizeAt(bs, p), FreeAt(bs, p)))
    && (forall c {:trigger lists[c]} :: 0 <= c < LENGTH ==> Gathered(bs, lists[c], c))
    && mini == At(minis, 0) && InHeap(m, minis) && Linked(m, minis, MINI_NEXT)
    && forall p {:trigger p in minis} :: p in minis <==> FreeAt(bs, p) && IsMini(bs, p)
  }

  /** The invariant holds if and only if mm_checkheap passes and the rest holds too. */
  lemma CheckedExactly(m: seq<Word>, epilogue: int, heads: seq<int>, lists: seq<seq<int>>, mini: int, minis: seq<int>)
    requires 1 <= epilogue < |m| < MAX_HEAP_WORDS && |heads| == |lists| == LENGTH
    ensures var bs := BlocksFrom(m, 1, epilogue);
            Consistent(m, bs, epilogue, FreeBlocks(bs), heads, lists, mini, minis, 0)
            <==> Checked(m, epilogue, heads, lists) && Unchecked(m, bs, epilogue, lists, mini, minis)
  {
    var bs := BlocksFrom(m, 1, epilogue);
    if Consistent(m, bs, epilogue, FreeBlocks(bs), heads, lists, mini, minis, 0) {
      ConsistentChecked(m, bs, epilogue, heads, lists, mini, minis);
    }
    if Checked(m, epilogue, heads, lists) && Unchecked(m, bs, epilogue, lists, mini, minis) {
      CheckedConsistent(m, epilogue, heads, lists, mini, minis);
    }
  }

  lemma ConsistentChecked(m: seq<Word>, bs: Blocks, epilogue: int, heads: seq<int>, lists: seq<seq<int>>, mini: int,
                          minis: seq<int>)
    requires |heads| == |lists| == LENGTH
    requires Consistent(m, bs, epilogue, FreeBlocks(bs), heads, lists, mini, minis, 0)
    ensures Checked(m, epilogue, heads, lists) && Unchecked(m, bs, epilogue, lists, mini, minis)
  {
    WalkExact(m, bs, epilogue);
    forall c {:trigger lists[c]} | 0 <= c < LENGTH
      ensures Chain(m, heads[c], lists[c]) && ListPasses(m, c, lists[c], epilogue + 1) && Gathered(bs, lists[c], c)
    {
      ListsPass(m, bs, epilogue, FreeBlocks(bs), heads, lists, mini, minis, c);
    }
    forall p {:trigger SizeAt(bs, p)} | p in bs ensures Told(m, p, SizeAt(bs, p), FreeAt(bs, p)) {
      assert p != 0 && Tagged(m, p, SizeAt(bs, p), FreeAt(bs, p), false);
    }
  }

  // What the walk from p on has seen of each of its blocks.
  lemma {:induction false} WalkBlocks(m: seq<Word>, p: int, epilogue: int, q: int)
    requires 1 <= p <= epilogue < |m| && Passes(m, p, epilogue) && q in BlocksFrom(m, p, epilogue)
    ensures p <= q < epilogue && HeaderPasses(m, q) && FindNext(m, q) <= epilogue && NeighbourPasses(m, q)
    ensures SizeAt(BlocksFrom(m, p, epilogue), q) == SizeOf(m[q])
    ensures FreeAt(BlocksFrom(m, p, epilogue), q) == !m[q].alloc
    decreases epilogue - p
  {
    var next := FindNext(m, p);
    assert SizeAt(BlocksFrom(m, p, epilogue), q) >= 0;
    if q != p {
      WalkBlocks(m, next, epilogue, q);
    } else if q in BlocksFrom(m, next, epilogue) {
      WalkBlocks(m, next, epilogue, q);
    }
  }

  lemma CheckedConsistent(m: seq<Word>, epilogue: int, heads: seq<int>, lists: seq<seq<int>>, mini: int,
                          minis: seq<int>)
    requires 1 <= epilogue < |m| < MAX_HEAP_WORDS && |heads| == |lists| == LENGTH
    requires Checked(m, epilogue, heads, lists)
    requires Unchecked(m, BlocksFrom(m, 1, epilogue), epilogue, lists, mini, minis)
    ensures var bs := BlocksFrom(m, 1, epilogue);
            Consistent(m, bs, epilogue, FreeBlocks(bs), heads, lists, mini, minis, 0)
  {
    var bs := BlocksFrom(m, 1, epilogue);
    CheckSound(m, epilogue);
    assert Tags(m, bs, epilogue, 0) by {
      forall p {:trigger SizeAt(bs, p)} | p in bs ensures Tagged(m, p, SizeAt(bs, p), FreeAt(bs, p), p == 0) {
        WalkBlocks(m, 1, epilogue, p);
      }
    }
    forall c {:trigger lists[c]} | 0 <= c < LENGTH
      ensures ClassList(m, bs, FreeBlocks(bs), c, heads[c], lists[c])
    {
      ListRestored(m, bs, c, heads[c], lists[c], epilogue + 1);
    }
    ChainDistinct(m, minis, MINI_NEXT);
    forall p {:trigger FreeAt(bs, p)} {:trigger p in FreeBlocks(bs)}
      ensures p in FreeBlocks(bs) <==> FreeAt(bs, p) && p != 0
    {
      assert SizeAt(bs, 0) >= 0;
    }
  }

  lemma ListRestored(m: seq<Word>, bs: Blocks, c: int, head: int, s: seq<int>, limit: int)
    requires Chain(m, head, s) && ListPasses(m, c, s, limit) && Gathered(bs, s, c)
    ensures ClassList(m, bs, FreeBlocks(bs), c, head, s)
  {
    ChainDistinct(m, s, NEXT);
    forall i, j {:trigger s[i], s[j]} | 0 <= i && j == i + 1 && j < |s| ensures AddressOf(m[s[j] + PREV]) == s[i] {
      assert LinkPasses(m, c, s, i, limit);
    }
  }

  // ------------------------------------------------------------------ two heaps that pass and are broken

  // One block of two words between prologue and epilogue, and nothing on the lists.
  ghost predicate OneBlock(m: seq<Word>, epilogue: int, heads: seq<int>, lists: seq<seq<int>>, alloc: bool) {
    && |m| == 4 && epilogue == 3 && |heads| == |lists| == LENGTH
    && m[0].alloc && SizeOf(m[0]) == 0 && m[3].alloc && SizeOf(m[3]) == 0
    && m[1].alloc == alloc && SizeOf(m[1]) == MIN_WORDS && m[3].prevMini
    && forall c {:trigger lists[c]} {:trigger heads[c]} :: 0 <= c < LENGTH ==> heads[c] == NULL && lists[c] == []
  }

  lemma OneBlockPasses(m: seq<Word>, epilogue: int, heads: seq<int>, lists: seq<seq<int>>, alloc: bool)
    requires OneBlock(m, epilogue, heads, lists, alloc)
    ensures Checked(m, epilogue, heads, lists) && 1 in BlocksFrom(m, 1, epilogue)
  {
    assert FindNext(m, 1) == epilogue && HeaderPasses(m, 1) && NeighbourPasses(m, 1);
  }

  lemma MakeOneBlock(alloc: bool, prevAlloc: bool)
    returns (m: seq<Word>, epilogue: int, heads: seq<int>, lists: seq<seq<int>>)
    ensures OneBlock(m, epilogue, heads, lists, alloc) && m[1].prevAlloc == prevAlloc
  {
    var end, block := Word(0, true, true, true), Word(MIN_WORDS, false, prevAlloc, alloc);
    m, epilogue := [end, block, end, end], 3;
    heads, lists := seq(LENGTH, _ => NULL), seq(LENGTH, _ => []);
  }

  // No description fits memory m.
  ghost predicate Broken(m: seq<Word>, epilogue: int, heads: seq<int>, mini: int) {
    forall bs, listed, lists, minis :: !Consistent(m, bs, epilogue, listed, heads, lists, mini, minis, 0)
  }

  /** A first header that claims a free block in front of it passes all checks. */
  lemma PrevBitUnseen() returns (m: seq<Word>, epilogue: int, heads: seq<int>, lists: seq<seq<int>>)
    ensures 1 <= epilogue < |m| && |heads| == |lists| == LENGTH
    ensures Checked(m, epilogue, heads, lists) && Broken(m, epilogue, heads, NULL)
  {
    m, epilogue, heads, lists := MakeOneBlock(true, false);
    OneBlockPasses(m, epilogue, heads, lists, true);
  }

  /** A free mini block that is on no list passes all checks. */
  lemma MiniUnseen() returns (m: seq<Word>, epilogue: int, heads: seq<int>, lists: seq<seq<int>>)
    ensures 1 <= epilogue < |m| && |heads| == |lists| == LENGTH
    ensures Checked(m, epilogue, heads, lists) && Broken(m, epilogue, heads, NULL)
  {
    m, epilogue, heads, lists := MakeOneBlock(false, true);
    OneBlockPasses(m, epilogue, heads, lists, false);
    MiniLost(m, epilogue, heads, lists);
  }

  // A free mini block is on the mini list, which therefore has a head.
  lemma MiniHeaded(m: seq<Word>, bs: Blocks, epilogue: int, listed: set<int>, heads: seq<int>, lists: seq<seq<int>>,
                   mini: int, minis: seq<int>, p: int)
    requires Consistent(m, bs, epilogue, listed, heads, lists, mini, minis, 0) && FreeAt(bs, p) && IsMini(bs, p)
    ensures p in minis && mini != NULL
  {
    assert SizeAt(bs, 0) == 0;
  }

  lemma MiniLost(m: seq<Word>, epilogue: int, heads: seq<int>, lists: seq<seq<int>>)
    requires OneBlock(m, epilogue, heads, lists, false)
    ensures Broken(m, epilogue, heads, NULL)
  {
    OneBlockPasses(m, epilogue, heads, lists, false);
    forall bs, listed, lists2, minis
      ensures !Consistent(m, bs, epilogue, listed, heads, lists2, NULL, minis, 0)
    {
      if Consistent(m, bs, epilogue, listed, heads, lists2, NULL, minis, 0) {
        ListedFree(m, bs, epilogue, listed, heads, lists2, NULL, minis);
        WalkBlocks(m, 1, epilogue, 1);
        MiniHeaded(m, bs, epilogue, listed, heads, lists2, NULL, minis, 1);
      }
    }
  }
}
