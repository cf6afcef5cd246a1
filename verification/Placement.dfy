/** The value-level content of the other steps of malloc and free: claiming, cutting, releasing and adding a block. */
module Placement {
  import opened BoundaryTags
  import opened Layout
  import opened FreeIndex
  import opened Tagging
  import opened Coalescing

  /** free, before coalescing: block p gets a free header and a footer; its successor is not told. */
  lemma ReleaseTags(m1: seq<Word>, m2: seq<Word>, bs: Blocks, epilogue: int, p: int)
    requires Tiling(bs, epilogue) && Aligned(bs, epilogue) && Tags(m1, bs, epilogue, 0)
    requires p in bs && !FreeAt(bs, p) && 0 <= p < |m1| && MIN_WORDS <= SizeAt(bs, p)
    requires Packed(m1, m2, p, SizeAt(bs, p), false, m1[p].prevAlloc, m1[p].prevMini)
    requires Tiling(WithStatus(bs, p, false), epilogue)
    ensures Tags(m2, WithStatus(bs, p, false), epilogue, p)
  {
    var bs2 := WithStatus(bs, p, false);
    StatusTiles(bs, epilogue, p, false);
    forall q {:trigger SizeAt(bs2, q)} | q in bs2 ensures Tagged(m2, q, SizeAt(bs2, q), FreeAt(bs2, q), q == p) {
      assert SizeAt(bs, q) == SizeAt(bs2, q) && SizeAt(bs, p) > 0;
    }
  }

  /** malloc, before splitting: block p gets an allocated header and its successor's prev_alloc bit is set. */
  lemma ClaimTags(m1: seq<Word>, m2: seq<Word>, m3: seq<Word>, bs: Blocks, epilogue: int, p: int)
    requires Tiling(bs, epilogue) && Aligned(bs, epilogue) && Tags(m1, bs, epilogue, 0)
    requires FreeAt(bs, p) && NoAdjacentFree(bs, 0) && 0 <= p < |m1| && MIN_WORDS <= SizeAt(bs, p)
    requires Packed(m1, m2, p, SizeAt(bs, p), true, m1[p].prevAlloc, m1[p].prevMini)
    requires PrevAllocSet(m2, m3, p + SizeAt(bs, p))
    requires Tiling(WithStatus(bs, p, true), epilogue)
    ensures Tags(m3, WithStatus(bs, p, true), epilogue, 0)
  {
    var bs2 := WithStatus(bs, p, true);
    assert !FreeAt(bs, p + SizeAt(bs, p)) && SizeAt(bs, p + SizeAt(bs, p)) >= 0;
    forall q {:trigger SizeAt(bs2, q)} | q in bs2 ensures Tagged(m3, q, SizeAt(bs2, q), FreeAt(bs2, q), false) {
      assert SizeAt(bs, q) == SizeAt(bs2, q);
    }
  }

  /** split_block: block p is cut after n words; the rest gets a free header and a footer; its successor is not told. */
  lemma CutTags(m1: seq<Word>, m2: seq<Word>, m3: seq<Word>, bs: Blocks, epilogue: int, p: int, n: int)
    requires Tiling(bs, epilogue) && Tags(m1, bs, epilogue, 0)
    requires p in bs && !FreeAt(bs, p) && 0 <= p < |m1| && MIN_WORDS <= n && MIN_WORDS <= SizeAt(bs, p) - n
    requires Packed(m1, m2, p, n, true, m1[p].prevAlloc, m1[p].prevMini)
    requires Packed(m2, m3, p + n, SizeAt(bs, p) - n, false, true, n == MIN_WORDS)
    requires Tiling(Cut(bs, p, n), epilogue)
    ensures Tags(m3, Cut(bs, p, n), epilogue, p + n)
  {
    var bs2 := Cut(bs, p, n);
    forall q {:trigger SizeAt(bs2, q)} | q in bs2 ensures Tagged(m3, q, SizeAt(bs2, q), FreeAt(bs2, q), q == p + n) {
      if q != p && q != p + n {
        assert SizeAt(bs, q) == SizeAt(bs2, q) && FreeAt(bs, q) == FreeAt(bs2, q);
      }
    }
  }

  /** extend_heap: a free block of n words replaces the epilogue, and a new epilogue follows it. */
  lemma GrowTags(m1: seq<Word>, m2: seq<Word>, m3: seq<Word>, bs: Blocks, epilogue: int, n: int)
    requires Tiling(bs, epilogue) && Tags(m1, bs, epilogue, 0)
    requires MIN_WORDS < n && epilogue + n < |m1| && 0 <= epilogue
    requires Packed(m1, m2, epilogue, n, false, m1[epilogue].prevAlloc, m1[epilogue].prevMini)
    requires Packed(m2, m3, epilogue + n, 0, true, false, false)
    requires Tiling(Grow(bs, epilogue, n), epilogue + n)
    ensures Tags(m3, Grow(bs, epilogue, n), epilogue + n, epilogue)
  {
    var bs2 := Grow(bs, epilogue, n);
    forall q {:trigger SizeAt(bs2, q)} | q in bs2 ensures Tagged(m3, q, SizeAt(bs2, q), FreeAt(bs2, q), q == epilogue) {
      if q != epilogue {
        assert SizeAt(bs, q) == SizeAt(bs2, q) && FreeAt(bs, q) == FreeAt(bs2, q);
      }
    }
  }

  // The free index follows: blocks that stay listed keep their links and sizes.
  lemma IndexKept(m1: seq<Word>, m2: seq<Word>, bs1: Blocks, bs2: Blocks, listed: set<int>, heads: seq<int>,
                  lists: seq<seq<int>>, mini: int, minis: seq<int>)
    requires Indexed(m1, bs1, listed, heads, lists, mini, minis) && SameListed(m1, m2, bs1, bs2, listed)
    ensures Indexed(m2, bs2, listed, heads, lists, mini, minis)
  {
    IndexFrame(m1, m2, bs1, listed, heads, lists, mini, minis);
    IndexResize(m2, bs1, bs2, listed, heads, lists, mini, minis);
  }

  // ------------------------------------------------------------------ whole steps

  // m1 and m2 agree on the links of the listed blocks, whose sizes are the same in both cuts.
  ghost predicate SameListed(m1: seq<Word>, m2: seq<Word>, bs1: Blocks, bs2: Blocks, listed: set<int>) {
    && |m1| == |m2|
    && forall q {:trigger q in listed} :: q in listed ==>
         SizeAt(bs1, q) == SizeAt(bs2, q) && 1 <= q && q + 2 < |m1|
         && m1[q + 1] == m2[q + 1] && (!IsMini(bs1, q) ==> m1[q + 2] == m2[q + 2])
  }

  lemma Release(m1: seq<Word>, m2: seq<Word>, bs: Blocks, epilogue: int, listed: set<int>, heads: seq<int>,
                lists: seq<seq<int>>, mini: int, minis: seq<int>, p: int)
    requires Consistent(m1, bs, epilogue, listed, heads, lists, mini, minis, 0)
    requires p in bs && !FreeAt(bs, p) && 0 <= p < |m1| && MIN_WORDS <= SizeAt(bs, p)
    requires Packed(m1, m2, p, SizeAt(bs, p), false, m1[p].prevAlloc, m1[p].prevMini)
    ensures Consistent(m2, WithStatus(bs, p, false), epilogue, listed, heads, lists, mini, minis, p)
    ensures Live(WithStatus(bs, p, false)) == Live(bs) - {p} && KeepsPayloads(m1, m2, Live(WithStatus(bs, p, false)))
  {
    var bs2 := WithStatus(bs, p, false);
    StatusTiles(bs, epilogue, p, false);
    ReleaseTags(m1, m2, bs, epilogue, p);
    assert SameListed(m1, m2, bs, bs2, listed) by {
      forall q {:trigger q in listed} | q in listed ensures Fits(bs, epilogue, q, SizeAt(bs, q)) {
      }
    }
    IndexKept(m1, m2, bs, bs2, listed, heads, lists, mini, minis);
    assert SizeAt(bs, 0) == 0;
    PayloadsFromWords(m1, m2, bs2);
  }

  lemma Claim(m1: seq<Word>, m2: seq<Word>, m3: seq<Word>, bs: Blocks, epilogue: int, listed: set<int>, heads: seq<int>,
              lists: seq<seq<int>>, mini: int, minis: seq<int>, p: int)
    requires Tiling(bs, epilogue) && Aligned(bs, epilogue) && epilogue < |m1| < MAX_HEAP_WORDS
             && Tags(m1, bs, epilogue, 0)
    requires Indexed(m1, bs, listed, heads, lists, mini, minis) && Lists(bs, listed, p) && NoAdjacentFree(bs, 0)
    requires FreeAt(bs, p) && 0 <= p < |m1| && MIN_WORDS <= SizeAt(bs, p)
    requires Packed(m1, m2, p, SizeAt(bs, p), true, m1[p].prevAlloc, m1[p].prevMini)
    requires PrevAllocSet(m2, m3, p + SizeAt(bs, p))
    ensures Consistent(m3, WithStatus(bs, p, true), epilogue, listed, heads, lists, mini, minis, 0)
    ensures Live(WithStatus(bs, p, true)) == Live(bs)[p := SizeAt(bs, p)] && KeepsPayloads(m1, m3, Live(bs))
  {
    var bs2 := WithStatus(bs, p, true);
    StatusTiles(bs, epilogue, p, true);
    ClaimTags(m1, m2, m3, bs, epilogue, p);
    assert SizeAt(bs, 0) == 0 && SizeAt(bs, p + SizeAt(bs, p)) >= 0;
    assert SameListed(m1, m3, bs, bs2, listed) by {
      forall q {:trigger q in listed} | q in listed ensures Fits(bs, epilogue, q, SizeAt(bs, q)) {
      }
    }
    IndexKept(m1, m3, bs, bs2, listed, heads, lists, mini, minis);
    PayloadsFromWords(m1, m3, bs);
  }

  lemma Split(m1: seq<Word>, m2: seq<Word>, m3: seq<Word>, bs: Blocks, epilogue: int, listed: set<int>, heads: seq<int>,
              lists: seq<seq<int>>, mini: int, minis: seq<int>, p: int, n: int)
    requires Consistent(m1, bs, epilogue, listed, heads, lists, mini, minis, 0)
    requires p in bs && !FreeAt(bs, p) && 0 <= p < |m1| && MIN_WORDS <= n && n % 2 == 0
             && MIN_WORDS <= SizeAt(bs, p) - n
    requires Packed(m1, m2, p, n, true, m1[p].prevAlloc, m1[p].prevMini)
    requires Packed(m2, m3, p + n, SizeAt(bs, p) - n, false, true, n == MIN_WORDS)
    ensures Consistent(m3, Cut(bs, p, n), epilogue, listed, heads, lists, mini, minis, p + n)
    ensures Live(Cut(bs, p, n)) == Live(bs)[p := n] && KeepsPayloads(m1, m3, Live(bs) - {p})
  {
    var bs2 := Cut(bs, p, n);
    CutTiles(bs, epilogue, p, n);
    CutAligned(bs, epilogue, p, n);
    CutTags(m1, m2, m3, bs, epilogue, p, n);
    CutStatus(bs, epilogue, p, n);
    assert SizeAt(bs, 0) == 0;
    assert SameListed(m1, m3, bs, bs2, listed) by {
      forall q {:trigger q in listed} | q in listed ensures Fits(bs, epilogue, q, SizeAt(bs, q)) {
      }
    }
    IndexKept(m1, m3, bs, bs2, listed, heads, lists, mini, minis);
    forall q | q in Live(bs) - {p} ensures SameWords(m1, m3, q + 1, q + Live(bs)[q]) {
      assert SizeAt(bs, q) == Live(bs)[q];
    }
  }

  // Cutting leaves the other blocks as they are.
  lemma CutStatus(bs: Blocks, epilogue: int, p: int, n: int)
    requires Tiling(bs, epilogue) && NoAdjacentFree(bs, 0) && p in bs && !FreeAt(bs, p)
    requires MIN_WORDS <= n && MIN_WORDS <= SizeAt(bs, p) - n
    ensures var bs2 := Cut(bs, p, n);
            && (forall q {:trigger FreeAt(bs2, q)} :: FreeAt(bs2, q) <==> q == p + n || FreeAt(bs, q))
            && (forall q {:trigger SizeAt(bs2, q)} :: q != p && q != p + n ==> SizeAt(bs2, q) == SizeAt(bs, q))
            && !FreeAt(bs, p + n)
            && Live(bs2) == Live(bs)[p := n] && NoAdjacentFree(bs2, p + n)
  {
    var bs2 := Cut(bs, p, n);
    assert p + n !in bs by {
      assert p + n in bs ==> SizeAt(bs, p + n) > 0;
      assert SizeAt(bs, p) > n;
    }
    assert forall q {:trigger SizeAt(bs2, q)} :: q != p && q != p + n ==> SizeAt(bs2, q) == SizeAt(bs, q);
    assert forall q {:trigger FreeAt(bs2, q)} :: FreeAt(bs2, q) <==> q == p + n || FreeAt(bs, q);
    assert SizeAt(bs, 0) == 0;
  }

  lemma Extend(m1: seq<Word>, m2: seq<Word>, m3: seq<Word>, bs: Blocks, epilogue: int, listed: set<int>,
               heads: seq<int>, lists: seq<seq<int>>, mini: int, minis: seq<int>, n: int)
    requires Consistent(m1, bs, epilogue, listed, heads, lists, mini, minis, 0)
    requires MIN_WORDS < n && n % 2 == 0 && 1 <= epilogue && epilogue + n < |m1|
    requires Packed(m1, m2, epilogue, n, false, m1[epilogue].prevAlloc, m1[epilogue].prevMini)
    requires Packed(m2, m3, epilogue + n, 0, true, false, false)
    ensures Consistent(m3, Grow(bs, epilogue, n), epilogue + n, listed, heads, lists, mini, minis, epilogue)
    ensures Live(Grow(bs, epilogue, n)) == Live(bs) && KeepsPayloads(m1, m3, Live(bs))
  {
    var bs2 := Grow(bs, epilogue, n);
    GrowTiles(bs, epilogue, n);
    GrowAligned(bs, epilogue, n);
    GrowTags(m1, m2, m3, bs, epilogue, n);
    assert SizeAt(bs, 0) == 0 && SizeAt(bs, epilogue) == 0;
    assert SameListed(m1, m3, bs, bs2, listed) by {
      forall q {:trigger q in listed} | q in listed ensures Fits(bs, epilogue, q, SizeAt(bs, q)) {
      }
    }
    IndexKept(m1, m3, bs, bs2, listed, heads, lists, mini, minis);
    PayloadsFromWords(m1, m3, bs);
  }

  // The heap right after its prologue and epilogue have been written.
  lemma EmptyHeap(m: seq<Word>, heads: seq<int>, lists: seq<seq<int>>, mini: int, minis: seq<int>)
    requires 1 < |m| < MAX_HEAP_WORDS && HasTag(m[0], 0, true, false, false) && HasTag(m[1], 0, true, true, false)
    requires Indexed(m, map[], {}, heads, lists, mini, minis)
    ensures Consistent(m, map[], 1, {}, heads, lists, mini, minis, 0) && Live(map[]) == map[]
  {
    assert forall p {:trigger FreeAt(map[], p)} :: !FreeAt(map[], p);
  }

  /** Whatever is written into the payload of an allocated block, the heap stays consistent. */
  lemma WritePayload(m1: seq<Word>, m2: seq<Word>, bs: Blocks, epilogue: int, listed: set<int>, heads: seq<int>,
                     lists: seq<seq<int>>, mini: int, minis: seq<int>, p: int)
    requires Consistent(m1, bs, epilogue, listed, heads, lists, mini, minis, 0) && p in Live(bs) && |m1| == |m2|
    requires forall a {:trigger m2[a]} :: 0 <= a < |m1| && !(p < a < p + Live(bs)[p]) ==> m1[a] == m2[a]
    ensures Consistent(m2, bs, epilogue, listed, heads, lists, mini, minis, 0)
    ensures KeepsPayloads(m1, m2, Live(bs) - {p})
  {
    assert SizeAt(bs, p) == Live(bs)[p] && !FreeAt(bs, p);
    forall q {:trigger SizeAt(bs, q)} | q in bs ensures Tagged(m2, q, SizeAt(bs, q), FreeAt(bs, q), false) {
      assert Boundary(bs, epilogue, q + SizeAt(bs, q));
      assert SizeAt(bs, q + SizeAt(bs, q)) >= 0;
    }
    assert Boundary(bs, epilogue, 1) && SizeAt(bs, 1) >= 0;
    assert SameListed(m1, m2, bs, bs, listed) by {
      forall q {:trigger q in listed} | q in listed ensures Fits(bs, epilogue, q, SizeAt(bs, q)) {
      }
    }
    IndexKept(m1, m2, bs, bs, listed, heads, lists, mini, minis);
    forall q | q in Live(bs) - {p} ensures SameWords(m1, m2, q + 1, q + Live(bs)[q]) {
      assert SizeAt(bs, q) == Live(bs)[q];
    }
  }

  // ------------------------------------------------------------------ the end of the heap

  // New words at the end of the heap join a block that starts at r: the free block there, or else the end itself.
  ghost predicate TailAt(bs: Blocks, epilogue: int, r: int) {
    if r == epilogue then forall p {:trigger SizeAt(bs, p)} :: FreeAt(bs, p) ==> p + SizeAt(bs, p) != epilogue
    else FreeAt(bs, r) && r + SizeAt(bs, r) == epilogue
  }

  // The layout with n more words at its end, joined with a free block there.
  lemma TailJoined(bs: Blocks, epilogue: int, n: int) returns (tail: Blocks, lo: int)
    requires Tiling(bs, epilogue) && NoAdjacentFree(bs, 0) && MIN_WORDS <= n
    ensures Tiling(tail, epilogue + n) && NoAdjacentFree(tail, 0) && Live(tail) == Live(bs)
    ensures Joined(Grow(bs, epilogue, n), tail, epilogue, lo) && TailAt(bs, epilogue, lo)
  {
    lo := epilogue;
    if epilogue != 1 {
      var p := Predecessor(bs, epilogue, epilogue);
      if FreeAt(bs, p) {
        lo := p;
      }
    }
    LastFree(bs, epilogue, lo, n);
    GrowTiles(bs, epilogue, n);
    tail := RunJoined(Grow(bs, epilogue, n), epilogue + n, epilogue, lo);
    GrowLive(bs, epilogue, n);
  }

  lemma GrowLive(bs: Blocks, epilogue: int, n: int)
    requires Tiling(bs, epilogue) && 0 < n
    ensures Live(Grow(bs, epilogue, n)) == Live(bs)
  {
    assert SizeAt(bs, epilogue) == 0;
  }

  lemma RunJoined(bs: Blocks, epilogue: int, x: int, lo: int) returns (tail: Blocks)
    requires Tiling(bs, epilogue) && Run(bs, epilogue, x, lo, epilogue)
    ensures Tiling(tail, epilogue) && NoAdjacentFree(tail, 0) && Live(tail) == Live(bs) && Joined(bs, tail, x, lo)
  {
    tail := Fuse(bs, lo, epilogue);
    FuseTiles(bs, epilogue, lo, epilogue);
    FuseSeparates(bs, epilogue, x, lo, epilogue);
    FuseJoins(bs, epilogue, x, lo, epilogue);
  }

  // lo starts the run of free blocks at the end of the grown layout.
  lemma LastFree(bs: Blocks, epilogue: int, lo: int, n: int)
    requires Tiling(bs, epilogue) && NoAdjacentFree(bs, 0) && MIN_WORDS <= n
    requires TailAt(bs, epilogue, lo)
    ensures Run(Grow(bs, epilogue, n), epilogue + n, epilogue, lo, epilogue + n)
  {
    var grown := Grow(bs, epilogue, n);
    assert SizeAt(bs, 0) == 0 && SizeAt(bs, lo) >= 0 && SizeAt(bs, epilogue) == 0 && SizeAt(bs, epilogue + n) == 0;
    forall p {:trigger SizeAt(grown, p)} {:trigger FreeAt(grown, p)} | p in grown && lo <= p < epilogue + n
      ensures FreeAt(grown, p)
    {
      assert SizeAt(bs, p) >= 0;
    }
  }

  /** Whatever way the layout was grown and joined, the block with the new words starts where the tail did. */
  lemma TailFound(bs: Blocks, epilogue: int, n: int, bs2: Blocks, r: int)
    requires Tiling(bs, epilogue) && NoAdjacentFree(bs, 0) && MIN_WORDS <= n
    requires Tiling(bs2, epilogue + n) && NoAdjacentFree(bs2, 0) && Live(bs2) == Live(bs)
    requires Joined(Grow(bs, epilogue, n), bs2, epilogue, r)
    ensures TailAt(bs, epilogue, r)
  {
    var tail, lo := TailJoined(bs, epilogue, n);
    LayoutUnique(tail, bs2, epilogue + n);
    assert SizeAt(bs2, lo) > 0 && SizeAt(bs2, r) > 0 && SizeAt(Grow(bs, epilogue, n), epilogue) == n;
  }

  // ------------------------------------------------------------------ the lists after a block has been placed

  // A block of k words at p comes off its list; what is left behind the first n words, if it can be a block, is put on.
  ghost function Carved(ix: Index, k: int, p: int, n: int): Index {
    if k - n < MIN_WORDS then Taken(ix, k, p) else Added(Taken(ix, k, p), k - n, p + n)
  }

  // The layout is bs with its allocated block p cut after n words, and no free block behind p.
  ghost predicate CutOff(bs: Blocks, epilogue: int, p: int, n: int, cut: Blocks) {
    && Tiling(bs, epilogue) && p in bs && !FreeAt(bs, p) && MIN_WORDS <= n && MIN_WORDS <= SizeAt(bs, p) - n
    && !FreeAt(bs, p + SizeAt(bs, p)) && cut == Cut(bs, p, n)
  }

  // No free block ends at x or begins behind x.
  ghost predicate Lonely(bs: Blocks, x: int) {
    && !FreeAt(bs, x + SizeAt(bs, x))
    && forall q {:trigger SizeAt(bs, q)} :: FreeAt(bs, q) ==> q + SizeAt(bs, q) != x
  }

  lemma CutLonely(bs: Blocks, cut: Blocks, epilogue: int, p: int, n: int)
    requires CutOff(bs, epilogue, p, n, cut)
    ensures Lonely(cut, p + n) && SizeAt(cut, p + n) == SizeAt(bs, p) - n
  {
    assert SizeAt(cut, p + n) == SizeAt(bs, p) - n && SizeAt(cut, p) == n;
    forall q {:trigger SizeAt(cut, q)} | FreeAt(cut, q) ensures q + SizeAt(cut, q) != p + n {
      assert SizeAt(bs, q) >= 0;
    }
  }

  /** Coalescing a block without free neighbours changes no layout, and only lists it. */
  lemma LonelyMerged(bs: Blocks, ix: Index, epilogue: int, x: int, r: int, bs2: Blocks, ix2: Index)
    requires Tiling(bs, epilogue) && NoAdjacentFree(bs, x) && FreeAt(bs, x) && Lonely(bs, x)
    requires Tiling(bs2, epilogue) && NoAdjacentFree(bs2, 0) && Merged(bs, ix, x, r, bs2, ix2)
    ensures bs2 == bs && ix2 == Added(ix, SizeAt(bs, x), x)
  {
    forall q, t {:trigger SizeAt(bs, q), FreeAt(bs, t)} | FreeAt(bs, q) && FreeAt(bs, t)
      ensures t != q + SizeAt(bs, q)
    {
      assert q == x || t == x || t != q + SizeAt(bs, q);
    }
    LayoutUnique(bs, bs2, epilogue);
    assert SizeAt(bs, r) > 0 && SizeAt(bs, x) > 0;
  }

  /** n new words from the old epilogue p on have become a block, together with the free block that ended there: r is
      where it starts, and it heads its list. */
  ghost predicate Grown(bs: Blocks, ix: Index, p: int, n: int, r: int, bs2: Blocks, ix2: Index)
    requires 0 < n
  {
    && Joined(Grow(bs, p, n), bs2, p, r) && TailAt(bs, p, r) && SizeAt(bs2, r) == p + n - r
    && ix2 == Rejoined(ix, p, r, p + n, p + n)
  }

  lemma TailMerged(bs: Blocks, ix: Index, p: int, n: int, r: int, bs2: Blocks, ix2: Index)
    requires Tiling(bs2, p + n) && 0 < n && Merged(Grow(bs, p, n), ix, p, r, bs2, ix2) && TailAt(bs, p, r)
    ensures Grown(bs, ix, p, n, r, bs2, ix2) && 0 < r
  {
    assert SizeAt(Grow(bs, p, n), p) == n && SizeAt(bs2, r) > 0;
  }

  lemma TailUnique(bs: Blocks, epilogue: int, p: int, q: int)
    requires Tiling(bs, epilogue) && TailAt(bs, epilogue, p) && TailAt(bs, epilogue, q)
    ensures p == q
  {
    assert SizeAt(bs, p) >= 0 && SizeAt(bs, q) >= 0;
  }

  // ------------------------------------------------------------------ what the order of the lists is

  // List c of the index; behind the class lists comes the mini list.
  function ListAt(ix: Index, c: int): seq<int> {
    if 0 <= c < |ix.lists| then ix.lists[c] else ix.minis
  }

  ghost predicate Precedes(s: seq<int>, p: int, q: int) {
    exists i, j {:trigger s[i], s[j]} :: 0 <= i < j < |s| && s[i] == p && s[j] == q
  }

  lemma PushPrecedes(x: int, s: seq<int>, p: int, q: int)
    requires p != x && q != x
    ensures Precedes(Push(x, s), p, q) <==> Precedes(s, p, q)
  {
    var t := Push(x, s);
    if Precedes(t, p, q) {
      var i, j :| 0 <= i < j < |t| && t[i] == p && t[j] == q;
      assert s[i - 1] == p && s[j - 1] == q;
    }
    if Precedes(s, p, q) {
      var i, j :| 0 <= i < j < |s| && s[i] == p && s[j] == q;
      assert t[i + 1] == p && t[j + 1] == q;
    }
  }

  lemma MinusPrecedes(x: int, s: seq<int>, p: int, q: int)
    requires p != x && q != x
    ensures Precedes(Minus(s, x), p, q) <==> Precedes(s, p, q)
  {
    if x in s {
      var k, t := Position(s, x), Minus(s, x);
      WithoutOmits(s, k);
      OmitsPrecedes(s, t, k, p, q);
    }
  }

  lemma OmitsPrecedes(s: seq<int>, t: seq<int>, k: int, p: int, q: int)
    requires 0 <= k < |s| && Omits(s, t, k) && p != s[k] && q != s[k]
    ensures Precedes(t, p, q) <==> Precedes(s, p, q)
  {
    if Precedes(t, p, q) {
      var i, j :| 0 <= i < j < |t| && t[i] == p && t[j] == q;
      var i2, j2 := if i < k then i else i + 1, if j < k then j else j + 1;
      assert s[i2] == p && s[j2] == q;
    }
    if Precedes(s, p, q) {
      var i, j :| 0 <= i < j < |s| && s[i] == p && s[j] == q;
      var i2, j2 := if i < k then i else i - 1, if j < k then j else j - 1;
      assert t[i2] == p && t[j2] == q;
    }
  }

  lemma AddedPrecedes(ix: Index, n: int, x: int, c: int, p: int, q: int)
    requires p != x && q != x
    ensures Precedes(ListAt(Added(ix, n, x), c), p, q) <==> Precedes(ListAt(ix, c), p, q)
  {
    PushPrecedes(x, ListAt(ix, c), p, q);
  }

  lemma TakenPrecedes(ix: Index, n: int, x: int, c: int, p: int, q: int)
    requires p != x && q != x
    ensures Precedes(ListAt(Taken(ix, n, x), c), p, q) <==> Precedes(ListAt(ix, c), p, q)
  {
    MinusPrecedes(x, ListAt(ix, c), p, q);
  }

  // p stands in front of the list for blocks of n words.
  ghost predicate InFrontOf(ix: Index, n: int, p: int) {
    if n == MIN_WORDS then ix.minis != [] && ix.minis[0] == p
    else FindClass(8 * n) < |ix.lists| ==> ix.lists[FindClass(8 * n)] != [] && ix.lists[FindClass(8 * n)][0] == p
  }

  lemma AddedInFront(ix: Index, n: int, p: int)
    ensures InFrontOf(Added(ix, n, p), n, p)
  {
  }

  lemma RejoinedFront(ix: Index, x: int, lo: int, next: int, hi: int)
    ensures InFrontOf(Rejoined(ix, x, lo, next, hi), hi - lo, lo)
  {
    var ix1 := if lo == x then ix else Taken(ix, x - lo, lo);
    AddedInFront(if next == hi then ix1 else Taken(ix1, hi - next, next), hi - lo, lo);
  }

  /** Coalescing puts the union in front of its list, and keeps the order of all blocks that it does not join. */
  lemma RejoinedOrder(ix: Index, x: int, lo: int, next: int, hi: int, c: int, p: int, q: int)
    requires p != lo && p != next && q != lo && q != next
    ensures InFrontOf(Rejoined(ix, x, lo, next, hi), hi - lo, lo)
    ensures Precedes(ListAt(Rejoined(ix, x, lo, next, hi), c), p, q) <==> Precedes(ListAt(ix, c), p, q)
  {
    var ix1 := if lo == x then ix else Taken(ix, x - lo, lo);
    var ix2 := if next == hi then ix1 else Taken(ix1, hi - next, next);
    RejoinedFront(ix, x, lo, next, hi);
    TakenPrecedes(ix, x - lo, lo, c, p, q);
    TakenPrecedes(ix1, hi - next, next, c, p, q);
    AddedPrecedes(ix2, hi - lo, lo, c, p, q);
  }

  lemma CarvedFront(ix: Index, k: int, x: int, n: int)
    requires MIN_WORDS <= k - n
    ensures InFrontOf(Carved(ix, k, x, n), k - n, x + n)
  {
    AddedInFront(Taken(ix, k, x), k - n, x + n);
  }

  lemma ListedPrecedes(ix1: Index, ix2: Index, n: int, x: int, c: int, p: int, q: int)
    requires p != x && q != x && ix2 == Added(ix1, n, x)
    ensures Precedes(ListAt(ix2, c), p, q) <==> Precedes(ListAt(ix1, c), p, q)
  {
    AddedPrecedes(ix1, n, x, c, p, q);
  }

  /** Cutting a block puts the rest in front of its list, and keeps the order of all other blocks. */
  lemma CarvedOrder(ix: Index, k: int, x: int, n: int, c: int, p: int, q: int)
    requires p != x && p != x + n && q != x && q != x + n
    ensures MIN_WORDS <= k - n ==> InFrontOf(Carved(ix, k, x, n), k - n, x + n)
    ensures Precedes(ListAt(Carved(ix, k, x, n), c), p, q) <==> Precedes(ListAt(ix, c), p, q)
  {
    var t := Taken(ix, k, x);
    TakenPrecedes(ix, k, x, c, p, q);
    if MIN_WORDS <= k - n {
      CarvedFront(ix, k, x, n);
      ListedPrecedes(t, Carved(ix, k, x, n), k - n, x + n, c, p, q);
    }
  }
}
