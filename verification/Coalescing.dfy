/** The value-level content of coalesce_block: what fusing free neighbours does to layout, tags, index and payloads. */
module Coalescing {
  import opened BoundaryTags
  import opened Layout
  import opened FreeIndex
  import opened Tagging

  // The lists hold the free blocks except x.
  ghost predicate Lists(bs: Blocks, listed: set<int>, x: int) {
    forall p {:trigger FreeAt(bs, p)} {:trigger p in listed} :: p in listed <==> FreeAt(bs, p) && p != x
  }

  // The lists hold the free blocks outside lo..hi.
  ghost predicate ListsOutside(bs: Blocks, listed: set<int>, lo: int, hi: int) {
    forall p {:trigger FreeAt(bs, p)} {:trigger p in listed} :: p in listed <==> FreeAt(bs, p) && !(lo <= p < hi)
  }

  // m1 and m2 have the same words from a up to b.
  ghost predicate SameWords(m1: seq<Word>, m2: seq<Word>, a: int, b: int) {
    forall i {:trigger m2[i]} :: a <= i < b && 0 <= i < |m1| && i < |m2| ==> m1[i] == m2[i]
  }

  /** The payloads of the live blocks, everything behind the header for they have no footer, are the same. */
  ghost predicate KeepsPayloads(m1: seq<Word>, m2: seq<Word>, live: map<int, int>) {
    && |m1| == |m2|
    && forall p {:trigger p in live} :: p in live ==> SameWords(m1, m2, p + 1, p + live[p])
  }

  lemma KeepsSome(m1: seq<Word>, m2: seq<Word>, few: map<int, int>, live: map<int, int>)
    requires KeepsPayloads(m1, m2, live) && forall p :: p in few ==> p in live && live[p] == few[p]
    ensures KeepsPayloads(m1, m2, few)
  {
  }

  lemma KeepsFewer(m1: seq<Word>, m2: seq<Word>, m3: seq<Word>, few: map<int, int>, live: map<int, int>)
    requires KeepsPayloads(m1, m2, few) && KeepsPayloads(m2, m3, live)
    requires forall p :: p in few ==> p in live && live[p] == few[p]
    ensures KeepsPayloads(m1, m3, few)
  {
    forall p {:trigger p in few} | p in few ensures SameWords(m1, m3, p + 1, p + few[p]) {
      assert SameWords(m1, m2, p + 1, p + few[p]) && SameWords(m2, m3, p + 1, p + live[p]);
    }
  }

  /** Layout, tags and free index agree, except around the unlisted free block x. */
  ghost predicate Consistent(m: seq<Word>, bs: Blocks, epilogue: int, listed: set<int>, heads: seq<int>,
                             lists: seq<seq<int>>, mini: int, minis: seq<int>, x: int)
  {
    && Tiling(bs, epilogue) && Aligned(bs, epilogue) && epilogue < |m| < MAX_HEAP_WORDS
    && Tags(m, bs, epilogue, x) && Indexed(m, bs, listed, heads, lists, mini, minis)
    && Lists(bs, listed, x) && ListsFree(bs, listed) && NoAdjacentFree(bs, x)
  }

  // ------------------------------------------------------------------ the free block before x

  // find_prev: by the mini bit of the header, or by the footer in front of it.
  function FindPrev(m: seq<Word>, b: int): int
    requires 1 <= b < |m|
  {
    if m[b].prevMini then b - MIN_WORDS
    else if SizeOf(m[b - 1]) == 0 then NULL
    else b - SizeOf(m[b - 1])
  }

  /** A clear prev_alloc bit means a free block ends at b, and find_prev finds it. */
  lemma FindPrevCorrect(m: seq<Word>, bs: Blocks, epilogue: int, stale: int, b: int)
    requires Tiling(bs, epilogue) && Aligned(bs, epilogue) && Tags(m, bs, epilogue, stale)
    requires b in bs && b <= stale && 1 <= b < |m| && !m[b].prevAlloc
    ensures FreeAt(bs, FindPrev(m, b)) && FindPrev(m, b) + SizeAt(bs, FindPrev(m, b)) == b
  {
    var q := Predecessor(bs, epilogue, b);
    assert Tagged(m, q, SizeAt(bs, q), FreeAt(bs, q), false);
  }

  // A set prev_alloc bit means no free block ends at b.
  lemma PrevAllocated(m: seq<Word>, bs: Blocks, epilogue: int, stale: int, b: int)
    requires Tiling(bs, epilogue) && Tags(m, bs, epilogue, stale)
    requires b in bs && b <= stale && 1 <= b < |m| && m[b].prevAlloc
    ensures forall p {:trigger SizeAt(bs, p)} :: FreeAt(bs, p) ==> p + SizeAt(bs, p) != b
  {
  }

  // ------------------------------------------------------------------ fusing

  // The tag writes of coalesce_block: the header and footer of the fused block, and the header of its successor.
  ghost predicate FusedTags(m1: seq<Word>, m2: seq<Word>, lo: int, hi: int) {
    && |m1| == |m2| && 0 <= lo < hi < |m1|
    && (forall a {:trigger m2[a]} ::
          0 <= a < |m1| && a != lo && a != hi && (hi - lo != MIN_WORDS ==> a != hi - 1) ==> m1[a] == m2[a])
    && m2[lo].units == hi - lo && !m2[lo].alloc
    && m2[lo].prevAlloc == m1[lo].prevAlloc && m2[lo].prevMini == m1[lo].prevMini
    && (hi - lo != MIN_WORDS ==> m2[hi - 1] == m2[lo])
    && m2[hi].units == m1[hi].units && m2[hi].alloc == m1[hi].alloc
    && !m2[hi].prevAlloc && m2[hi].prevMini == (hi - lo == MIN_WORDS)
  }

  // The free index does not notice blocks that are on no list.
  lemma FuseIndex(m1: seq<Word>, m2: seq<Word>, bs: Blocks, epilogue: int, lo: int, hi: int, listed: set<int>,
                  heads: seq<int>, lists: seq<seq<int>>, mini: int, minis: seq<int>)
    requires Tiling(bs, epilogue) && Aligned(bs, epilogue) && epilogue < |m1|
    requires lo in bs && Boundary(bs, epilogue, hi) && FusedTags(m1, m2, lo, hi)
    requires Indexed(m1, bs, listed, heads, lists, mini, minis) && ListsFree(bs, listed)
    requires forall p {:trigger p in listed} :: p in listed ==> p < lo || hi <= p
    ensures Indexed(m2, Fuse(bs, lo, hi), listed, heads, lists, mini, minis) && ListsFree(Fuse(bs, lo, hi), listed)
  {
    assert SizeAt(bs, hi) >= 0 && lo + SizeAt(bs, lo) > 0;
    forall q {:trigger q in listed} | q in listed
      ensures 1 <= q && q + 2 < |m1| && m1[q + 1] == m2[q + 1] && (!IsMini(bs, q) ==> m1[q + 2] == m2[q + 2])
    {
      assert SizeAt(bs, q) >= MIN_WORDS;
    }
    IndexFrame(m1, m2, bs, listed, heads, lists, mini, minis);
    IndexResize(m2, bs, Fuse(bs, lo, hi), listed, heads, lists, mini, minis);
  }

  // Only the sizes of listed blocks matter to the index.
  lemma IndexResize(m: seq<Word>, bs1: Blocks, bs2: Blocks, listed: set<int>, heads: seq<int>, lists: seq<seq<int>>,
                    mini: int, minis: seq<int>)
    requires Indexed(m, bs1, listed, heads, lists, mini, minis)
    requires forall p {:trigger p in listed} :: p in listed ==> SizeAt(bs1, p) == SizeAt(bs2, p)
    ensures Indexed(m, bs2, listed, heads, lists, mini, minis)
  {
    forall c {:trigger lists[c]} | 0 <= c < LENGTH ensures ClassList(m, bs2, listed, c, heads[c], lists[c]) {
    }
  }

  // Links are not payload of allocated blocks.
  lemma LinksKeepPayloads(m1: seq<Word>, m2: seq<Word>, bs: Blocks, epilogue: int, listed: set<int>)
    requires Tiling(bs, epilogue) && ListsFree(bs, listed) && SameExceptLinks(m1, m2, bs, listed)
    ensures KeepsPayloads(m1, m2, Live(bs))
  {
    forall p, a {:trigger SizeAt(bs, p), m2[a]}
      | p in bs && !FreeAt(bs, p) && p < a < p + SizeAt(bs, p) && 0 <= a < |m1|
      ensures m1[a] == m2[a]
    {
      assert !IsLink(bs, listed, a);
    }
    PayloadsFromWords(m1, m2, bs);
  }

  // The tags of a run of free blocks are not payload of allocated blocks.
  lemma TagsKeepPayloads(m1: seq<Word>, m2: seq<Word>, bs: Blocks, epilogue: int, lo: int, hi: int)
    requires Tiling(bs, epilogue) && lo in bs && Boundary(bs, epilogue, hi) && AllFree(bs, lo, hi)
             && FusedTags(m1, m2, lo, hi)
    ensures KeepsPayloads(m1, m2, Live(bs))
  {
    assert SizeAt(bs, hi) >= 0 && lo + SizeAt(bs, lo) > 0;
    PayloadsFromWords(m1, m2, bs);
  }

  lemma PayloadsFromWords(m1: seq<Word>, m2: seq<Word>, bs: Blocks)
    requires |m1| == |m2|
    requires forall p, a {:trigger SizeAt(bs, p), m2[a]} ::
               p in bs && !FreeAt(bs, p) && p < a < p + SizeAt(bs, p) && 0 <= a < |m1| ==> m1[a] == m2[a]
    ensures KeepsPayloads(m1, m2, Live(bs))
  {
    forall p | p in Live(bs) ensures SameWords(m1, m2, p + 1, p + Live(bs)[p]) {
      assert SizeAt(bs, p) == Live(bs)[p];
    }
  }

  /** One step of coalescing as a whole: the run lo..hi of free blocks around x, on no list, becomes one block. */
  lemma FuseAll(m1: seq<Word>, m2: seq<Word>, bs: Blocks, epilogue: int, x: int, lo: int, hi: int, listed: set<int>,
                heads: seq<int>, lists: seq<seq<int>>, mini: int, minis: seq<int>)
    requires Tiling(bs, epilogue) && Aligned(bs, epilogue) && Tags(m1, bs, epilogue, x)
    requires Indexed(m1, bs, listed, heads, lists, mini, minis) && ListsOutside(bs, listed, lo, hi)
    requires Run(bs, epilogue, x, lo, hi) && FusedTags(m1, m2, lo, hi)
    ensures Tiling(Fuse(bs, lo, hi), epilogue) && Aligned(Fuse(bs, lo, hi), epilogue)
    ensures Tags(m2, Fuse(bs, lo, hi), epilogue, 0)
    ensures Indexed(m2, Fuse(bs, lo, hi), listed, heads, lists, mini, minis)
    ensures Lists(Fuse(bs, lo, hi), listed, lo) && NoAdjacentFree(Fuse(bs, lo, hi), 0)
    ensures Live(Fuse(bs, lo, hi)) == Live(bs) && KeepsPayloads(m1, m2, Live(bs))
  {
    FuseTiles(bs, epilogue, lo, hi);
    FuseAligned(bs, epilogue, lo, hi);
    FuseTags(m1, m2, bs, epilogue, x, lo, hi);
    FuseIndex(m1, m2, bs, epilogue, lo, hi, listed, heads, lists, mini, minis);
    FuseLive(bs, lo, hi);
    FuseSeparates(bs, epilogue, x, lo, hi);
    TagsKeepPayloads(m1, m2, bs, epilogue, lo, hi);
  }

  // lo..hi is a maximal run of free blocks, and x is one of them.
  ghost predicate Run(bs: Blocks, epilogue: int, x: int, lo: int, hi: int) {
    && lo in bs && x in bs && lo <= x < hi && lo + MIN_WORDS <= hi <= epilogue && Boundary(bs, epilogue, hi)
    && AllFree(bs, lo, hi) && !FreeAt(bs, hi) && NoAdjacentFree(bs, x)
    && forall p {:trigger SizeAt(bs, p)} :: FreeAt(bs, p) ==> p + SizeAt(bs, p) != lo
  }

  // What the tags at the ends of a run look like before it is joined.
  lemma RunTags(m: seq<Word>, bs: Blocks, epilogue: int, x: int, lo: int, hi: int)
    requires Tiling(bs, epilogue) && Aligned(bs, epilogue) && Tags(m, bs, epilogue, x) && Run(bs, epilogue, x, lo, hi)
    ensures 1 <= lo && hi <= epilogue && (hi - lo) % 2 == 0
    ensures m[hi].alloc && m[hi].units % 2 == 0 && m[hi].units <= epilogue
    ensures FreeAt(Fuse(bs, lo, hi), lo)
  {
    assert lo + SizeAt(bs, lo) >= 1 && hi + SizeAt(bs, hi) <= epilogue;
  }

  // The headers of the blocks of a run tell their sizes.
  lemma RunSizes(m: seq<Word>, bs: Blocks, epilogue: int, x: int, lo: int, next: int, hi: int)
    requires Tiling(bs, epilogue) && Aligned(bs, epilogue) && Tags(m, bs, epilogue, x)
    requires Around(bs, epilogue, x, lo, next, hi)
    ensures 1 <= lo && next <= hi < |m| && (next < hi ==> next + MIN_WORDS <= hi)
    ensures lo != x ==> SizeOf(m[lo]) == x - lo
    ensures SizeOf(m[next]) == SizeAt(bs, next) && (next != hi ==> SizeOf(m[next]) == hi - next)
  {
    RunTags(m, bs, epilogue, x, lo, hi);
    assert SizeAt(bs, lo) % 2 == 0;
    assert next in bs ==> SizeAt(bs, next) % 2 == 0;
  }

  // The neighbours of a block at x, as its header, the footer in front of it and the next header tell them.
  lemma Neighbours(m: seq<Word>, bs: Blocks, epilogue: int, x: int)
    requires Tiling(bs, epilogue) && Aligned(bs, epilogue) && Tags(m, bs, epilogue, x) && x in bs
    requires NoAdjacentFree(bs, x)
    ensures 1 <= x && x + SizeAt(bs, x) < |m| && SizeOf(m[x]) == SizeAt(bs, x)
    ensures var next := x + SizeAt(bs, x);
            Boundary(bs, epilogue, next) && SizeOf(m[next]) == m[next].units <= epilogue
            && m[next].alloc == !FreeAt(bs, next)
            && (FreeAt(bs, next) ==> SizeOf(m[next]) == SizeAt(bs, next) && !FreeAt(bs, next + SizeAt(bs, next)))
    ensures !m[x].prevAlloc ==>
              var prev := FindPrev(m, x);
              FreeAt(bs, prev) && prev + SizeAt(bs, prev) == x && SizeOf(m[prev]) == SizeAt(bs, prev)
  {
    assert SizeAt(bs, x) % 2 == 0;
    var next := x + SizeAt(bs, x);
    assert SizeAt(bs, next) % 2 == 0 || next !in bs;
    if !m[x].prevAlloc {
      FindPrevCorrect(m, bs, epilogue, x, x);
      assert SizeAt(bs, FindPrev(m, x)) % 2 == 0;
    }
  }

  // The run of free blocks around x goes from lo to hi, and next follows x: the four cases of coalesce_block.
  ghost predicate Around(bs: Blocks, epilogue: int, x: int, lo: int, next: int, hi: int) {
    && FreeAt(bs, x) && next == x + SizeAt(bs, x) && MIN_WORDS <= SizeAt(bs, x)
    && (lo == x || (FreeAt(bs, lo) && lo + MIN_WORDS <= x && lo + SizeAt(bs, lo) == x))
    && (hi == next || (FreeAt(bs, next) && next + MIN_WORDS <= hi && hi == next + SizeAt(bs, next)))
    && Run(bs, epilogue, x, lo, hi)
  }

  lemma RunAround(m: seq<Word>, bs: Blocks, epilogue: int, x: int) returns (lo: int, next: int, hi: int)
    requires Tiling(bs, epilogue) && Aligned(bs, epilogue) && Tags(m, bs, epilogue, x) && FreeAt(bs, x)
    requires NoAdjacentFree(bs, x)
    ensures 1 <= x < next < |m| && next == x + SizeOf(m[x])
    ensures lo == if m[x].prevAlloc then x else FindPrev(m, x)
    ensures hi == if m[next].alloc then next else next + SizeOf(m[next])
    ensures m[x].prevAlloc <==> lo == x
    ensures m[next].alloc <==> hi == next
    ensures Around(bs, epilogue, x, lo, next, hi)
  {
    Neighbours(m, bs, epilogue, x);
    next := x + SizeAt(bs, x);
    lo := if m[x].prevAlloc then x else FindPrev(m, x);
    hi := if m[next].alloc then next else next + SizeAt(bs, next);
    assert SizeAt(bs, lo) >= MIN_WORDS && SizeAt(bs, next) >= 0 && SizeAt(bs, x) >= MIN_WORDS;
    forall p {:trigger FreeAt(bs, p)} {:trigger SizeAt(bs, p)} | p in bs && lo <= p < hi ensures FreeAt(bs, p) {
      assert SizeAt(bs, p) > 0;
    }
    if m[x].prevAlloc {
      PrevAllocated(m, bs, epilogue, x, x);
    }
  }

  // With lo and next taken off the lists, no block of the run around x is on a list.
  lemma RunUnlisted(bs: Blocks, epilogue: int, before: set<int>, listed: set<int>, x: int, lo: int, next: int, hi: int)
    requires Tiling(bs, epilogue) && Around(bs, epilogue, x, lo, next, hi)
    requires Lists(bs, before, x) && listed == before - {lo} - {next}
    ensures ListsOutside(bs, listed, lo, hi)
  {
    forall p {:trigger FreeAt(bs, p)} | FreeAt(bs, p) && lo <= p < hi ensures p == lo || p == x || p == next {
      assert SizeAt(bs, p) > 0;
    }
    assert SizeAt(bs, next) >= 0 && SizeAt(bs, lo) >= 0;
  }

  /** Coalescing x turned bs1 into bs2: r is a free block made of x and of free blocks around it, and the other blocks
      are as before. */
  ghost predicate Joined(bs1: Blocks, bs2: Blocks, x: int, r: int) {
    && FreeAt(bs2, r) && 0 < SizeAt(bs2, r) && r <= x && x + SizeAt(bs1, x) <= r + SizeAt(bs2, r)
    && bs2 == Fuse(bs1, r, r + SizeAt(bs2, r)) && AllFree(bs1, r, r + SizeAt(bs2, r))
    && Live(bs2) == Live(bs1)
  }

  // The lists after the free block x, which was on none, has become one with the free blocks from lo on and from next
  // up to hi.
  ghost function Rejoined(ix: Index, x: int, lo: int, next: int, hi: int): Index {
    var ix1 := if lo == x then ix else Taken(ix, x - lo, lo);
    var ix2 := if next == hi then ix1 else Taken(ix1, hi - next, next);
    Added(ix2, hi - lo, lo)
  }

  /** Coalescing x, on layout and lists: the block at r is the union of x and its free neighbours, these are off their
      lists, and r heads its own. */
  ghost predicate Merged(bs1: Blocks, ix1: Index, x: int, r: int, bs2: Blocks, ix2: Index) {
    Joined(bs1, bs2, x, r) && ix2 == Rejoined(ix1, x, r, x + SizeAt(bs1, x), r + SizeAt(bs2, r))
  }

  // The steps of coalesce_block on the lists: the neighbours come off, and the union is put in front.
  lemma MergedBy(bs1: Blocks, ix1: Index, epilogue: int, x: int, lo: int, next: int, hi: int, bs2: Blocks, ix2: Index)
    requires Around(bs1, epilogue, x, lo, next, hi) && Joined(bs1, bs2, x, lo) && SizeAt(bs2, lo) == hi - lo
    requires var a := if lo == x then ix1 else Taken(ix1, SizeAt(bs1, lo), lo);
             var b := if next == hi then a else Taken(a, SizeAt(bs1, next), next);
             ix2 == Added(b, hi - lo, lo)
    ensures Merged(bs1, ix1, x, lo, bs2, ix2)
  {
  }

  lemma FuseJoins(bs: Blocks, epilogue: int, x: int, lo: int, hi: int)
    requires Tiling(bs, epilogue) && Run(bs, epilogue, x, lo, hi)
    ensures Joined(bs, Fuse(bs, lo, hi), x, lo) && SizeAt(Fuse(bs, lo, hi), lo) == hi - lo
  {
    FuseLive(bs, lo, hi);
    assert SizeAt(Fuse(bs, lo, hi), lo) == hi - lo;
    assert SizeAt(bs, x) > 0 && SizeAt(bs, hi) >= 0;
  }
}
