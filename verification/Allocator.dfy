/** The allocator of mm.c: boundary tags, immediate coalescing and segregated free lists, updated in place. */
module Allocator {
  import opened BoundaryTags
  import opened Layout
  import opened FreeIndex
  import opened Tagging
  import opened Coalescing
  import opened Placement
  import opened FitSearch

  /** What decides all answers: whether the heap is in use, its blocks, its break, and the lists in order. */
  datatype State = State(inUse: bool, blocks: Blocks, brk: int, index: Index)

  class Heap {
    // The address range set aside for the heap; its length is the limit of mem_sbrk.
    const mem: array<Word>
    const segList: array<int>
    // Whether the system makes the heap accessible up to a given break; always in a sparse heap.
    const accessible: int -> bool
    // Words in use: the break.
    var brk: int
    var heapStart: int
    var miniList: int

    // What the words in use mean: the blocks, the free blocks that are on a list, and the lists.
    ghost var blocks: Blocks
    ghost var listed: set<int>
    ghost var lists: seq<seq<int>>
    ghost var minis: seq<int>

    // The state of the globals before the first call.
    constructor (words: nat, accessible: int -> bool)
      requires words < MAX_HEAP_WORDS
      ensures Valid() && !Ready() && Live(blocks) == map[] && mem.Length == words && fresh(mem) && fresh(segList)
      ensures this.accessible == accessible && Now() == State(false, map[], 0, Index([], []))
    {
      this.accessible := accessible;
      mem := new Word[words];
      segList := new int[LENGTH](_ => NULL);
      brk, heapStart, miniList := 0, NULL, NULL;
      blocks, listed, lists, minis := map[], {}, [], [];
    }

    // ---------------------------------------------------------------- invariant

    ghost predicate CutOk()
      reads this
    {
      && 2 <= brk <= mem.Length < MAX_HEAP_WORDS
      && segList.Length == LENGTH
      && Tiling(blocks, brk - 1) && Aligned(blocks, brk - 1)
      && ListsFree(blocks, listed)
    }

    ghost predicate ListsOk()
      reads this, mem, segList
    {
      Indexed(mem[..], blocks, listed, segList[..], lists, miniList, minis)
    }

    ghost predicate TagsOk(stale: int)
      requires CutOk()
      reads this, mem
    {
      Tags(mem[..], blocks, brk - 1, stale)
    }

    // ---------------------------------------------------------------- tags

    method WritePack(p: int, n: int, alloc: bool, prevAlloc: bool, prevMini: bool)
      requires 0 <= p < mem.Length && 0 <= n < MAX_HEAP_WORDS && n % 2 == 0
      requires !alloc ==> MIN_WORDS <= n && p + n <= mem.Length
      modifies mem
      ensures Packed(old(mem[..]), mem[..], p, n, alloc, prevAlloc, prevMini)
    {
      mem[p] := PackAll(n, alloc, prevAlloc, prevMini);
      if !alloc && n != MIN_WORDS {
        mem[p + n - 1] := PackAll(n, alloc, prevAlloc, prevMini);
      }
    }

    // ---------------------------------------------------------------- free lists

    // The lists in order.
    ghost function Order(): Index
      reads this
    {
      Index(lists, minis)
    }

    /** Puts p at the head of its list. */
    method InsertFree(p: int, ghost stale: int)
      requires CutOk() && ListsOk() && TagsOk(stale) && FreeAt(blocks, p) && p !in listed
      modifies this`miniList, this`listed, this`lists, this`minis, mem, segList
      ensures CutOk() && ListsOk() && TagsOk(stale) && listed == old(listed) + {p}
      ensures old(Lists(blocks, listed, p)) ==> Lists(blocks, listed, 0)
      ensures Order() == Added(old(Order()), SizeAt(blocks, p), p)
      ensures KeepsPayloads(old(mem[..]), mem[..], Live(blocks))
    {
      ghost var m := mem[..];
      assert 1 <= p && p + SizeAt(blocks, p) < brk && SizeAt(blocks, p) % 2 == 0;
      if SizeOf(mem[p]) == MIN_WORDS {
        InsertMini(p);
      } else {
        var c := FindClass(8 * SizeOf(mem[p]));
        InsertClass(p, c);
      }
      assert SizeAt(blocks, 0) == 0;
      TagsFrame(m, mem[..], blocks, brk - 1, stale, listed);
      LinksKeepPayloads(m, mem[..], blocks, brk - 1, listed);
    }

    method InsertMini(p: int)
      requires CutOk() && ListsOk() && FreeAt(blocks, p) && p !in listed && IsMini(blocks, p)
      modifies this`miniList, this`listed, this`minis, mem
      ensures CutOk() && ListsOk() && listed == old(listed) + {p} && minis == [p] + old(minis)
      ensures Order() == Added(old(Order()), SizeAt(blocks, p), p)
      ensures SameExceptLinks(old(mem[..]), mem[..], blocks, listed)
    {
      ghost var m1, mini1, heads := mem[..], miniList, segList[..];
      assert 1 <= p && p + SizeAt(blocks, p) < brk;
      MiniHead(m1, blocks, listed, mini1, minis);
      if miniList != NULL {
        mem[p + MINI_NEXT] := Pointer(miniList);
        miniList := p;
      } else {
        miniList := p;
        mem[miniList + MINI_NEXT] := Pointer(NULL);
      }
      assert segList[..] == heads;
      FreeIndex.InsertMini(m1, mem[..], blocks, brk - 1, listed, heads, lists, mini1, minis, p);
      minis := Push(p, minis);
      listed := listed + {p};
    }

    method InsertClass(p: int, c: int)
      requires CutOk() && ListsOk() && FreeAt(blocks, p) && p !in listed && 0 <= c < LENGTH && InClass(blocks, p, c)
      modifies this`listed, this`lists, mem, segList
      ensures CutOk() && ListsOk() && listed == old(listed) + {p}
      ensures |old(lists)| == LENGTH && lists == old(lists)[c := [p] + old(lists)[c]]
      ensures Order() == Added(old(Order()), SizeAt(blocks, p), p)
      ensures SameExceptLinks(old(mem[..]), mem[..], blocks, listed)
    {
      ghost var m1, heads := mem[..], segList[..];
      assert 1 <= p && p + SizeAt(blocks, p) < brk && SizeAt(blocks, p) >= 4;
      ClassHead(m1, blocks, brk - 1, listed, c, heads[c], lists[c]);
      var curr := segList[c];
      segList[c] := p;
      LinkFront(curr, p);
      assert segList[..] == heads[c := p];
      FreeIndex.InsertClass(m1, blocks, brk - 1, listed, heads, lists, miniList, minis, c, p);
      lists := lists[c := Push(p, lists[c])];
      listed := listed + {p};
    }

    // The links between a new head p and the old head curr.
    method LinkFront(curr: int, p: int)
      requires 0 <= p && p + 2 < mem.Length < MAX_HEAP_WORDS && 0 <= curr && curr + 2 < mem.Length
      modifies mem
      ensures mem[..] == PushWords(old(mem[..]), curr, p)
    {
      if curr != NULL {
        mem[curr + PREV] := Pointer(p);
        mem[p + NEXT] := Pointer(curr);
      } else {
        mem[p + NEXT] := Pointer(NULL);
        mem[p + PREV] := Pointer(NULL);
      }
    }

    // The links between the two neighbours of a removed block; next is NULL behind the tail.
    method LinkAround(prev: int, next: int)
      requires 0 <= prev && prev + 2 < mem.Length < MAX_HEAP_WORDS && 0 <= next && next + 2 < mem.Length
      modifies mem
      ensures mem[..] == SpliceWords(old(mem[..]), prev, next)
    {
      if next == NULL {
        mem[prev + NEXT] := Pointer(NULL);
      } else {
        mem[prev + NEXT] := Pointer(next);
        mem[next + PREV] := Pointer(prev);
      }
    }

    /** Takes p off its list. */
    method RemoveFree(p: int, ghost stale: int)
      requires CutOk() && ListsOk() && TagsOk(stale) && p in listed
      modifies this`miniList, this`listed, this`lists, this`minis, mem, segList
      ensures CutOk() && ListsOk() && TagsOk(stale) && listed == old(listed) - {p}
      ensures Order() == Taken(old(Order()), SizeAt(blocks, p), p)
      ensures KeepsPayloads(old(mem[..]), mem[..], Live(blocks))
    {
      ghost var m := mem[..];
      assert 1 <= p && p + SizeAt(blocks, p) < brk && SizeAt(blocks, p) % 2 == 0;
      if SizeOf(mem[p]) == MIN_WORDS {
        RemoveMini(p);
      } else {
        RemoveClass(p);
      }
      TagsFrame(m, mem[..], blocks, brk - 1, stale, listed);
      LinksKeepPayloads(m, mem[..], blocks, brk - 1, listed);
    }

    method RemoveMini(p: int)
      requires CutOk() && ListsOk() && p in listed && IsMini(blocks, p)
      modifies this`miniList, this`listed, this`minis, mem
      ensures CutOk() && ListsOk() && listed == old(listed) - {p}
      ensures Order() == Taken(old(Order()), SizeAt(blocks, p), p)
      ensures SameExceptLinks(old(mem[..]), mem[..], blocks, listed)
    {
      ghost var m1, mini1, heads := mem[..], miniList, segList[..];
      ghost var i := Position(minis, p);
      UnlinkMini(p, i);
      assert segList[..] == heads;
      FreeIndex.RemoveMini(m1, mem[..], blocks, brk - 1, listed, heads, lists, mini1, minis, i);
      MinusWithout(minis, i);
      minis := Without(minis, i);
      listed := listed - {p};
    }

    // The writes of remove_free for the mini block minis[i].
    method UnlinkMini(p: int, ghost i: int)
      requires CutOk() && ListsOk() && 0 <= i < |minis| && minis[i] == p
      modifies this`miniList, mem
      ensures miniList == if i == 0 then At(minis, 1) else old(miniList)
      ensures i == 0 ==> mem[..] == old(mem[..])
      ensures i > 0 ==> 0 <= minis[i - 1] && minis[i - 1] + 2 < mem.Length && p + 2 < mem.Length
                        && mem[..] == old(mem[..])[minis[i - 1] + MINI_NEXT := old(mem[p + MINI_NEXT])]
    {
      NextLink(mem[..], minis, 0, MINI_NEXT);
      if AddressOf(mem[miniList + MINI_NEXT]) == NULL {
        miniList := NULL;
      } else if p == miniList {
        miniList := AddressOf(mem[miniList + MINI_NEXT]);
      } else {
        var curr := FindBefore(p, i);
        mem[curr + MINI_NEXT] := mem[p + MINI_NEXT];
      }
    }

    // The class whose list has p at its head, or -1.
    function IsHead(p: int): int
      requires 0 <= p < mem.Length && segList.Length == LENGTH
      reads mem, segList
    {
      var c := FindClass(8 * SizeOf(mem[p]));
      if p == segList[c] then c else -1
    }

    method RemoveClass(p: int)
      requires CutOk() && ListsOk() && p in listed && !IsMini(blocks, p)
      requires 0 <= p < mem.Length && SizeOf(mem[p]) == SizeAt(blocks, p)
      modifies this`listed, this`lists, mem, segList
      ensures CutOk() && ListsOk() && listed == old(listed) - {p}
      ensures Order() == Taken(old(Order()), SizeAt(blocks, p), p)
      ensures SameExceptLinks(old(mem[..]), mem[..], blocks, listed)
    {
      ghost var m1, heads, c := mem[..], segList[..], FindClass(8 * SizeAt(blocks, p));
      ghost var i := ClassPosition(m1, blocks, brk - 1, listed, heads, lists, miniList, minis, p, c);
      UnlinkClass(p, c, i);
      if i == 0 {
        RemoveHead(m1, blocks, brk - 1, listed, heads, lists, miniList, minis, c);
      } else {
        RemoveInner(m1, mem[..], blocks, brk - 1, listed, heads, lists, miniList, minis, c, i);
      }
      lists := lists[c := Without(lists[c], i)];
      listed := listed - {p};
    }

    // The writes of remove_free for the block lists[c][i].
    method UnlinkClass(p: int, ghost c: int, ghost i: int)
      requires segList.Length == LENGTH == |lists| && 1 <= p && p + 2 < mem.Length < MAX_HEAP_WORDS
      requires c == FindClass(8 * SizeOf(mem[p])) && 0 <= i < |lists[c]| && (p == segList[c] <==> i == 0)
      requires AddressOf(mem[p + NEXT]) == At(lists[c], i + 1) && 0 <= At(lists[c], i + 1)
               && At(lists[c], i + 1) + 2 < mem.Length
      requires i > 0 ==> AddressOf(mem[p + PREV]) == lists[c][i - 1] && 0 <= lists[c][i - 1]
                         && lists[c][i - 1] + 2 < mem.Length
      modifies mem, segList
      ensures i == 0 ==> mem[..] == old(mem[..]) && segList[..] == old(segList[..])[c := At(lists[c], 1)]
      ensures i > 0 ==> mem[..] == SpliceWords(old(mem[..]), lists[c][i - 1], At(lists[c], i + 1))
                        && segList[..] == old(segList[..])
    {
      ghost var heads := segList[..];
      var prev := AddressOf(mem[p + PREV]);
      var next := AddressOf(mem[p + NEXT]);
      var head := IsHead(p);
      if head != -1 {
        segList[head] := AddressOf(mem[p + NEXT]);
      } else {
        LinkAround(prev, next);
        assert segList[..] == heads;
      }
    }

    // The search loop of remove_free: the mini block whose next link is minis[i].
    method FindBefore(p: int, ghost i: int) returns (curr: int)
      requires CutOk() && ListsOk() && 0 < i < |minis| && minis[i] == p
      ensures curr == minis[i - 1]
    {
      curr := miniList;
      ghost var k := 0;
      NextLink(mem[..], minis, k, MINI_NEXT);
      while AddressOf(mem[curr + MINI_NEXT]) != p
        invariant 0 <= k < i && curr == minis[k] && 1 <= curr && curr + 2 < mem.Length
        invariant AddressOf(mem[curr + MINI_NEXT]) == minis[k + 1]
        decreases i - k
      {
        k := k + 1;
        NextLink(mem[..], minis, k, MINI_NEXT);
        curr := AddressOf(mem[curr + MINI_NEXT]);
      }
      assert minis[k + 1] == minis[i];
    }

    // ---------------------------------------------------------------- coalescing

    /** Everything agrees, except that the free block x is on no list, may have a free neighbour, and its successor has
        not been told about it.  With x = 0 there is no exception. */
    ghost predicate Settling(x: int)
      reads this, mem, segList
    {
      && 2 <= brk <= mem.Length && segList.Length == LENGTH
      && Consistent(mem[..], blocks, brk - 1, listed, segList[..], lists, miniList, minis, x)
    }

    // The two writes of cases two to four.  When next is joined too, its size leads to the block behind it.
    method WriteFusedTags(lo: int, total: int, next: int, nextSize: int, joined: bool, ghost hi: int)
      requires 1 <= lo && lo + MIN_WORDS < hi < mem.Length < MAX_HEAP_WORDS && total == hi - lo && total % 2 == 0
      requires if joined then lo < next && next + MIN_WORDS <= hi && hi == next + SizeOf(mem[next])
               else next == hi && nextSize == SizeOf(mem[hi])
      requires mem[hi].units % 2 == 0 && mem[hi].units < MAX_HEAP_WORDS && mem[hi].alloc
      modifies mem
      ensures FusedTags(old(mem[..]), mem[..], lo, hi)
    {
      WritePack(lo, total, false, mem[lo].prevAlloc, mem[lo].prevMini);
      if joined {
        var nextNext := next + SizeOf(mem[next]);
        WritePack(nextNext, SizeOf(mem[nextNext]), mem[nextNext].alloc, false, false);
      } else {
        WritePack(next, nextSize, true, false, false);
      }
    }

    // The run lo..hi, whose tags have just been written over memory m1, counts as one block from now on.
    ghost method Relabel(m1: seq<Word>, x: int, lo: int, hi: int)
      requires CutOk() && ListsOutside(blocks, listed, lo, hi) && Run(blocks, brk - 1, x, lo, hi)
      requires Tags(m1, blocks, brk - 1, x) && Indexed(m1, blocks, listed, segList[..], lists, miniList, minis)
      requires FusedTags(m1, mem[..], lo, hi)
      modifies this`blocks
      ensures CutOk() && ListsOk() && TagsOk(0) && Lists(blocks, listed, lo) && NoAdjacentFree(blocks, 0)
      ensures FreeAt(blocks, lo) && Joined(old(blocks), blocks, x, lo) && SizeAt(blocks, lo) == hi - lo
      ensures KeepsPayloads(m1, mem[..], Live(old(blocks)))
    {
      FuseJoins(blocks, brk - 1, x, lo, hi);
      FuseAll(m1, mem[..], blocks, brk - 1, x, lo, hi, listed, segList[..], lists, miniList, minis);
      blocks := Fuse(blocks, lo, hi);
    }

    /** Joins the run of free blocks lo..hi around x, which are on no list, into one listed block. */
    method FuseRun(x: int, lo: int, total: int, next: int, nextSize: int, joined: bool, ghost hi: int)
      requires CutOk() && ListsOk() && TagsOk(x) && ListsOutside(blocks, listed, lo, hi)
      requires Around(blocks, brk - 1, x, lo, next, hi) && MIN_WORDS < total == hi - lo
      requires joined == (next != hi) && nextSize == SizeAt(blocks, next)
      modifies this`miniList, this`blocks, this`listed, this`lists, this`minis, mem, segList
      ensures Settling(0) && Joined(old(blocks), blocks, x, lo) && SizeAt(blocks, lo) == hi - lo
      ensures Order() == Added(old(Order()), hi - lo, lo)
      ensures KeepsPayloads(old(mem[..]), mem[..], Live(old(blocks)))
    {
      ghost var m := mem[..];
      WriteRun(x, lo, total, next, nextSize, joined, hi);
      ListRun(m, x, lo, hi);
    }

    // The run lo..hi, whose tags have just been written over memory m1, becomes one listed block.
    method ListRun(ghost m1: seq<Word>, x: int, lo: int, ghost hi: int)
      requires CutOk() && ListsOutside(blocks, listed, lo, hi) && Run(blocks, brk - 1, x, lo, hi)
      requires Tags(m1, blocks, brk - 1, x) && Indexed(m1, blocks, listed, segList[..], lists, miniList, minis)
      requires FusedTags(m1, mem[..], lo, hi)
      modifies this`miniList, this`blocks, this`listed, this`lists, this`minis, mem, segList
      ensures Settling(0) && Joined(old(blocks), blocks, x, lo) && SizeAt(blocks, lo) == hi - lo
      ensures Order() == Added(old(Order()), hi - lo, lo) && KeepsPayloads(m1, mem[..], Live(old(blocks)))
    {
      ghost var m2, bs := mem[..], blocks;
      Relabel(m1, x, lo, hi);
      ghost var live := Live(blocks);
      InsertFree(lo, 0);
      KeepsFewer(m1, m2, mem[..], Live(bs), live);
    }

    method WriteRun(x: int, lo: int, total: int, next: int, nextSize: int, joined: bool, ghost hi: int)
      requires CutOk() && TagsOk(x) && Around(blocks, brk - 1, x, lo, next, hi) && MIN_WORDS < total == hi - lo
      requires joined == (next != hi) && nextSize == SizeAt(blocks, next)
      modifies mem
      ensures FusedTags(old(mem[..]), mem[..], lo, hi) && segList[..] == old(segList[..])
    {
      RunTags(mem[..], blocks, brk - 1, x, lo, hi);
      RunSizes(mem[..], blocks, brk - 1, x, lo, next, hi);
      ghost var heads := segList[..];
      WriteFusedTags(lo, total, next, nextSize, joined, hi);
      assert segList[..] == heads;
    }

    // find_prev.
    method FindPrevBlock(b: int) returns (prev: int)
      requires 1 <= b < mem.Length
      ensures prev == FindPrev(mem[..], b)
    {
      if !mem[b].prevMini {
        var size := SizeOf(mem[b - 1]);
        if size == 0 {
          return NULL;
        }
        return b - size;
      } else {
        return b - MIN_WORDS;
      }
    }

    // Case one: both neighbours are allocated.
    method JoinNone(x: int, next: int, nextSize: int)
      requires Settling(x) && Around(blocks, brk - 1, x, x, next, next) && nextSize == SizeAt(blocks, next)
      modifies this`miniList, this`blocks, this`listed, this`lists, this`minis, mem, segList
      ensures Settling(0) && Merged(old(blocks), old(Order()), x, x, blocks, Order())
      ensures KeepsPayloads(old(mem[..]), mem[..], Live(old(blocks)))
    {
      ghost var m, all, bs, ix := mem[..], listed, blocks, Order();
      RunUnlisted(blocks, brk - 1, all, listed, x, x, next, next);
      WriteAlone(x, next, nextSize);
      ListRun(m, x, x, next);
      MergedBy(bs, ix, brk - 1, x, x, next, next, blocks, Order());
    }

    // The write of case one.
    method WriteAlone(x: int, next: int, nextSize: int)
      requires CutOk() && TagsOk(x) && Around(blocks, brk - 1, x, x, next, next) && nextSize == SizeAt(blocks, next)
      modifies mem
      ensures FusedTags(old(mem[..]), mem[..], x, next) && segList[..] == old(segList[..])
    {
      ghost var heads := segList[..];
      Neighbours(mem[..], blocks, brk - 1, x);
      WritePack(next, nextSize, true, false, SizeOf(mem[x]) == MIN_WORDS);
      assert segList[..] == heads;
    }

    // Case two: the block before x is free.
    method JoinPrev(x: int, size: int, prev: int, next: int, nextSize: int)
      requires Settling(x) && prev != x && Around(blocks, brk - 1, x, prev, next, next)
      requires size == SizeAt(blocks, x) && nextSize == SizeAt(blocks, next)
      modifies this`miniList, this`blocks, this`listed, this`lists, this`minis, mem, segList
      ensures Settling(0) && Merged(old(blocks), old(Order()), x, prev, blocks, Order())
      ensures KeepsPayloads(old(mem[..]), mem[..], Live(old(blocks)))
    {
      ghost var bs, ix := blocks, Order();
      var prevSize := TakePrev(x, prev, next);
      FuseRun(x, prev, size + prevSize, next, nextSize, false, next);
      MergedBy(bs, ix, brk - 1, x, prev, next, next, blocks, Order());
    }

    // The block before x comes off its list; its size is read after that.
    method TakePrev(x: int, prev: int, next: int) returns (prevSize: int)
      requires Settling(x) && prev != x && Around(blocks, brk - 1, x, prev, next, next)
      modifies this`miniList, this`listed, this`lists, this`minis, mem, segList
      ensures CutOk() && ListsOk() && TagsOk(x) && ListsOutside(blocks, listed, prev, next)
      ensures Order() == Taken(old(Order()), SizeAt(blocks, prev), prev) && prevSize == SizeAt(blocks, prev)
      ensures KeepsPayloads(old(mem[..]), mem[..], Live(blocks))
    {
      ghost var all := listed;
      RemoveFree(prev, x);
      RunSizes(mem[..], blocks, brk - 1, x, prev, next, next);
      RunUnlisted(blocks, brk - 1, all, listed, x, prev, next, next);
      prevSize := SizeOf(mem[prev]);
    }

    // Case three: the block after x is free.
    method JoinNext(x: int, size: int, next: int, nextSize: int)
      requires nextSize != 0 && Settling(x) && Around(blocks, brk - 1, x, x, next, next + nextSize)
      requires size == SizeAt(blocks, x) && nextSize == SizeAt(blocks, next)
      modifies this`miniList, this`blocks, this`listed, this`lists, this`minis, mem, segList
      ensures Settling(0) && Merged(old(blocks), old(Order()), x, x, blocks, Order())
      ensures KeepsPayloads(old(mem[..]), mem[..], Live(old(blocks)))
    {
      ghost var bs, ix := blocks, Order();
      ghost var hi := next + nextSize;
      TakeNext(x, next, hi);
      FuseRun(x, x, size + nextSize, next, nextSize, true, hi);
      MergedBy(bs, ix, brk - 1, x, x, next, hi, blocks, Order());
    }

    // The block after x comes off its list.
    method TakeNext(x: int, next: int, ghost hi: int)
      requires Settling(x) && next != hi && Around(blocks, brk - 1, x, x, next, hi)
      modifies this`miniList, this`listed, this`lists, this`minis, mem, segList
      ensures CutOk() && ListsOk() && TagsOk(x) && ListsOutside(blocks, listed, x, hi)
      ensures Order() == Taken(old(Order()), SizeAt(blocks, next), next)
      ensures KeepsPayloads(old(mem[..]), mem[..], Live(blocks))
    {
      ghost var all := listed;
      RemoveFree(next, x);
      RunUnlisted(blocks, brk - 1, all, listed, x, x, next, hi);
    }

    // Case four: both neighbours are free.
    method JoinBoth(x: int, size: int, prev: int, next: int, nextSize: int)
      requires nextSize != 0 && Settling(x) && prev != x && Around(blocks, brk - 1, x, prev, next, next + nextSize)
      requires size == SizeAt(blocks, x) && nextSize == SizeAt(blocks, next)
      modifies this`miniList, this`blocks, this`listed, this`lists, this`minis, mem, segList
      ensures Settling(0) && Merged(old(blocks), old(Order()), x, prev, blocks, Order())
      ensures KeepsPayloads(old(mem[..]), mem[..], Live(old(blocks)))
    {
      ghost var bs, ix, hi := blocks, Order(), next + nextSize;
      var both := TakeBoth(x, prev, next, hi);
      FuseRun(x, prev, size + both, next, nextSize, true, hi);
      MergedBy(bs, ix, brk - 1, x, prev, next, hi, blocks, Order());
    }

    // The neighbours of x come off their lists; their sizes are read after that.
    method TakeBoth(x: int, prev: int, next: int, ghost hi: int) returns (both: int)
      requires Settling(x) && prev != x && next != hi && Around(blocks, brk - 1, x, prev, next, hi)
      modifies this`miniList, this`listed, this`lists, this`minis, mem, segList
      ensures CutOk() && ListsOk() && TagsOk(x) && ListsOutside(blocks, listed, prev, hi)
      ensures Order() == Taken(Taken(old(Order()), SizeAt(blocks, prev), prev), SizeAt(blocks, next), next)
      ensures both == SizeAt(blocks, prev) + SizeAt(blocks, next)
      ensures KeepsPayloads(old(mem[..]), mem[..], Live(blocks))
    {
      RemoveBoth(x, prev, next, hi);
      RunSizes(mem[..], blocks, brk - 1, x, prev, next, hi);
      both := SizeOf(mem[prev]) + SizeOf(mem[next]);
    }

    method RemoveBoth(x: int, prev: int, next: int, ghost hi: int)
      requires Settling(x) && prev != x && next != hi && Around(blocks, brk - 1, x, prev, next, hi)
      modifies this`miniList, this`listed, this`lists, this`minis, mem, segList
      ensures CutOk() && ListsOk() && TagsOk(x) && ListsOutside(blocks, listed, prev, hi)
      ensures Order() == Taken(Taken(old(Order()), SizeAt(blocks, prev), prev), SizeAt(blocks, next), next)
      ensures KeepsPayloads(old(mem[..]), mem[..], Live(blocks))
    {
      ghost var all := listed;
      RemoveFree(prev, x);
      RemoveFree(next, x);
      RunUnlisted(blocks, brk - 1, all, listed, x, prev, next, hi);
    }

    /** Joins the free block x with its free neighbours and lists the result. */
    method CoalesceBlock(x: int) returns (r: int)
      requires Settling(x) && FreeAt(blocks, x)
      modifies this`miniList, this`blocks, this`listed, this`lists, this`minis, mem, segList
      ensures Settling(0) && Merged(old(blocks), old(Order()), x, r, blocks, Order())
      ensures KeepsPayloads(old(mem[..]), mem[..], Live(old(blocks)))
    {
      ghost var lo, after, hi := RunAround(mem[..], blocks, brk - 1, x);
      RunSizes(mem[..], blocks, brk - 1, x, lo, after, hi);
      var size := SizeOf(mem[x]);
      var prev := NULL;
      var prevAlloc := mem[x].prevAlloc;
      if !prevAlloc {
        prev := FindPrevBlock(x);
      }
      var next := x + SizeOf(mem[x]);
      var nextAlloc, nextSize := mem[next].alloc, SizeOf(mem[next]);
      if prevAlloc && nextAlloc {
        JoinNone(x, next, nextSize);
        r := x;
      } else if !prevAlloc && nextAlloc {
        JoinPrev(x, size, prev, next, nextSize);
        r := prev;
      } else if prevAlloc && !nextAlloc {
        JoinNext(x, size, next, nextSize);
        r := x;
      } else {
        JoinBoth(x, size, prev, next, nextSize);
        r := prev;
      }
    }

    // ---------------------------------------------------------------- growing and cutting

    // The heap can grow by n words when its break is at `from`.
    predicate Grants(from: int, n: int) {
      0 <= n && from + n <= mem.Length && accessible(from + n)
    }

    /** mem_sbrk: moves the break by n words; -1 and no change exactly when n is negative, the limit of the heap would
        be passed, or the system does not make the words accessible. */
    method Sbrk(n: int) returns (bp: int)
      requires 0 <= brk <= mem.Length
      modifies this`brk
      ensures bp == if old(Grants(brk, n)) then old(brk) else -1
      ensures brk == if old(Grants(brk, n)) then old(brk) + n else old(brk)
    {
      if n < 0 {
        return -1;
      }
      if brk + n > mem.Length {
        return -1;
      }
      if !accessible(brk + n) {
        return -1;
      }
      bp := brk;
      brk := brk + n;
    }

    // write_prev_alloc: never clears the bit.
    method WritePrevAlloc(p: int, prevAlloc: bool)
      requires 0 <= p < mem.Length
      requires !mem[p].alloc && SizeOf(mem[p]) != MIN_WORDS ==> 1 <= SizeOf(mem[p]) && p + SizeOf(mem[p]) <= mem.Length
      modifies mem
      ensures !prevAlloc ==> mem[..] == old(mem[..])
      ensures prevAlloc && old(mem[p].alloc) ==> PrevAllocSet(old(mem[..]), mem[..], p)
      ensures prevAlloc && !old(mem[p].alloc) && SizeOf(old(mem[p])) == MIN_WORDS ==>
                mem[..] == old(mem[..])[p := WithPrevAlloc(old(mem[p]))]
      ensures prevAlloc && !old(mem[p].alloc) && SizeOf(old(mem[p])) > MIN_WORDS ==>
                var footer := p + SizeOf(old(mem[p])) - 1;
                mem[..] == old(mem[..])[p := WithPrevAlloc(old(mem[p]))][footer := WithPrevAlloc(old(mem[footer]))]
    {
      if prevAlloc {
        mem[p] := WithPrevAlloc(mem[p]);
      }
      if !mem[p].alloc && SizeOf(mem[p]) != MIN_WORDS {
        if prevAlloc {
          var footer := p + SizeOf(mem[p]) - 1;
          mem[footer] := WithPrevAlloc(mem[footer]);
        }
      }
    }

    /** Adds at least `size` words at the end of the heap, joined with a free block there.  NULL and no change when the
        break cannot be moved. */
    method ExtendHeap(size: int) returns (r: int)
      requires Settling(0) && MIN_WORDS < size
      modifies this`brk, this`miniList, this`blocks, this`listed, this`lists, this`minis, mem, segList
      ensures Settling(0) && Live(blocks) == Live(old(blocks))
              && KeepsPayloads(old(mem[..]), mem[..], Live(old(blocks)))
      ensures r != NULL <==> old(Grants(brk, RoundUp(size, 2)))
      ensures r == NULL ==> brk == old(brk) && blocks == old(blocks) && mem[..] == old(mem[..])
      ensures r == NULL ==> Order() == old(Order())
      ensures r != NULL ==> brk == old(brk) + RoundUp(size, 2)
                            && Grown(old(blocks), old(Order()), old(brk) - 1, RoundUp(size, 2), r, blocks, Order())
    {
      var n := RoundUp(size, 2);
      assert n % 2 == 0 && MIN_WORDS < n;
      var bp := Sbrk(n);
      if bp == -1 {
        return NULL;
      }
      r := AddBlock(bp - 1, n);
    }

    // The n words from the old epilogue p on become a block, or part of the one before.
    method AddBlock(p: int, n: int) returns (r: int)
      requires 2 <= brk - n && brk <= mem.Length < MAX_HEAP_WORDS && segList.Length == LENGTH && n % 2 == 0
               && p == brk - n - 1
      requires Consistent(mem[..], blocks, p, listed, segList[..], lists, miniList, minis, 0) && MIN_WORDS < n
      modifies this`miniList, this`blocks, this`listed, this`lists, this`minis, mem, segList
      ensures Settling(0) && Live(blocks) == Live(old(blocks))
              && KeepsPayloads(old(mem[..]), mem[..], Live(old(blocks)))
      ensures r != NULL && Grown(old(blocks), old(Order()), p, n, r, blocks, Order())
    {
      ghost var bs, ix := blocks, Order();
      NewBlock(p, n);
      r := CoalesceBlock(p);
      TailFound(bs, p, n, blocks, r);
      TailMerged(bs, ix, p, n, r, blocks, Order());
      assert r != NULL;
    }

    // Tags of a free block of n words in place of the epilogue, and of a new epilogue.
    method NewBlock(p: int, n: int)
      requires 2 <= brk - n && brk <= mem.Length < MAX_HEAP_WORDS && segList.Length == LENGTH && n % 2 == 0
               && p == brk - n - 1
      requires Consistent(mem[..], blocks, p, listed, segList[..], lists, miniList, minis, 0) && MIN_WORDS < n
      modifies this`blocks, mem
      ensures Settling(p) && blocks == Grow(old(blocks), p, n) && FreeAt(blocks, p) && Live(blocks) == Live(old(blocks))
      ensures KeepsPayloads(old(mem[..]), mem[..], Live(old(blocks)))
    {
      ghost var m, heads := mem[..], segList[..];
      WritePack(p, n, false, mem[p].prevAlloc, mem[p].prevMini);
      ghost var m2 := mem[..];
      var next := p + SizeOf(mem[p]);
      WritePack(next, 0, true, mem[p].alloc, SizeOf(mem[p]) == MIN_WORDS);
      assert segList[..] == heads;
      Extend(m, m2, mem[..], blocks, p, listed, heads, lists, miniList, minis, n);
      blocks := Grow(blocks, p, n);
    }

    /** Cuts the allocated block p after n words when the rest can be a block; the rest is not listed yet. */
    method SplitBlock(p: int, n: int) returns (rest: int)
      requires Settling(0) && p in Live(blocks) && MIN_WORDS <= n <= SizeAt(blocks, p) && n % 2 == 0
      modifies this`blocks, mem
      ensures rest == NULL ==> n == SizeAt(blocks, p) && blocks == old(blocks) && mem[..] == old(mem[..]) && Settling(0)
      ensures rest != NULL ==> n < old(SizeAt(blocks, p)) && rest == p + n && Settling(rest) && FreeAt(blocks, rest)
                               && blocks == Cut(old(blocks), p, n)
      ensures Live(blocks) == Live(old(blocks))[p := n]
      ensures KeepsPayloads(old(mem[..]), mem[..], Live(old(blocks)) - {p})
    {
      NextHeader(mem[..], blocks, brk - 1, 0, p);
      var size := SizeOf(mem[p]);
      if size - n >= MIN_WORDS {
        CutBlock(p, n, size);
        rest := p + n;
      } else {
        rest := NULL;
        assert Live(blocks)[p := n] == Live(blocks);
      }
    }

    method CutBlock(p: int, n: int, size: int)
      requires Settling(0) && p in Live(blocks) && MIN_WORDS <= n && n % 2 == 0
      requires size == SizeAt(blocks, p) && MIN_WORDS <= size - n
      modifies this`blocks, mem
      ensures Settling(p + n) && FreeAt(blocks, p + n) && blocks == Cut(old(blocks), p, n)
      ensures Live(blocks) == Live(old(blocks))[p := n]
      ensures KeepsPayloads(old(mem[..]), mem[..], Live(old(blocks)) - {p})
    {
      ghost var m, heads, bs := mem[..], segList[..], blocks;
      ghost var m2 := WriteCut(p, n, size);
      assert !FreeAt(bs, p);
      Split(m, m2, mem[..], bs, brk - 1, listed, heads, lists, miniList, minis, p, n);
      assert KeepsPayloads(m, mem[..], Live(bs) - {p});
      blocks := Cut(bs, p, n);
    }

    // The writes of split_block.
    method WriteCut(p: int, n: int, size: int) returns (ghost m2: seq<Word>)
      requires CutOk() && TagsOk(0) && p in blocks && MIN_WORDS <= n && n % 2 == 0
      requires size == SizeAt(blocks, p) && MIN_WORDS <= size - n && 0 <= p < mem.Length
      modifies mem
      ensures Packed(old(mem[..]), m2, p, n, true, old(mem[p].prevAlloc), old(mem[p].prevMini))
      ensures Packed(m2, mem[..], p + n, size - n, false, true, n == MIN_WORDS)
      ensures segList[..] == old(segList[..])
    {
      ghost var heads := segList[..];
      NextHeader(mem[..], blocks, brk - 1, 0, p);
      m2 := WriteHalves(p, n, size);
      assert segList[..] == heads;
    }

    method WriteHalves(p: int, n: int, size: int) returns (ghost m2: seq<Word>)
      requires 0 <= p && MIN_WORDS <= n && n + MIN_WORDS <= size && p + size < mem.Length < MAX_HEAP_WORDS
      requires n % 2 == 0 && size % 2 == 0
      requires mem[p + size].alloc
               || (MIN_WORDS <= SizeOf(mem[p + size]) && p + size + SizeOf(mem[p + size]) <= mem.Length)
      modifies mem
      ensures Packed(old(mem[..]), m2, p, n, true, old(mem[p].prevAlloc), old(mem[p].prevMini))
      ensures Packed(m2, mem[..], p + n, size - n, false, true, n == MIN_WORDS)
    {
      var prevAlloc, prevMini := mem[p].prevAlloc, mem[p].prevMini;
      WritePack(p, n, true, prevAlloc, prevMini);
      m2 := mem[..];
      var next := p + SizeOf(mem[p]);
      WritePack(next, size - n, false, true, n == MIN_WORDS);
      var nextNext := next + SizeOf(mem[next]);
      WritePrevAlloc(nextNext, false);
    }

    // ---------------------------------------------------------------- searching

    /** find_fit: a free block of n words or more, or NULL when the heap has none. */
    method FindFit(n: int) returns (r: int)
      requires Settling(0) && MIN_WORDS <= n
      ensures r == NULL <==> NoFit(blocks, n)
      ensures r != NULL ==> FreeAt(blocks, r) && n <= SizeAt(blocks, r)
      ensures r != NULL ==> Chosen(blocks, lists, minis, n, r)
    {
      MiniHead(mem[..], blocks, listed, miniList, minis);
      if n == MIN_WORDS && miniList != NULL {
        assert miniList == minis[0] && IsMini(blocks, miniList);
        return miniList;
      }
      var c := FindClass(8 * n);
      for i := c to LENGTH
        invariant forall d {:trigger lists[d]} :: c <= d < i ==> NoneFits(blocks, lists[d], n)
      {
        var best := SearchClass(i, n);
        if best != NULL {
          return best;
        }
      }
      SearchComplete(mem[..], blocks, brk - 1, listed, segList[..], lists, miniList, minis, n);
      return NULL;
    }

    // The inner loop of find_fit, over the list of class c.
    method SearchClass(c: int, n: int) returns (best: int)
      requires Settling(0) && 0 <= c < LENGTH
      ensures |lists| == LENGTH
      ensures best == NULL ==> NoneFits(blocks, lists[c], n)
      ensures best != NULL ==> FreeAt(blocks, best) && n <= SizeAt(blocks, best)
                               && EndsFirstDescent(blocks, lists[c], n, best)
    {
      ghost var m, bs, heads, s, i := mem[..], blocks, segList[..], lists[c], 0;
      NullNotListed(m, bs, brk - 1, listed, heads, lists, miniList, minis, c);
      best := NULL;
      var block := segList[c];
      while block != NULL
        invariant mem[..] == m && blocks == bs && segList[..] == heads && s == lists[c]
        invariant block == At(s, i) && (block == NULL ==> i == |s|) && Scanned(bs, s, i, n, best)
        invariant best != NULL ==> 0 <= best < |m| && SizeOf(m[best]) == SizeAt(bs, best) && FreeAt(bs, best)
        decreases |s| - i
      {
        OnList(m, bs, brk - 1, listed, heads, lists, miniList, minis, c, i);
        if !mem[block].alloc && n <= SizeOf(mem[block]) {
          if best == NULL {
            ScanTake(bs, s, i, n, best);
            best := block;
          } else if SizeOf(mem[block]) < SizeOf(mem[best]) {
            ScanTake(bs, s, i, n, best);
            best := block;
          } else {
            ScanStop(bs, s, i, n, best);
            return;
          }
        } else {
          ScanSkip(bs, s, i, n, best);
        }
        block := AddressOf(mem[block + NEXT]);
        i := i + 1;
      }
      ScanAll(bs, s, n, best);
    }

    // ---------------------------------------------------------------- the public operations

    // Headers and payload pointers.
    function PayloadToHeader(bp: int): int {
      bp - 1
    }

    /** The heap is in use and everything agrees. */
    ghost predicate Ready()
      reads this, mem, segList
    {
      heapStart == 1 && Settling(0)
    }

    /** Not initialised yet, or in use. */
    ghost predicate Valid()
      reads this, mem, segList
    {
      || Ready()
      || (heapStart == NULL && brk == 0 && blocks == map[] && mem.Length < MAX_HEAP_WORDS && segList.Length == LENGTH)
    }

    /** free: gives the block of the live payload bp back. */
    method Free(bp: int)
      requires Valid() && (bp == NULL || (Ready() && PayloadToHeader(bp) in Live(blocks)))
      modifies this, mem, segList
      ensures Valid() && brk == old(brk) && (bp != NULL ==> Ready())
      ensures bp == NULL ==> Now() == old(Now()) && mem[..] == old(mem[..])
      ensures bp != NULL ==> Freed(old(Now()), PayloadToHeader(bp), Now())
      ensures Live(blocks) == Live(old(blocks)) - {PayloadToHeader(bp)}
      ensures KeepsPayloads(old(mem[..]), mem[..], Live(blocks))
    {
      if bp == NULL {
        assert Valid() ==> SizeAt(blocks, PayloadToHeader(NULL)) == 0;
        return;
      }
      var p := PayloadToHeader(bp);
      MarkFree(p);
      var r := CoalesceBlock(p);
    }

    method MarkFree(p: int)
      requires Settling(0) && p in Live(blocks)
      modifies this`blocks, mem
      ensures Settling(p) && FreeAt(blocks, p) && Live(blocks) == Live(old(blocks)) - {p}
      ensures blocks == WithStatus(old(blocks), p, false)
      ensures KeepsPayloads(old(mem[..]), mem[..], Live(blocks))
    {
      ghost var m, heads, bs := mem[..], segList[..], blocks;
      NextHeader(m, bs, brk - 1, 0, p);
      WriteFree(p, SizeOf(mem[p]));
      assert segList[..] == heads && !FreeAt(bs, p);
      Release(m, mem[..], bs, brk - 1, listed, heads, lists, miniList, minis, p);
      blocks := WithStatus(bs, p, false);
    }

    method WriteFree(p: int, size: int)
      requires 0 <= p && MIN_WORDS <= size && p + size < mem.Length < MAX_HEAP_WORDS && size % 2 == 0
      requires mem[p + size].alloc
               || (MIN_WORDS <= SizeOf(mem[p + size]) && p + size + SizeOf(mem[p + size]) <= mem.Length)
      modifies mem
      ensures Packed(old(mem[..]), mem[..], p, size, false, old(mem[p].prevAlloc), old(mem[p].prevMini))
    {
      WritePack(p, size, false, mem[p].prevAlloc, mem[p].prevMini);
      var next := p + SizeOf(mem[p]);
      WritePrevAlloc(next, false);
    }

    /** mm_init on an empty heap: a prologue, an epilogue and one free chunk.  When only the chunk cannot be had, the
        heap is usable and has no block. */
    method MmInit() returns (ok: bool)
      requires brk == 0 && mem.Length < MAX_HEAP_WORDS && segList.Length == LENGTH
      modifies this, mem, segList
      ensures ok <==> Grants(0, 2) && Grants(2, CHUNK_WORDS)
      ensures ok ==> Ready() && Now() == State(true, OneChunk(), 2 + CHUNK_WORDS, Added(NoIndex(), CHUNK_WORDS, 1))
      ensures !Grants(0, 2) ==> brk == 0 && heapStart == old(heapStart) && blocks == old(blocks)
                                && Order() == old(Order())
      ensures Grants(0, 2) && !ok ==> Ready() && Now() == State(true, map[], 2, NoIndex())
    {
      var start := Sbrk(2);
      if start == -1 {
        return false;
      }
      WriteEnds(start);
      ResetLists();
      heapStart := start + 1;
      EmptyHeap(mem[..], segList[..], lists, miniList, minis);
      blocks, listed := map[], {};
      var r := ExtendHeap(CHUNK_WORDS);
      if r == NULL {
        return false;
      }
      OnlyChunk(blocks);
      return true;
    }

    // The prologue and the epilogue of an empty heap.
    method WriteEnds(start: int)
      requires 0 <= start && start + 1 < mem.Length
      modifies mem
      ensures HasTag(mem[start], 0, true, false, false) && HasTag(mem[start + 1], 0, true, true, false)
    {
      WritePack(start, 0, true, false, false);
      WritePack(start + 1, 0, true, true, false);
    }

    // Empty lists.
    method ResetLists()
      requires segList.Length == LENGTH
      modifies this`miniList, this`lists, this`minis, segList
      ensures Indexed(mem[..], map[], {}, segList[..], lists, miniList, minis) && Order() == NoIndex()
    {
      for i := 0 to LENGTH
        invariant forall c :: 0 <= c < i ==> segList[c] == NULL
      {
        segList[i] := NULL;
      }
      miniList := NULL;
      lists, minis := seq(LENGTH, _ => []), [];
    }

    // The steps of malloc that turn the listed free block p into an allocated block of n words.
    method Place(p: int, n: int)
      requires Settling(0) && FreeAt(blocks, p) && MIN_WORDS <= n <= SizeAt(blocks, p) && n % 2 == 0
      modifies this`miniList, this`blocks, this`listed, this`lists, this`minis, mem, segList
      ensures Settling(0) && Live(blocks) == Live(old(blocks))[p := n]
      ensures Order() == Carved(old(Order()), old(SizeAt(blocks, p)), p, n)
      ensures KeepsPayloads(old(mem[..]), mem[..], Live(old(blocks)))
    {
      ghost var m1, live, k := mem[..], Live(blocks), SizeAt(blocks, p);
      MarkAllocated(p);
      ghost var m2, live2 := mem[..], Live(blocks);
      Shorten(p, n);
      PlacedKeeps(m1, m2, mem[..], live, live2, p, k, n);
    }

    lemma PlacedKeeps(m1: seq<Word>, m2: seq<Word>, m3: seq<Word>, live: map<int, int>, live2: map<int, int>, p: int,
                      k: int, n: int)
      requires p !in live && live2 == live[p := k]
      requires KeepsPayloads(m1, m2, live) && KeepsPayloads(m2, m3, live2 - {p})
      ensures KeepsPayloads(m1, m3, live) && live2[p := n] == live[p := n]
    {
      assert live2 - {p} == live;
      KeepsFewer(m1, m2, m3, live, live);
    }

    // Cuts the allocated block p down to n words, and lists the rest.
    method Shorten(p: int, n: int)
      requires Settling(0) && p in Live(blocks) && MIN_WORDS <= n <= SizeAt(blocks, p) && n % 2 == 0
      requires !FreeAt(blocks, p + SizeAt(blocks, p))
      modifies this`miniList, this`blocks, this`listed, this`lists, this`minis, mem, segList
      ensures Settling(0) && Live(blocks) == Live(old(blocks))[p := n]
      ensures var k := old(SizeAt(blocks, p));
              Order() == if k - n < MIN_WORDS then old(Order()) else Added(old(Order()), k - n, p + n)
      ensures KeepsPayloads(old(mem[..]), mem[..], Live(old(blocks)) - {p})
    {
      ghost var m, live, bs := mem[..], Live(blocks), blocks;
      var temp := SplitBlock(p, n);
      if temp != NULL {
        ghost var m2, live2 := mem[..], Live(blocks);
        CutLonely(bs, blocks, brk - 1, p, n);
        CoalesceAlone(temp);
        KeepsFewer(m, m2, mem[..], live - {p}, live2);
      }
    }

    // Coalesces a block without free neighbours.
    method CoalesceAlone(x: int)
      requires Settling(x) && FreeAt(blocks, x) && Lonely(blocks, x)
      modifies this`miniList, this`blocks, this`listed, this`lists, this`minis, mem, segList
      ensures Settling(0) && blocks == old(blocks) && Order() == Added(old(Order()), SizeAt(blocks, x), x)
      ensures KeepsPayloads(old(mem[..]), mem[..], Live(old(blocks)))
    {
      ghost var bs, ix := blocks, Order();
      var r := CoalesceBlock(x);
      LonelyMerged(bs, ix, brk - 1, x, r, blocks, Order());
    }

    method MarkAllocated(p: int)
      requires Settling(0) && FreeAt(blocks, p)
      modifies this`miniList, this`blocks, this`listed, this`lists, this`minis, mem, segList
      ensures Settling(0) && blocks == WithStatus(old(blocks), p, true)
      ensures Live(blocks) == Live(old(blocks))[p := old(SizeAt(blocks, p))]
      ensures Order() == Taken(old(Order()), old(SizeAt(blocks, p)), p)
      ensures SizeAt(blocks, p) == old(SizeAt(blocks, p)) && !FreeAt(blocks, p + SizeAt(blocks, p))
      ensures KeepsPayloads(old(mem[..]), mem[..], Live(old(blocks)))
    {
      ghost var m := mem[..];
      assert SizeAt(blocks, 0) == 0;
      RemoveFree(p, 0);
      ghost var m2, live := mem[..], Live(blocks);
      ClaimUnlisted(p);
      KeepsFewer(m, m2, mem[..], live, live);
    }

    // The same for a free block that has just come off its list.
    method ClaimUnlisted(p: int)
      requires 2 <= brk <= mem.Length && CutOk() && ListsOk() && TagsOk(0) && NoAdjacentFree(blocks, 0)
      requires FreeAt(blocks, p) && Lists(blocks, listed, p)
      modifies this`blocks, mem
      ensures Settling(0) && blocks == WithStatus(old(blocks), p, true)
      ensures Live(blocks) == Live(old(blocks))[p := old(SizeAt(blocks, p))]
      ensures SizeAt(blocks, p) == old(SizeAt(blocks, p)) && !FreeAt(blocks, p + SizeAt(blocks, p))
      ensures KeepsPayloads(old(mem[..]), mem[..], Live(old(blocks)))
    {
      ghost var m1, heads, bs := mem[..], segList[..], blocks;
      NextHeader(m1, bs, brk - 1, 0, p);
      assert !FreeAt(bs, p + SizeAt(bs, p));
      ghost var m2 := WriteAllocated(p, SizeOf(mem[p]));
      assert segList[..] == heads;
      Claim(m1, m2, mem[..], bs, brk - 1, listed, heads, lists, miniList, minis, p);
      blocks := WithStatus(bs, p, true);
    }

    method WriteAllocated(p: int, size: int) returns (ghost m2: seq<Word>)
      requires 0 <= p && MIN_WORDS <= size && p + size < mem.Length < MAX_HEAP_WORDS && size % 2 == 0
               && mem[p + size].alloc
      modifies mem
      ensures Packed(old(mem[..]), m2, p, size, true, old(mem[p].prevAlloc), old(mem[p].prevMini))
      ensures PrevAllocSet(m2, mem[..], p + size)
    {
      WritePack(p, size, true, mem[p].prevAlloc, mem[p].prevMini);
      m2 := mem[..];
      var next := p + SizeOf(mem[p]);
      WritePrevAlloc(next, true);
    }

    /** The part of malloc behind the size computation: a block of n words, or NULL when nothing fits and the heap
        cannot grow.  The heap grows only when nothing fits, by n words or one chunk. */
    method Allocate(n: int) returns (p: int)
      requires Ready() && MIN_WORDS <= n && n % 2 == 0
      modifies this`brk, this`miniList, this`blocks, this`listed, this`lists, this`minis, mem, segList
      ensures Ready() && KeepsPayloads(old(mem[..]), mem[..], Live(old(blocks)))
      ensures Provided(old(Now()), n, if p == NULL then NULL else p + 1, Now())
      ensures p == NULL <==> NoFit(old(blocks), n) && !old(Grants(brk, if 8 * n < 4096 then 512 else n))
      ensures p != NULL && NoFit(old(blocks), n) ==> 8 * (brk - old(brk)) == if 8 * n < 4096 then 4096 else 8 * n
      ensures p == NULL ==> Now() == old(Now()) && mem[..] == old(mem[..])
      ensures p != NULL ==> 1 <= p && p !in Live(old(blocks)) && Live(blocks) == Live(old(blocks))[p := n]
    {
      ghost var m1, live, s1 := mem[..], Live(blocks), Now();
      p := FindOrExtend(n);
      if p != NULL {
        ghost var m2, s2 := mem[..], Now();
        assert 1 <= p && SizeAt(blocks, p) > 0;
        Place(p, n);
        KeepsFewer(m1, m2, mem[..], live, live);
        FoundProvides(s1, n, p, s2, Now());
      }
      ProvidedMeans(s1, n, p, Now());
    }

    // What that says about the place and the growth.
    lemma ProvidedMeans(s1: State, n: int, p: int, s2: State)
      requires s1.inUse && Provided(s1, n, if p == NULL then NULL else p + 1, s2) && (p != NULL ==> 1 <= p)
      ensures p != NULL <==> !NoFit(s1.blocks, n) || Grants(s1.brk, Max(n, CHUNK_WORDS))
      ensures !NoFit(s1.blocks, n) ==>
                && s2.brk == s1.brk && FreeAt(s1.blocks, p) && n <= SizeAt(s1.blocks, p)
                && Chosen(s1.blocks, s1.index.lists, s1.index.minis, n, p)
      ensures p != NULL && NoFit(s1.blocks, n) ==>
                s2.brk == s1.brk + Max(n, CHUNK_WORDS) && TailAt(s1.blocks, s1.brk - 1, p)
      ensures p == NULL <==> NoFit(s1.blocks, n) && !Grants(s1.brk, if 8 * n < 4096 then 512 else n)
      ensures p != NULL && NoFit(s1.blocks, n) ==> 8 * (s2.brk - s1.brk) == if 8 * n < 4096 then 4096 else 8 * n
    {
    }

    // A listed free block of n words or more, from the heap as it is or from an extension.
    method FindOrExtend(n: int) returns (p: int)
      requires Settling(0) && MIN_WORDS <= n && n % 2 == 0
      modifies this`brk, this`miniList, this`blocks, this`listed, this`lists, this`minis, mem, segList
      ensures Settling(0) && Live(blocks) == Live(old(blocks))
              && KeepsPayloads(old(mem[..]), mem[..], Live(old(blocks)))
      ensures p != NULL <==> !NoFit(old(blocks), n) || old(Grants(brk, Max(n, CHUNK_WORDS)))
      ensures p != NULL ==> Found(old(Now()), n, p, Now())
      ensures p == NULL ==> Now() == old(Now()) && mem[..] == old(mem[..])
      ensures p != NULL ==> FreeAt(blocks, p) && n <= SizeAt(blocks, p)
    {
      p := FindFit(n);
      if p == NULL {
        p := ExtendFor(n);
      }
    }

    // The growth of the heap when nothing fits.
    method ExtendFor(n: int) returns (p: int)
      requires Settling(0) && MIN_WORDS <= n && n % 2 == 0 && NoFit(blocks, n)
      modifies this`brk, this`miniList, this`blocks, this`listed, this`lists, this`minis, mem, segList
      ensures Settling(0) && Live(blocks) == Live(old(blocks))
              && KeepsPayloads(old(mem[..]), mem[..], Live(old(blocks)))
      ensures p != NULL <==> old(Grants(brk, Max(n, CHUNK_WORDS)))
      ensures p != NULL ==> Found(old(Now()), n, p, Now()) && FreeAt(blocks, p) && n <= SizeAt(blocks, p)
      ensures p == NULL ==> Now() == old(Now()) && mem[..] == old(mem[..])
    {
      ghost var s1 := Now();
      GrowthEven(n);
      var extendSize := Max(n, CHUNK_WORDS);
      p := ExtendHeap(extendSize);
      if p != NULL {
        GrownFound(s1, n, p, Now());
      }
    }

    lemma GrowthEven(n: int)
      requires n % 2 == 0
      ensures RoundUp(Max(n, CHUNK_WORDS), 2) == Max(n, CHUNK_WORDS)
    {
    }

    lemma GrownFound(s1: State, n: int, p: int, s2: State)
      requires NoFit(s1.blocks, n) && MIN_WORDS <= n && n % 2 == 0 && s2.inUse == s1.inUse
      requires s2.brk == s1.brk + Max(n, CHUNK_WORDS)
      requires Grown(s1.blocks, s1.index, s1.brk - 1, Max(n, CHUNK_WORDS), p, s2.blocks, s2.index)
      ensures Found(s1, n, p, s2) && FreeAt(s2.blocks, p) && n <= SizeAt(s2.blocks, p)
    {
      assert SizeAt(Grow(s1.blocks, s1.brk - 1, Max(n, CHUNK_WORDS)), s1.brk - 1) == Max(n, CHUNK_WORDS);
    }

    ghost function Now(): State
      reads this
    {
      State(heapStart != NULL, blocks, brk, Order())
    }

    // In state s1 of a heap in use, a block of n words is given with payload bp, or none, and s2 is the state then.
    ghost predicate Provided(s1: State, n: int, bp: int, s2: State) {
      && (bp != NULL <==> !NoFit(s1.blocks, n) || Grants(s1.brk, Max(n, CHUNK_WORDS)))
      && (bp == NULL ==> s2 == s1)
      && (bp != NULL ==> s2.inUse && Located(s1, n, bp - 1)
                         && s2.brk == s1.brk + (if NoFit(s1.blocks, n) then Max(n, CHUNK_WORDS) else 0)
                         && s2.index == Supplied(s1, n, bp - 1, s2.brk))
    }

    // What find_fit and extend_heap together have found, for p other than NULL.
    ghost predicate Found(s1: State, n: int, p: int, s2: State) {
      && Located(s1, n, p)
      && if NoFit(s1.blocks, n)
         then s2.inUse == s1.inUse && s2.brk == s1.brk + Max(n, CHUNK_WORDS) && SizeAt(s2.blocks, p) == s2.brk - 1 - p
              && s2.index == Rejoined(s1.index, s1.brk - 1, p, s2.brk - 1, s2.brk - 1)
         else s2 == s1
    }

    lemma FoundProvides(s1: State, n: int, p: int, s2: State, s3: State)
      requires Found(s1, n, p, s2) && s1.inUse && p != NULL && p + 1 != NULL
      requires !NoFit(s1.blocks, n) || Grants(s1.brk, Max(n, CHUNK_WORDS))
      requires s3.inUse == s2.inUse && s3.brk == s2.brk && s3.index == Carved(s2.index, SizeAt(s2.blocks, p), p, n)
      ensures Provided(s1, n, p + 1, s3)
    {
    }

    // The state in which malloc looks for a block: after mm_init, when the heap was not in use.
    ghost function SetUp(s: State): State {
      if s.inUse || !Grants(0, 2) then s
      else if !Grants(2, CHUNK_WORDS) then State(true, map[], 2, NoIndex())
      else State(true, OneChunk(), 2 + CHUNK_WORDS, Added(NoIndex(), CHUNK_WORDS, 1))
    }

    /** The answer bp of malloc(size) in state s1, and the state s2 after it.  Without a block s2 is what mm_init
        leaves; with one, the live blocks of s2 make up the rest of what there is to know about it. */
    ghost predicate Answered(s1: State, size: int, bp: int, s2: State)
      requires 0 <= size && size + 23 < TWO_64
    {
      if size == 0 || (!s1.inUse && !(Grants(0, 2) && Grants(2, CHUNK_WORDS))) then bp == NULL && s2 == SetUp(s1)
      else Provided(SetUp(s1), BlockWords(size), bp, s2)
    }

    /** malloc: a fresh payload of at least `size` bytes; NULL exactly when no block fits and the heap cannot grow, or
        for size 0. */
    method Malloc(size: int) returns (bp: int)
      requires Valid() && 0 <= size && size + 23 < TWO_64
      modifies this, mem, segList
      ensures Valid() && KeepsPayloads(old(mem[..]), mem[..], Live(old(blocks)))
      ensures Answered(old(Now()), size, bp, Now())
      ensures bp == NULL ==> Live(blocks) == Live(old(blocks))
      ensures bp != NULL ==> Ready() && PayloadToHeader(bp) !in Live(old(blocks))
                             && Live(blocks) == Live(old(blocks))[PayloadToHeader(bp) := BlockWords(size)]
      ensures !old(Ready()) && bp != NULL ==> bp == 2
      ensures old(Ready()) && bp == NULL ==> Now() == old(Now()) && mem[..] == old(mem[..])
      ensures old(Ready()) && size != 0 && !NoFit(old(blocks), BlockWords(size)) ==>
                Chosen(old(blocks), old(lists), old(minis), BlockWords(size), PayloadToHeader(bp))
      ensures old(Ready()) && bp != NULL && NoFit(old(blocks), BlockWords(size)) ==>
                var n := BlockWords(size);
                8 * (brk - old(brk)) == if 8 * n < 4096 then 4096 else 8 * n
      ensures old(Ready()) && size != 0 ==>
                var n := BlockWords(size);
                bp == NULL <==> NoFit(old(blocks), n) && !old(Grants(brk, if 8 * n < 4096 then 512 else n))
    {
      ghost var s := Now();
      if heapStart == NULL {
        var ok := MmInit();
        if !ok {
          return NULL;
        }
      }
      if size == 0 {
        return NULL;
      }
      bp := Obtain(size);
      AnswerMeans(s, size, bp, Now());
    }

    // The part of malloc behind the setup, for a size that is not zero.
    method Obtain(size: int) returns (bp: int)
      requires Ready() && 0 < size && size + 23 < TWO_64
      modifies this`brk, this`miniList, this`blocks, this`listed, this`lists, this`minis, mem, segList
      ensures Ready() && KeepsPayloads(old(mem[..]), mem[..], Live(old(blocks)))
      ensures Answered(old(Now()), size, bp, Now())
      ensures bp == NULL ==> Now() == old(Now()) && mem[..] == old(mem[..])
      ensures bp != NULL ==> PayloadToHeader(bp) !in Live(old(blocks))
                             && Live(blocks) == Live(old(blocks))[PayloadToHeader(bp) := BlockWords(size)]
    {
      ghost var s := Now();
      bp := Provide(BlockWords(size));
      InUseAnswer(s, size, bp, Now());
    }

    // The payload of a block of n words.
    method Provide(n: int) returns (bp: int)
      requires Ready() && MIN_WORDS <= n && n % 2 == 0
      modifies this`brk, this`miniList, this`blocks, this`listed, this`lists, this`minis, mem, segList
      ensures Ready() && KeepsPayloads(old(mem[..]), mem[..], Live(old(blocks)))
      ensures Provided(old(Now()), n, bp, Now())
      ensures bp == NULL ==> Now() == old(Now()) && mem[..] == old(mem[..])
      ensures bp != NULL ==> PayloadToHeader(bp) !in Live(old(blocks))
                             && Live(blocks) == Live(old(blocks))[PayloadToHeader(bp) := n]
    {
      var p := Allocate(n);
      bp := if p == NULL then NULL else p + 1;
    }

    lemma InUseAnswer(s1: State, size: int, bp: int, s2: State)
      requires 0 < size && size + 23 < TWO_64 && s1.inUse && Provided(s1, BlockWords(size), bp, s2)
      ensures Answered(s1, size, bp, s2)
    {
    }

    /** What an answer says about the size of the growth and the place of the block. */
    lemma AnswerMeans(s1: State, size: int, bp: int, s2: State)
      requires 0 < size && size + 23 < TWO_64 && Answered(s1, size, bp, s2)
      ensures !s1.inUse && bp != NULL ==> bp == 2
      ensures s1.inUse ==>
                var n := BlockWords(size);
                && (bp == NULL <==> NoFit(s1.blocks, n) && !Grants(s1.brk, if 8 * n < 4096 then 512 else n))
                && (bp != NULL && NoFit(s1.blocks, n) ==>
                      8 * (s2.brk - s1.brk) == if 8 * n < 4096 then 4096 else 8 * n)
                && (!NoFit(s1.blocks, n) ==> Chosen(s1.blocks, s1.index.lists, s1.index.minis, n, bp - 1))
    {
      ChunkFits(BlockWords(size));
      if !s1.inUse && bp != NULL {
        ChunkStart(bp - 1);
      }
    }
  }

  /** A state of the heap: unused, or cut into aligned blocks without gaps and without free neighbours.  By LayoutUnique
      the live blocks and the break determine the free blocks. */
  ghost predicate Laid(s: State) {
    if s.inUse then Tiling(s.blocks, s.brk - 1) && Aligned(s.blocks, s.brk - 1) && NoAdjacentFree(s.blocks, 0)
    else s.blocks == map[] && s.brk == 0
  }

  /** free of the block p: it becomes one with its free neighbours, and the union is put in front of its list. */
  ghost predicate Freed(s1: State, p: int, s2: State) {
    && s2.inUse == s1.inUse && s2.brk == s1.brk && 0 < SizeAt(s1.blocks, p)
    && exists r {:trigger FreeAt(s2.blocks, r)} ::
         Merged(WithStatus(s1.blocks, p, false), s1.index, p, r, s2.blocks, s2.index)
  }

  // In state s, a new block of n words starts at p: where find_fit finds a fit, or else at the tail of the heap.
  ghost predicate Located(s: State, n: int, p: int) {
    if NoFit(s.blocks, n) then TailAt(s.blocks, s.brk - 1, p)
    else FreeAt(s.blocks, p) && n <= SizeAt(s.blocks, p) && Chosen(s.blocks, s.index.lists, s.index.minis, n, p)
  }

  // The lists after n words have been placed at p, with the break at brk after that.
  ghost function Supplied(s: State, n: int, p: int, brk: int): Index {
    if NoFit(s.blocks, n) then Carved(Rejoined(s.index, s.brk - 1, p, brk - 1, brk - 1), brk - 1 - p, p, n)
    else Carved(s.index, SizeAt(s.blocks, p), p, n)
  }

  // The layout after mm_init.
  ghost function OneChunk(): Blocks {
    map[1 := BlockOf(CHUNK_WORDS, false)]
  }

  lemma OnlyChunk(bs: Blocks)
    requires Tiling(bs, 1 + CHUNK_WORDS) && NoAdjacentFree(bs, 0) && Live(bs) == map[]
    ensures bs == OneChunk()
  {
    assert Grow(map[], 1, CHUNK_WORDS) == OneChunk();
    GrowTiles(map[], 1, CHUNK_WORDS);
    assert Live(OneChunk()) == map[];
    LayoutUnique(bs, OneChunk(), 1 + CHUNK_WORDS);
  }

  lemma ChunkTiles()
    ensures Tiling(OneChunk(), 1 + CHUNK_WORDS) && Aligned(OneChunk(), 1 + CHUNK_WORDS)
    ensures NoAdjacentFree(OneChunk(), 0) && Live(OneChunk()) == map[]
  {
    assert Grow(map[], 1, CHUNK_WORDS) == OneChunk();
    GrowTiles(map[], 1, CHUNK_WORDS);
    GrowAligned(map[], 1, CHUNK_WORDS);
  }

  // Whether the chunk is chosen or grown, the block starts where the chunk does.
  lemma ChunkStart(p: int)
    requires FreeAt(OneChunk(), p) || TailAt(OneChunk(), 1 + CHUNK_WORDS, p)
    ensures p == 1
  {
    assert FreeAt(OneChunk(), 1) && SizeAt(OneChunk(), 1) == CHUNK_WORDS;
  }

  // A chunk has room for a block of n words exactly when n is not larger.
  lemma ChunkFits(n: int)
    ensures NoFit(OneChunk(), n) <==> CHUNK_WORDS < n
  {
    assert FreeAt(OneChunk(), 1) && SizeAt(OneChunk(), 1) == CHUNK_WORDS;
  }
}
