/** The free index: 14 doubly linked lists by size class and a singly linked list of mini blocks, whose links live in
    the payload of the free blocks. */
module FreeIndex {
  import opened BoundaryTags
  import opened Layout

  const NULL := 0

  // Payload words of a free block: prev and next; a mini block keeps its next link in the first one.
  const PREV := 1
  const NEXT := 2
  const MINI_NEXT := 1

  function At(s: seq<int>, i: int): int {
    if 0 <= i < |s| then s[i] else NULL
  }

  /** The lists in order: one for each class, and the mini list. */
  datatype Index = Index(lists: seq<seq<int>>, minis: seq<int>)

  // No block is listed.
  function NoIndex(): Index {
    Index(seq(LENGTH, _ => []), [])
  }

  // s without p; the others keep their order.
  ghost function Minus(s: seq<int>, p: int): seq<int> {
    if p in s then Without(s, Position(s, p)) else s
  }

  // A free block of n words is put in front of its list.
  function Added(ix: Index, n: int, p: int): Index {
    var c := FindClass(8 * n);
    if n == MIN_WORDS then ix.(minis := Push(p, ix.minis))
    else if c < |ix.lists| then ix.(lists := ix.lists[c := Push(p, ix.lists[c])])
    else ix
  }

  // A free block of n words is taken off its list.
  ghost function Taken(ix: Index, n: int, p: int): Index {
    var c := FindClass(8 * n);
    if n == MIN_WORDS then ix.(minis := Minus(ix.minis, p))
    else if c < |ix.lists| then ix.(lists := ix.lists[c := Minus(ix.lists[c], p)])
    else ix
  }

  // ------------------------------------------------------------------ what the lists say

  ghost predicate Distinct(s: seq<int>) {
    forall i, j {:trigger s[i], s[j]} :: 0 <= i < j < |s| ==> s[i] != s[j]
  }

  ghost predicate InHeap(m: seq<Word>, s: seq<int>) {
    forall i {:trigger s[i]} :: 0 <= i < |s| ==> 1 <= s[i] && s[i] + 2 < |m|
  }

  /** Every block of s leads to the next one by the word at offset `next`, and the last one to NULL. */
  ghost predicate Linked(m: seq<Word>, s: seq<int>, next: int)
    requires InHeap(m, s) && 0 <= next <= 2
  {
    && (forall i, j {:trigger s[i], s[j]} :: 0 <= i && j == i + 1 && j < |s| ==> AddressOf(m[s[i] + next]) == s[j])
    && (s != [] ==> AddressOf(m[s[|s| - 1] + next]) == NULL)
  }

  /** Every block of s except the head leads back to the one before; the prev link of the head is unspecified. */
  ghost predicate BackLinked(m: seq<Word>, s: seq<int>)
    requires InHeap(m, s)
  {
    forall i, j {:trigger s[i], s[j]} :: 0 <= i && j == i + 1 && j < |s| ==> AddressOf(m[s[j] + PREV]) == s[i]
  }

  predicate IsMini(bs: Blocks, p: int) {
    SizeAt(bs, p) == MIN_WORDS
  }

  // p belongs on the list of class c.
  predicate InClass(bs: Blocks, p: int, c: int) {
    !IsMini(bs, p) && FindClass(8 * SizeAt(bs, p)) == c
  }

  // s is the list of class c: it holds exactly the listed blocks of that class, each once.
  ghost predicate ClassList(m: seq<Word>, bs: Blocks, listed: set<int>, c: int, head: int, s: seq<int>) {
    && head == At(s, 0)
    && Distinct(s)
    && (forall p {:trigger p in s} :: p in s <==> p in listed && InClass(bs, p, c))
    && InHeap(m, s)
    && Linked(m, s, NEXT)
    && BackLinked(m, s)
  }

  // s is the mini list: it holds exactly the listed blocks of 16 bytes, each once.
  ghost predicate MiniList(m: seq<Word>, bs: Blocks, listed: set<int>, head: int, s: seq<int>) {
    && head == At(s, 0)
    && Distinct(s)
    && (forall p {:trigger p in s} :: p in s <==> p in listed && IsMini(bs, p))
    && InHeap(m, s)
    && Linked(m, s, MINI_NEXT)
  }

  /** The lists hold exactly the blocks in `listed`. */
  ghost predicate Indexed(m: seq<Word>, bs: Blocks, listed: set<int>, heads: seq<int>, lists: seq<seq<int>>, mini: int,
                          minis: seq<int>)
  {
    && |heads| == |lists| == LENGTH
    && (forall c {:trigger heads[c]} :: 0 <= c < LENGTH ==> ClassList(m, bs, listed, c, heads[c], lists[c]))
    && MiniList(m, bs, listed, mini, minis)
  }

  // ------------------------------------------------------------------ which words are links

  // a is a link word of a block of s: one of the first two words of its payload.
  ghost predicate IsLink(bs: Blocks, s: set<int>, a: int) {
    exists q {:trigger SizeAt(bs, q)} :: q in s && q < a < q + SizeAt(bs, q) && a <= q + 2
  }

  // m1 and m2 differ in link words of blocks of s only.
  ghost predicate SameExceptLinks(m1: seq<Word>, m2: seq<Word>, bs: Blocks, s: set<int>) {
    && |m1| == |m2|
    && forall a {:trigger m2[a]} :: 0 <= a < |m1| ==> m1[a] == m2[a] || IsLink(bs, s, a)
  }

  // m1 and m2 agree on the link words of the blocks of s.
  ghost predicate SameLinks(m1: seq<Word>, m2: seq<Word>, bs: Blocks, s: set<int>) {
    && |m1| == |m2|
    && forall q {:trigger SizeAt(bs, q)} :: q in s ==>
         1 <= q && q + 2 < |m1| && m1[q + 1] == m2[q + 1] && (!IsMini(bs, q) ==> m1[q + 2] == m2[q + 2])
  }

  // ------------------------------------------------------------------ framing

  lemma IndexFrame(m1: seq<Word>, m2: seq<Word>, bs: Blocks, listed: set<int>, heads: seq<int>, lists: seq<seq<int>>,
                   mini: int, minis: seq<int>)
    requires Indexed(m1, bs, listed, heads, lists, mini, minis)
    requires SameLinks(m1, m2, bs, listed)
    ensures Indexed(m2, bs, listed, heads, lists, mini, minis)
  {
    forall c {:trigger lists[c]} | 0 <= c < LENGTH ensures ClassList(m2, bs, listed, c, heads[c], lists[c]) {
      ClassFrame(m1, m2, bs, listed, listed, c, heads[c], lists[c]);
    }
    MiniFrame(m1, m2, bs, listed, listed, mini, minis);
  }

  lemma ClassFrame(m1: seq<Word>, m2: seq<Word>, bs: Blocks, listed: set<int>, kept: set<int>, c: int, head: int,
                   s: seq<int>)
    requires ClassList(m1, bs, listed, c, head, s)
    requires SameLinks(m1, m2, bs, kept) && forall p :: p in s ==> p in kept
    ensures ClassList(m2, bs, listed, c, head, s)
  {
    forall i {:trigger s[i]} | 0 <= i < |s| ensures m1[s[i] + 1] == m2[s[i] + 1] && m1[s[i] + 2] == m2[s[i] + 2] {
      assert s[i] in s;
    }
  }

  lemma MiniFrame(m1: seq<Word>, m2: seq<Word>, bs: Blocks, listed: set<int>, kept: set<int>, head: int, s: seq<int>)
    requires MiniList(m1, bs, listed, head, s)
    requires SameLinks(m1, m2, bs, kept) && forall p :: p in s ==> p in kept
    ensures MiniList(m2, bs, listed, head, s)
  {
    forall i {:trigger s[i]} | 0 <= i < |s| ensures m1[s[i] + 1] == m2[s[i] + 1] {
      assert s[i] in s;
    }
  }

  // The listed blocks that are not on s.
  ghost function Off(listed: set<int>, s: seq<int>): set<int> {
    set p | p in listed && p !in s
  }

  // listed2 is listed1 with p added or taken away.
  ghost predicate Toggled(listed1: set<int>, listed2: set<int>, p: int) {
    forall q :: q != p ==> (q in listed1 <==> q in listed2)
  }

  /** Changing the list of class c leaves the other lists as they are. */
  lemma ReindexClass(m1: seq<Word>, m2: seq<Word>, bs: Blocks, listed1: set<int>, listed2: set<int>, heads: seq<int>,
                     lists: seq<seq<int>>, mini: int, minis: seq<int>, p: int, c: int, head: int, s: seq<int>)
    requires Indexed(m1, bs, listed1, heads, lists, mini, minis)
    requires 0 <= c < LENGTH && InClass(bs, p, c) && Toggled(listed1, listed2, p)
    requires ClassList(m2, bs, listed2, c, head, s)
    requires SameLinks(m1, m2, bs, Off(listed1, lists[c]))
    ensures Indexed(m2, bs, listed2, heads[c := head], lists[c := s], mini, minis)
  {
    assert ClassList(m1, bs, listed1, c, heads[c], lists[c]);
    forall d {:trigger heads[d]} | 0 <= d < LENGTH && d != c ensures ClassList(m2, bs, listed2, d, heads[d], lists[d]) {
      ClassFrame(m1, m2, bs, listed1, Off(listed1, lists[c]), d, heads[d], lists[d]);
    }
    MiniFrame(m1, m2, bs, listed1, Off(listed1, lists[c]), mini, minis);
  }

  /** Changing the mini list leaves the class lists as they are. */
  lemma ReindexMini(m1: seq<Word>, m2: seq<Word>, bs: Blocks, listed1: set<int>, listed2: set<int>, heads: seq<int>,
                    lists: seq<seq<int>>, mini: int, minis: seq<int>, p: int, head: int, s: seq<int>)
    requires Indexed(m1, bs, listed1, heads, lists, mini, minis)
    requires IsMini(bs, p) && Toggled(listed1, listed2, p)
    requires MiniList(m2, bs, listed2, head, s)
    requires SameLinks(m1, m2, bs, Off(listed1, minis))
    ensures Indexed(m2, bs, listed2, heads, lists, head, s)
  {
    forall d {:trigger lists[d]} | 0 <= d < LENGTH ensures ClassList(m2, bs, listed2, d, heads[d], lists[d]) {
      ClassFrame(m1, m2, bs, listed1, Off(listed1, minis), d, heads[d], lists[d]);
    }
  }

  // ------------------------------------------------------------------ removal

  function Without(s: seq<int>, i: int): seq<int>
    requires 0 <= i < |s|
  {
    s[..i] + s[i + 1..]
  }

  lemma WithoutOmits(s: seq<int>, i: int)
    requires 0 <= i < |s|
    ensures Omits(s, Without(s, i), i)
  {
  }

  // t is s without its element i.
  ghost predicate Omits(s: seq<int>, t: seq<int>, i: int)
    requires 0 <= i < |s|
  {
    && |t| == |s| - 1
    && forall k {:trigger t[k]} :: 0 <= k < |t| ==> t[k] == if k < i then s[k] else s[k + 1]
  }

  lemma OmitsMembers(s: seq<int>, t: seq<int>, i: int)
    requires 0 <= i < |s| && Distinct(s) && Omits(s, t, i)
    ensures Distinct(t)
    ensures forall p :: p in t <==> p in s && p != s[i]
  {
    forall p | p in s && p != s[i] ensures p in t {
      var k :| 0 <= k < |s| && s[k] == p;
      assert t[if k < i then k else k - 1] == p;
    }
  }

  // Different blocks are `gap` words apart or more.
  ghost predicate Spaced(s: seq<int>, gap: int) {
    forall i, j {:trigger s[i], s[j]} :: 0 <= i < |s| && 0 <= j < |s| && s[i] < s[j] ==> s[i] + gap <= s[j]
  }

  lemma BlocksSpaced(bs: Blocks, epilogue: int, s: seq<int>, gap: int)
    requires Tiling(bs, epilogue)
    requires forall p :: p in s ==> p in bs && gap <= SizeAt(bs, p)
    ensures Spaced(s, gap)
  {
    forall i, j {:trigger s[i], s[j]} | 0 <= i < |s| && 0 <= j < |s| && s[i] < s[j] ensures s[i] + gap <= s[j] {
      assert s[i] in s && s[j] in s;
      assert SizeAt(bs, s[i]) >= gap && SizeAt(bs, s[j]) >= gap;
    }
  }

  lemma ClassSpaced(m: seq<Word>, bs: Blocks, epilogue: int, listed: set<int>, c: int, head: int, s: seq<int>)
    requires Tiling(bs, epilogue) && Aligned(bs, epilogue) && ClassList(m, bs, listed, c, head, s)
    requires forall p :: p in listed ==> p in bs
    ensures Spaced(s, 4)
  {
    forall p | p in s ensures p in bs && 4 <= SizeAt(bs, p) {
    }
    BlocksSpaced(bs, epilogue, s, 4);
  }

  // The chain without its head.
  lemma LinkedTail(m: seq<Word>, s: seq<int>, t: seq<int>, next: int)
    requires s != [] && InHeap(m, s) && 0 <= next <= 2 && Linked(m, s, next) && Omits(s, t, 0)
    ensures InHeap(m, t) && Linked(m, t, next) && At(t, 0) == At(s, 1)
  {
    if t != [] {
      assert t[|t| - 1] == s[|s| - 1];
    }
  }

  // Linking s[i - 1] to what follows s[i] takes s[i] off the chain.
  lemma LinkedWithout(m1: seq<Word>, m2: seq<Word>, s: seq<int>, t: seq<int>, i: int, next: int)
    requires 0 < i < |s| && |m1| == |m2| && InHeap(m1, s) && 0 <= next <= 2 && Linked(m1, s, next) && Omits(s, t, i)
    requires AddressOf(m2[s[i - 1] + next]) == At(s, i + 1)
    requires forall k {:trigger s[k]} :: 0 <= k < |s| && k != i - 1 && k != i ==> m1[s[k] + next] == m2[s[k] + next]
    ensures InHeap(m2, t) && Linked(m2, t, next) && t[0] == s[0]
  {
    assert t[|t| - 1] == s[if i == |s| - 1 then i - 1 else |s| - 1];
  }

  lemma BackLinkedWithout(m1: seq<Word>, m2: seq<Word>, s: seq<int>, t: seq<int>, i: int)
    requires 0 < i < |s| && |m1| == |m2| && InHeap(m1, s) && BackLinked(m1, s) && Omits(s, t, i)
    requires i + 1 < |s| ==> AddressOf(m2[s[i + 1] + PREV]) == s[i - 1]
    requires forall k {:trigger s[k]} :: 0 <= k < |s| && k != i + 1 && k != i ==> m1[s[k] + PREV] == m2[s[k] + PREV]
    ensures InHeap(m2, t) && BackLinked(m2, t)
  {
  }

  // The list of class c loses its head.
  lemma UnlinkHead(m: seq<Word>, bs: Blocks, listed: set<int>, c: int, s: seq<int>, t: seq<int>)
    requires s != [] && ClassList(m, bs, listed, c, s[0], s) && Omits(s, t, 0)
    ensures ClassList(m, bs, listed - {s[0]}, c, At(s, 1), t)
  {
    OmitsMembers(s, t, 0);
    LinkedTail(m, s, t, NEXT);
  }

  /** The list of class c loses its inner or last block s[i]: its neighbours are linked to each other. */
  lemma UnlinkInner(m1: seq<Word>, m2: seq<Word>, bs: Blocks, listed: set<int>, c: int, s: seq<int>, t: seq<int>,
                    i: int)
    requires 0 < i < |s| && ClassList(m1, bs, listed, c, s[0], s) && Spaced(s, 4) && |m1| == |m2| && Omits(s, t, i)
    requires AddressOf(m2[s[i - 1] + NEXT]) == At(s, i + 1)
    requires i + 1 < |s| ==> AddressOf(m2[s[i + 1] + PREV]) == s[i - 1]
    requires forall a {:trigger m2[a]} ::
               0 <= a < |m1| && a != s[i - 1] + NEXT && (i + 1 < |s| ==> a != s[i + 1] + PREV) ==>
               m1[a] == m2[a]
    ensures ClassList(m2, bs, listed - {s[i]}, c, s[0], t)
  {
    OmitsMembers(s, t, i);
    LinkedWithout(m1, m2, s, t, i, NEXT);
    BackLinkedWithout(m1, m2, s, t, i);
  }

  // The mini list loses its head.
  lemma UnlinkMiniHead(m: seq<Word>, bs: Blocks, listed: set<int>, s: seq<int>, t: seq<int>)
    requires s != [] && MiniList(m, bs, listed, s[0], s) && Omits(s, t, 0)
    ensures MiniList(m, bs, listed - {s[0]}, At(s, 1), t)
  {
    OmitsMembers(s, t, 0);
    LinkedTail(m, s, t, MINI_NEXT);
  }

  // The mini list loses its inner or last block s[i].
  lemma UnlinkMini(m1: seq<Word>, m2: seq<Word>, bs: Blocks, listed: set<int>, s: seq<int>, t: seq<int>, i: int)
    requires 0 < i < |s| && MiniList(m1, bs, listed, s[0], s) && |m1| == |m2| && Omits(s, t, i)
    requires AddressOf(m2[s[i - 1] + MINI_NEXT]) == At(s, i + 1)
    requires forall a {:trigger m2[a]} :: 0 <= a < |m1| && a != s[i - 1] + MINI_NEXT ==> m1[a] == m2[a]
    ensures MiniList(m2, bs, listed - {s[i]}, s[0], t)
  {
    OmitsMembers(s, t, i);
    LinkedWithout(m1, m2, s, t, i, MINI_NEXT);
  }

  // ------------------------------------------------------------------ insertion

  function Push(p: int, s: seq<int>): seq<int> {
    [p] + s
  }

  lemma PushPushed(p: int, s: seq<int>)
    ensures Pushed(p, s, Push(p, s))
  {
  }

  // t is s with p in front.
  ghost predicate Pushed(p: int, s: seq<int>, t: seq<int>) {
    && |t| == |s| + 1 && t[0] == p
    && forall k {:trigger t[k]} :: 0 < k < |t| ==> t[k] == s[k - 1]
  }

  lemma PushedMembers(p: int, s: seq<int>, t: seq<int>)
    requires Pushed(p, s, t) && Distinct(s) && p !in s
    ensures Distinct(t)
    ensures forall q :: q in t <==> q in s || q == p
  {
    forall k | 0 <= k < |s| ensures s[k] in t {
      assert t[k + 1] == s[k];
    }
  }

  // p in front of a chain, leading to its head.
  lemma LinkedPush(m1: seq<Word>, m2: seq<Word>, p: int, s: seq<int>, t: seq<int>, next: int)
    requires |m1| == |m2| && InHeap(m1, s) && 0 <= next <= 2 && Linked(m1, s, next) && Pushed(p, s, t)
    requires 1 <= p && p + 2 < |m1| && AddressOf(m2[p + next]) == At(s, 0)
    requires forall k {:trigger s[k]} :: 0 <= k < |s| ==> m1[s[k] + next] == m2[s[k] + next]
    ensures InHeap(m2, t) && Linked(m2, t, next)
  {
  }

  lemma BackLinkedPush(m1: seq<Word>, m2: seq<Word>, p: int, s: seq<int>, t: seq<int>)
    requires |m1| == |m2| && InHeap(m1, s) && BackLinked(m1, s) && Pushed(p, s, t)
    requires 1 <= p && p + 2 < |m1| && (s != [] ==> AddressOf(m2[s[0] + PREV]) == p)
    requires forall k {:trigger s[k]} :: 0 < k < |s| ==> m1[s[k] + PREV] == m2[s[k] + PREV]
    ensures InHeap(m2, t) && BackLinked(m2, t)
  {
  }

  /** p becomes the head of the list of class c; the old head leads back to it. */
  lemma PushClass(m1: seq<Word>, m2: seq<Word>, bs: Blocks, listed: set<int>, c: int, s: seq<int>, t: seq<int>, p: int)
    requires ClassList(m1, bs, listed, c, At(s, 0), s) && Pushed(p, s, t) && Spaced(t, 4) && |m1| == |m2|
    requires InClass(bs, p, c) && p !in listed && 1 <= p && p + 2 < |m1|
    requires AddressOf(m2[p + NEXT]) == At(s, 0)
    requires s != [] ==> AddressOf(m2[s[0] + PREV]) == p
    requires forall a {:trigger m2[a]} ::
               0 <= a < |m1| && a != p + PREV && a != p + NEXT && (s != [] ==> a != s[0] + PREV) ==>
               m1[a] == m2[a]
    ensures ClassList(m2, bs, listed + {p}, c, p, t)
  {
    PushedMembers(p, s, t);
    forall k {:trigger s[k]} | 0 <= k < |s|
      ensures m1[s[k] + NEXT] == m2[s[k] + NEXT] && (k > 0 ==> m1[s[k] + PREV] == m2[s[k] + PREV])
    {
      assert s[k] in s && t[k + 1] == s[k] && t[1] == s[0];
    }
    LinkedPush(m1, m2, p, s, t, NEXT);
    BackLinkedPush(m1, m2, p, s, t);
  }

  // p becomes the head of the mini list.
  lemma PushMini(m1: seq<Word>, m2: seq<Word>, bs: Blocks, listed: set<int>, s: seq<int>, t: seq<int>, p: int)
    requires MiniList(m1, bs, listed, At(s, 0), s) && |m1| == |m2| && Pushed(p, s, t)
    requires IsMini(bs, p) && p !in listed && 1 <= p && p + 2 < |m1|
    requires AddressOf(m2[p + MINI_NEXT]) == At(s, 0)
    requires forall a {:trigger m2[a]} :: 0 <= a < |m1| && a != p + MINI_NEXT ==> m1[a] == m2[a]
    ensures MiniList(m2, bs, listed + {p}, p, t)
  {
    PushedMembers(p, s, t);
    forall k {:trigger s[k]} | 0 <= k < |s| ensures m1[s[k] + MINI_NEXT] == m2[s[k] + MINI_NEXT] {
      assert s[k] in s;
    }
    LinkedPush(m1, m2, p, s, t, MINI_NEXT);
  }

  // ------------------------------------------------------------------ the index as a whole

  // Everything listed is a free block.
  ghost predicate ListsFree(bs: Blocks, listed: set<int>) {
    forall p {:trigger p in listed} :: p in listed ==> FreeAt(bs, p)
  }

  // A block on no list can be changed without the lists noticing.
  lemma LinksApart(m1: seq<Word>, m2: seq<Word>, bs: Blocks, epilogue: int, s: set<int>, kept: set<int>)
    requires Tiling(bs, epilogue) && epilogue < |m1| && SameExceptLinks(m1, m2, bs, s)
    requires s !! kept && (forall q :: q in s ==> q in bs) && (forall q :: q in kept ==> q in bs)
    ensures SameLinks(m1, m2, bs, kept)
  {
    forall q {:trigger q in kept} | q in kept
      ensures 1 <= q && q + 2 < |m1| && m1[q + 1] == m2[q + 1] && (!IsMini(bs, q) ==> m1[q + 2] == m2[q + 2])
    {
      assert SizeAt(bs, q) >= MIN_WORDS;
      assert !IsLink(bs, s, q + 1);
      assert !IsMini(bs, q) ==> !IsLink(bs, s, q + 2);
    }
  }

  /** insert_free on a mini block. */
  lemma InsertMini(m1: seq<Word>, m2: seq<Word>, bs: Blocks, epilogue: int, listed: set<int>, heads: seq<int>,
                   lists: seq<seq<int>>, mini: int, minis: seq<int>, p: int)
    requires Tiling(bs, epilogue) && epilogue < |m1| && ListsFree(bs, listed)
    requires Indexed(m1, bs, listed, heads, lists, mini, minis)
    requires FreeAt(bs, p) && p !in listed && IsMini(bs, p)
    requires |m2| == |m1| && 1 <= p && p + 2 < |m1|
    requires m2 == m1[p + MINI_NEXT := m2[p + MINI_NEXT]] && AddressOf(m2[p + MINI_NEXT]) == mini
    ensures SameExceptLinks(m1, m2, bs, {p})
    ensures Indexed(m2, bs, listed + {p}, heads, lists, p, Push(p, minis))
  {
    assert IsLink(bs, {p}, p + MINI_NEXT) by {
      assert p + SizeAt(bs, p) == p + 2;
    }
    LinksApart(m1, m2, bs, epilogue, {p}, Off(listed, minis));
    PushPushed(p, minis);
    PushMini(m1, m2, bs, listed, minis, Push(p, minis), p);
    ReindexMini(m1, m2, bs, listed, listed + {p}, heads, lists, mini, minis, p, p, Push(p, minis));
  }

  // The writes of insert_free in front of a class list with head curr.
  function PushWords(m: seq<Word>, curr: int, p: int): seq<Word>
    requires 0 <= p && p + 2 < |m| < MAX_HEAP_WORDS && 0 <= curr && curr + 2 < |m|
  {
    if curr != NULL then m[curr + PREV := Pointer(p)][p + NEXT := Pointer(curr)]
    else m[p + NEXT := Pointer(NULL)][p + PREV := Pointer(NULL)]
  }

  /** insert_free on a block that is not mini. */
  lemma InsertClass(m1: seq<Word>, bs: Blocks, epilogue: int, listed: set<int>, heads: seq<int>, lists: seq<seq<int>>,
                    mini: int, minis: seq<int>, c: int, p: int)
    requires Tiling(bs, epilogue) && Aligned(bs, epilogue) && epilogue < |m1| < MAX_HEAP_WORDS && ListsFree(bs, listed)
    requires Indexed(m1, bs, listed, heads, lists, mini, minis) && 0 <= c < LENGTH
    requires FreeAt(bs, p) && p !in listed && InClass(bs, p, c)
    requires 0 <= p && p + 2 < |m1| && 0 <= heads[c] && heads[c] + 2 < |m1|
    ensures SameExceptLinks(m1, PushWords(m1, heads[c], p), bs, listed + {p})
    ensures Indexed(PushWords(m1, heads[c], p), bs, listed + {p}, heads[c := p], lists[c := Push(p, lists[c])],
                    mini, minis)
  {
    var s := lists[c];
    var t, m2 := Push(p, s), PushWords(m1, heads[c], p);
    PushPushed(p, s);
    HeadInList(m1, bs, listed, c, heads[c], s);
    assert ClassList(m2, bs, listed + {p}, c, p, t) by {
      PushedSpaced(m1, bs, epilogue, listed, c, heads[c], s, p, t);
      assert s != [] ==> t[1] == s[0] && t[0] == p;
      assert SizeAt(bs, p) > 0;
      PushClass(m1, m2, bs, listed, c, s, t, p);
    }
    assert SameExceptLinks(m1, m2, bs, listed + {p}) && SameLinks(m1, m2, bs, Off(listed, s)) by {
      var changed := if s == [] then {p} else {p, s[0]};
      LinkWords(bs, epilogue, changed, p);
      if s != [] {
        LinkWords(bs, epilogue, changed, s[0]);
      }
      LinksApart(m1, m2, bs, epilogue, changed, Off(listed, s));
    }
    ReindexClass(m1, m2, bs, listed, listed + {p}, heads, lists, mini, minis, p, c, p, t);
  }

  // The head of a list that is not empty is one of its blocks.
  lemma HeadInList(m: seq<Word>, bs: Blocks, listed: set<int>, c: int, head: int, s: seq<int>)
    requires ClassList(m, bs, listed, c, head, s)
    ensures head != NULL <==> s != []
    ensures s != [] ==> head == s[0] && head in s && head in listed
  {
    if s != [] {
      assert s[0] in s;
    }
  }

  // A head is NULL or a free block in the heap.
  lemma ClassHead(m: seq<Word>, bs: Blocks, epilogue: int, listed: set<int>, c: int, head: int, s: seq<int>)
    requires Tiling(bs, epilogue) && Aligned(bs, epilogue) && ListsFree(bs, listed)
             && ClassList(m, bs, listed, c, head, s)
    ensures head == NULL || (1 <= head && head + 4 <= epilogue)
    ensures head != NULL ==> head in listed
  {
    HeadInList(m, bs, listed, c, head, s);
    assert head + SizeAt(bs, head) <= epilogue || head !in bs;
  }

  lemma MiniHead(m: seq<Word>, bs: Blocks, listed: set<int>, head: int, s: seq<int>)
    requires MiniList(m, bs, listed, head, s)
    ensures head != NULL <==> s != []
    ensures head != NULL ==> head in listed && IsMini(bs, head) && 1 <= head && head + 2 < |m|
  {
    if s != [] {
      assert s[0] in s;
    }
  }

  // The words that a block of more than 16 bytes may use for links.
  lemma LinkWords(bs: Blocks, epilogue: int, s: set<int>, p: int)
    requires Tiling(bs, epilogue) && Aligned(bs, epilogue) && p in bs && p in s && !IsMini(bs, p)
    ensures IsLink(bs, s, p + PREV) && IsLink(bs, s, p + NEXT)
  {
    assert SizeAt(bs, p) >= 4;
  }

  lemma PushedSpaced(m: seq<Word>, bs: Blocks, epilogue: int, listed: set<int>, c: int, head: int, s: seq<int>, p: int,
                     t: seq<int>)
    requires Tiling(bs, epilogue) && Aligned(bs, epilogue) && ListsFree(bs, listed)
    requires ClassList(m, bs, listed, c, head, s) && FreeAt(bs, p) && InClass(bs, p, c) && Pushed(p, s, t)
    ensures Spaced(t, 4)
  {
    forall q | q in t ensures q in bs && 4 <= SizeAt(bs, q) {
      var k :| 0 <= k < |t| && t[k] == q;
      if k > 0 {
        assert s[k - 1] in s;
      }
      assert SizeAt(bs, q) >= MIN_WORDS;
    }
    BlocksSpaced(bs, epilogue, t, 4);
  }

  /** remove_free on the mini block minis[i]. */
  lemma RemoveMini(m1: seq<Word>, m2: seq<Word>, bs: Blocks, epilogue: int, listed: set<int>, heads: seq<int>,
                   lists: seq<seq<int>>, mini: int, minis: seq<int>, i: int)
    requires Tiling(bs, epilogue) && epilogue < |m1| && ListsFree(bs, listed)
    requires Indexed(m1, bs, listed, heads, lists, mini, minis) && 0 <= i < |minis|
    requires if i == 0 then m2 == m1 else m2 == m1[minis[i - 1] + MINI_NEXT := m1[minis[i] + MINI_NEXT]]
    ensures SameExceptLinks(m1, m2, bs, listed - {minis[i]})
    ensures Indexed(m2, bs, listed - {minis[i]}, heads, lists, if i == 0 then At(minis, 1) else mini, Without(minis, i))
  {
    var p, t := minis[i], Without(minis, i);
    WithoutOmits(minis, i);
    var changed := if i == 0 then {} else {minis[i - 1]};
    assert minis[i] in minis && (i > 0 ==> minis[i - 1] in minis);
    if i == 0 {
      UnlinkMiniHead(m1, bs, listed, minis, t);
    } else {
      assert SizeAt(bs, minis[i - 1]) == MIN_WORDS;
      UnlinkMini(m1, m2, bs, listed, minis, t, i);
    }
    assert SameExceptLinks(m1, m2, bs, changed);
    LinksApart(m1, m2, bs, epilogue, changed, Off(listed, minis));
    ReindexMini(m1, m2, bs, listed, listed - {p}, heads, lists, mini, minis, p,
                if i == 0 then At(minis, 1) else mini, t);
  }

  /** remove_free on the head of the list of class c. */
  lemma RemoveHead(m: seq<Word>, bs: Blocks, epilogue: int, listed: set<int>, heads: seq<int>, lists: seq<seq<int>>,
                   mini: int, minis: seq<int>, c: int)
    requires Tiling(bs, epilogue) && epilogue < |m| && ListsFree(bs, listed)
    requires Indexed(m, bs, listed, heads, lists, mini, minis) && 0 <= c < LENGTH && lists[c] != []
    ensures Indexed(m, bs, listed - {lists[c][0]}, heads[c := At(lists[c], 1)], lists[c := Without(lists[c], 0)],
                    mini, minis)
  {
    var s := lists[c];
    var p, t := s[0], Without(s, 0);
    WithoutOmits(s, 0);
    assert p in s && ClassList(m, bs, listed, c, heads[c], s);
    UnlinkHead(m, bs, listed, c, s, t);
    LinksApart(m, m, bs, epilogue, {}, Off(listed, s));
    ReindexClass(m, m, bs, listed, listed - {p}, heads, lists, mini, minis, p, c, At(s, 1), t);
  }

  // The writes of remove_free inside a class list.
  function SpliceWords(m: seq<Word>, prev: int, next: int): seq<Word>
    requires 0 <= prev && prev + 2 < |m| < MAX_HEAP_WORDS && 0 <= next && next + 2 < |m|
  {
    if next == NULL then m[prev + NEXT := Pointer(NULL)]
    else m[prev + NEXT := Pointer(next)][next + PREV := Pointer(prev)]
  }

  // m2 is m1 with the neighbours of s[i] linked to each other.
  ghost predicate Spliced(m1: seq<Word>, m2: seq<Word>, s: seq<int>, i: int)
    requires InHeap(m1, s) && 0 < i < |s| && 2 < |m1| < MAX_HEAP_WORDS
  {
    m2 == SpliceWords(m1, s[i - 1], At(s, i + 1))
  }

  // Splicing writes links of blocks that stay on the list.
  lemma SplicedLinks(m1: seq<Word>, m2: seq<Word>, bs: Blocks, epilogue: int, s: seq<int>, i: int, changed: set<int>)
    requires Tiling(bs, epilogue) && Aligned(bs, epilogue) && InHeap(m1, s) && 0 < i < |s| && 2 < |m1| < MAX_HEAP_WORDS
    requires Spliced(m1, m2, s, i)
    requires forall p :: p in s ==> p in bs && !IsMini(bs, p)
    requires changed == set q | q in Without(s, i)
    ensures SameExceptLinks(m1, m2, bs, changed)
  {
    var t := Without(s, i);
    WithoutOmits(s, i);
    assert t[i - 1] == s[i - 1] && s[i - 1] in s;
    LinkWords(bs, epilogue, changed, s[i - 1]);
    if i + 1 < |s| {
      assert t[i] == s[i + 1] && s[i + 1] in s;
      LinkWords(bs, epilogue, changed, s[i + 1]);
    }
  }

  /** remove_free on the block lists[c][i], inside or at the end of its list. */
  lemma RemoveInner(m1: seq<Word>, m2: seq<Word>, bs: Blocks, epilogue: int, listed: set<int>, heads: seq<int>,
                    lists: seq<seq<int>>, mini: int, minis: seq<int>, c: int, i: int)
    requires Tiling(bs, epilogue) && Aligned(bs, epilogue) && epilogue < |m1| && ListsFree(bs, listed)
    requires Indexed(m1, bs, listed, heads, lists, mini, minis) && 0 <= c < LENGTH && 0 < i < |lists[c]|
    requires InHeap(m1, lists[c]) && 2 < |m1| < MAX_HEAP_WORDS && Spliced(m1, m2, lists[c], i)
    ensures SameExceptLinks(m1, m2, bs, listed - {lists[c][i]})
    ensures Indexed(m2, bs, listed - {lists[c][i]}, heads, lists[c := Without(lists[c], i)], mini, minis)
  {
    var s := lists[c];
    var p, t := s[i], Without(s, i);
    WithoutOmits(s, i);
    assert p in s;
    assert ClassList(m2, bs, listed - {p}, c, heads[c], t) by {
      ClassSpaced(m1, bs, epilogue, listed, c, heads[c], s);
      UnlinkInner(m1, m2, bs, listed, c, s, t, i);
    }
    assert SameExceptLinks(m1, m2, bs, listed - {p}) && SameLinks(m1, m2, bs, Off(listed, s)) by {
      var changed := set q | q in t;
      OmitsMembers(s, t, i);
      SplicedLinks(m1, m2, bs, epilogue, s, i, changed);
      LinksApart(m1, m2, bs, epilogue, changed, Off(listed, s));
    }
    assert heads[c := heads[c]] == heads;
    ReindexClass(m1, m2, bs, listed, listed - {p}, heads, lists, mini, minis, p, c, heads[c], t);
  }

  // Following the links of a list.
  lemma NextLink(m: seq<Word>, s: seq<int>, i: int, next: int)
    requires InHeap(m, s) && 0 <= next <= 2 && Linked(m, s, next) && 0 <= i < |s|
    ensures AddressOf(m[s[i] + next]) == At(s, i + 1)
    ensures At(s, i + 1) == NULL <==> i + 1 == |s|
  {
  }

  // What a list without its block i is.
  lemma MinusWithout(s: seq<int>, i: int)
    requires 0 <= i < |s| && Distinct(s)
    ensures Minus(s, s[i]) == Without(s, i)
  {
    assert s[i] in s;
  }

  lemma PushedMinus(p: int, s: seq<int>)
    requires p !in s
    ensures Minus(Push(p, s), p) == s
  {
    var t := Push(p, s);
    assert t[0] == p && t[1..] == s;
    assert t[..0] + t[1..] == s;
  }

  // Putting a block on its list and taking it off again.
  lemma TakenAdded(ix: Index, n: int, p: int)
    requires p !in ix.minis && forall c {:trigger ix.lists[c]} :: 0 <= c < |ix.lists| ==> p !in ix.lists[c]
    ensures Taken(Added(ix, n, p), n, p) == ix
  {
    PushedMinus(p, ix.minis);
    var c := FindClass(8 * n);
    if c < |ix.lists| {
      PushedMinus(p, ix.lists[c]);
    }
  }

  // Where p stands in s.
  ghost function Position(s: seq<int>, p: int): (i: int)
    requires p in s
    ensures 0 <= i < |s| && s[i] == p
  {
    var i :| 0 <= i < |s| && s[i] == p;
    i
  }

  // Where a listed block that is not mini stands, and what its links say.
  lemma ClassPosition(m: seq<Word>, bs: Blocks, epilogue: int, listed: set<int>, heads: seq<int>, lists: seq<seq<int>>,
                      mini: int, minis: seq<int>, p: int, c: int) returns (i: int)
    requires Indexed(m, bs, listed, heads, lists, mini, minis) && 2 < |m|
    requires p in listed && InClass(bs, p, c) && 0 <= c < LENGTH
    ensures 0 <= i < |lists[c]| && lists[c][i] == p && InHeap(m, lists[c]) && 1 <= p && p + 2 < |m|
    ensures p == heads[c] <==> i == 0
    ensures AddressOf(m[p + NEXT]) == At(lists[c], i + 1) && At(lists[c], i + 1) + 2 < |m|
    ensures i > 0 ==> AddressOf(m[p + PREV]) == lists[c][i - 1] && lists[c][i - 1] + 2 < |m|
    ensures Minus(lists[c], p) == Without(lists[c], i)
  {
    var s := lists[c];
    assert ClassList(m, bs, listed, c, heads[c], s) && p in s;
    i :| 0 <= i < |s| && s[i] == p;
    NextLink(m, s, i, NEXT);
    MinusWithout(s, i);
  }
}
