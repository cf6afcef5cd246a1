/** The sparse memory of memlib.c: a hash table of pages that stands for a flat address space.  Addresses are byte
    offsets from the start of the sparse heap.  The pages lie in one block of memory, so a pointer to a page is its
    number in that block; ids, links, bytes and initialisation marks of all pages are one array each. */
module SparseMemory {
  import opened LittleEndian

  const PAGE_SIZE := 1024

  // The null pointer of page_table and of the chains.
  const NO_PAGE := -1

  // ------------------------------------------------------------------ a flat memory

  // The bytes that have been written since the last reset.
  type Flat = map<int, Byte>

  ghost predicate AllKnown(known: Flat, a: int, n: int) {
    forall x {:trigger x in known} :: a <= x < a + n ==> x in known
  }

  // The n bytes from address a on.
  ghost function Range(known: Flat, a: int, n: nat): (s: seq<Byte>)
    requires AllKnown(known, a, n)
    ensures |s| == n
  {
    if n == 0 then [] else Range(known, a, n - 1) + [known[a + n - 1]]
  }

  lemma {:induction false} RangeIs(known: Flat, a: int, s: seq<Byte>)
    requires AllKnown(known, a, |s|) && forall i {:trigger s[i]} :: 0 <= i < |s| ==> s[i] == known[a + i]
    ensures Range(known, a, |s|) == s
    decreases |s|
  {
    if s != [] {
      var rest := s[..|s| - 1];
      assert forall i {:trigger rest[i]} :: 0 <= i < |rest| ==> rest[i] == s[i];
      RangeIs(known, a, rest);
    }
  }

  // The memory with the bytes s written from address a on.
  ghost function Overlay(known: Flat, a: int, s: seq<Byte>): (r: Flat)
    ensures forall x {:trigger x in r} :: x in r <==> x in known || a <= x < a + |s|
    ensures forall x {:trigger r[x]} :: x in r ==> r[x] == if a <= x < a + |s| then s[x - a] else known[x]
  {
    OverlayFirst(known, a, s, |s|)
  }

  // The same for the first n of the bytes.
  ghost function OverlayFirst(known: Flat, a: int, s: seq<Byte>, n: nat): (r: Flat)
    requires n <= |s|
    ensures forall x {:trigger x in r} :: x in r <==> x in known || a <= x < a + n
    ensures forall x {:trigger r[x]} :: x in r ==> r[x] == if a <= x < a + n then s[x - a] else known[x]
  {
    if n == 0 then known else OverlayFirst(known, a, s, n - 1)[a + n - 1 := s[n - 1]]
  }

  lemma OverlayAppend(known: Flat, a: int, s: seq<Byte>, t: seq<Byte>)
    ensures Overlay(Overlay(known, a, s), a + |s|, t) == Overlay(known, a, s + t)
  {
  }

  // Writing a range again forgets what was written there before.
  lemma OverlayAgain(known: Flat, a: int, s: seq<Byte>, t: seq<Byte>)
    requires |s| == |t|
    ensures Overlay(Overlay(known, a, s), a, t) == Overlay(known, a, t)
  {
  }

  /** The number read from some bytes has them as its digits, the first one with weight 1. */
  lemma {:induction false} RangeDigits(known: Flat, a: int, n: nat)
    requires AllKnown(known, a, n)
    ensures forall x {:trigger x in known} :: a <= x < a + n ==>
              x in known && Join(Range(known, a, n)) / Power(x - a) % 256 == known[x]
    ensures n == 1 ==> Join(Range(known, a, n)) == known[a]
  {
    forall x {:trigger x in known} | a <= x < a + n
      ensures x in known && Join(Range(known, a, n)) / Power(x - a) % 256 == known[x]
    {
      RangeAt(known, a, n, x - a);
      JoinDigit(Range(known, a, n), x - a);
    }
    if n == 1 {
      RangeAt(known, a, 1, 0);
      assert Range(known, a, 1)[1..] == [];
    }
  }

  lemma {:induction false} RangeAt(known: Flat, a: int, n: nat, i: nat)
    requires AllKnown(known, a, n) && i < n
    ensures a + i in known && Range(known, a, n)[i] == known[a + i]
  {
    if i < n - 1 {
      RangeAt(known, a, n - 1, i);
    }
  }

  /** And the bytes written are the digits of the value. */
  lemma {:induction false} OverlayDigits(known: Flat, a: int, val: nat, n: nat)
    ensures var now := Overlay(known, a, Bytes(val, n));
            forall x {:trigger x in now} :: a <= x < a + n ==> x in now && now[x] == val / Power(x - a) % 256
  {
    var now := Overlay(known, a, Bytes(val, n));
    forall x {:trigger x in now} | a <= x < a + n ensures x in now && now[x] == val / Power(x - a) % 256 {
      BytesDigit(val, n, x - a);
    }
  }

  // ------------------------------------------------------------------ pages

  /** A page has 1024 bytes. */
  lemma PageBounds(a: int)
    ensures 1024 * PageId(a) <= a < 1024 * PageId(a) + 1024 && PageStart(PageId(a)) == 1024 * PageId(a)
  {
  }

  function PageId(a: int): int {
    a / PAGE_SIZE
  }

  function PageStart(id: int): int {
    id * PAGE_SIZE
  }

  // Where the byte at address a is kept, when page p holds it.
  function Slot(p: int, a: int): int {
    PAGE_SIZE * p + a % PAGE_SIZE
  }

  function Entry(s: seq<int>, i: int): int {
    if 0 <= i < |s| then s[i] else NO_PAGE
  }

  /** s is the chain of bucket b: it holds exactly the pages in use whose id falls into the bucket, each once. */
  ghost predicate Chain(s: seq<int>, head: int, next: seq<int>, ids: seq<int>, used: int, b: int, buckets: int)
    requires 0 <= used <= |next| == |ids| && 0 < buckets
  {
    && head == Entry(s, 0)
    && (forall i {:trigger s[i]} :: 0 <= i < |s| ==> 0 <= s[i] < used)
    && (forall i, j {:trigger s[i], s[j]} :: 0 <= i && j == i + 1 && j < |s| ==> next[s[i]] == s[j])
    && (s != [] ==> next[s[|s| - 1]] == NO_PAGE)
    && (forall i, j {:trigger s[i], s[j]} :: 0 <= i < j < |s| ==> s[i] != s[j])
    && (forall p {:trigger p in s} :: p in s <==> 0 <= p < used && ids[p] % buckets == b)
  }

  lemma NextInChain(s: seq<int>, head: int, next: seq<int>, ids: seq<int>, used: int, b: int, buckets: int, i: int)
    requires 0 <= used <= |next| == |ids| && 0 < buckets && Chain(s, head, next, ids, used, b, buckets) && 0 <= i < |s|
    ensures 0 <= s[i] < used && next[s[i]] == Entry(s, i + 1)
  {
  }

  ghost predicate Chains(chains: seq<seq<int>>, table: seq<int>, next: seq<int>, ids: seq<int>, used: int)
    requires 0 <= used <= |next| == |ids| && 0 < |table|
  {
    && |chains| == |table|
    && forall b {:trigger chains[b]} :: 0 <= b < |table| ==> Chain(chains[b], table[b], next, ids, used, b, |table|)
  }

  // The page that holds an id.
  ghost predicate Located(ids: seq<int>, used: int, where: map<int, int>)
    requires 0 <= used <= |ids|
  {
    && (forall id {:trigger id in where} :: id in where ==> 0 <= id && 0 <= where[id] < used && ids[where[id]] == id)
    && (forall p {:trigger ids[p]} :: 0 <= p < used ==> ids[p] in where && where[ids[p]] == p)
  }

  // The byte at address a is known when its page is in use and it is marked there, and then it is the byte kept there.
  ghost predicate Cell(bytes: seq<Byte>, marks: seq<bool>, where: map<int, int>, known: Flat, a: int) {
    && (a in known ==> PageId(a) in where)
    && (PageId(a) in where ==>
          var t := Slot(where[PageId(a)], a);
          0 <= t < |bytes| && t < |marks| && (a in known <==> marks[t]) && (a in known ==> known[a] == bytes[t]))
  }

  /** The marks and bytes of the pages are those of the flat memory. */
  ghost predicate Stored(bytes: seq<Byte>, marks: seq<bool>, where: map<int, int>, known: Flat) {
    forall a {:trigger Cell(bytes, marks, where, known, a)} :: Cell(bytes, marks, where, known, a)
  }

  ghost function TotalLength(chains: seq<seq<int>>): nat {
    if chains == [] then 0 else |chains[0]| + TotalLength(chains[1..])
  }

  lemma {:induction false} TotalLengthGrows(chains: seq<seq<int>>, b: int, s: seq<int>)
    requires 0 <= b < |chains| && |s| == |chains[b]| + 1
    ensures TotalLength(chains[b := s]) == TotalLength(chains) + 1
  {
    var after := chains[b := s];
    if b == 0 {
      assert after[1..] == chains[1..];
    } else {
      assert after[1..] == chains[1..][b - 1 := s];
      TotalLengthGrows(chains[1..], b - 1, s);
    }
  }

  class SparseMemory {
    const pageTable: array<int>
    const ids: array<int>
    const next: array<int>
    const marks: array<bool>
    const bytes: array<Byte>
    const limit: int

    // The break, and the pages used so far.
    var brk: int
    var nextFreePage: int
    var numFreePages: int

    ghost var chains: seq<seq<int>>
    ghost var where: map<int, int>
    ghost var known: Flat

    ghost predicate Shaped()
      reads this
    {
      && pageTable != ids && pageTable != next && ids != next
      && 0 < pageTable.Length && ids.Length == next.Length
      && marks.Length == bytes.Length == PAGE_SIZE * ids.Length
    }

    /** The table is consistent, and the pages in use hold exactly the bytes of the flat memory `known`. */
    ghost predicate Valid()
      reads this, pageTable, ids, next, marks, bytes
    {
      && Shaped()
      && 0 <= nextFreePage <= ids.Length && nextFreePage + numFreePages == ids.Length && 0 <= brk <= limit
      && Located(ids[..], nextFreePage, where)
      && Chains(chains, pageTable[..], next[..], ids[..], nextFreePage)
      && TotalLength(chains) == nextFreePage
      && Stored(bytes[..], marks[..], where, known)
    }

    constructor (numPages: nat, numBuckets: nat, limit: int)
      requires 0 < numBuckets && 0 <= limit
      ensures Shaped() && ids.Length == numPages && this.limit == limit
    {
      pageTable := new int[numBuckets];
      ids := new int[numPages];
      next := new int[numPages];
      marks := new bool[PAGE_SIZE * numPages];
      bytes := new Byte[PAGE_SIZE * numPages];
      this.limit := limit;
      brk, nextFreePage, numFreePages := 0, 0, 0;
    }

    /** mem_reset_brk: no page is in use and nothing is known, whatever the pages still contain. */
    method ResetBrk()
      requires Shaped() && 0 <= limit
      modifies this, pageTable
      ensures Valid() && known == map[] && brk == 0 && numFreePages == ids.Length
    {
      for b := 0 to pageTable.Length
        invariant forall c :: 0 <= c < b ==> pageTable[c] == NO_PAGE
      {
        pageTable[b] := NO_PAGE;
      }
      nextFreePage, numFreePages := 0, ids.Length;
      brk := 0;
      chains, where, known := EmptyChains(pageTable.Length), map[], map[];
      NoChains(pageTable.Length);
    }

    /** mem_sbrk: the break moves up unless the step is negative or would pass the limit. */
    method Sbrk(incr: int) returns (r: int)
      requires Valid()
      modifies this`brk
      ensures Valid()
      ensures if r == -1 then brk == old(brk) else r == old(brk) && brk == old(brk) + incr
      ensures r == -1 <==> incr < 0 || old(brk) + incr > limit
    {
      if incr < 0 {
        return -1;
      }
      if brk + incr > limit {
        return -1;
      }
      r := brk;
      brk := brk + incr;
    }

    // The first loop of get_mem: the page with the id, or NO_PAGE when there is none.
    method Lookup(id: int) returns (block: int)
      requires Valid() && 0 <= id
      ensures block == if id in where then where[id] else NO_PAGE
    {
      var b := id % pageTable.Length;
      ghost var s, i := chains[b], 0;
      block := pageTable[b];
      while block != NO_PAGE && ids[block] != id
        invariant 0 <= i <= |s| && block == Entry(s, i)
        invariant forall j {:trigger s[j]} :: 0 <= j < i ==> ids[s[j]] != id
        decreases |s| - i
      {
        NextInChain(s, pageTable[b], next[..], ids[..], nextFreePage, b, pageTable.Length, i);
        block := next[block];
        i := i + 1;
      }
      if id in where {
        assert where[id] in s;
      }
    }

    /** The part of get_mem that finds or makes the page with an id; it fails when a page is needed and none is left. */
    method FindPage(id: int) returns (block: int)
      requires Valid() && 0 <= id
      modifies this`nextFreePage, this`numFreePages, this`chains, this`where, pageTable, ids, next, marks
      ensures Valid() && (block != NO_PAGE ==> id in where && block == where[id])
      ensures block == NO_PAGE <==> id !in old(where) && old(numFreePages) == 0
      ensures block != NO_PAGE ==> where.Keys == old(where.Keys) + {id}
      ensures id in old(where) ==> where == old(where)
      ensures block != NO_PAGE ==> numFreePages == old(numFreePages) - Missing(old(where), id)
    {
      block := Lookup(id);
      if block == NO_PAGE {
        if numFreePages == 0 {
          return NO_PAGE;
        }
        block := NewPage(id);
      }
    }

    // A fresh page for an id that has none, at the head of its chain.
    method NewPage(id: int) returns (block: int)
      requires Valid() && 0 <= id && id !in where && 0 < numFreePages
      modifies this`nextFreePage, this`numFreePages, this`chains, this`where, pageTable, ids, next, marks
      ensures Valid() && block == old(nextFreePage) && numFreePages == old(numFreePages) - 1
      ensures where == old(where)[id := block]
    {
      ghost var table1, next1, ids1, marks1, bytes1 := pageTable[..], next[..], ids[..], marks[..], bytes[..];
      ghost var b := id % pageTable.Length;
      block := nextFreePage;
      nextFreePage := nextFreePage + 1;
      numFreePages := numFreePages - 1;
      LinkPage(block, id);
      assert marks[..] == marks1 && bytes[..] == bytes1;
      ClearMarks(block);
      Pushed(chains, table1, next1, ids1, block, b, id);
      LocatedMore(ids1, where, block, id);
      TotalLengthGrows(chains, b, [block] + chains[b]);
      FreshPage(bytes1, marks1, marks[..], where, block, known, id);
      chains, where := chains[b := [block] + chains[b]], where[id := block];
      assert bytes[..] == bytes1;
    }

    // The page `block` gets an id and becomes the head of the id's chain.
    method LinkPage(block: int, id: int)
      requires Shaped() && 0 <= block < ids.Length && 0 <= id
      modifies pageTable, ids, next
      ensures var b := id % pageTable.Length;
              && ids[..] == old(ids[..])[block := id] && next[..] == old(next[..])[block := old(pageTable[b])]
              && pageTable[..] == old(pageTable[..])[b := block]
    {
      var b := id % pageTable.Length;
      ids[block] := id;
      next[block] := pageTable[b];
      pageTable[b] := block;
    }

    // No byte of the page is initialised.
    method ClearMarks(block: int)
      requires Shaped() && 0 <= block < ids.Length
      modifies marks
      ensures forall t {:trigger marks[t]} :: 0 <= t < marks.Length ==>
                marks[t] == if PAGE_SIZE * block <= t < PAGE_SIZE * (block + 1) then false else old(marks[t])
    {
      for i := 0 to PAGE_SIZE
        invariant forall t {:trigger marks[t]} :: 0 <= t < marks.Length ==>
                    marks[t] == if PAGE_SIZE * block <= t < PAGE_SIZE * block + i then false else old(marks[t])
      {
        marks[PAGE_SIZE * block + i] := false;
      }
    }

    // ---------------------------------------------------------------- access

    // How far an access of `size` bytes at address a reaches within the page of a.
    function Within(a: int, size: int): int {
      if a % PAGE_SIZE + size <= PAGE_SIZE then size else PAGE_SIZE - a % PAGE_SIZE
    }

    // The second loop of get_mem on a write: it marks the bytes of the access up to the end of the page.
    method MarkBytes(start: int, offset: int, size: int)
      requires 0 <= start && 0 <= offset < PAGE_SIZE && 0 < size && start + PAGE_SIZE - offset <= marks.Length
      modifies marks
      ensures forall t {:trigger marks[t]} :: 0 <= t < marks.Length ==>
                marks[t] == (old(marks[t]) || start <= t < start + Within(offset, size))
    {
      for i := 0 to size
        invariant offset + i < PAGE_SIZE
        invariant forall t {:trigger marks[t]} :: 0 <= t < marks.Length ==>
                    marks[t] == (old(marks[t]) || start <= t < start + i)
      {
        marks[start + i] := true;
        if offset + i + 1 == PAGE_SIZE {
          break;
        }
      }
    }

    // The second loop of get_mem on a read: it fails when a byte of the access has not been written.
    method CheckBytes(start: int, offset: int, size: int) returns (ok: bool)
      requires 0 <= start && 0 <= offset < PAGE_SIZE && 0 < size && start + PAGE_SIZE - offset <= marks.Length
      ensures ok <==> forall t {:trigger marks[t]} :: start <= t < start + Within(offset, size) ==> marks[t]
    {
      for i := 0 to size
        invariant offset + i < PAGE_SIZE
        invariant forall t {:trigger marks[t]} :: start <= t < start + i ==> marks[t]
      {
        if !marks[start + i] {
          return false;
        }
        if offset + i + 1 == PAGE_SIZE {
          break;
        }
      }
      return true;
    }

    /** get_mem for a write: where the byte at address a is kept; the bytes of the access count as known from now on,
        with whatever value they have.  NO_PAGE when the pages are used up. */
    method GetMemToWrite(a: int, size: int) returns (start: int)
      requires Valid() && 0 <= a && 0 < size
      modifies this`nextFreePage, this`numFreePages, this`chains, this`where, this`known, pageTable, ids, next, marks
      ensures Valid()
      ensures start == NO_PAGE <==> PageId(a) !in old(where) && old(numFreePages) == 0
      ensures start != NO_PAGE ==>
                PageId(a) in where && start == Slot(where[PageId(a)], a) && 0 <= start
                && start + Within(a, size) <= bytes.Length
                && known == Overlay(old(known), a, bytes[start..start + Within(a, size)])
      ensures start != NO_PAGE ==> where.Keys == old(where.Keys) + {PageId(a)}
      ensures start != NO_PAGE ==> numFreePages == old(numFreePages) - Missing(old(where), PageId(a))
    {
      var id := PageId(a);
      var block := FindPage(id);
      if block == NO_PAGE {
        return NO_PAGE;
      }
      start := MarkAccess(block, a, size);
    }

    method MarkAccess(block: int, a: int, size: int) returns (start: int)
      requires Valid() && 0 <= a && 0 < size && PageId(a) in where && where[PageId(a)] == block
      modifies this`known, marks
      ensures Valid() && start == Slot(block, a) && 0 <= start && start + Within(a, size) <= bytes.Length
      ensures known == Overlay(old(known), a, bytes[start..start + Within(a, size)])
    {
      var offset := a - PageStart(PageId(a));
      start := PAGE_SIZE * block + offset;
      ghost var marks1, all, n := marks[..], bytes[..], Within(a, size);
      MarkBytes(start, offset, size);
      assert bytes[..] == all;
      Marked(all, marks1, marks[..], ids[..], where, nextFreePage, known, a, n);
      known := Overlay(known, a, all[start..start + n]);
      assert all[start..start + n] == bytes[start..start + n];
    }

    /** get_mem for a read: NO_PAGE unless all bytes of the access within the page of a have been written. */
    method GetMemToRead(a: int, size: int) returns (start: int)
      requires Valid() && 0 <= a && 0 < size
      modifies this`nextFreePage, this`numFreePages, this`chains, this`where, pageTable, ids, next, marks
      ensures Valid()
      ensures start != NO_PAGE <==> AllKnown(known, a, Within(a, size))
      ensures start != NO_PAGE ==>
                0 <= start && start + PAGE_SIZE - a % PAGE_SIZE <= bytes.Length && where == old(where)
                && Range(known, a, Within(a, size)) == bytes[start..start + Within(a, size)]
    {
      var id := PageId(a);
      assert Cell(bytes[..], marks[..], where, known, a) && (a in known || !AllKnown(known, a, Within(a, size)));
      var block := FindPage(id);
      if block == NO_PAGE {
        return NO_PAGE;
      }
      start := CheckAccess(block, a, size);
    }

    method CheckAccess(block: int, a: int, size: int) returns (start: int)
      requires Valid() && 0 <= a && 0 < size && PageId(a) in where && where[PageId(a)] == block
      ensures start != NO_PAGE <==> AllKnown(known, a, Within(a, size))
      ensures start != NO_PAGE ==>
                0 <= start && start + PAGE_SIZE - a % PAGE_SIZE <= bytes.Length
                && Range(known, a, Within(a, size)) == bytes[start..start + Within(a, size)]
    {
      var offset := a - PageStart(PageId(a));
      start := PAGE_SIZE * block + offset;
      Held(bytes[..], marks[..], ids[..], where, nextFreePage, known, a, Within(a, size));
      assert start + PAGE_SIZE - a % PAGE_SIZE == PAGE_SIZE * (block + 1);
      var ok := CheckBytes(start, offset, size);
      if !ok {
        return NO_PAGE;
      }
    }

    // memcpy of the bytes s to the bytes from `start` on.
    method CopyIn(start: int, s: seq<Byte>)
      requires 0 <= start && start + |s| <= bytes.Length
      modifies bytes
      ensures forall t {:trigger bytes[t]} :: 0 <= t < bytes.Length ==>
                bytes[t] == if start <= t < start + |s| then s[t - start] else old(bytes[t])
    {
      for i := 0 to |s|
        invariant forall t {:trigger bytes[t]} :: 0 <= t < bytes.Length ==>
                    bytes[t] == if start <= t < start + i then s[t - start] else old(bytes[t])
      {
        bytes[start + i] := s[i];
      }
    }

    // The bytes s go where the marked bytes from address a on are kept.
    method StoreBytes(start: int, s: seq<Byte>, ghost a: int)
      requires Valid() && 0 <= a && 0 < |s| && a % PAGE_SIZE + |s| <= PAGE_SIZE
      requires PageId(a) in where && start == Slot(where[PageId(a)], a) && AllKnown(known, a, |s|)
      modifies this`known, bytes
      ensures Valid() && known == Overlay(old(known), a, s)
    {
      ghost var bytes1, marks1, ids1 := bytes[..], marks[..], ids[..];
      ghost var table1, next1 := pageTable[..], next[..];
      Held(bytes1, marks1, ids1, where, nextFreePage, known, a, |s|);
      CopyIn(start, s);
      assert marks[..] == marks1 && ids[..] == ids1 && pageTable[..] == table1 && next[..] == next1;
      Rewritten(bytes1, bytes[..], marks1, ids1, where, nextFreePage, known, a, s);
      known := Overlay(known, a, s);
    }

    // A 64-bit load at byte `start`, `offset` bytes into its page.  What lies behind the page is not specified.
    method Load(start: int, offset: int) returns (v: nat, ghost s: seq<Byte>)
      requires Shaped() && 0 <= offset < PAGE_SIZE && 0 <= start && start + PAGE_SIZE - offset <= bytes.Length
      ensures |s| == 8 && v == Join(s)
      ensures forall i {:trigger s[i]} :: 0 <= i < 8 && offset + i < PAGE_SIZE ==> s[i] == bytes[start + i]
    {
      var word: seq<Byte> := [];
      for i := 0 to 8
        invariant |word| == i
        invariant forall j {:trigger word[j]} :: 0 <= j < i && offset + j < PAGE_SIZE ==> word[j] == bytes[start + j]
      {
        var byte: Byte := *;
        if offset + i < PAGE_SIZE {
          byte := bytes[start + i];
        }
        word := word + [byte];
      }
      v, s := Join(word), word;
    }

    /** mem_write of the len low bytes of val: as one overlay on the flat memory, across a page boundary or not.  It
        fails exactly when there are fewer free pages than pages of the access that are not in use yet. */
    method Write(a: int, val: nat, len: int) returns (ok: bool)
      requires Valid() && 0 <= a && 1 <= len <= 8 && a + len <= brk
      modifies this`nextFreePage, this`numFreePages, this`chains, this`where, this`known, pageTable, ids, next, marks,
               bytes
      ensures Valid() && (ok ==> known == Overlay(old(known), a, Bytes(val, len)))
      ensures ok ==> where.Keys == old(where.Keys) + {PageId(a), PageId(a + len - 1)}
      ensures ok <==> NewPages(old(where), a, len) <= old(numFreePages)
      ensures ok ==> forall x {:trigger x in known} :: a <= x < a + len ==>
                       x in known && known[x] == val / Power(x - a) % 256
    {
      ghost var before := known;
      OverlayDigits(before, a, val, len);
      var src := Bytes(val, 8);
      BytesPrefix(val, len, 8);
      var llen := PAGE_SIZE - (a - PageStart(PageId(a)));
      if llen < len {
        ok := WriteTwo(a, src[..llen], src[llen..len]);
        assert src[..llen] + src[llen..len] == src[..len];
      } else {
        ok := WriteOne(a, src[..len]);
      }
    }

    // A write within one page.
    method WriteOne(a: int, s: seq<Byte>) returns (ok: bool)
      requires Valid() && 0 <= a && 1 <= |s| && a % PAGE_SIZE + |s| <= PAGE_SIZE
      modifies this`nextFreePage, this`numFreePages, this`chains, this`where, this`known, pageTable, ids, next, marks,
               bytes
      ensures Valid() && (ok ==> known == Overlay(old(known), a, s))
      ensures ok <==> Missing(old(where), PageId(a)) <= old(numFreePages)
      ensures ok ==> where.Keys == old(where.Keys) + {PageId(a)}
      ensures ok ==> numFreePages == old(numFreePages) - Missing(old(where), PageId(a))
    {
      var start := GetMemToWrite(a, |s|);
      if start == NO_PAGE {
        return false;
      }
      OverlayAgain(old(known), a, bytes[start..start + |s|], s);
      StoreBytes(start, s, a);
      return true;
    }

    // A write to the end of one page and the start of the next.
    method WriteTwo(a: int, low: seq<Byte>, high: seq<Byte>) returns (ok: bool)
      requires Valid() && 0 <= a && 1 <= |low| && a % PAGE_SIZE + |low| == PAGE_SIZE && 1 <= |high| <= PAGE_SIZE
      modifies this`nextFreePage, this`numFreePages, this`chains, this`where, this`known, pageTable, ids, next, marks,
               bytes
      ensures Valid() && (ok ==> known == Overlay(old(known), a, low + high))
      ensures ok ==> where.Keys == old(where.Keys) + {PageId(a), PageId(a) + 1}
      ensures ok <==> Missing(old(where), PageId(a)) + Missing(old(where), PageId(a) + 1) <= old(numFreePages)
    {
      ghost var known1 := known;
      NextPage(a, |low|);
      OverlayAppend(known1, a, low, high);
      ok := WriteOne(a, low);
      if ok {
        ok := WriteOne(a + |low|, high);
      }
    }

    /** mem_read: succeeds exactly when all bytes have been written, and gives the last ones, least significant first
        and extended with zeros. */
    method Read(a: int, len: int) returns (ok: bool, data: nat)
      requires Valid() && 0 <= a && 1 <= len <= 8 && a + len <= brk
      modifies this`nextFreePage, this`numFreePages, this`chains, this`where, pageTable, ids, next, marks
      ensures Valid()
      ensures ok <==> AllKnown(known, a, len)
      ensures ok ==> data == Join(Range(known, a, len)) && where == old(where)
      ensures ok ==> forall x {:trigger x in known} :: a <= x < a + len ==>
                       x in known && data / Power(x - a) % 256 == known[x]
      ensures ok && len == 1 ==> a in known && data == known[a]
    {
      ghost var z;
      ok, data, z := LoadWithin(a, len);
      if ok && PageId(a) != PageId(a + len - 1) {
        ok, data, z := LoadRest(a, len, data, z);
      }
      if !ok {
        return false, 0;
      }
      data := Truncate(data, len, z);
      assert data == Join(Range(known, a, len));
      RangeDigits(known, a, len);
    }

    // The second half of a read that crosses into the next page.
    method LoadRest(a: int, len: int, low: nat, ghost x: seq<Byte>) returns (ok: bool, data: nat, ghost z: seq<Byte>)
      requires Valid() && 0 <= a && 1 <= len <= 8 && PAGE_SIZE < a % PAGE_SIZE + len && |x| == 8 && low == Join(x)
      requires AllKnown(known, a, Within(a, len)) && x[..Within(a, len)] == Range(known, a, Within(a, len))
      modifies this`nextFreePage, this`numFreePages, this`chains, this`where, pageTable, ids, next, marks
      ensures Valid() && (ok <==> AllKnown(known, a, len)) && |z| == 8 && data == Join(z)
              && (ok ==> where == old(where))
      ensures ok ==> z[..len] == Range(known, a, len)
    {
      var llen := PAGE_SIZE - (a - PageStart(PageId(a)));
      NextPage(a, llen);
      var hdata;
      ghost var y;
      ok, hdata, y := LoadWithin(a + llen, len - llen);
      data := Stitch(low, hdata, llen, x, y);
      z := x[..llen] + y[..8 - llen];
      BothParts(known, a, llen, len, x, y);
    }

    // The load of an access, as far as it lies in the page of a.
    method LoadWithin(a: int, size: int) returns (ok: bool, data: nat, ghost s: seq<Byte>)
      requires Valid() && 0 <= a && 1 <= size <= 8
      modifies this`nextFreePage, this`numFreePages, this`chains, this`where, pageTable, ids, next, marks
      ensures Valid() && (ok <==> AllKnown(known, a, Within(a, size))) && (ok ==> where == old(where))
      ensures |s| == 8 && data == Join(s) && (ok ==> s[..Within(a, size)] == Range(known, a, Within(a, size)))
    {
      var start := GetMemToRead(a, size);
      if start == NO_PAGE {
        JoinZeros(8);
        return false, 0, Zeros(8);
      }
      data, s := Load(start, a - PageStart(PageId(a)));
      return true, data, s;
    }
  }

  // The word whose k low bytes come from data and whose others are the low ones of hdata.
  method Stitch(data: nat, hdata: nat, k: nat, ghost x: seq<Byte>, ghost y: seq<Byte>) returns (r: nat)
    requires |x| == |y| == 8 && k <= 8 && data == Join(x) && hdata == Join(y)
    ensures r == Join(x[..k] + y[..8 - k])
  {
    Stitched(x, y, k);
    r := data % Power(k) + (Power(k) * hdata) % Power(8);
  }

  method Truncate(data: nat, len: nat, ghost z: seq<Byte>) returns (r: nat)
    requires |z| == 8 && len <= 8 && data == Join(z)
    ensures r == Join(z[..len])
  {
    r := data;
    if len < 8 {
      JoinMod(z, len);
      r := r % Power(len);
    } else {
      assert z[..len] == z;
    }
  }

  // What follows the end of a page is the start of the next one.
  lemma NextPage(a: int, n: int)
    requires 0 <= a && a % PAGE_SIZE + n == PAGE_SIZE
    ensures PageId(a + n) == PageId(a) + 1 && (a + n) % PAGE_SIZE == 0
  {
  }

  // The words loaded from two pages together hold the whole range.
  lemma {:induction false} BothParts(known: Flat, a: int, k: int, n: int, x: seq<Byte>, y: seq<Byte>)
    requires 0 <= k <= n <= 8 && |x| == |y| == 8 && AllKnown(known, a, k) && x[..k] == Range(known, a, k)
    requires AllKnown(known, a + k, n - k) ==> y[..n - k] == Range(known, a + k, n - k)
    ensures AllKnown(known, a, n) <==> AllKnown(known, a + k, n - k)
    ensures AllKnown(known, a, n) ==> (x[..k] + y[..8 - k])[..n] == Range(known, a, n)
  {
    RangeSplit(known, a, k, n);
    assert (x[..k] + y[..8 - k])[..n] == x[..k] + y[..n - k];
  }

  // A range in two parts.
  lemma {:induction false} RangeSplit(known: Flat, a: int, k: int, n: int)
    requires 0 <= k <= n
    ensures AllKnown(known, a, n) <==> AllKnown(known, a, k) && AllKnown(known, a + k, n - k)
    ensures AllKnown(known, a, n) ==> Range(known, a, n) == Range(known, a, k) + Range(known, a + k, n - k)
    decreases n - k
  {
    if AllKnown(known, a, n) && k < n {
      RangeSplit(known, a, k, n - 1);
    }
  }

  function Missing(where: map<int, int>, id: int): int {
    if id in where then 0 else 1
  }

  // How many pages an access needs that are not in use.
  function NewPages(where: map<int, int>, a: int, len: int): int {
    Missing(where, PageId(a)) + if PageId(a + len - 1) == PageId(a) then 0 else Missing(where, PageId(a + len - 1))
  }

  ghost function EmptyChains(n: nat): (r: seq<seq<int>>)
    ensures |r| == n && forall b :: 0 <= b < n ==> r[b] == []
  {
    seq(n, _ => [])
  }

  lemma {:induction false} NoChains(n: nat)
    ensures TotalLength(EmptyChains(n)) == 0
  {
    if n > 0 {
      NoChains(n - 1);
      assert EmptyChains(n)[1..] == EmptyChains(n - 1);
    }
  }

  // The page `block` has become the head of the chain of bucket b.
  lemma Pushed(chains: seq<seq<int>>, table: seq<int>, next: seq<int>, ids: seq<int>, block: int, b: int, id: int)
    requires 0 <= block < |next| == |ids| && 0 < |table| && Chains(chains, table, next, ids, block)
    requires 0 <= b < |table| && id % |table| == b
    ensures Chains(chains[b := [block] + chains[b]], table[b := block], next[block := table[b]], ids[block := id],
                   block + 1)
  {
    var table2, next2, ids2 := table[b := block], next[block := table[b]], ids[block := id];
    var chains2 := chains[b := [block] + chains[b]];
    forall c {:trigger chains2[c]} | 0 <= c < |table|
      ensures Chain(chains2[c], table2[c], next2, ids2, block + 1, c, |table|)
    {
      assert Chain(chains[c], table[c], next, ids, block, c, |table|);
      if c == b {
        ChainPushed(chains[b], table[b], next, ids, block, b, |table|, id, [block] + chains[b]);
      } else {
        ChainKept(chains[c], table[c], next, ids, block, c, |table|, id, table[b]);
      }
    }
  }

  // The chain of the new page's bucket.
  lemma ChainPushed(s: seq<int>, head: int, next: seq<int>, ids: seq<int>, block: int, b: int, buckets: int, id: int,
                    t: seq<int>)
    requires 0 <= block < |next| == |ids| && 0 < buckets && Chain(s, head, next, ids, block, b, buckets)
    requires id % buckets == b && t == [block] + s
    ensures Chain(t, block, next[block := head], ids[block := id], block + 1, b, buckets)
  {
    assert t[0] == block && forall i {:trigger t[i]} :: 0 < i < |t| ==> t[i] == s[i - 1];
    assert forall p {:trigger p in t} :: p in t <==> p == block || p in s;
  }

  // The chains of the other buckets.
  lemma ChainKept(s: seq<int>, head: int, next: seq<int>, ids: seq<int>, block: int, c: int, buckets: int, id: int,
                  link: int)
    requires 0 <= block < |next| == |ids| && 0 < buckets && Chain(s, head, next, ids, block, c, buckets)
    requires id % buckets != c
    ensures Chain(s, head, next[block := link], ids[block := id], block + 1, c, buckets)
  {
  }

  lemma LocatedMore(ids: seq<int>, where: map<int, int>, block: int, id: int)
    requires 0 <= block < |ids| && Located(ids, block, where) && id !in where && 0 <= id
    ensures Located(ids[block := id], block + 1, where[id := block])
  {
  }

  // A page without marks holds nothing.
  lemma FreshPage(bytes: seq<Byte>, marks1: seq<bool>, marks2: seq<bool>, where: map<int, int>, block: int,
                  known: Flat, id: int)
    requires |bytes| == |marks1| == |marks2| && 0 <= block && PAGE_SIZE * (block + 1) <= |bytes| && id !in where
    requires forall id {:trigger id in where} :: id in where ==> 0 <= where[id] < block
    requires Stored(bytes, marks1, where, known)
    requires forall t {:trigger marks2[t]} :: 0 <= t < |bytes| ==>
               marks2[t] == if PAGE_SIZE * block <= t < PAGE_SIZE * (block + 1) then false else marks1[t]
    ensures Stored(bytes, marks2, where[id := block], known)
  {
    forall a {:trigger Cell(bytes, marks2, where[id := block], known, a)}
      ensures Cell(bytes, marks2, where[id := block], known, a)
    {
      assert Cell(bytes, marks1, where, known, a);
    }
  }

  // Addresses of one page are kept side by side, and those of different pages apart.
  lemma SlotsApart(ids: seq<int>, where: map<int, int>, used: int, a: int, n: int, x: int)
    requires 0 <= used <= |ids| && Located(ids, used, where) && PageId(a) in where && PageId(x) in where
    requires 0 <= n && a % PAGE_SIZE + n <= PAGE_SIZE
    ensures var start, t := Slot(where[PageId(a)], a), Slot(where[PageId(x)], x);
            (a <= x < a + n <==> start <= t < start + n) && (a <= x < a + n ==> t - start == x - a)
  {
    var p, q := where[PageId(a)], where[PageId(x)];
    if PageId(a) != PageId(x) {
      assert p != q;
      assert a <= x ==> a + n <= x;
    }
  }

  // Marking the bytes of an access makes them known.
  lemma Marked(bytes: seq<Byte>, marks1: seq<bool>, marks2: seq<bool>, ids: seq<int>, where: map<int, int>, used: int,
               known: Flat, a: int, n: int)
    requires |bytes| == |marks1| == |marks2| && 0 <= used <= |ids| && PAGE_SIZE * used <= |bytes|
             && Located(ids, used, where)
    requires Stored(bytes, marks1, where, known) && PageId(a) in where
    requires 0 < n && a % PAGE_SIZE + n <= PAGE_SIZE
    requires var start := Slot(where[PageId(a)], a);
             forall t {:trigger marks2[t]} :: 0 <= t < |bytes| ==> marks2[t] == (marks1[t] || start <= t < start + n)
    ensures var start := Slot(where[PageId(a)], a);
            && 0 <= start && start + n <= |bytes|
            && Stored(bytes, marks2, where, Overlay(known, a, bytes[start..start + n]))
  {
    var start := Slot(where[PageId(a)], a);
    assert start + n <= PAGE_SIZE * (where[PageId(a)] + 1);
    var after := Overlay(known, a, bytes[start..start + n]);
    forall x {:trigger Cell(bytes, marks2, where, after, x)} ensures Cell(bytes, marks2, where, after, x) {
      assert Cell(bytes, marks1, where, known, x);
      assert a <= x < a + n ==> PageId(x) == PageId(a);
      if PageId(x) in where {
        SlotsApart(ids, where, used, a, n, x);
      }
    }
  }

  // The bytes of an access within a page: known exactly when all are marked, and then found there.
  lemma Held(bytes: seq<Byte>, marks: seq<bool>, ids: seq<int>, where: map<int, int>, used: int, known: Flat, a: int,
             n: int)
    requires |bytes| == |marks| && 0 <= used <= |ids| && PAGE_SIZE * used <= |bytes| && Located(ids, used, where)
    requires Stored(bytes, marks, where, known) && PageId(a) in where
    requires 0 < n && a % PAGE_SIZE + n <= PAGE_SIZE
    ensures var start := Slot(where[PageId(a)], a);
            && 0 <= start && start + n <= |bytes|
            && (AllKnown(known, a, n) <==> forall t {:trigger marks[t]} :: start <= t < start + n ==> marks[t])
            && (AllKnown(known, a, n) ==> Range(known, a, n) == bytes[start..start + n])
  {
    var start := Slot(where[PageId(a)], a);
    assert start + n <= PAGE_SIZE * (where[PageId(a)] + 1);
    forall x {:trigger x in known} | a <= x < a + n
      ensures (x in known <==> marks[start + x - a]) && (x in known ==> known[x] == bytes[start + x - a])
    {
      assert PageId(x) == PageId(a) && Cell(bytes, marks, where, known, x);
    }
    if AllKnown(known, a, n) {
      forall t {:trigger marks[t]} | start <= t < start + n ensures marks[t] {
        assert a + (t - start) in known;
      }
      var s := bytes[start..start + n];
      forall i {:trigger s[i]} | 0 <= i < |s| ensures s[i] == known[a + i] {
        assert a + i in known;
      }
      RangeIs(known, a, s);
    } else {
      var x :| a <= x < a + n && x !in known;
      assert !marks[start + x - a];
    }
  }

  // Writing marked bytes.
  lemma {:induction false} Rewritten(bytes1: seq<Byte>, bytes2: seq<Byte>, marks: seq<bool>, ids: seq<int>,
                                     where: map<int, int>, used: int, known: Flat, a: int, s: seq<Byte>)
    requires |bytes1| == |bytes2| == |marks| && 0 <= used <= |ids| && PAGE_SIZE * used <= |bytes1|
    requires Located(ids, used, where) && Stored(bytes1, marks, where, known) && PageId(a) in where
    requires a % PAGE_SIZE + |s| <= PAGE_SIZE && AllKnown(known, a, |s|)
    requires var start := Slot(where[PageId(a)], a);
             forall t {:trigger bytes2[t]} :: 0 <= t < |bytes1| ==>
               bytes2[t] == if start <= t < start + |s| then s[t - start] else bytes1[t]
    ensures Stored(bytes2, marks, where, Overlay(known, a, s))
  {
    var after := Overlay(known, a, s);
    var start := Slot(where[PageId(a)], a);
    forall x {:trigger Cell(bytes2, marks, where, after, x)} ensures Cell(bytes2, marks, where, after, x) {
      assert Cell(bytes1, marks, where, known, x);
      assert x in after <==> x in known;
      if PageId(x) in where {
        SlotsApart(ids, where, used, a, |s|, x);
      }
    }
  }

  lemma {:induction false} BytesPrefix(v: nat, k: nat, n: nat)
    requires k <= n
    ensures Bytes(v, n)[..k] == Bytes(v, k)
  {
    if k > 0 {
      BytesPrefix(v / 256, k - 1, n - 1);
      assert Bytes(v, n)[..k] == [v % 256] + Bytes(v / 256, n - 1)[..k - 1];
    }
  }

  function Zeros(n: nat): (s: seq<Byte>)
    ensures |s| == n
  {
    seq(n, _ => 0)
  }

  lemma {:induction false} JoinZeros(n: nat)
    ensures Join(Zeros(n)) == 0
  {
    if n > 0 {
      assert Zeros(n)[1..] == Zeros(n - 1);
      JoinZeros(n - 1);
    }
  }

  // Shifting left by k bytes in a 64-bit word.
  lemma {:induction false} ShiftLeft(y: seq<Byte>, k: nat)
    requires |y| == 8 && k <= 8
    ensures (Power(k) * Join(y)) % Power(8) == Power(k) * Join(y[..8 - k])
  {
    Shifted(y, k);
    Shifted(y[..8 - k], k);
    JoinMod(Zeros(k) + y, 8);
    assert (Zeros(k) + y)[..8] == Zeros(k) + y[..8 - k];
  }

  lemma {:induction false} Shifted(y: seq<Byte>, k: nat)
    ensures Join(Zeros(k) + y) == Power(k) * Join(y)
  {
    JoinZeros(k);
    JoinAppend(Zeros(k), y);
  }

  /** A load that crosses into the next page: masking the first word and shifting the second one in gives the bytes of
      the first page followed by those of the second. */
  lemma {:induction false} Stitched(x: seq<Byte>, y: seq<Byte>, k: nat)
    requires |x| == |y| == 8 && k <= 8
    ensures Join(x) % Power(k) + (Power(k) * Join(y)) % Power(8) == Join(x[..k] + y[..8 - k])
  {
    JoinMod(x, k);
    ShiftLeft(y, k);
    JoinAppend(x[..k], y[..8 - k]);
  }
}
