/** memcpy and memset on the sparse memory, and whole runs of accesses: each behaves as on a flat array of bytes. */
module SparseRuns {
  import opened LittleEndian
  import opened SparseMemory

  // ------------------------------------------------------------------ copying and filling

  // The pages in use after n bytes from address a on have been written, when `pages` were in use before.
  ghost function WithPages(pages: set<int>, a: int, n: nat): set<int>
    decreases n
  {
    if n == 0 then pages else WithPages(pages + {PageId(a)}, a + 1, n - 1)
  }

  // They are those in use before and those of the bytes written.
  lemma {:induction false} WithPagesHas(pages: set<int>, a: int, n: nat, p: int)
    ensures p in WithPages(pages, a, n)
            <==> p in pages || exists x {:trigger PageId(x)} :: a <= x < a + n && PageId(x) == p
    decreases n
  {
    if n > 0 {
      WithPagesHas(pages + {PageId(a)}, a + 1, n - 1, p);
      assert p in pages + {PageId(a)} <==> p in pages || p == PageId(a);
    }
  }

  // A range of at most one page's length reaches the page of its first byte and that of its last.
  lemma {:induction false} WithPagesFew(pages: set<int>, a: int, n: nat)
    requires 0 <= a && 1 <= n <= PAGE_SIZE
    ensures WithPages(pages, a, n) == pages + {PageId(a), PageId(a + n - 1)}
  {
    forall p {:trigger p in WithPages(pages, a, n)}
      ensures p in WithPages(pages, a, n) <==> p in pages + {PageId(a), PageId(a + n - 1)}
    {
      WithPagesHas(pages, a, n, p);
    }
  }

  lemma {:induction false} WithPagesSplit(pages: set<int>, a: int, k: nat, w: nat)
    ensures WithPages(pages, a, k + w) == WithPages(WithPages(pages, a, k), a + k, w)
    decreases k
  {
    if k > 0 {
      WithPagesSplit(pages + {PageId(a)}, a + 1, k - 1, w);
    }
  }

  lemma {:induction false} WithPagesMore(pages: set<int>, a: int, n: nat)
    ensures pages <= WithPages(pages, a, n)
    decreases n
  {
    if n > 0 {
      WithPagesMore(pages + {PageId(a)}, a + 1, n - 1);
    }
  }

  // The pages of a range fit the memory together with those in use.
  ghost predicate Room(pages: set<int>, a: int, n: nat, allPages: int) {
    |WithPages(pages, a, n)| <= allPages
  }

  // The pages in use after the first k bytes of a range have been written.
  ghost predicate Paged(now: set<int>, pages: set<int>, a: int, k: int) {
    0 <= k && now == WithPages(pages, a, k)
  }

  // w bytes more have been written.
  lemma {:induction false} PagedMore(before: set<int>, now: set<int>, pages: set<int>, a: int, k: nat, w: int)
    requires Paged(before, pages, a, k) && 0 <= a && 1 <= w <= 8
    requires now == before + {PageId(a + k), PageId(a + k + w - 1)}
    ensures Paged(now, pages, a, k + w)
  {
    WithPagesFew(before, a + k, w);
    WithPagesSplit(pages, a, k, w);
  }

  // There were not enough free pages for w bytes more of a range of n bytes.
  lemma {:induction false} NoRoom(where: map<int, int>, free: int, pages: set<int>, a: int, k: nat, w: int, n: nat)
    requires Paged(where.Keys, pages, a, k) && 0 <= a && 1 <= w <= 8 && k + w <= n
    requires free < NewPages(where, a + k, w)
    ensures !Room(pages, a, n, |where.Keys| + free)
  {
    var now := where.Keys + {PageId(a + k), PageId(a + k + w - 1)};
    PagesNeeded(where, a + k, w);
    PagedMore(where.Keys, now, pages, a, k, w);
    WithPagesSplit(pages, a, k + w, n - k - w);
    WithPagesMore(now, a + k + w, n - k - w);
    SubsetSize(now, WithPages(pages, a, n));
  }

  lemma {:induction false} PagesNext(where: map<int, int>, free: int, ok: bool, now: map<int, int>, pages: set<int>,
                                     a: int, k: nat, w: int, n: nat)
    requires Paged(where.Keys, pages, a, k) && 0 <= a && 1 <= w <= 8 && k + w <= n
    requires ok <==> NewPages(where, a + k, w) <= free
    requires ok ==> now.Keys == where.Keys + {PageId(a + k), PageId(a + k + w - 1)}
    ensures if ok then Paged(now.Keys, pages, a, k + w) else !Room(pages, a, n, |where.Keys| + free)
  {
    if ok {
      PagedMore(where.Keys, now.Keys, pages, a, k, w);
    } else {
      NoRoom(where, free, pages, a, k, w, n);
    }
  }

  // mem_write of w bytes of a range of n bytes from a on, behind the first k.
  method Put(m: SparseMemory, d: int, val: nat, w: int, ghost pages: set<int>, ghost a: int, ghost k: nat, ghost n: nat)
    returns (ok: bool)
    requires m.Valid() && 0 <= a && 1 <= w <= 8 && d + w <= m.brk && d == a + k && k + w <= n
    requires Paged(m.where.Keys, pages, a, k)
    modifies m`nextFreePage, m`numFreePages, m`chains, m`where, m`known, m.pageTable, m.ids, m.next, m.marks, m.bytes
    ensures m.Valid() && (ok ==> m.known == Overlay(old(m.known), d, Bytes(val, w)))
    ensures if ok then Paged(m.where.Keys, pages, a, k + w) else !Room(pages, a, n, m.ids.Length)
  {
    ghost var where, free := m.where, m.numFreePages;
    ok := WriteCounted(m, d, val, w);
    PagesNext(where, free, ok, m.where, pages, a, k, w, n);
  }

  // mem_write, and the number of pages.
  method WriteCounted(m: SparseMemory, a: int, val: nat, len: int) returns (ok: bool)
    requires m.Valid() && 0 <= a && 1 <= len <= 8 && a + len <= m.brk
    modifies m`nextFreePage, m`numFreePages, m`chains, m`where, m`known, m.pageTable, m.ids, m.next, m.marks, m.bytes
    ensures m.Valid() && (ok ==> m.known == Overlay(old(m.known), a, Bytes(val, len)))
    ensures ok <==> NewPages(old(m.where), a, len) <= old(m.numFreePages)
    ensures ok ==> m.where.Keys == old(m.where.Keys) + {PageId(a), PageId(a + len - 1)}
    ensures |old(m.where.Keys)| + old(m.numFreePages) == m.ids.Length
  {
    PagesCounted(m);
    ok := m.Write(a, val, len);
  }

  // What lies outside a written range reads as before.
  lemma {:induction false} OutsideRange(known: Flat, d: int, t: seq<Byte>, s: int, n: int)
    requires 0 <= n && (s + n <= d || d + |t| <= s)
    ensures AllKnown(Overlay(known, d, t), s, n) <==> AllKnown(known, s, n)
    ensures AllKnown(known, s, n) ==> Range(Overlay(known, d, t), s, n) == Range(known, s, n)
  {
    forall x {:trigger x in known} | s <= x < s + n ensures x in known <==> x in Overlay(known, d, t) {
    }
    if n > 0 && AllKnown(known, s, n) {
      OutsideRange(known, d, t, s, n - 1);
    }
  }

  // One more piece of w bytes has been copied.
  lemma {:induction false} CopiedMore(known: Flat, d: int, s: int, k: int, w: int)
    requires 0 <= k && 0 <= w && AllKnown(known, s, k) && AllKnown(known, s + k, w)
    ensures AllKnown(known, s, k + w)
    ensures Overlay(Overlay(known, d, Range(known, s, k)), d + k, Range(known, s + k, w))
            == Overlay(known, d, Range(known, s, k + w))
  {
    RangeSplit(known, s, k, k + w);
    OverlayJoin(known, d, Range(known, s, k), Range(known, s + k, w), Range(known, s, k + w));
  }

  lemma {:induction false} OverlayJoin(known: Flat, d: int, low: seq<Byte>, high: seq<Byte>, all: seq<Byte>)
    requires all == low + high
    ensures Overlay(Overlay(known, d, low), d + |low|, high) == Overlay(known, d, all)
  {
    OverlayAppend(known, d, low, high);
  }

  // k bytes have been copied from src to dst.
  ghost predicate Copied(known: Flat, now: Flat, dst: int, src: int, k: int) {
    0 <= k && AllKnown(known, src, k) && now == Overlay(known, dst, Range(known, src, k))
  }

  lemma {:induction false} SourceIntact(known: Flat, now: Flat, dst: int, src: int, k: int, w: int)
    requires 0 <= w && Copied(known, now, dst, src, k) && (dst <= src || src + k + w <= dst)
    ensures AllKnown(now, src + k, w) <==> AllKnown(known, src + k, w)
    ensures AllKnown(known, src + k, w) ==>
              Copied(known, Overlay(now, dst + k, Range(now, src + k, w)), dst, src, k + w)
  {
    OutsideRange(known, dst, Range(known, src, k), src + k, w);
    if AllKnown(known, src + k, w) {
      CopiedMore(known, dst, src, k, w);
    }
  }

  // One turn of the loop of mem_memcpy, for n bytes in all.
  method CopyPiece(m: SparseMemory, d: int, s: int, w: int, ghost known: Flat, ghost pages: set<int>, ghost dst: int,
                   ghost src: int, ghost k: nat, ghost n: nat)
    returns (ok: bool)
    requires m.Valid() && 0 <= dst && 0 <= s && 1 <= w <= 8 && d + w <= m.brk && s + w <= m.brk && k + w <= n
    requires d == dst + k && s == src + k && Copied(known, m.known, dst, src, k) && (dst <= src || s + w <= dst)
    requires Paged(m.where.Keys, pages, dst, k)
    modifies m`nextFreePage, m`numFreePages, m`chains, m`where, m`known, m.pageTable, m.ids, m.next, m.marks, m.bytes
    ensures m.Valid()
    ensures ok ==> Copied(known, m.known, dst, src, k + w) && Paged(m.where.Keys, pages, dst, k + w)
    ensures !ok ==> !AllKnown(known, src, n) || !Room(pages, dst, n, m.ids.Length)
  {
    SourceIntact(known, m.known, dst, src, k, w);
    ok := Move(m, d, s, w, pages, dst, k, n);
  }

  // The w bytes from s on are written to d.
  method Move(m: SparseMemory, d: int, s: int, w: int, ghost pages: set<int>, ghost a: int, ghost k: nat, ghost n: nat)
    returns (ok: bool)
    requires m.Valid() && 0 <= a && 0 <= s && 1 <= w <= 8 && d + w <= m.brk && s + w <= m.brk
    requires d == a + k && k + w <= n
    requires Paged(m.where.Keys, pages, a, k)
    modifies m`nextFreePage, m`numFreePages, m`chains, m`where, m`known, m.pageTable, m.ids, m.next, m.marks, m.bytes
    ensures m.Valid() && (!ok ==> !AllKnown(old(m.known), s, w) || !Room(pages, a, n, m.ids.Length))
    ensures ok ==> AllKnown(old(m.known), s, w) && m.known == Overlay(old(m.known), d, Range(old(m.known), s, w))
    ensures ok ==> Paged(m.where.Keys, pages, a, k + w)
  {
    var data;
    ok, data := m.Read(s, w);
    if ok {
      BytesOfJoin(Range(m.known, s, w));
      ok := Put(m, d, data, w, pages, a, k, n);
    }
  }

  /** mem_memcpy: whole words, then the rest; the target gets what the source held before the call, also when the ranges
      overlap with the target in front.  It fails exactly when a source byte has not been written or the pages of the
      target do not fit. */
  method MemCpy(m: SparseMemory, dst: int, src: int, numBytes: int) returns (ok: bool)
    requires m.Valid() && 0 <= dst && 0 <= src && 0 <= numBytes && dst + numBytes <= m.brk && src + numBytes <= m.brk
    requires dst <= src || src + numBytes <= dst
    modifies m`nextFreePage, m`numFreePages, m`chains, m`where, m`known, m.pageTable, m.ids, m.next, m.marks, m.bytes
    ensures m.Valid()
    ensures ok <==> AllKnown(old(m.known), src, numBytes) && Room(old(m.where.Keys), dst, numBytes, m.ids.Length)
    ensures ok ==> m.known == Overlay(old(m.known), dst, Range(old(m.known), src, numBytes))
    ensures ok ==> forall x {:trigger x in m.known} :: dst <= x < dst + numBytes ==>
                     x in m.known && x - dst + src in old(m.known) && m.known[x] == old(m.known)[x - dst + src]
    ensures ok ==> m.where.Keys == WithPages(old(m.where.Keys), dst, numBytes)
  {
    ghost var pages, known := m.where.Keys, m.known;
    var d, s, n := dst, src, numBytes;
    ghost var k := 0;
    while n >= 8
      invariant m.Valid() && 0 <= n && n == numBytes - k && d == dst + k && s == src + k && 0 <= k
      invariant Copied(known, m.known, dst, src, k) && Paged(m.where.Keys, pages, dst, k)
    {
      ok := CopyPiece(m, d, s, 8, known, pages, dst, src, k, numBytes);
      if !ok {
        return;
      }
      n := n - 8;
      s := s + 8;
      d := d + 8;
      k := k + 8;
    }
    if n > 0 {
      ok := CopyPiece(m, d, s, n, known, pages, dst, src, k, numBytes);
      if !ok {
        return;
      }
    }
    AllWritten(m, pages, dst, numBytes);
    AllCopied(known, m.known, dst, src, numBytes);
    return true;
  }

  lemma {:induction false} AllCopied(known: Flat, now: Flat, dst: int, src: int, n: int)
    requires Copied(known, now, dst, src, n)
    ensures AllKnown(known, src, n) && now == Overlay(known, dst, Range(known, src, n))
    ensures forall x {:trigger x in now} :: dst <= x < dst + n ==>
              x in now && x - dst + src in known && now[x] == known[x - dst + src]
  {
    forall x {:trigger x in now} | dst <= x < dst + n
      ensures x in now && x - dst + src in known && now[x] == known[x - dst + src]
    {
      RangeAt(known, src, n, x - dst);
    }
  }

  // When all n bytes have been written, there was room for them.
  lemma {:induction false} AllWritten(m: SparseMemory, pages: set<int>, a: int, n: nat)
    requires m.Valid() && Paged(m.where.Keys, pages, a, n)
    ensures Room(pages, a, n, m.ids.Length)
  {
    PagesCounted(m);
  }

  function Copies(c: Byte, n: nat): (s: seq<Byte>)
    ensures |s| == n && forall i :: 0 <= i < n ==> s[i] == c
  {
    seq(n, _ => c)
  }

  // The loop of mem_memset that builds a word of equal bytes.
  method Spread(c: Byte) returns (data: nat)
    ensures forall w {:trigger Bytes(data, w)} :: 0 <= w <= 8 ==> Bytes(data, w) == Copies(c, w)
  {
    data := 0;
    for i := 0 to 8
      invariant data == Join(Copies(c, i))
    {
      JoinAppend(Copies(c, i), [c]);
      assert Copies(c, i) + [c] == Copies(c, i + 1);
      assert Join([c]) == c;
      data := data + Power(i) * c;
    }
    BytesOfJoin(Copies(c, 8));
    forall w {:trigger Bytes(data, w)} | 0 <= w <= 8 ensures Bytes(data, w) == Copies(c, w) {
      BytesPrefix(data, w, 8);
    }
  }

  // k bytes from dst on have been set to c.
  ghost predicate Filled(known: Flat, now: Flat, dst: int, c: Byte, k: int) {
    0 <= k && now == Overlay(known, dst, Copies(c, k))
  }

  lemma {:induction false} FilledMore(known: Flat, now: Flat, dst: int, c: Byte, k: nat, w: nat)
    requires Filled(known, now, dst, c, k)
    ensures Filled(known, Overlay(now, dst + k, Copies(c, w)), dst, c, k + w)
  {
    OverlayAppend(known, dst, Copies(c, k), Copies(c, w));
    assert Copies(c, k) + Copies(c, w) == Copies(c, k + w);
  }

  // One turn of the loop of mem_memset, for n bytes in all.
  method FillPiece(m: SparseMemory, d: int, data: nat, w: int, ghost c: Byte, ghost known: Flat, ghost pages: set<int>,
                   ghost dst: int, ghost k: nat, ghost n: nat)
    returns (ok: bool)
    requires m.Valid() && 0 <= dst && 1 <= w <= 8 && d + w <= m.brk && Bytes(data, w) == Copies(c, w) && k + w <= n
    requires d == dst + k && Filled(known, m.known, dst, c, k) && Paged(m.where.Keys, pages, dst, k)
    modifies m`nextFreePage, m`numFreePages, m`chains, m`where, m`known, m.pageTable, m.ids, m.next, m.marks, m.bytes
    ensures m.Valid()
    ensures ok ==> Filled(known, m.known, dst, c, k + w) && Paged(m.where.Keys, pages, dst, k + w)
    ensures !ok ==> !Room(pages, dst, n, m.ids.Length)
  {
    FilledMore(known, m.known, dst, c, k, w);
    ok := Put(m, d, data, w, pages, dst, k, n);
  }

  /** mem_memset: exactly the range is filled; it fails exactly when the pages of the range do not fit. */
  method MemSet(m: SparseMemory, dst: int, c: Byte, numBytes: int) returns (ok: bool)
    requires m.Valid() && 0 <= dst && 0 <= numBytes && dst + numBytes <= m.brk
    modifies m`nextFreePage, m`numFreePages, m`chains, m`where, m`known, m.pageTable, m.ids, m.next, m.marks, m.bytes
    ensures m.Valid() && (ok <==> Room(old(m.where.Keys), dst, numBytes, m.ids.Length))
    ensures ok ==> m.known == Overlay(old(m.known), dst, Copies(c, numBytes))
    ensures ok ==> forall x {:trigger x in m.known} :: dst <= x < dst + numBytes ==> x in m.known && m.known[x] == c
    ensures ok ==> m.where.Keys == WithPages(old(m.where.Keys), dst, numBytes)
  {
    ghost var pages, known := m.where.Keys, m.known;
    var data := Spread(c);
    var d, n := dst, numBytes;
    ghost var k := 0;
    while n >= 8
      invariant m.Valid() && 0 <= n && n == numBytes - k && d == dst + k && 0 <= k
      invariant Filled(known, m.known, dst, c, k) && Paged(m.where.Keys, pages, dst, k)
    {
      ok := FillPiece(m, d, data, 8, c, known, pages, dst, k, numBytes);
      if !ok {
        return;
      }
      n := n - 8;
      d := d + 8;
      k := k + 8;
    }
    if n > 0 {
      ok := FillPiece(m, d, data, n, c, known, pages, dst, k, numBytes);
      if !ok {
        return;
      }
    }
    AllWritten(m, pages, dst, numBytes);
    AllFilled(known, m.known, dst, c, numBytes);
    return true;
  }

  lemma {:induction false} AllFilled(known: Flat, now: Flat, dst: int, c: Byte, n: int)
    requires Filled(known, now, dst, c, n)
    ensures now == Overlay(known, dst, Copies(c, n))
    ensures forall x {:trigger x in now} :: dst <= x < dst + n ==> x in now && now[x] == c
  {
  }

  /** A byte that is read after mem_memset, from within the range, is the one it was filled with. */
  method SetThenRead(m: SparseMemory, dst: int, c: Byte, numBytes: int, a: int) returns (ok: bool, data: nat)
    requires m.Valid() && 0 <= dst <= a < dst + numBytes <= m.brk
    modifies m`nextFreePage, m`numFreePages, m`chains, m`where, m`known, m.pageTable, m.ids, m.next, m.marks, m.bytes
    ensures m.Valid() && (ok <==> Room(old(m.where.Keys), dst, numBytes, m.ids.Length)) && (ok ==> data == c)
  {
    ok := MemSet(m, dst, c, numBytes);
    data := 0;
    if ok {
      assert a in m.known && AllKnown(m.known, a, 1);
      ok, data := m.Read(a, 1);
    }
  }

  // ------------------------------------------------------------------ runs

  datatype Access = Store(a: int, val: nat, len: int) | Load(a: int, len: int)

  predicate InBounds(s: Access, brk: int) {
    0 <= s.a && 1 <= s.len <= 8 && s.a + s.len <= brk
  }

  // The flat memory after the first n accesses.
  ghost function FlatAfter(known: Flat, script: seq<Access>, n: nat): Flat
    requires n <= |script|
  {
    if n == 0 then known
    else
      var before := FlatAfter(known, script, n - 1);
      match script[n - 1]
      case Store(a, val, len) => if 0 <= len then Overlay(before, a, Bytes(val, len)) else before
      case Load(_, _) => before
  }

  // What access i gives on the flat memory.
  ghost predicate Answered(known: Flat, script: seq<Access>, i: nat, answer: nat)
    requires i < |script|
  {
    match script[i]
    case Store(_, _, _) => true
    case Load(a, len) => 0 <= len && AllKnown(FlatAfter(known, script, i), a, len)
                         && answer == Join(Range(FlatAfter(known, script, i), a, len))
  }

  // The pages that an access reaches.
  function Touched(s: Access): set<int> {
    {PageId(s.a), PageId(s.a + s.len - 1)}
  }

  // The pages in use after the first n accesses, when `pages` were in use before: those of the stores are added.
  ghost function PagesAfter(pages: set<int>, script: seq<Access>, n: nat): set<int>
    requires n <= |script|
  {
    if n == 0 then pages
    else PagesAfter(pages, script, n - 1) + if script[n - 1].Store? then Touched(script[n - 1]) else {}
  }

  /** Access i cannot be carried out: a load that reaches a byte which is not known, or a store for which there are
      not enough pages. */
  ghost predicate Fails(known: Flat, pages: set<int>, allPages: nat, script: seq<Access>, i: nat)
    requires i < |script|
  {
    match script[i]
    case Load(a, len) => !AllKnown(FlatAfter(known, script, i), a, len)
    case Store(_, _, _) => allPages < |PagesAfter(pages, script, i + 1)|
  }

  /** Every run: the answers are those of a flat memory, up to the first access that fails, and an access fails
      exactly when it is a load of a byte that has not been stored or a store for which pages are missing. */
  method Run(m: SparseMemory, script: seq<Access>) returns (done: nat, answers: seq<nat>)
    requires m.Valid() && forall i :: 0 <= i < |script| ==> InBounds(script[i], m.brk)
    modifies m`nextFreePage, m`numFreePages, m`chains, m`where, m`known, m.pageTable, m.ids, m.next, m.marks, m.bytes
    ensures m.Valid() && done <= |script| && |answers| == done
    ensures AllAnswered(old(m.known), old(m.where.Keys), m.ids.Length, script, answers)
    ensures done < |script| ==> Fails(old(m.known), old(m.where.Keys), m.ids.Length, script, done)
    ensures done == |script| ==> m.known == FlatAfter(old(m.known), script, done)
  {
    ghost var known, pages := m.known, m.where.Keys;
    answers := [];
    for i := 0 to |script|
      invariant m.Valid() && |answers| == i && Reached(m.known, m.where.Keys, known, pages, script, i)
      invariant AllAnswered(known, pages, m.ids.Length, script, answers)
    {
      assert InBounds(script[i], m.brk);
      var ok, answer := Next(m, script, i, known, pages);
      if !ok {
        return i, answers;
      }
      OneMoreAnswer(known, pages, m.ids.Length, script, answers, answer);
      answers := answers + [answer];
    }
    return |script|, answers;
  }

  // The accesses up to the last answer can be carried out, and have these answers.
  ghost predicate AllAnswered(known: Flat, pages: set<int>, allPages: nat, script: seq<Access>, answers: seq<nat>) {
    && |answers| <= |script|
    && forall i {:trigger answers[i]} :: 0 <= i < |answers| ==>
         Answered(known, script, i, answers[i]) && !Fails(known, pages, allPages, script, i)
  }

  lemma {:induction false} OneMoreAnswer(known: Flat, pages: set<int>, allPages: nat, script: seq<Access>,
                                         answers: seq<nat>, answer: nat)
    requires AllAnswered(known, pages, allPages, script, answers) && |answers| < |script|
    requires Answered(known, script, |answers|, answer) && !Fails(known, pages, allPages, script, |answers|)
    ensures AllAnswered(known, pages, allPages, script, answers + [answer])
  {
    var more := answers + [answer];
    forall i {:trigger more[i]} | 0 <= i < |more|
      ensures Answered(known, script, i, more[i]) && !Fails(known, pages, allPages, script, i)
    {
      if i < |answers| {
        assert more[i] == answers[i];
      }
    }
  }

  // What is known and which pages are in use after the first n accesses.
  ghost predicate Reached(now: Flat, pagesNow: set<int>, known: Flat, pages: set<int>, script: seq<Access>, n: nat) {
    n <= |script| && now == FlatAfter(known, script, n) && pagesNow == PagesAfter(pages, script, n)
  }

  // Access i of a script.
  method Next(m: SparseMemory, script: seq<Access>, i: nat, ghost known: Flat, ghost pages: set<int>)
    returns (ok: bool, answer: nat)
    requires m.Valid() && i < |script| && InBounds(script[i], m.brk)
    requires Reached(m.known, m.where.Keys, known, pages, script, i)
    modifies m`nextFreePage, m`numFreePages, m`chains, m`where, m`known, m.pageTable, m.ids, m.next, m.marks, m.bytes
    ensures m.Valid() && (ok <==> !Fails(known, pages, m.ids.Length, script, i))
    ensures ok ==> Reached(m.known, m.where.Keys, known, pages, script, i + 1) && Answered(known, script, i, answer)
  {
    ok, answer := Perform(m, script[i]);
  }

  method Perform(m: SparseMemory, s: Access) returns (ok: bool, answer: nat)
    requires m.Valid() && InBounds(s, m.brk)
    modifies m`nextFreePage, m`numFreePages, m`chains, m`where, m`known, m.pageTable, m.ids, m.next, m.marks, m.bytes
    ensures m.Valid()
    ensures match s
            case Store(a, val, len) =>
              && 0 <= len && (ok <==> |old(m.where.Keys) + Touched(s)| <= m.ids.Length)
              && (ok ==> m.known == Overlay(old(m.known), a, Bytes(val, len)))
              && (ok ==> m.where.Keys == old(m.where.Keys) + Touched(s))
            case Load(a, len) =>
              && 0 <= len && m.known == old(m.known) && (ok <==> AllKnown(m.known, a, len))
              && (ok ==> answer == Join(Range(m.known, a, len)) && m.where.Keys == old(m.where.Keys))
  {
    match s {
      case Store(a, val, len) =>
        PagesCounted(m);
        PagesNeeded(m.where, a, len);
        ok := m.Write(a, val, len);
        answer := 0;
      case Load(a, len) =>
        ok, answer := m.Read(a, len);
    }
  }

  // A page is in use or free.
  lemma {:induction false} PagesCounted(m: SparseMemory)
    requires m.Valid()
    ensures |m.where.Keys| + m.numFreePages == m.ids.Length
  {
    LocatedSize(m.ids[..], m.nextFreePage, m.where);
  }

  lemma {:induction false} LocatedSize(ids: seq<int>, used: nat, where: map<int, int>)
    requires used <= |ids| && Located(ids, used, where)
    ensures |where.Keys| == used
    decreases used
  {
    if used == 0 {
      assert forall id {:trigger id in where} :: id !in where;
      assert where.Keys == {};
    } else {
      var last := ids[used - 1];
      var fewer := where - {last};
      assert last in where && where[last] == used - 1;
      LocatedSize(ids, used - 1, fewer);
      assert where.Keys == fewer.Keys + {last};
    }
  }

  lemma {:induction false} PagesNeeded(where: map<int, int>, a: int, len: int)
    ensures |where.Keys + {PageId(a), PageId(a + len - 1)}| == |where.Keys| + NewPages(where, a, len)
  {
    var p, q := PageId(a), PageId(a + len - 1);
    var one := where.Keys + {p};
    assert |one| == |where.Keys| + Missing(where, p) by {
      if p in where {
        assert one == where.Keys;
      }
    }
    assert where.Keys + {p, q} == one + {q};
    if q in one {
      assert one + {q} == one;
    }
  }

  /** When all pages that a script stores to fit the memory, no store fails: the run ends only at a load of a byte
      that has not been stored. */
  lemma {:induction false} EnoughPages(known: Flat, pages: set<int>, allPages: nat, script: seq<Access>, i: nat)
    requires i < |script| && script[i].Store? && |PagesAfter(pages, script, |script|)| <= allPages
    ensures !Fails(known, pages, allPages, script, i)
  {
    PagesGrow(pages, script, i + 1, |script|);
    SubsetSize(PagesAfter(pages, script, i + 1), PagesAfter(pages, script, |script|));
  }

  lemma {:induction false} PagesGrow(pages: set<int>, script: seq<Access>, i: nat, j: nat)
    requires i <= j <= |script|
    ensures PagesAfter(pages, script, i) <= PagesAfter(pages, script, j)
    decreases j
  {
    if i < j {
      PagesGrow(pages, script, i, j - 1);
    }
  }

  lemma {:induction false} SubsetSize(s: set<int>, t: set<int>)
    requires s <= t
    ensures |s| <= |t|
  {
    assert t == s + (t - s);
  }

  /** A page id is found at one place only, on the chain of the id modulo the number of buckets. */
  lemma {:induction false} OneChain(m: SparseMemory, b: int, i: nat, c: int, j: nat)
    requires m.Valid() && 0 <= b < |m.chains| && i < |m.chains[b]| && 0 <= c < |m.chains| && j < |m.chains[c]|
    requires 0 <= m.chains[b][i] < m.ids.Length && 0 <= m.chains[c][j] < m.ids.Length
    requires m.ids[m.chains[b][i]] == m.ids[m.chains[c][j]]
    ensures b == c == m.ids[m.chains[b][i]] % m.pageTable.Length && i == j
  {
    var p, q := m.chains[b][i], m.chains[c][j];
    assert p in m.chains[b] && q in m.chains[c];
    assert m.ids[..][p] == m.ids[..][q];
    assert p == q;
  }

  /** The free pages and those on the chains make up all pages. */
  lemma {:induction false} FreeAndChained(m: SparseMemory)
    requires m.Valid()
    ensures TotalLength(m.chains) + m.numFreePages == m.ids.Length && |m.where.Keys| == TotalLength(m.chains)
  {
    PagesCounted(m);
  }

  /** A value that has just been stored reads back as its len low bytes. */
  lemma {:induction false} ReadBack(known: Flat, a: int, val: nat, len: nat)
    ensures AllKnown(Overlay(known, a, Bytes(val, len)), a, len)
    ensures Join(Range(Overlay(known, a, Bytes(val, len)), a, len)) == val % Power(len)
  {
    RangeIs(Overlay(known, a, Bytes(val, len)), a, Bytes(val, len));
    LowBytes(val, len);
  }

  lemma {:induction false} LowBytes(val: nat, len: nat)
    ensures Join(Bytes(val, len)) == val % Power(len)
  {
    if len > 0 {
      LowBytes(val / 256, len - 1);
      assert Bytes(val, len)[1..] == Bytes(val / 256, len - 1);
      ModNested(val, Power(len - 1));
    }
  }

  lemma ModNested(v: nat, p: nat)
    requires p > 0
    ensures v % (256 * p) == v % 256 + 256 * ((v / 256) % p)
  {
    var low, rest := v % 256, v / 256;
    var q, r := rest / p, rest % p;
    assert rest == p * q + r;
    assert v == low + 256 * r + (256 * p) * q;
    ModOfSum(low + 256 * r, q, 256 * p);
  }
}
