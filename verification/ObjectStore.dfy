/** What a client sees: over every run of calls the heap behaves like a store of independent objects. */
module ObjectStore {
  import opened LittleEndian
  import opened BoundaryTags
  import opened Layout
  import opened FreeIndex
  import opened Coalescing
  import opened Placement
  import opened Allocator
  import opened Copying
  import opened Reallocation

  // An object of `size` bytes, and the bytes whose value the client may rely on.
  datatype Object = Object(size: int, known: map<int, Byte>)

  // The objects a client holds, by the client's own names.
  type Store = map<int, Object>

  /** A client's step.  A name in use is not allocated again, and one that is not in use not freed or written. */
  datatype Step =
    | Malloc(id: int, size: int)
    | Calloc(id: int, elements: int, size: int)
    | Realloc(id: int, size: int)
    | Free(id: int)
    | Write(id: int, k: int, value: Byte)

  // Sizes whose computation does not wrap around.
  predicate Sized(s: Step) {
    match s
    case Malloc(_, size) => 0 <= size && size + 23 < TWO_64
    case Calloc(_, elements, size) =>
      0 <= elements < TWO_64 && 0 <= size < TWO_64 && (elements * size < TWO_64 ==> elements * size + 23 < TWO_64)
    case Realloc(_, size) => 0 <= size && size + 23 < TWO_64
    case Free(_) => true
    case Write(_, _, _) => true
  }

  function Fresh(size: int): Object {
    Object(size, map[])
  }

  function Zero(k: int): Byte {
    0
  }

  function Zeros(size: int): Object {
    Object(size, map k {:trigger Zero(k)} | 0 <= k < size :: Zero(k))
  }

  function Resized(o: Object, size: int): Object {
    Object(size, map k | k in o.known && k < size :: o.known[k])
  }

  /** What a step does to the store; `ok` tells whether memory was available. */
  function After(st: Store, s: Step, ok: bool): Store {
    match s
    case Malloc(id, size) => if ok && id !in st then st[id := Fresh(size)] else st
    case Calloc(id, elements, size) => if ok && id !in st then st[id := Zeros(elements * size)] else st
    case Realloc(id, size) =>
      if size == 0 then st - {id}
      else if !ok then st
      else st[id := if id in st then Resized(st[id], size) else Fresh(size)]
    case Free(id) => st - {id}
    case Write(id, k, value) =>
      if id in st && 0 <= k < st[id].size then st[id := Object(st[id].size, st[id].known[k := value])] else st
  }

  // ------------------------------------------------------------------ representation

  // The object is found at payload bp.
  ghost predicate Holds(m: seq<Word>, bp: int, o: Object) {
    && 0 <= bp && 8 * bp + o.size <= 8 * |m|
    && forall k {:trigger k in o.known} :: k in o.known ==> 0 <= k < o.size && ByteFrom(m, bp, k) == o.known[k]
  }

  ghost predicate Inside(live: map<int, int>, limit: int) {
    forall p {:trigger p in live} :: p in live ==> 1 <= p && MIN_WORDS <= live[p] && p + live[p] <= limit
  }

  /** Every object has a live block of its own, and there are no other live blocks. */
  ghost predicate Owned(live: map<int, int>, ptr: map<int, int>) {
    && (forall id {:trigger ptr[id]} :: id in ptr ==> ptr[id] - 1 in live)
    && (forall i, j {:trigger ptr[i], ptr[j]} :: i in ptr && j in ptr && i != j ==> ptr[i] != ptr[j])
    && |live| == |ptr|
  }

  // The block of every object is large enough and holds its bytes.
  ghost predicate Stored(m: seq<Word>, live: map<int, int>, ptr: map<int, int>, st: Store) {
    && ptr.Keys == st.Keys
    && forall id {:trigger ptr[id]} :: id in ptr ==> StoredAt(m, live, ptr[id], st[id])
  }

  ghost predicate StoredAt(m: seq<Word>, live: map<int, int>, bp: int, o: Object) {
    bp - 1 in live && o.size <= 8 * live[bp - 1] - 8 && Holds(m, bp, o)
  }

  ghost predicate Represents(m: seq<Word>, live: map<int, int>, ptr: map<int, int>, st: Store) {
    Inside(live, |m|) && Owned(live, ptr) && Stored(m, live, ptr, st)
  }

  // An object keeps its bytes when its block keeps its words.
  lemma StoredKept(m1: seq<Word>, m2: seq<Word>, live1: map<int, int>, live2: map<int, int>, bp: int, o: Object)
    requires Inside(live2, |m1|) && KeepsPayloads(m1, m2, live2) && StoredAt(m1, live1, bp, o)
    requires bp - 1 in live2 && live2[bp - 1] == live1[bp - 1]
    ensures StoredAt(m2, live2, bp, o)
  {
    var n := live2[bp - 1];
    assert SameWords(m1, m2, bp - 1 + 1, bp - 1 + n);
    forall k {:trigger k in o.known} | k in o.known ensures 0 <= k < o.size && ByteFrom(m2, bp, k) == o.known[k] {
      assert m1[bp + k / 8] == m2[bp + k / 8];
    }
  }

  lemma OwnedMore(live: map<int, int>, ptr: map<int, int>, id: int, bp: int, n: int)
    requires Owned(live, ptr) && id !in ptr && bp - 1 !in live
    ensures Owned(live[bp - 1 := n], ptr[id := bp])
  {
  }

  lemma OwnedLess(live: map<int, int>, ptr: map<int, int>, id: int)
    requires Owned(live, ptr) && id in ptr
    ensures Owned(live - {ptr[id] - 1}, ptr - {id})
  {
    assert live.Keys == (live - {ptr[id] - 1}).Keys + {ptr[id] - 1};
    assert ptr.Keys == (ptr - {id}).Keys + {id};
    assert forall i {:trigger (ptr - {id})[i]} :: i in ptr - {id} ==> (ptr - {id})[i] == ptr[i] && ptr[i] != ptr[id];
  }

  lemma AfterAllocation(m1: seq<Word>, m2: seq<Word>, live1: map<int, int>, live2: map<int, int>, ptr: map<int, int>,
                        st: Store, id: int, bp: int, n: int, o: Object)
    requires Represents(m1, live1, ptr, st) && KeepsPayloads(m1, m2, live1) && Inside(live2, |m2|)
    requires bp - 1 !in live1 && live2 == live1[bp - 1 := n] && id !in st
    requires o.size <= 8 * n - 8 && Holds(m2, bp, o)
    ensures Represents(m2, live2, ptr[id := bp], st[id := o])
  {
    OwnedMore(live1, ptr, id, bp, n);
    var ptr2, st2 := ptr[id := bp], st[id := o];
    forall i {:trigger ptr2[i]} | i in ptr2 ensures StoredAt(m2, live2, ptr2[i], st2[i]) {
      if i != id {
        StoredKept(m1, m2, live1, live1, ptr[i], st[i]);
      }
    }
  }

  lemma AfterRelease(m1: seq<Word>, m2: seq<Word>, live1: map<int, int>, live2: map<int, int>, ptr: map<int, int>,
                     st: Store, id: int)
    requires Represents(m1, live1, ptr, st) && id in st
    requires live2 == live1 - {ptr[id] - 1} && KeepsPayloads(m1, m2, live2)
    ensures Represents(m2, live2, ptr - {id}, st - {id})
  {
    OwnedLess(live1, ptr, id);
    var ptr2, st2 := ptr - {id}, st - {id};
    forall i {:trigger ptr2[i]} | i in ptr2 ensures StoredAt(m2, live2, ptr2[i], st2[i]) {
      assert ptr[i] != ptr[id];
      StoredKept(m1, m2, live1, live2, ptr[i], st[i]);
    }
  }

  // An object of the same name in a new block.
  lemma AfterMove(m1: seq<Word>, m2: seq<Word>, live1: map<int, int>, live2: map<int, int>, ptr: map<int, int>,
                  st: Store, id: int, bp: int, n: int, o: Object)
    requires Represents(m1, live1, ptr, st) && id in st && Inside(live2, |m2|)
    requires bp - 1 !in live1 && live2 == live1[bp - 1 := n] - {ptr[id] - 1}
    requires KeepsPayloads(m1, m2, live1 - {ptr[id] - 1})
    requires o.size <= 8 * n - 8 && Holds(m2, bp, o)
    ensures Represents(m2, live2, ptr[id := bp], st[id := o])
  {
    var live := live1 - {ptr[id] - 1};
    AfterRelease(m1, m2, live1, live, ptr, st, id);
    KeepsSelf(m2, live);
    assert live[bp - 1 := n] == live2;
    AfterAllocation(m2, m2, live, live2, ptr - {id}, st - {id}, id, bp, n, o);
    assert (ptr - {id})[id := bp] == ptr[id := bp] && (st - {id})[id := o] == st[id := o];
  }

  lemma KeepsSelf(m: seq<Word>, live: map<int, int>)
    ensures KeepsPayloads(m, m, live)
  {
  }

  // A byte written into an object.
  lemma AfterWrite(m1: seq<Word>, m2: seq<Word>, live: map<int, int>, ptr: map<int, int>, st: Store, id: int, o: Object)
    requires Represents(m1, live, ptr, st) && id in st && o.size == st[id].size
    requires KeepsPayloads(m1, m2, live - {ptr[id] - 1}) && Holds(m2, ptr[id], o)
    ensures Represents(m2, live, ptr, st[id := o])
  {
    var st2 := st[id := o];
    forall i {:trigger ptr[i]} | i in ptr ensures StoredAt(m2, live, ptr[i], st2[i]) {
      if i != id {
        assert ptr[i] != ptr[id];
        StoredKept(m1, m2, live, live - {ptr[id] - 1}, ptr[i], st[i]);
      }
    }
  }

  // ------------------------------------------------------------------ steps on the heap

  ghost predicate In(h: Heap, ptr: map<int, int>, st: Store)
    reads h, h.mem, h.segList
  {
    h.Valid() && Represents(h.mem[..], Live(h.blocks), ptr, st)
  }

  lemma ValidInside(h: Heap)
    requires h.Valid()
    ensures Inside(Live(h.blocks), h.mem.Length)
  {
    if h.Ready() {
      forall p {:trigger p in Live(h.blocks)} | p in Live(h.blocks)
        ensures 1 <= p && MIN_WORDS <= Live(h.blocks)[p] && p + Live(h.blocks)[p] <= h.mem.Length
      {
        assert SizeAt(h.blocks, p) == Live(h.blocks)[p];
      }
    }
  }

  // ------------------------------------------------------------------ what a step does to the heap

  // Nothing was asked of the heap.
  ghost predicate Idle(s1: State, ptr1: map<int, int>, ok: bool, s2: State, ptr2: map<int, int>) {
    !ok && s2 == s1 && ptr2 == ptr1
  }

  // The block of the object went back.
  ghost predicate Released(s1: State, ptr1: map<int, int>, id: int, ok: bool, s2: State, ptr2: map<int, int>) {
    && !ok && id in ptr1 && ptr2 == ptr1 - {id}
    && Freed(s1, ptr1[id] - 1, s2) && Live(s2.blocks) == Live(s1.blocks) - {ptr1[id] - 1}
  }

  // Memory was found exactly when it was to be had and where find_fit finds it, the heap grew by what it had to, a
  // block that was replaced went back, and nothing else became of it.
  ghost predicate Served(h: Heap, s1: State, ptr1: map<int, int>, id: int, size: int, ok: bool, s2: State,
                         ptr2: map<int, int>)
  {
    && 0 <= size && size + 23 < TWO_64
    && (!ok ==> Reply(h, s1, ptr1, id, size, NULL, s2) && ptr2 == ptr1 && Live(s2.blocks) == Live(s1.blocks))
    && (ok ==> id in ptr2 && Reply(h, s1, ptr1, id, size, ptr2[id], s2))
    && (ok ==> ptr2[id] != NULL && ptr2 == ptr1[id := ptr2[id]] && ptr2[id] - 1 !in Live(s1.blocks)
               && Live(s2.blocks) == Swapped(Live(s1.blocks), ptr1, id, ptr2[id], BlockWords(size)))
  }

  // What malloc, or realloc of the object's block, answers and leaves.
  ghost predicate Reply(h: Heap, s1: State, ptr: map<int, int>, id: int, size: int, bp: int, s2: State)
    requires 0 <= size && size + 23 < TWO_64
  {
    if id in ptr then Reallocated(h, s1, ptr[id], size, bp, s2) else h.Answered(s1, size, bp, s2)
  }

  // A new block of n words for the object in place of the one it may have had.
  ghost function Swapped(live: map<int, int>, ptr: map<int, int>, id: int, bp: int, n: int): map<int, int> {
    if id in ptr then live[bp - 1 := n] - {ptr[id] - 1} else live[bp - 1 := n]
  }

  /** What step s does to the state of the heap and to the addresses of the objects. */
  ghost predicate Stepped(h: Heap, s1: State, ptr1: map<int, int>, s: Step, ok: bool, s2: State, ptr2: map<int, int>) {
    match s
    case Malloc(id, size) =>
      if id in ptr1 then Idle(s1, ptr1, ok, s2, ptr2) else Served(h, s1, ptr1, id, size, ok, s2, ptr2)
    case Calloc(id, elements, size) =>
      if id in ptr1 || elements == 0 || elements * size >= TWO_64 then Idle(s1, ptr1, ok, s2, ptr2)
      else Served(h, s1, ptr1, id, elements * size, ok, s2, ptr2)
    case Realloc(id, size) =>
      if size != 0 then Served(h, s1, ptr1, id, size, ok, s2, ptr2)
      else if id in ptr1 then Released(s1, ptr1, id, ok, s2, ptr2)
      else Idle(s1, ptr1, ok, s2, ptr2)
    case Free(id) =>
      if id in ptr1 then Released(s1, ptr1, id, ok, s2, ptr2) else Idle(s1, ptr1, ok, s2, ptr2)
    case Write(_, _, _) => Idle(s1, ptr1, ok, s2, ptr2)
  }

  lemma ValidLaid(h: Heap)
    requires h.Valid()
    ensures Laid(h.Now())
  {
  }

  // An allocation as a whole: with the new object when there was memory for it, and without it otherwise.
  lemma AfterRequest(h: Heap, m1: seq<Word>, s1: State, m2: seq<Word>, s2: State, ptr: map<int, int>, st: Store,
                     id: int, bp: int, size: int, o: Object)
    requires 0 <= size && size + 23 < TWO_64 && id !in ptr && Represents(m1, Live(s1.blocks), ptr, st)
    requires KeepsPayloads(m1, m2, Live(s1.blocks)) && Inside(Live(s2.blocks), |m2|)
    requires h.Answered(s1, size, bp, s2)
    requires bp == NULL ==> Live(s2.blocks) == Live(s1.blocks)
    requires bp != NULL ==> bp - 1 !in Live(s1.blocks) && Live(s2.blocks) == Live(s1.blocks)[bp - 1 := BlockWords(size)]
    requires bp != NULL ==> o.size <= 8 * BlockWords(size) - 8 && Holds(m2, bp, o)
    ensures Represents(m2, Live(s2.blocks), Given(ptr, id, bp), if bp != NULL then st[id := o] else st)
    ensures Served(h, s1, ptr, id, size, bp != NULL, s2, Given(ptr, id, bp))
  {
    if bp != NULL {
      AfterAllocation(m1, m2, Live(s1.blocks), Live(s2.blocks), ptr, st, id, bp, BlockWords(size), o);
    } else {
      Unchanged(m1, m2, Live(s1.blocks), ptr, st);
    }
  }

  // The addresses after an allocation that gave bp.
  function Given(ptr: map<int, int>, id: int, bp: int): map<int, int> {
    if bp != NULL then ptr[id := bp] else ptr
  }

  method DoMalloc(h: Heap, ptr: map<int, int>, st: Store, id: int, size: int) returns (ptr2: map<int, int>, ok: bool)
    requires In(h, ptr, st) && 0 <= size && size + 23 < TWO_64 && id !in ptr
    modifies h, h.mem, h.segList
    ensures In(h, ptr2, if ok then st[id := Fresh(size)] else st)
    ensures Served(h, old(h.Now()), ptr, id, size, ok, h.Now(), ptr2)
  {
    ghost var m, s := h.mem[..], h.Now();
    var bp := h.Malloc(size);
    ValidInside(h);
    if bp != NULL {
      FreshHeld(h.mem[..], Live(h.blocks), bp, size);
    }
    AfterRequest(h, m, s, h.mem[..], h.Now(), ptr, st, id, bp, size, Fresh(size));
    ptr2, ok := Given(ptr, id, bp), bp != NULL;
  }

  lemma Unchanged(m1: seq<Word>, m2: seq<Word>, live: map<int, int>, ptr: map<int, int>, st: Store)
    requires Represents(m1, live, ptr, st) && KeepsPayloads(m1, m2, live)
    ensures Represents(m2, live, ptr, st)
  {
    forall i {:trigger ptr[i]} | i in ptr ensures StoredAt(m2, live, ptr[i], st[i]) {
      StoredKept(m1, m2, live, live, ptr[i], st[i]);
    }
  }

  method DoCalloc(h: Heap, ptr: map<int, int>, st: Store, id: int, elements: int, size: int)
    returns (ptr2: map<int, int>, ok: bool)
    requires In(h, ptr, st) && Sized(Calloc(id, elements, size)) && id !in ptr
    modifies h, h.mem, h.segList
    ensures In(h, ptr2, if ok then st[id := Zeros(elements * size)] else st)
    ensures if elements == 0 || elements * size >= TWO_64 then Idle(old(h.Now()), ptr, ok, h.Now(), ptr2)
            else Served(h, old(h.Now()), ptr, id, elements * size, ok, h.Now(), ptr2)
  {
    ghost var bytes, m, s := elements * size, h.mem[..], h.Now();
    var bp := Reallocation.Calloc(h, elements, size, bytes);
    ValidInside(h);
    if elements != 0 && bytes < TWO_64 {
      AfterCalloc(h, m, s, h.mem[..], h.Now(), ptr, st, id, bp, bytes);
    }
    ptr2, ok := Given(ptr, id, bp), bp != NULL;
  }

  lemma AfterCalloc(h: Heap, m1: seq<Word>, s1: State, m2: seq<Word>, s2: State, ptr: map<int, int>, st: Store,
                    id: int, bp: int, bytes: int)
    requires 0 <= bytes && bytes + 23 < TWO_64 && id !in ptr && Represents(m1, Live(s1.blocks), ptr, st)
    requires KeepsPayloads(m1, m2, Live(s1.blocks)) && Inside(Live(s2.blocks), |m2|)
    requires h.Answered(s1, bytes, bp, s2)
    requires bp == NULL ==> Live(s2.blocks) == Live(s1.blocks)
    requires bp != NULL ==> bp - 1 !in Live(s1.blocks)
                            && Live(s2.blocks) == Live(s1.blocks)[bp - 1 := BlockWords(bytes)]
    requires bp != NULL ==> AllBytes(m2, bp, bytes, 0)
    ensures Represents(m2, Live(s2.blocks), Given(ptr, id, bp), if bp != NULL then st[id := Zeros(bytes)] else st)
    ensures Served(h, s1, ptr, id, bytes, bp != NULL, s2, Given(ptr, id, bp))
  {
    if bp != NULL {
      ZerosHeld(m2, bp, bytes);
    }
    AfterRequest(h, m1, s1, m2, s2, ptr, st, id, bp, bytes, Zeros(bytes));
  }

  lemma FreshHeld(m: seq<Word>, live: map<int, int>, bp: int, size: int)
    requires 0 <= size && size + 23 < TWO_64 && Inside(live, |m|) && bp - 1 in live && live[bp - 1] == BlockWords(size)
    ensures Holds(m, bp, Fresh(size))
  {
  }

  lemma ZerosHeld(m: seq<Word>, bp: int, bytes: int)
    requires 0 <= bytes && bytes + 23 < TWO_64 && AllBytes(m, bp, bytes, 0)
    ensures Holds(m, bp, Zeros(bytes)) && Zeros(bytes).size <= 8 * BlockWords(bytes) - 8
  {
  }

  // A realloc to a size that is not zero as a whole.
  lemma AfterResize(h: Heap, m1: seq<Word>, s1: State, m2: seq<Word>, s2: State, ptr: map<int, int>, st: Store, id: int,
                    bp: int, size: int)
    requires 0 < size && size + 23 < TWO_64 && id in st && Represents(m1, Live(s1.blocks), ptr, st)
    requires KeepsPayloads(m1, m2, Live(s1.blocks) - {ptr[id] - 1}) && Inside(Live(s2.blocks), |m2|)
    requires Reallocated(h, s1, ptr[id], size, bp, s2)
    requires bp == NULL ==> s2.blocks == s1.blocks && m2 == m1
    requires bp != NULL ==> bp - 1 !in Live(s1.blocks)
                            && Live(s2.blocks) == Live(s1.blocks)[bp - 1 := BlockWords(size)] - {ptr[id] - 1}
                            && SameBytes(m1, ptr[id], m2, bp, Min(size, 8 * Live(s1.blocks)[ptr[id] - 1] - 8))
    ensures Represents(m2, Live(s2.blocks), Given(ptr, id, bp),
                       if bp != NULL then st[id := Resized(st[id], size)] else st)
    ensures Served(h, s1, ptr, id, size, bp != NULL, s2, Given(ptr, id, bp))
  {
    ResizeServed(h, s1, s2, ptr, id, bp, size);
    if bp != NULL {
      ResizedMoved(m1, m2, Live(s1.blocks), Live(s2.blocks), ptr, st, id, bp, size);
    }
  }

  lemma ResizeServed(h: Heap, s1: State, s2: State, ptr: map<int, int>, id: int, bp: int, size: int)
    requires 0 < size && size + 23 < TWO_64 && id in ptr && Reallocated(h, s1, ptr[id], size, bp, s2)
    requires bp == NULL ==> s2.blocks == s1.blocks
    requires bp != NULL ==> bp - 1 !in Live(s1.blocks)
                            && Live(s2.blocks) == Live(s1.blocks)[bp - 1 := BlockWords(size)] - {ptr[id] - 1}
    ensures Served(h, s1, ptr, id, size, bp != NULL, s2, Given(ptr, id, bp))
  {
  }

  lemma ResizedMoved(m1: seq<Word>, m2: seq<Word>, live: map<int, int>, live2: map<int, int>, ptr: map<int, int>,
                     st: Store, id: int, bp: int, size: int)
    requires 0 < size && size + 23 < TWO_64 && id in st && Represents(m1, live, ptr, st) && Inside(live2, |m2|)
    requires KeepsPayloads(m1, m2, live - {ptr[id] - 1})
    requires bp - 1 !in live && live2 == live[bp - 1 := BlockWords(size)] - {ptr[id] - 1}
    requires SameBytes(m1, ptr[id], m2, bp, Min(size, 8 * live[ptr[id] - 1] - 8))
    ensures Represents(m2, live2, ptr[id := bp], st[id := Resized(st[id], size)])
  {
    assert StoredAt(m1, live, ptr[id], st[id]);
    FreshHeld(m2, live2, bp, size);
    ResizedHeld(m1, m2, ptr[id], bp, st[id], size, 8 * live[ptr[id] - 1] - 8);
    AfterMove(m1, m2, live, live2, ptr, st, id, bp, BlockWords(size), Resized(st[id], size));
  }

  method DoRealloc(h: Heap, ptr: map<int, int>, st: Store, id: int, size: int) returns (ptr2: map<int, int>, ok: bool)
    requires In(h, ptr, st) && 0 <= size && size + 23 < TWO_64 && id in ptr
    modifies h, h.mem, h.segList
    ensures In(h, ptr2, After(st, Realloc(id, size), ok))
    ensures if size == 0 then Released(old(h.Now()), ptr, id, ok, h.Now(), ptr2)
            else Served(h, old(h.Now()), ptr, id, size, ok, h.Now(), ptr2)
  {
    ghost var m, s := h.mem[..], h.Now();
    assert ptr[id] - 1 in Live(s.blocks);
    LiveIsReady(h, ptr[id]);
    var bp := Reallocation.Realloc(h, ptr[id], size);
    ValidInside(h);
    ok := bp != NULL;
    if size == 0 {
      ptr2 := ptr - {id};
      AfterRelease(m, h.mem[..], Live(s.blocks), Live(h.blocks), ptr, st, id);
    } else {
      AfterResize(h, m, s, h.mem[..], h.Now(), ptr, st, id, bp, size);
      ptr2 := Given(ptr, id, bp);
    }
  }

  // A live payload lies in a heap that is in use, and is not NULL.
  lemma LiveIsReady(h: Heap, bp: int)
    requires h.Valid() && bp - 1 in Live(h.blocks)
    ensures h.Ready() && bp != NULL
  {
    ValidInside(h);
  }

  lemma ResizedHeld(m1: seq<Word>, m2: seq<Word>, p: int, q: int, o: Object, size: int, oldSize: int)
    requires Holds(m1, p, o) && 0 < size && o.size <= oldSize && SameBytes(m1, p, m2, q, Min(size, oldSize))
    requires 0 <= q && 8 * q + size <= 8 * |m2|
    ensures Holds(m2, q, Resized(o, size))
  {
    var r := Resized(o, size);
    forall k {:trigger k in r.known} | k in r.known ensures 0 <= k < size && ByteFrom(m2, q, k) == r.known[k] {
      assert k in o.known;
    }
  }

  // The client stores a byte in its object.
  method DoWrite(h: Heap, ptr: map<int, int>, st: Store, id: int, k: int, value: Byte)
    requires In(h, ptr, st) && id in st && 0 <= k < st[id].size
    modifies h.mem
    ensures In(h, ptr, st[id := Object(st[id].size, st[id].known[k := value])]) && h.Now() == old(h.Now())
  {
    ghost var m, live, heads := h.mem[..], Live(h.blocks), h.segList[..];
    assert id in ptr && ptr[id] - 1 in live && StoredAt(m, live, ptr[id], st[id]);
    LiveIsReady(h, ptr[id]);
    var bp := ptr[id];
    var i := bp + k / 8;
    h.mem[i] := WordFrom(WordBytes(h.mem[i])[k % 8 := value]);
    assert h.segList[..] == heads;
    WritePayload(m, h.mem[..], h.blocks, h.brk - 1, h.listed, heads, h.lists, h.miniList, h.minis, bp - 1);
    ByteHeld(m, h.mem[..], bp, st[id], k, value);
    AfterWrite(m, h.mem[..], live, ptr, st, id, Object(st[id].size, st[id].known[k := value]));
  }

  lemma ByteHeld(m1: seq<Word>, m2: seq<Word>, bp: int, o: Object, k: int, value: Byte)
    requires Holds(m1, bp, o) && 0 <= k < o.size && 0 <= bp
    requires m2 == m1[bp + k / 8 := WordFrom(WordBytes(m1[bp + k / 8])[k % 8 := value])]
    ensures Holds(m2, bp, Object(o.size, o.known[k := value]))
  {
    var r := Object(o.size, o.known[k := value]);
    forall j {:trigger j in r.known} | j in r.known ensures 0 <= j < o.size && ByteFrom(m2, bp, j) == r.known[j] {
      if j != k {
        assert j in o.known && ByteFrom(m1, bp, j) == o.known[j];
        assert j / 8 != k / 8 || j % 8 != k % 8;
      }
    }
  }

  /** One step of the client on the heap. */
  method DoStep(h: Heap, ptr: map<int, int>, st: Store, s: Step) returns (ptr2: map<int, int>, ok: bool)
    requires In(h, ptr, st) && Sized(s)
    modifies h, h.mem, h.segList
    ensures In(h, ptr2, After(st, s, ok)) && Stepped(h, old(h.Now()), ptr, s, ok, h.Now(), ptr2)
  {
    match s {
      case Malloc(_, _) => ptr2, ok := StepMalloc(h, ptr, st, s);
      case Calloc(_, _, _) => ptr2, ok := StepCalloc(h, ptr, st, s);
      case Realloc(_, _) => ptr2, ok := StepRealloc(h, ptr, st, s);
      case Free(_) => ptr2, ok := StepFree(h, ptr, st, s);
      case Write(_, _, _) => ptr2, ok := StepWrite(h, ptr, st, s);
    }
  }

  method StepMalloc(h: Heap, ptr: map<int, int>, st: Store, s: Step) returns (ptr2: map<int, int>, ok: bool)
    requires In(h, ptr, st) && Sized(s) && s.Malloc?
    modifies h, h.mem, h.segList
    ensures In(h, ptr2, After(st, s, ok)) && Stepped(h, old(h.Now()), ptr, s, ok, h.Now(), ptr2)
  {
    ptr2, ok := ptr, false;
    if s.id !in ptr {
      ptr2, ok := DoMalloc(h, ptr, st, s.id, s.size);
    }
  }

  method StepCalloc(h: Heap, ptr: map<int, int>, st: Store, s: Step) returns (ptr2: map<int, int>, ok: bool)
    requires In(h, ptr, st) && Sized(s) && s.Calloc?
    modifies h, h.mem, h.segList
    ensures In(h, ptr2, After(st, s, ok)) && Stepped(h, old(h.Now()), ptr, s, ok, h.Now(), ptr2)
  {
    ptr2, ok := ptr, false;
    if s.id !in ptr {
      ptr2, ok := DoCalloc(h, ptr, st, s.id, s.elements, s.size);
    }
  }

  method StepRealloc(h: Heap, ptr: map<int, int>, st: Store, s: Step) returns (ptr2: map<int, int>, ok: bool)
    requires In(h, ptr, st) && Sized(s) && s.Realloc?
    modifies h, h.mem, h.segList
    ensures In(h, ptr2, After(st, s, ok)) && Stepped(h, old(h.Now()), ptr, s, ok, h.Now(), ptr2)
  {
    ptr2, ok := ptr, false;
    if s.id in ptr {
      ptr2, ok := DoRealloc(h, ptr, st, s.id, s.size);
    } else if s.size != 0 {
      ptr2, ok := DoMalloc(h, ptr, st, s.id, s.size);
    } else {
      assert st - {s.id} == st;
    }
  }

  method StepFree(h: Heap, ptr: map<int, int>, st: Store, s: Step) returns (ptr2: map<int, int>, ok: bool)
    requires In(h, ptr, st) && Sized(s) && s.Free?
    modifies h, h.mem, h.segList
    ensures In(h, ptr2, After(st, s, ok)) && Stepped(h, old(h.Now()), ptr, s, ok, h.Now(), ptr2)
  {
    ptr2, ok := ptr, false;
    if s.id in ptr {
      ptr2 := DoFree(h, ptr, st, s.id);
    } else {
      assert st - {s.id} == st;
    }
  }

  method StepWrite(h: Heap, ptr: map<int, int>, st: Store, s: Step) returns (ptr2: map<int, int>, ok: bool)
    requires In(h, ptr, st) && Sized(s) && s.Write?
    modifies h, h.mem, h.segList
    ensures In(h, ptr2, After(st, s, ok)) && Stepped(h, old(h.Now()), ptr, s, ok, h.Now(), ptr2)
  {
    ptr2, ok := ptr, false;
    if s.id in ptr && 0 <= s.k < st[s.id].size {
      DoWrite(h, ptr, st, s.id, s.k, s.value);
    }
  }

  method DoFree(h: Heap, ptr: map<int, int>, st: Store, id: int) returns (ptr2: map<int, int>)
    requires In(h, ptr, st) && id in ptr
    modifies h, h.mem, h.segList
    ensures In(h, ptr2, st - {id}) && Released(old(h.Now()), ptr, id, false, h.Now(), ptr2)
  {
    ghost var m, live := h.mem[..], Live(h.blocks);
    assert StoredAt(m, live, ptr[id], st[id]);
    LiveIsReady(h, ptr[id]);
    h.Free(ptr[id]);
    AfterRelease(m, h.mem[..], live, Live(h.blocks), ptr, st, id);
    ptr2 := ptr - {id};
  }

  // ------------------------------------------------------------------ runs

  // The store after the first n steps of a script, given which of them found memory.
  function AfterAll(steps: seq<Step>, oks: seq<bool>, n: nat): Store
    requires n <= |steps| && n <= |oks|
  {
    if n == 0 then map[] else After(AfterAll(steps, oks, n - 1), steps[n - 1], oks[n - 1])
  }

  /** The states and addresses of a run: every state is laid out, and each follows from the one before by its step. */
  ghost predicate Trace(h: Heap, steps: seq<Step>, oks: seq<bool>, states: seq<State>, ptrs: seq<map<int, int>>) {
    && |oks| <= |steps| && |states| == |oks| + 1 && |ptrs| == |oks| + 1
    && (forall i {:trigger states[i]} :: 0 <= i < |states| ==> Laid(states[i]))
    && (forall i {:trigger oks[i]} :: 0 <= i < |oks| ==>
          Stepped(h, states[i], ptrs[i], steps[i], oks[i], states[i + 1], ptrs[i + 1]))
  }

  lemma TraceNext(h: Heap, steps: seq<Step>, oks: seq<bool>, states: seq<State>, ptrs: seq<map<int, int>>, ok: bool,
                  s: State, ptr: map<int, int>)
    requires Trace(h, steps, oks, states, ptrs) && |oks| < |steps| && Laid(s)
    requires Stepped(h, states[|oks|], ptrs[|oks|], steps[|oks|], ok, s, ptr)
    ensures Trace(h, steps, oks + [ok], states + [s], ptrs + [ptr])
  {
    var oks2, states2, ptrs2 := oks + [ok], states + [s], ptrs + [ptr];
    forall i {:trigger oks2[i]} | 0 <= i < |oks2|
      ensures Stepped(h, states2[i], ptrs2[i], steps[i], oks2[i], states2[i + 1], ptrs2[i + 1])
    {
      if i < |oks| {
        assert oks2[i] == oks[i];
      }
    }
  }

  /** Every run: from an unused heap, after any script of steps the heap holds exactly the objects and bytes that the
      script itself determines, each in a live block of its own; and every allocation of the script was refused
      exactly when no free block fitted at that point and the heap could not grow. */
  method Run(h: Heap, steps: seq<Step>)
    returns (ptr: map<int, int>, oks: seq<bool>, ghost states: seq<State>, ghost ptrs: seq<map<int, int>>)
    requires h.Valid() && Live(h.blocks) == map[] && forall i :: 0 <= i < |steps| ==> Sized(steps[i])
    modifies h, h.mem, h.segList
    ensures |oks| == |steps| && In(h, ptr, AfterAll(steps, oks, |steps|)) && Trace(h, steps, oks, states, ptrs)
    ensures states[0] == old(h.Now()) && ptrs[0] == map[]
    ensures states[|steps|] == h.Now() && ptrs[|steps|] == ptr
  {
    ptr, oks, states, ptrs := map[], [], [h.Now()], [map[]];
    var st: Store := map[];
    EmptyStore(h);
    ValidLaid(h);
    for i := 0 to |steps|
      invariant |oks| == i && st == AfterAll(steps, oks, i) && In(h, ptr, st)
      invariant Trace(h, steps, oks, states, ptrs) && states[i] == h.Now() && ptrs[i] == ptr
      invariant states[0] == old(h.Now()) && ptrs[0] == map[]
    {
      var ok: bool;
      ptr, ok := DoStep(h, ptr, st, steps[i]);
      ValidLaid(h);
      TraceNext(h, steps, oks, states, ptrs, ok, h.Now(), ptr);
      StoreNext(steps, oks, i, ok);
      oks, states, ptrs := oks + [ok], states + [h.Now()], ptrs + [ptr];
      st := After(st, steps[i], ok);
    }
  }

  /** The same from scratch, for any number of words set aside for the heap. */
  method RunFresh(words: nat, accessible: int -> bool, steps: seq<Step>)
    returns (h: Heap, ptr: map<int, int>, oks: seq<bool>, ghost states: seq<State>, ghost ptrs: seq<map<int, int>>)
    requires words < MAX_HEAP_WORDS && forall i :: 0 <= i < |steps| ==> Sized(steps[i])
    ensures h.mem.Length == words && h.accessible == accessible
    ensures |oks| == |steps| && In(h, ptr, AfterAll(steps, oks, |steps|)) && Trace(h, steps, oks, states, ptrs)
    ensures states[0] == State(false, map[], 0, Index([], [])) && ptrs[0] == map[]
    ensures states[|steps|] == h.Now() && ptrs[|steps|] == ptr
  {
    h := new Heap(words, accessible);
    ptr, oks, states, ptrs := Run(h, steps);
  }

  lemma EmptyStore(h: Heap)
    requires h.Valid() && Live(h.blocks) == map[]
    ensures In(h, map[], map[])
  {
  }

  lemma StoreNext(steps: seq<Step>, oks: seq<bool>, n: nat, ok: bool)
    requires n < |steps| && n == |oks|
    ensures AfterAll(steps, oks + [ok], n + 1) == After(AfterAll(steps, oks, n), steps[n], ok)
  {
    SamePast(steps, oks, oks + [ok], n);
  }

  lemma {:induction false} SamePast(steps: seq<Step>, oks1: seq<bool>, oks2: seq<bool>, n: nat)
    requires n <= |steps| && n <= |oks1| && n <= |oks2| && oks1[..n] == oks2[..n]
    ensures AfterAll(steps, oks1, n) == AfterAll(steps, oks2, n)
  {
    if n > 0 {
      assert oks1[..n][n - 1] == oks1[n - 1] && oks2[..n][n - 1] == oks2[n - 1];
      assert oks1[..n - 1] == oks1[..n][..n - 1] && oks2[..n - 1] == oks2[..n][..n - 1];
      SamePast(steps, oks1, oks2, n - 1);
    }
  }

  // The blocks of some of the objects.
  ghost function Owners(ptr: map<int, int>, names: set<int>): set<int>
    requires names <= ptr.Keys
  {
    set id | id in names :: ptr[id] - 1
  }

  lemma {:induction false} OwnersSize(ptr: map<int, int>, names: set<int>)
    requires forall i, j {:trigger ptr[i], ptr[j]} :: i in ptr && j in ptr && i != j ==> ptr[i] != ptr[j]
    requires names <= ptr.Keys
    ensures |Owners(ptr, names)| == |names|
  {
    if names != {} {
      var id := AnyOf(names);
      OwnersSize(ptr, names - {id});
      assert Owners(ptr, names) == Owners(ptr, names - {id}) + {ptr[id] - 1};
    }
  }

  lemma AnyOf<T>(s: set<T>) returns (x: T)
    requires s != {}
    ensures x in s
  {
    x :| x in s;
  }

  /** No leaks: the live blocks are exactly those of the objects. */
  lemma NoLeaks(h: Heap, ptr: map<int, int>, st: Store)
    requires In(h, ptr, st)
    ensures forall p :: p in Live(h.blocks) <==> exists id :: id in st && ptr[id] - 1 == p
  {
    var live := Live(h.blocks).Keys;
    var owners := Owners(ptr, ptr.Keys);
    OwnersSize(ptr, ptr.Keys);
    assert owners <= live;
    assert live == owners + (live - owners);
    assert forall p :: p in live <==> p in owners;
  }

  /** What a represented store means for addresses: payloads are 16-byte aligned, lie inside the heap, do not overlap,
      and have room for their objects. */
  lemma PayloadsApart(h: Heap, ptr: map<int, int>, st: Store, i: int, j: int)
    requires In(h, ptr, st) && i in st && j in st
    ensures 8 * ptr[i] % 16 == 0 && 16 <= 8 * ptr[i] && 8 * ptr[i] + st[i].size <= 8 * h.brk
    ensures i != j ==> 8 * ptr[i] + st[i].size <= 8 * ptr[j] || 8 * ptr[j] + st[j].size <= 8 * ptr[i]
  {
    assert i in ptr && j in ptr;
    assert StoredAt(h.mem[..], Live(h.blocks), ptr[i], st[i]) && StoredAt(h.mem[..], Live(h.blocks), ptr[j], st[j]);
    LiveIsReady(h, ptr[i]);
    LiveApart(h.blocks, h.brk - 1, ptr[i] - 1, ptr[j] - 1);
    assert AlignedAt(ptr[i] - 1, SizeAt(h.blocks, ptr[i] - 1));
  }
}
