/** What a client may rely on, from the script alone: bytes stay until they are overwritten, cut off or given back. */
module ClientLaws {
  import opened LittleEndian
  import opened BoundaryTags
  import opened Layout
  import opened Copying
  import opened Allocator
  import opened ObjectStore

  // The step leaves byte k of the object alone.
  predicate Spares(s: Step, id: int, k: int) {
    match s
    case Malloc(_, _) => true
    case Calloc(_, _, _) => true
    case Realloc(i, size) => i != id || k < size
    case Free(i) => i != id
    case Write(i, j, _) => i != id || j != k
  }

  // In the store, byte k of the object is known to be v.
  predicate Known(st: Store, id: int, k: int, v: Byte) {
    id in st && k in st[id].known && st[id].known[k] == v
  }

  lemma SparedOnce(st: Store, s: Step, ok: bool, id: int, k: int, v: Byte)
    requires Known(st, id, k, v) && Spares(s, id, k) && 0 <= k
    ensures Known(After(st, s, ok), id, k, v)
  {
  }

  /** A byte that is known at one point of a script is known as long as all steps spare it. */
  lemma {:induction false} KnownStays(steps: seq<Step>, oks: seq<bool>, i: nat, n: nat, id: int, k: int, v: Byte)
    requires i <= n <= |steps| && n <= |oks| && 0 <= k && Known(AfterAll(steps, oks, i), id, k, v)
    requires forall j :: i <= j < n ==> Spares(steps[j], id, k)
    ensures Known(AfterAll(steps, oks, n), id, k, v)
    decreases n
  {
    if i < n {
      KnownStays(steps, oks, i, n - 1, id, k, v);
      SparedOnce(AfterAll(steps, oks, n - 1), steps[n - 1], oks[n - 1], id, k, v);
    }
  }

  // A known byte is found in memory.
  lemma KnownHeld(h: Heap, ptr: map<int, int>, st: Store, id: int, k: int, v: Byte)
    requires In(h, ptr, st) && Known(st, id, k, v)
    ensures id in ptr && 0 <= ptr[id] && 0 <= k && 8 * ptr[id] + k < 8 * h.mem.Length
    ensures ByteFrom(h.mem[..], ptr[id], k) == v
  {
    assert id in ptr && StoredAt(h.mem[..], Live(h.blocks), ptr[id], st[id]);
  }

  /** What was written into an object is found in its payload after any steps that spare it, wherever it has moved. */
  lemma {:induction false} WriteStays(h: Heap, ptr: map<int, int>, steps: seq<Step>, oks: seq<bool>, i: nat, n: nat,
                                      id: int, k: int, v: Byte)
    requires i < n <= |steps| && n <= |oks| && In(h, ptr, AfterAll(steps, oks, n))
    requires steps[i] == Write(id, k, v) && id in AfterAll(steps, oks, i) && 0 <= k < AfterAll(steps, oks, i)[id].size
    requires forall j :: i < j < n ==> Spares(steps[j], id, k)
    ensures id in ptr && 0 <= ptr[id] && 8 * ptr[id] + k < 8 * h.mem.Length && ByteFrom(h.mem[..], ptr[id], k) == v
  {
    WrittenKnown(steps, oks, i, n, id, k, v);
    KnownHeld(h, ptr, AfterAll(steps, oks, n), id, k, v);
  }

  lemma {:induction false} WrittenKnown(steps: seq<Step>, oks: seq<bool>, i: nat, n: nat, id: int, k: int, v: Byte)
    requires i < n <= |steps| && n <= |oks|
    requires steps[i] == Write(id, k, v) && id in AfterAll(steps, oks, i) && 0 <= k < AfterAll(steps, oks, i)[id].size
    requires forall j :: i < j < n ==> Spares(steps[j], id, k)
    ensures Known(AfterAll(steps, oks, n), id, k, v)
  {
    assert AfterAll(steps, oks, i + 1) == After(AfterAll(steps, oks, i), steps[i], oks[i]);
    KnownStays(steps, oks, i + 1, n, id, k, v);
  }

  lemma ZeroKnown(st: Store, id: int, elements: int, size: int, k: int)
    requires id !in st && 0 <= k < elements * size
    ensures Known(After(st, Calloc(id, elements, size), true), id, k, 0)
  {
    assert k in Zeros(elements * size).known;
  }

  /** A byte of a calloc that found memory is zero until it is written. */
  lemma {:induction false} ZeroStays(h: Heap, ptr: map<int, int>, steps: seq<Step>, oks: seq<bool>, i: nat, n: nat,
                                     id: int, elements: int, size: int, k: int)
    requires i < n <= |steps| && n <= |oks| && In(h, ptr, AfterAll(steps, oks, n))
    requires steps[i] == Calloc(id, elements, size) && oks[i] && id !in AfterAll(steps, oks, i)
    requires 0 <= k < elements * size && forall j :: i < j < n ==> Spares(steps[j], id, k)
    ensures id in ptr && 0 <= ptr[id] && 8 * ptr[id] + k < 8 * h.mem.Length && ByteFrom(h.mem[..], ptr[id], k) == 0
  {
    ClearedKnown(steps, oks, i, n, id, elements, size, k);
    KnownHeld(h, ptr, AfterAll(steps, oks, n), id, k, 0);
  }

  lemma {:induction false} ClearedKnown(steps: seq<Step>, oks: seq<bool>, i: nat, n: nat, id: int, elements: int,
                                        size: int, k: int)
    requires i < n <= |steps| && n <= |oks|
    requires steps[i] == Calloc(id, elements, size) && oks[i] && id !in AfterAll(steps, oks, i)
    requires 0 <= k < elements * size && forall j :: i < j < n ==> Spares(steps[j], id, k)
    ensures Known(AfterAll(steps, oks, n), id, k, 0)
  {
    ZeroKnown(AfterAll(steps, oks, i), id, elements, size, k);
    assert AfterAll(steps, oks, i + 1) == After(AfterAll(steps, oks, i), steps[i], oks[i]);
    KnownStays(steps, oks, i + 1, n, id, k, 0);
  }

  /** An object has as many bytes as were asked for last, at its own address, until it is given back. */
  lemma {:induction false} SizeStays(steps: seq<Step>, oks: seq<bool>, i: nat, n: nat, id: int, size: int)
    requires i <= n <= |steps| && n <= |oks| && id in AfterAll(steps, oks, i)
    requires AfterAll(steps, oks, i)[id].size == size
    requires forall j :: i <= j < n ==> steps[j] != Free(id) && !(steps[j].Realloc? && steps[j].id == id)
    ensures id in AfterAll(steps, oks, n) && AfterAll(steps, oks, n)[id].size == size
    decreases n
  {
    if i < n {
      SizeStays(steps, oks, i, n - 1, id, size);
    }
  }
}
