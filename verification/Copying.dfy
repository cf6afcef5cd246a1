/** mem_memcpy and mem_memset on word-aligned addresses: whole words first, then the low bytes of one more. */
module Copying {
  import opened LittleEndian
  import opened BoundaryTags
  import opened Allocator

  // ------------------------------------------------------------------ bytes of memory

  function WordBytes(w: Word): (s: seq<Byte>)
    ensures |s| == 8
  {
    Bytes(Value(w), 8)
  }

  function WordFrom(s: seq<Byte>): (w: Word)
    requires |s| == 8
    ensures WordBytes(w) == s
  {
    PowerValues();
    BytesOfJoin(s);
    WordOf(Join(s))
  }

  // Byte k behind the start of word p.
  function ByteFrom(m: seq<Word>, p: int, k: int): Byte
    requires 0 <= p && 0 <= k && 8 * p + k < 8 * |m|
  {
    WordBytes(m[p + k / 8])[k % 8]
  }

  // Byte k is the digit with weight 256^(k mod 8) of its word.
  lemma ByteValue(m: seq<Word>, p: int, k: int)
    requires 0 <= p && 0 <= k && 8 * p + k < 8 * |m|
    ensures ByteFrom(m, p, k) == Value(m[p + k / 8]) / Power(k % 8) % 256
  {
    BytesDigit(Value(m[p + k / 8]), 8, k % 8);
  }

  /** The first n bytes from word q on in m2 are those from word p on in m1. */
  ghost predicate SameBytes(m1: seq<Word>, p: int, m2: seq<Word>, q: int, n: int) {
    && 0 <= p && 8 * p + n <= 8 * |m1| && 0 <= q && 8 * q + n <= 8 * |m2|
    && forall k {:trigger ByteFrom(m2, q, k)} :: 0 <= k < n ==> ByteFrom(m2, q, k) == ByteFrom(m1, p, k)
  }

  /** The first n bytes from word p on in m are c. */
  ghost predicate AllBytes(m: seq<Word>, p: int, n: int, c: Byte) {
    && 0 <= p && 8 * p + n <= 8 * |m|
    && forall k {:trigger ByteFrom(m, p, k)} :: 0 <= k < n ==> ByteFrom(m, p, k) == c
  }

  /** m1 and m2 differ at most in the first n bytes from word p on. */
  ghost predicate SameButBytes(m1: seq<Word>, m2: seq<Word>, p: int, n: int) {
    && |m1| == |m2| && 0 <= p && 8 * p + n <= 8 * |m1|
    && (forall i {:trigger m2[i]} :: 0 <= i < |m1| && (i < p || 8 * p + n <= 8 * i) ==> m1[i] == m2[i])
    && forall k {:trigger ByteFrom(m2, p, k)} :: 0 <= n <= k && 8 * p + k < 8 * |m1| ==>
       ByteFrom(m2, p, k) == ByteFrom(m1, p, k)
  }

  // The word w with its t low bytes replaced by those of v.
  function WithLow(w: Word, v: Word, t: int): Word
    requires 0 <= t <= 8
  {
    WordFrom(WordBytes(v)[..t] + WordBytes(w)[t..])
  }

  // ------------------------------------------------------------------ copying

  // k words have been copied.
  ghost predicate CopiedWords(m1: seq<Word>, m2: seq<Word>, dst: int, src: int, k: int) {
    && |m1| == |m2| && 0 <= k && 0 <= dst && dst + k <= |m1| && 0 <= src && src + k <= |m1|
    && forall i {:trigger m2[i]} :: 0 <= i < |m1| ==> m2[i] == if dst <= i < dst + k then m1[i - dst + src] else m1[i]
  }

  // The last t bytes behind k words have been copied as well.
  ghost predicate CopiedRest(m1: seq<Word>, m2: seq<Word>, m3: seq<Word>, dst: int, src: int, k: int, t: int) {
    && CopiedWords(m1, m2, dst, src, k) && 0 <= t < 8
    && if t == 0 then m3 == m2
       else dst + k < |m1| && src + k < |m1| && m3 == m2[dst + k := WithLow(m1[dst + k], m1[src + k], t)]
  }

  lemma CopiedBytes(m1: seq<Word>, m2: seq<Word>, m3: seq<Word>, dst: int, src: int, k: int, t: int)
    requires CopiedRest(m1, m2, m3, dst, src, k, t)
    ensures SameBytes(m1, src, m3, dst, 8 * k + t)
  {
    forall b {:trigger ByteFrom(m3, dst, b)} | 0 <= b < 8 * k + t ensures ByteFrom(m3, dst, b) == ByteFrom(m1, src, b) {
      var i, j := b / 8, b % 8;
      assert b == 8 * i + j;
      assert m3[dst + i] == if i < k then m1[src + i] else WithLow(m1[dst + k], m1[src + k], t);
    }
  }

  lemma CopiedElsewhere(m1: seq<Word>, m2: seq<Word>, m3: seq<Word>, dst: int, src: int, k: int, t: int)
    requires CopiedRest(m1, m2, m3, dst, src, k, t)
    ensures SameButBytes(m1, m3, dst, 8 * k + t)
  {
    forall b {:trigger ByteFrom(m3, dst, b)} | 8 * k + t <= b && 8 * dst + b < 8 * |m1|
      ensures ByteFrom(m3, dst, b) == ByteFrom(m1, dst, b)
    {
      var i, j := b / 8, b % 8;
      assert b == 8 * i + j;
      assert m3[dst + i] == if i == k && t > 0 then WithLow(m1[dst + k], m1[src + k], t) else m1[dst + i];
    }
  }

  /** memcpy: equal to copying byte by byte when the ranges are disjoint or the target comes first. */
  method MemCpy(h: Heap, dst: int, src: int, numBytes: int)
    requires 0 <= dst && 0 <= src && 0 <= numBytes
    requires 8 * dst + numBytes <= 8 * h.mem.Length && 8 * src + numBytes <= 8 * h.mem.Length
    requires dst <= src || 8 * src + numBytes <= 8 * dst
    modifies h.mem
    ensures SameBytes(old(h.mem[..]), src, h.mem[..], dst, numBytes)
    ensures SameButBytes(old(h.mem[..]), h.mem[..], dst, numBytes)
  {
    ghost var m1 := h.mem[..];
    var d, s, n := dst, src, numBytes;
    ghost var k := 0;
    while n >= 8
      invariant 0 <= n && n == numBytes - 8 * k && d == dst + k && s == src + k
      invariant CopiedWords(m1, h.mem[..], dst, src, k)
    {
      h.mem[d] := h.mem[s];
      n := n - 8;
      s := s + 1;
      d := d + 1;
      k := k + 1;
    }
    ghost var m2 := h.mem[..];
    if n > 0 {
      h.mem[d] := WithLow(h.mem[d], h.mem[s], n);
    }
    CopiedBytes(m1, m2, h.mem[..], dst, src, k, n);
    CopiedElsewhere(m1, m2, h.mem[..], dst, src, k, n);
  }

  // ------------------------------------------------------------------ filling

  function Pattern(c: Byte): (w: Word)
    ensures WordBytes(w) == [c, c, c, c, c, c, c, c]
  {
    WordFrom([c, c, c, c, c, c, c, c])
  }

  ghost predicate FilledWords(m1: seq<Word>, m2: seq<Word>, dst: int, w: Word, k: int) {
    && |m1| == |m2| && 0 <= k && 0 <= dst && dst + k <= |m1|
    && forall i {:trigger m2[i]} :: 0 <= i < |m1| ==> m2[i] == if dst <= i < dst + k then w else m1[i]
  }

  ghost predicate FilledRest(m1: seq<Word>, m2: seq<Word>, m3: seq<Word>, dst: int, w: Word, k: int, t: int) {
    && FilledWords(m1, m2, dst, w, k) && 0 <= t < 8
    && if t == 0 then m3 == m2 else dst + k < |m1| && m3 == m2[dst + k := WithLow(m1[dst + k], w, t)]
  }

  lemma FilledBytes(m1: seq<Word>, m2: seq<Word>, m3: seq<Word>, dst: int, c: Byte, k: int, t: int)
    requires FilledRest(m1, m2, m3, dst, Pattern(c), k, t)
    ensures AllBytes(m3, dst, 8 * k + t, c)
  {
    forall b {:trigger ByteFrom(m3, dst, b)} | 0 <= b < 8 * k + t ensures ByteFrom(m3, dst, b) == c {
      var i, j := b / 8, b % 8;
      assert b == 8 * i + j;
      assert m3[dst + i] == if i < k then Pattern(c) else WithLow(m1[dst + k], Pattern(c), t);
    }
  }

  lemma FilledElsewhere(m1: seq<Word>, m2: seq<Word>, m3: seq<Word>, dst: int, w: Word, k: int, t: int)
    requires FilledRest(m1, m2, m3, dst, w, k, t)
    ensures SameButBytes(m1, m3, dst, 8 * k + t)
  {
    forall b {:trigger ByteFrom(m3, dst, b)} | 8 * k + t <= b && 8 * dst + b < 8 * |m1|
      ensures ByteFrom(m3, dst, b) == ByteFrom(m1, dst, b)
    {
      var i, j := b / 8, b % 8;
      assert b == 8 * i + j;
      assert m3[dst + i] == if i == k && t > 0 then WithLow(m1[dst + k], w, t) else m1[dst + i];
    }
  }

  /** memset. */
  method MemSet(h: Heap, dst: int, c: Byte, numBytes: int)
    requires 0 <= dst && 0 <= numBytes && 8 * dst + numBytes <= 8 * h.mem.Length
    modifies h.mem
    ensures AllBytes(h.mem[..], dst, numBytes, c)
    ensures SameButBytes(old(h.mem[..]), h.mem[..], dst, numBytes)
  {
    ghost var m1 := h.mem[..];
    var data := Pattern(c);
    var d, n := dst, numBytes;
    ghost var k := 0;
    while n >= 8
      invariant 0 <= n && n == numBytes - 8 * k && d == dst + k
      invariant FilledWords(m1, h.mem[..], dst, data, k)
    {
      h.mem[d] := data;
      n := n - 8;
      d := d + 1;
      k := k + 1;
    }
    ghost var m2 := h.mem[..];
    if n > 0 {
      h.mem[d] := WithLow(h.mem[d], data, n);
    }
    FilledBytes(m1, m2, h.mem[..], dst, c, k, n);
    FilledElsewhere(m1, m2, h.mem[..], dst, data, k, n);
  }

  // ------------------------------------------------------------------ words and bytes

  // Words that are the same have the same bytes.
  lemma WordsToBytes(m1: seq<Word>, m2: seq<Word>, p: int, b: int, n: int)
    requires |m1| == |m2| && 0 <= p <= b <= |m1| && n <= 8 * (b - p)
    requires forall i {:trigger m2[i]} :: p <= i < b ==> m1[i] == m2[i]
    ensures SameBytes(m1, p, m2, p, n)
  {
    forall k {:trigger ByteFrom(m2, p, k)} | 0 <= k < n ensures ByteFrom(m2, p, k) == ByteFrom(m1, p, k) {
      assert m1[p + k / 8] == m2[p + k / 8];
    }
  }

  lemma SameBytesTransitive(m1: seq<Word>, p1: int, m2: seq<Word>, p2: int, m3: seq<Word>, p3: int, n: int)
    requires SameBytes(m1, p1, m2, p2, n) && SameBytes(m2, p2, m3, p3, n)
    ensures SameBytes(m1, p1, m3, p3, n)
  {
  }
}
