/** What find_fit looks for: the end of the first strictly decreasing run of fitting blocks, in the lowest class that
    has a fitting block. */
module FitSearch {
  import opened BoundaryTags
  import opened Layout
  import opened FreeIndex
  import opened Tagging
  import opened Coalescing

  // The blocks with n words or more among the first i of s, in the order of s.
  ghost function Fitting(bs: Blocks, s: seq<int>, i: int, n: int): seq<int>
    requires 0 <= i <= |s|
  {
    if i == 0 then []
    else if n <= SizeAt(bs, s[i - 1]) then Fitting(bs, s, i - 1, n) + [s[i - 1]]
    else Fitting(bs, s, i - 1, n)
  }

  lemma {:induction false} FittingMember(bs: Blocks, s: seq<int>, i: int, n: int, p: int)
    requires 0 <= i <= |s|
    ensures p in Fitting(bs, s, i, n) <==> n <= SizeAt(bs, p) && p in s[..i]
  {
    if i > 0 {
      FittingMember(bs, s, i - 1, n, p);
      assert s[..i] == s[..i - 1] + [s[i - 1]];
    }
  }

  // The sizes decrease strictly along the first k + 1 blocks of f.
  ghost predicate Descending(bs: Blocks, f: seq<int>, k: int) {
    forall i, j {:trigger f[i], f[j]} :: 0 <= i && j == i + 1 && j < |f| && j <= k ==>
      SizeAt(bs, f[j]) < SizeAt(bs, f[i])
  }

  // f[k] ends the first strictly decreasing run of f: what follows it, if anything, is not smaller.
  ghost predicate EndsDescent(bs: Blocks, f: seq<int>, k: int) {
    && 0 <= k < |f| && Descending(bs, f, k)
    && (k + 1 < |f| ==> SizeAt(bs, f[k]) <= SizeAt(bs, f[k + 1]))
  }

  ghost predicate EndsFirstDescent(bs: Blocks, s: seq<int>, n: int, r: int) {
    exists k :: EndsDescent(bs, Fitting(bs, s, |s|, n), k) && Fitting(bs, s, |s|, n)[k] == r
  }

  // The heap has no free block of n words or more.
  ghost predicate NoFit(bs: Blocks, n: int) {
    forall p {:trigger FreeAt(bs, p)} :: FreeAt(bs, p) ==> SizeAt(bs, p) < n
  }

  ghost predicate NoneFits(bs: Blocks, s: seq<int>, n: int) {
    forall p :: p in s ==> SizeAt(bs, p) < n
  }

  /** r is what a search through the class lists finds for n words. */
  ghost predicate BetterFit(bs: Blocks, lists: seq<seq<int>>, n: int, r: int)
    requires |lists| == LENGTH
  {
    exists c {:trigger lists[c]} ::
      FindClass(8 * n) <= c < LENGTH && EndsFirstDescent(bs, lists[c], n, r)
      && forall d {:trigger lists[d]} :: FindClass(8 * n) <= d < c ==> NoneFits(bs, lists[d], n)
  }

  /** p is the free block that find_fit picks for n words: the head of the mini list, or what the search finds. */
  ghost predicate Chosen(bs: Blocks, lists: seq<seq<int>>, minis: seq<int>, n: int, p: int) {
    |lists| == LENGTH && if n == MIN_WORDS && minis != [] then p == minis[0] else BetterFit(bs, lists, n, p)
  }

  // g is how f begins.
  ghost predicate Begins(g: seq<int>, f: seq<int>) {
    && |g| <= |f|
    && forall i {:trigger f[i]} {:trigger g[i]} :: 0 <= i < |g| ==> f[i] == g[i]
  }

  // Looking further only adds blocks at the end.
  lemma {:induction false} FittingBegins(bs: Blocks, s: seq<int>, i: int, j: int, n: int)
    requires 0 <= i <= j <= |s|
    ensures Begins(Fitting(bs, s, i, n), Fitting(bs, s, j, n))
    decreases j
  {
    if i < j {
      FittingBegins(bs, s, i, j - 1, n);
    }
  }

  // The state of the search after i blocks of s: all fitting ones decrease, and best is the last of them.
  ghost predicate Scanned(bs: Blocks, s: seq<int>, i: int, n: int, best: int) {
    && 0 <= i <= |s|
    && Descending(bs, Fitting(bs, s, i, n), i) && best == Last(Fitting(bs, s, i, n))
    && (best != NULL ==> n <= SizeAt(bs, best))
  }

  lemma {:induction false} FittingShorter(bs: Blocks, s: seq<int>, i: int, n: int)
    requires 0 <= i <= |s|
    ensures |Fitting(bs, s, i, n)| <= i
  {
    if i > 0 {
      FittingShorter(bs, s, i - 1, n);
    }
  }

  lemma DescendingAppend(bs: Blocks, f: seq<int>, x: int, g: seq<int>, k: int)
    requires Descending(bs, f, |f|) && (f != [] ==> SizeAt(bs, x) < SizeAt(bs, Last(f))) && g == f + [x]
    ensures Descending(bs, g, k) && Last(g) == x
  {
    forall i, j {:trigger g[i], g[j]} | 0 <= i && j == i + 1 && j < |g| ensures SizeAt(bs, g[j]) < SizeAt(bs, g[i]) {
      if j < |f| {
        assert g[i] == f[i] && g[j] == f[j];
      }
    }
  }

  // One more block that does not fit.
  lemma ScanSkip(bs: Blocks, s: seq<int>, i: int, n: int, best: int)
    requires Scanned(bs, s, i, n, best) && i < |s| && SizeAt(bs, s[i]) < n
    ensures Scanned(bs, s, i + 1, n, best)
  {
    FittingShorter(bs, s, i, n);
  }

  // One more block that fits better, or is the first to fit.
  lemma ScanTake(bs: Blocks, s: seq<int>, i: int, n: int, best: int)
    requires Scanned(bs, s, i, n, best) && i < |s| && NULL !in s && n <= SizeAt(bs, s[i])
    requires best == NULL || SizeAt(bs, s[i]) < SizeAt(bs, best)
    ensures Scanned(bs, s, i + 1, n, s[i])
  {
    LastIn(Fitting(bs, s, i, n));
    FittingMember(bs, s, i, n, NULL);
    FittingShorter(bs, s, i, n);
    DescendingAppend(bs, Fitting(bs, s, i, n), s[i], Fitting(bs, s, i + 1, n), i + 1);
  }

  // One more block that fits, but not better.
  lemma ScanStop(bs: Blocks, s: seq<int>, i: int, n: int, best: int)
    requires Scanned(bs, s, i, n, best) && i < |s| && n <= SizeAt(bs, s[i])
    requires best != NULL && SizeAt(bs, best) <= SizeAt(bs, s[i])
    ensures EndsFirstDescent(bs, s, n, best)
  {
    FittingShorter(bs, s, i, n);
    FittingBegins(bs, s, i, |s|, n);
    FittingBegins(bs, s, i + 1, |s|, n);
    var g, f := Fitting(bs, s, i, n), Fitting(bs, s, |s|, n);
    assert Fitting(bs, s, i + 1, n)[|g|] == s[i];
    assert f[|g| - 1] == best && f[|g|] == s[i];
    assert EndsDescent(bs, f, |g| - 1);
  }

  // The whole list has been looked at.
  lemma ScanAll(bs: Blocks, s: seq<int>, n: int, best: int)
    requires Scanned(bs, s, |s|, n, best) && NULL !in s
    ensures if best == NULL then NoneFits(bs, s, n) else EndsFirstDescent(bs, s, n, best)
  {
    var f := Fitting(bs, s, |s|, n);
    if best != NULL {
      FittingShorter(bs, s, |s|, n);
      assert EndsDescent(bs, f, |f| - 1);
    } else {
      LastIn(f);
      assert s[..|s|] == s;
      FittingMember(bs, s, |s|, n, NULL);
      forall p | p in s ensures SizeAt(bs, p) < n {
        FittingMember(bs, s, |s|, n, p);
      }
    }
  }

  lemma LastIn(s: seq<int>)
    ensures s != [] ==> Last(s) in s
  {
  }

  function Last(s: seq<int>): int {
    if s == [] then NULL else s[|s| - 1]
  }

  /** Larger blocks are never on lower lists. */
  lemma FindClassMonotone(a: int, b: int)
    requires a <= b
    ensures FindClass(a) <= FindClass(b)
  {
  }

  /** Only mini blocks belong to class 0, and those go to the mini list: list 0 is always empty. */
  lemma ClassZeroEmpty(m: seq<Word>, bs: Blocks, epilogue: int, listed: set<int>, heads: seq<int>, lists: seq<seq<int>>,
                       mini: int, minis: seq<int>)
    requires Tiling(bs, epilogue) && Aligned(bs, epilogue) && ListsFree(bs, listed)
    requires Indexed(m, bs, listed, heads, lists, mini, minis)
    ensures lists[0] == [] && heads[0] == NULL
  {
    forall p {:trigger p in listed} | p in listed ensures !InClass(bs, p, 0) {
      assert AlignedAt(p, SizeAt(bs, p)) && Fits(bs, epilogue, p, SizeAt(bs, p));
    }
    HeadInList(m, bs, listed, 0, heads[0], lists[0]);
  }

  /** If no listed block of class FindClass(n) or above fits, and n is no mini request with a mini block at hand, then
      no listed block fits. */
  lemma SearchComplete(m: seq<Word>, bs: Blocks, epilogue: int, listed: set<int>, heads: seq<int>, lists: seq<seq<int>>,
                       mini: int, minis: seq<int>, n: int)
    requires Tiling(bs, epilogue) && ListsFree(bs, listed) && Indexed(m, bs, listed, heads, lists, mini, minis)
    requires MIN_WORDS <= n && (n == MIN_WORDS ==> minis == [])
    requires forall d {:trigger lists[d]} :: FindClass(8 * n) <= d < LENGTH ==> NoneFits(bs, lists[d], n)
    ensures forall p {:trigger p in listed} :: p in listed ==> SizeAt(bs, p) < n
  {
    forall p {:trigger p in listed} | p in listed ensures SizeAt(bs, p) < n {
      var c := FindClass(8 * SizeAt(bs, p));
      assert ClassList(m, bs, listed, c, heads[c], lists[c]);
      assert IsMini(bs, p) || p in lists[c];
      assert IsMini(bs, p) ==> p in minis;
      if n <= SizeAt(bs, p) {
        FindClassMonotone(8 * n, 8 * SizeAt(bs, p));
      }
    }
  }

  // What memory says about the block at place i of the list of class c.
  lemma OnList(m: seq<Word>, bs: Blocks, epilogue: int, listed: set<int>, heads: seq<int>, lists: seq<seq<int>>,
               mini: int, minis: seq<int>, c: int, i: int)
    requires Consistent(m, bs, epilogue, listed, heads, lists, mini, minis, 0) && 0 <= c < LENGTH && 0 <= i < |lists[c]|
    ensures var p := lists[c][i];
            p != NULL && FreeAt(bs, p) && 0 <= p && p + NEXT < |m| && !m[p].alloc && SizeOf(m[p]) == SizeAt(bs, p)
            && AddressOf(m[p + NEXT]) == At(lists[c], i + 1)
    ensures At(lists[c], i + 1) == NULL <==> i + 1 == |lists[c]|
  {
    var p := lists[c][i];
    assert ClassList(m, bs, listed, c, heads[c], lists[c]) && p in lists[c];
    NextHeader(m, bs, epilogue, 0, p);
    NextLink(m, lists[c], i, NEXT);
  }

  lemma NullNotListed(m: seq<Word>, bs: Blocks, epilogue: int, listed: set<int>, heads: seq<int>, lists: seq<seq<int>>,
                      mini: int, minis: seq<int>, c: int)
    requires Consistent(m, bs, epilogue, listed, heads, lists, mini, minis, 0) && 0 <= c < LENGTH
    ensures NULL !in lists[c] && heads[c] == At(lists[c], 0) && (heads[c] == NULL ==> lists[c] == [])
  {
    HeadInList(m, bs, listed, c, heads[c], lists[c]);
    assert SizeAt(bs, NULL) == 0;
  }

  // ------------------------------------------------------------------ the choice is unique

  // The first descent of a list has one end.
  lemma EndUnique(bs: Blocks, s: seq<int>, n: int, p: int, q: int)
    requires EndsFirstDescent(bs, s, n, p) && EndsFirstDescent(bs, s, n, q)
    ensures p == q
  {
    var f := Fitting(bs, s, |s|, n);
    var j :| EndsDescent(bs, f, j) && f[j] == p;
    var k :| EndsDescent(bs, f, k) && f[k] == q;
    assert j == k;
  }

  // A list with a fit has a first descent, and one of its blocks fits.
  lemma EndFits(bs: Blocks, s: seq<int>, n: int, p: int)
    requires EndsFirstDescent(bs, s, n, p)
    ensures !NoneFits(bs, s, n)
  {
    var f := Fitting(bs, s, |s|, n);
    var k :| EndsDescent(bs, f, k) && f[k] == p;
    FittingMember(bs, s, |s|, n, p);
    assert p in f && s[..|s|] == s;
  }

  /** find_fit has one answer. */
  lemma ChosenUnique(bs: Blocks, lists: seq<seq<int>>, minis: seq<int>, n: int, p: int, q: int)
    requires Chosen(bs, lists, minis, n, p) && Chosen(bs, lists, minis, n, q)
    ensures p == q
  {
    if n != MIN_WORDS || minis == [] {
      var first := FindClass(8 * n);
      var c {:trigger lists[c]} :| first <= c < LENGTH && EndsFirstDescent(bs, lists[c], n, p)
             && forall e {:trigger lists[e]} :: first <= e < c ==> NoneFits(bs, lists[e], n);
      var d {:trigger lists[d]} :| first <= d < LENGTH && EndsFirstDescent(bs, lists[d], n, q)
             && forall e {:trigger lists[e]} :: first <= e < d ==> NoneFits(bs, lists[e], n);
      EndFits(bs, lists[c], n, p);
      EndFits(bs, lists[d], n, q);
      EndUnique(bs, lists[c], n, p, q);
    }
  }

  // ------------------------------------------------------------------ better fit is not best fit

  /** The end of the first descent is the smallest fit of its list exactly when no block further down is smaller. */
  lemma {:induction false} SmallestExactly(bs: Blocks, f: seq<int>, k: int)
    requires EndsDescent(bs, f, k)
    ensures (forall p :: p in f ==> SizeAt(bs, f[k]) <= SizeAt(bs, p))
            <==> (forall j {:trigger f[j]} :: k < j < |f| ==> SizeAt(bs, f[k]) <= SizeAt(bs, f[j]))
  {
    forall j {:trigger f[j]} | 0 <= j <= k ensures SizeAt(bs, f[k]) <= SizeAt(bs, f[j]) {
      DescendingFar(bs, f, k, j, k);
    }
  }

  lemma {:induction false} DescendingFar(bs: Blocks, f: seq<int>, k: int, i: int, j: int)
    requires Descending(bs, f, k) && 0 <= i <= j <= k < |f|
    ensures SizeAt(bs, f[j]) <= SizeAt(bs, f[i])
    decreases j - i
  {
    if i < j {
      DescendingFar(bs, f, k, i + 1, j);
    }
  }

  // A bound of the classes separates the sizes below it from the others.
  lemma BoundSeparates(below: int, above: int, bound: int)
    requires bound in [32, 64, 128, 256, 512, 1024, 2048, 3072, 4096, 6656, 8192, 16384, 32768]
    requires below < bound <= above
    ensures FindClass(below) < FindClass(above)
  {
    SameClass(below, above);
    FindClassMonotone(below, above);
  }

  /** Segregated fit: when a block below a bound fits, find_fit takes one below it, whatever larger blocks there are and
      in whatever order. */
  lemma SegregatedFit(bs: Blocks, lists: seq<seq<int>>, minis: seq<int>, n: int, r: int, q: int, bound: int)
    requires bound in [32, 64, 128, 256, 512, 1024, 2048, 3072, 4096, 6656, 8192, 16384, 32768]
    requires |lists| == LENGTH && forall c {:trigger lists[c]} :: 0 <= c < LENGTH ==> Gathered(bs, lists[c], c)
    requires forall p {:trigger p in minis} :: p in minis <==> FreeAt(bs, p) && IsMini(bs, p)
    requires MIN_WORDS <= n && Chosen(bs, lists, minis, n, r)
    requires FreeAt(bs, q) && n <= SizeAt(bs, q) && 8 * SizeAt(bs, q) < bound
    ensures 8 * SizeAt(bs, r) < bound
  {
    if n == MIN_WORDS && minis != [] {
      assert minis[0] in minis;
    } else {
      var first, mine := FindClass(8 * n), FindClass(8 * SizeAt(bs, q));
      FindClassMonotone(8 * n, 8 * SizeAt(bs, q));
      assert q in minis || q in lists[mine];
      var c {:trigger lists[c]} :| first <= c < LENGTH && EndsFirstDescent(bs, lists[c], n, r)
             && forall d {:trigger lists[d]} :: first <= d < c ==> NoneFits(bs, lists[d], n);
      EndOnList(bs, lists[c], n, r);
      assert c <= mine && Gathered(bs, lists[c], c);
      if bound <= 8 * SizeAt(bs, r) {
        BoundSeparates(8 * SizeAt(bs, q), 8 * SizeAt(bs, r), bound);
      }
    }
  }

  lemma EndOnList(bs: Blocks, s: seq<int>, n: int, r: int)
    requires EndsFirstDescent(bs, s, n, r)
    ensures r in s
  {
    var f := Fitting(bs, s, |s|, n);
    var k :| EndsDescent(bs, f, k) && f[k] == r;
    FittingMember(bs, s, |s|, n, r);
    assert r in f && s[..|s|] == s;
  }

  /** With free blocks of 48, 144 and 112 bytes, a request of 40 bytes gets the first one, however the lists stand. */
  lemma SmallClassFirst(bs: Blocks, epilogue: int, lists: seq<seq<int>>, minis: seq<int>, r: int)
    requires ThreeFree(bs, epilogue, 6, 18, 14)
    requires |lists| == LENGTH && forall c {:trigger lists[c]} :: 0 <= c < LENGTH ==> Gathered(bs, lists[c], c)
    requires forall p {:trigger p in minis} :: p in minis <==> FreeAt(bs, p) && IsMini(bs, p)
    requires Chosen(bs, lists, minis, BlockWords(40), r)
    ensures r == 1 && SizeAt(bs, r) == 6
  {
    assert SizeAt(bs, 1) == 6 && FreeAt(bs, 1);
    assert BlockWords(40) == 6;
    SegregatedFit(bs, lists, minis, 6, r, 1, 64);
    ChosenFree(bs, lists, minis, 6, r);
  }

  lemma ChosenFree(bs: Blocks, lists: seq<seq<int>>, minis: seq<int>, n: int, r: int)
    requires |lists| == LENGTH && forall c {:trigger lists[c]} :: 0 <= c < LENGTH ==> Gathered(bs, lists[c], c)
    requires forall p {:trigger p in minis} :: p in minis <==> FreeAt(bs, p) && IsMini(bs, p)
    requires Chosen(bs, lists, minis, n, r)
    ensures FreeAt(bs, r)
  {
    if n == MIN_WORDS && minis != [] {
      assert minis[0] in minis;
    } else {
      var c {:trigger lists[c]} :| FindClass(8 * n) <= c < LENGTH && EndsFirstDescent(bs, lists[c], n, r)
             && forall d {:trigger lists[d]} :: FindClass(8 * n) <= d < c ==> NoneFits(bs, lists[d], n);
      EndOnList(bs, lists[c], n, r);
      assert Gathered(bs, lists[c], c);
    }
  }

  // Three free blocks of a, b and c words with blocks of two words between them and behind.
  ghost predicate ThreeFree(bs: Blocks, epilogue: int, a: int, b: int, c: int) {
    && epilogue == 7 + a + b + c
    && (forall p {:trigger SizeAt(bs, p)} {:trigger FreeAt(bs, p)} :: FreeAt(bs, p) <==> p in [1, 3 + a, 5 + a + b])
    && (forall p {:trigger SizeAt(bs, p)} :: SizeAt(bs, p) ==
          if p == 1 then a else if p == 3 + a then b else if p == 5 + a + b then c
          else if p == 1 + a || p == 3 + a + b || p == 5 + a + b + c then MIN_WORDS else 0)
    && (forall p {:trigger SizeAt(bs, p)} :: p in bs <==> SizeAt(bs, p) != 0)
  }

  lemma ThreeFreeLaid(bs: Blocks, epilogue: int, a: int, b: int, c: int)
    requires ThreeFree(bs, epilogue, a, b, c) && MIN_WORDS <= a && MIN_WORDS <= b && MIN_WORDS <= c
    requires a % 2 == 0 && b % 2 == 0 && c % 2 == 0
    ensures Tiling(bs, epilogue) && Aligned(bs, epilogue) && NoAdjacentFree(bs, 0)
  {
    forall p {:trigger SizeAt(bs, p)} | p in bs
      ensures Fits(bs, epilogue, p, SizeAt(bs, p)) && AlignedAt(p, SizeAt(bs, p))
      ensures FreeAt(bs, p) ==> !FreeAt(bs, p + SizeAt(bs, p))
      ensures forall q {:trigger SizeAt(bs, q)} :: q in bs ==> Apart(p, SizeAt(bs, p), q, SizeAt(bs, q))
    {
      ThreeFreeBlock(bs, epilogue, a, b, c, p);
    }
    assert SizeAt(bs, 1) == a;
  }

  lemma ThreeFreeBlock(bs: Blocks, epilogue: int, a: int, b: int, c: int, p: int)
    requires ThreeFree(bs, epilogue, a, b, c) && MIN_WORDS <= a && MIN_WORDS <= b && MIN_WORDS <= c
    requires a % 2 == 0 && b % 2 == 0 && c % 2 == 0 && p in bs
    ensures Fits(bs, epilogue, p, SizeAt(bs, p)) && AlignedAt(p, SizeAt(bs, p))
    ensures FreeAt(bs, p) ==> !FreeAt(bs, p + SizeAt(bs, p))
    ensures forall q {:trigger SizeAt(bs, q)} :: q in bs ==> Apart(p, SizeAt(bs, p), q, SizeAt(bs, q))
  {
    assert SizeAt(bs, p) != 0 && SizeAt(bs, p + SizeAt(bs, p)) >= 0;
  }

  lemma ThreeFreeMade(a: int, b: int, c: int) returns (bs: Blocks, epilogue: int)
    requires MIN_WORDS <= a && MIN_WORDS <= b && MIN_WORDS <= c
    ensures ThreeFree(bs, epilogue, a, b, c)
  {
    bs := map[1 := -a, 1 + a := MIN_WORDS, 3 + a := -b, 3 + a + b := MIN_WORDS,
              5 + a + b := -c, 5 + a + b + c := MIN_WORDS];
    epilogue := 7 + a + b + c;
  }

  // The class lists, when all three free blocks belong to class d.
  lemma ThreeListed(bs: Blocks, epilogue: int, a: int, b: int, c: int, d: int) returns (lists: seq<seq<int>>)
    requires ThreeFree(bs, epilogue, a, b, c) && MIN_WORDS < a && MIN_WORDS < b && MIN_WORDS < c && 0 <= d < LENGTH
    requires FindClass(8 * a) == FindClass(8 * b) == FindClass(8 * c) == d
    ensures |lists| == LENGTH && lists[d] == [1, 3 + a, 5 + a + b]
    ensures forall e {:trigger lists[e]} :: 0 <= e < LENGTH ==> Gathered(bs, lists[e], e)
  {
    var s := [1, 3 + a, 5 + a + b];
    lists := seq(LENGTH, e => if e == d then s else []);
    forall e {:trigger lists[e]} | 0 <= e < LENGTH ensures Gathered(bs, lists[e], e) {
      forall p {:trigger SizeAt(bs, p)} ensures p in lists[e] <==> FreeAt(bs, p) && InClass(bs, p, e) {
        assert FreeAt(bs, p) <==> p in s;
      }
    }
  }

  // s holds the free blocks of class c.
  ghost predicate Gathered(bs: Blocks, s: seq<int>, c: int) {
    forall p {:trigger p in s} {:trigger SizeAt(bs, p)} :: p in s <==> FreeAt(bs, p) && InClass(bs, p, c)
  }

  /** find_fit may leave a smaller fit behind: with free blocks of 160, 192 and 144 bytes on the list of their class, a
      request for 128 bytes gets the first one. */
  lemma NotSmallest() returns (bs: Blocks, epilogue: int, lists: seq<seq<int>>, n: int, r: int, q: int)
    ensures Tiling(bs, epilogue) && Aligned(bs, epilogue) && NoAdjacentFree(bs, 0)
    ensures |lists| == LENGTH && forall c {:trigger lists[c]} :: 0 <= c < LENGTH ==> Gathered(bs, lists[c], c)
    ensures Chosen(bs, lists, [], n, r) && FreeAt(bs, q) && n <= SizeAt(bs, q) < SizeAt(bs, r)
  {
    var a, b, c := 20, 24, 18;
    n, r, q := 16, 1, 5 + a + b;
    bs, epilogue := ThreeFreeMade(a, b, c);
    ThreeFreeLaid(bs, epilogue, a, b, c);
    lists := ThreeListed(bs, epilogue, a, b, c, FindClass(8 * n));
    assert SizeAt(bs, 1) == a && SizeAt(bs, 3 + a) == b && SizeAt(bs, q) == c;
    FirstTaken(bs, lists[FindClass(8 * n)], n);
  }

  // Of three fitting blocks with the second not smaller than the first, the first is taken.
  lemma FirstTaken(bs: Blocks, s: seq<int>, n: int)
    requires |s| == 3 && n <= SizeAt(bs, s[0]) <= SizeAt(bs, s[1]) && n <= SizeAt(bs, s[2])
    ensures EndsFirstDescent(bs, s, n, s[0])
  {
    assert Fitting(bs, s, 0, n) == [];
    assert Fitting(bs, s, 1, n) == [s[0]];
    assert Fitting(bs, s, 2, n) == [s[0], s[1]];
    assert Fitting(bs, s, 3, n) == [s[0], s[1], s[2]];
    assert EndsDescent(bs, Fitting(bs, s, 3, n), 0);
  }
}
