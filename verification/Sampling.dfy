/** The k-best sampler of fcyc.c: an array that holds the smallest samples so far, in ascending order. */
module Sampling {

  ghost predicate Ascending(s: seq<real>) {
    forall i, j {:trigger s[i], s[j]} :: 0 <= i < j < |s| ==> s[i] <= s[j]
  }

  function Insert(x: real, s: seq<real>): (t: seq<real>)
    ensures |t| == |s| + 1
  {
    if s == [] || x < s[0] then [x] + s else [s[0]] + Insert(x, s[1..])
  }

  // All samples in ascending order.
  function Sorted(samples: seq<real>): (t: seq<real>)
    ensures |t| == |samples|
  {
    if samples == [] then []
    else Insert(samples[|samples| - 1], Sorted(samples[..|samples| - 1]))
  }

  lemma {:induction false} InsertAscending(x: real, s: seq<real>)
    requires Ascending(s)
    ensures Ascending(Insert(x, s))
    ensures Insert(x, s)[0] == x || (s != [] && Insert(x, s)[0] == s[0])
  {
    if s != [] && x >= s[0] {
      InsertAscending(x, s[1..]);
      AscendingCons(s[0], Insert(x, s[1..]));
    }
  }

  lemma {:induction false} AscendingCons(x: real, t: seq<real>)
    requires Ascending(t) && (t != [] ==> x <= t[0])
    ensures Ascending([x] + t)
  {
    var u := [x] + t;
    forall i, j {:trigger u[i], u[j]} | 0 <= i < j < |u| ensures u[i] <= u[j] {
      assert u[j] == t[j - 1] && (i > 0 ==> u[i] == t[i - 1]);
    }
  }

  lemma {:induction false} InsertMembers(x: real, s: seq<real>)
    ensures multiset(Insert(x, s)) == multiset(s) + multiset{x}
  {
    if s != [] {
      assert s == [s[0]] + s[1..];
      if x >= s[0] {
        InsertMembers(x, s[1..]);
      }
    }
  }

  /** Sorted gives the samples as a multiset, in ascending order. */
  lemma {:induction false} SortedCorrect(samples: seq<real>)
    ensures Ascending(Sorted(samples)) && multiset(Sorted(samples)) == multiset(samples)
  {
    if samples != [] {
      var before, last := samples[..|samples| - 1], samples[|samples| - 1];
      SortedCorrect(before);
      InsertAscending(last, Sorted(before));
      InsertMembers(last, Sorted(before));
      assert samples == before + [last];
    }
  }

  // Where a sample goes in an ascending sequence.
  lemma {:induction false} InsertAt(x: real, s: seq<real>, i: int)
    requires 0 <= i <= |s| && (forall j :: 0 <= j < i ==> s[j] <= x) && (i < |s| ==> x < s[i])
    ensures Insert(x, s) == s[..i] + [x] + s[i..]
    decreases |s|
  {
    if i > 0 {
      var rest := s[1..];
      assert forall j :: 0 <= j < i - 1 ==> rest[j] == s[j + 1];
      InsertAt(x, rest, i - 1);
      assert s[0] <= x;
      assert Insert(x, s) == [s[0]] + (rest[..i - 1] + [x] + rest[i - 1..]);
      assert [s[0]] + rest[..i - 1] == s[..i] && rest[i - 1..] == s[i..];
    } else {
      assert s[..0] + [x] + s[0..] == [x] + s;
    }
  }

  // The k smallest after one more sample are found among the k smallest before it and the sample.
  lemma {:induction false} InsertPrefix(x: real, s: seq<real>, k: nat)
    requires Ascending(s) && 1 <= k <= |s|
    ensures Insert(x, s)[..k] == if x < s[k - 1] then Insert(x, s[..k - 1]) else s[..k]
    decreases |s|
  {
    if x < s[0] {
      assert ([x] + s)[..k] == [x] + s[..k - 1];
    } else if k > 1 {
      var rest := s[1..];
      InsertPrefix(x, rest, k - 1);
      assert s[..k] == [s[0]] + rest[..k - 1] && s[..k - 1] == [s[0]] + rest[..k - 2];
      assert Insert(x, s)[..k] == [s[0]] + Insert(x, rest)[..k - 1];
      assert s[..k - 1][1..] == rest[..k - 2];
    }
  }

  // How many of n samples the array holds.
  function Kept(n: nat, kbest: nat): (kept: nat)
    ensures kept <= n && kept <= kbest && (kept == n || kept == kbest)
  {
    if n < kbest then n else kbest
  }

  class Sampler {
    const kbest: nat
    const epsilon: real
    var values: array<real>
    var samplecount: nat
    ghost var samples: seq<real>

    /** The array starts with the smallest samples so far, at most kbest of them, in ascending order. */
    ghost predicate Valid()
      reads this, values
    {
      && 1 <= kbest == values.Length && samplecount == |samples|
      && values[..Kept(samplecount, kbest)] == Sorted(samples)[..Kept(samplecount, kbest)]
    }

    constructor (kbest: nat, epsilon: real)
      requires 1 <= kbest
      ensures Valid() && samples == [] && this.kbest == kbest && this.epsilon == epsilon && fresh(values)
    {
      this.kbest, this.epsilon := kbest, epsilon;
      values := new real[kbest](_ => 0.0);
      samplecount, samples := 0, [];
    }

    /** init_sampler: a new array, and no samples. */
    method InitSampler()
      requires 1 <= kbest
      modifies this
      ensures Valid() && samples == [] && fresh(values)
    {
      values := new real[kbest](_ => 0.0);
      samplecount, samples := 0, [];
    }

    /** add_sample. */
    method AddSample(val: real)
      requires Valid()
      modifies this`samplecount, this`samples, values
      ensures Valid() && samples == old(samples) + [val]
    {
      ghost var before, v0 := Sorted(samples), values[..];
      var pos := 0;
      if samplecount < kbest {
        pos := samplecount;
        values[pos] := val;
      } else if val < values[kbest - 1] {
        pos := kbest - 1;
        values[pos] := val;
      }
      ghost var v1 := values[..];
      SampleStored(v0, v1, samples, val, kbest, pos);
      samplecount := samplecount + 1;
      SiftDown(pos, v1[..pos]);
      SamplePlaced(v0, v1, values[..], samples, val, kbest, pos);
      samples := samples + [val];
    }

    // The insertion loop of add_sample: the sample at `last` goes to its place among the ascending ones in front of it.
    method SiftDown(last: nat, ghost front: seq<real>)
      requires last < values.Length && values[..last] == front && Ascending(front)
      modifies values
      ensures values[..last + 1] == Insert(old(values[last]), front)
      ensures values[last + 1..] == old(values[last + 1..])
    {
      ghost var x, tail := values[last], values[last + 1..];
      var pos := last;
      while pos > 0 && values[pos - 1] > values[pos]
        invariant 0 <= pos <= last
        invariant values[..last + 1] == front[..pos] + [x] + front[pos..] && values[last + 1..] == tail
        invariant pos < last ==> x < front[pos]
      {
        assert values[pos - 1] == values[..last + 1][pos - 1] && values[pos] == values[..last + 1][pos];
        values[pos - 1], values[pos] := values[pos], values[pos - 1];
        pos := pos - 1;
      }
      if pos > 0 {
        assert values[pos - 1] == values[..last + 1][pos - 1] && values[pos] == values[..last + 1][pos];
      }
      InsertAt(x, front, pos);
    }

    /** has_converged: compares the smallest sample with the kbest-th smallest. */
    method HasConverged() returns (converged: bool)
      requires Valid()
      ensures converged <==> |samples| >= kbest && (1.0 + epsilon) * Sorted(samples)[0] >= Sorted(samples)[kbest - 1]
    {
      if samplecount < kbest {
        return false;
      }
      assert values[0] == values[..kbest][0] && values[kbest - 1] == values[..kbest][kbest - 1];
      return (1.0 + epsilon) * values[0] >= values[kbest - 1];
    }
  }

  lemma {:induction false} NextSorted(samples: seq<real>, x: real)
    ensures Sorted(samples + [x]) == Insert(x, Sorted(samples))
  {
    assert (samples + [x])[..|samples|] == samples;
  }

  // What the first part of add_sample does to the array: the place `pos` of the sample, or 0 and no change.
  ghost predicate Placed(v0: seq<real>, v1: seq<real>, n: nat, x: real, k: nat, pos: nat) {
    && 1 <= k == |v0| == |v1|
    && if n < k then pos == n && v1 == v0[n := x]
       else if x < v0[k - 1] then pos == k - 1 && v1 == v0[k - 1 := x]
       else pos == 0 && v1 == v0
  }

  lemma {:induction false} SampleStored(v0: seq<real>, v1: seq<real>, samples: seq<real>, x: real, k: nat, pos: nat)
    requires Placed(v0, v1, |samples|, x, k, pos)
    requires v0[..Kept(|samples|, k)] == Sorted(samples)[..Kept(|samples|, k)]
    ensures Ascending(v1[..pos])
  {
    SortedCorrect(samples);
    assert v1[..pos] == v0[..Kept(|samples|, k)][..pos];
  }

  lemma {:induction false} SamplePlaced(v0: seq<real>, v1: seq<real>, v2: seq<real>, samples: seq<real>, x: real,
                                        k: nat, pos: nat)
    requires Placed(v0, v1, |samples|, x, k, pos) && |v2| == k
    requires v0[..Kept(|samples|, k)] == Sorted(samples)[..Kept(|samples|, k)]
    requires v2[..pos + 1] == Insert(v1[pos], v1[..pos]) && v2[pos + 1..] == v1[pos + 1..]
    ensures v2[..Kept(|samples| + 1, k)] == Sorted(samples + [x])[..Kept(|samples| + 1, k)]
  {
    var n, before := |samples|, Sorted(samples);
    NextSorted(samples, x);
    if n < k {
      assert v1[..n] == v0[..n] == before;
    } else {
      SortedCorrect(samples);
      assert v0 == v0[..k] && v2 == v2[..k];
      SamplePlacedFull(v0, v1, v2, before, x, k, pos);
    }
  }

  // The array was full already.
  lemma {:induction false} SamplePlacedFull(v0: seq<real>, v1: seq<real>, v2: seq<real>, before: seq<real>, x: real,
                                            k: nat, pos: nat)
    requires Placed(v0, v1, |before|, x, k, pos) && |v2| == k && Ascending(before) && k <= |before| && v0 == before[..k]
    requires v2[..pos + 1] == Insert(v1[pos], v1[..pos]) && v2[pos + 1..] == v1[pos + 1..]
    ensures v2 == Insert(x, before)[..k]
  {
    InsertPrefix(x, before, k);
    if x < v0[k - 1] {
      assert v1[..k - 1] == before[..k - 1];
      assert v2 == v2[..k];
    } else {
      assert v2 == v2[..1] + v2[1..];
      assert v1 == [v1[0]] + v1[1..];
    }
  }

  /** Any stream of samples: the array ends up with the smallest of them. */
  method Sample(s: Sampler, stream: seq<real>)
    requires s.Valid()
    modifies s, s.values
    ensures s.Valid() && s.samples == stream
            && s.values[..Kept(|stream|, s.kbest)] == Sorted(stream)[..Kept(|stream|, s.kbest)]
  {
    s.InitSampler();
    for i := 0 to |stream|
      invariant s.Valid() && s.samples == stream[..i] && fresh(s.values)
    {
      s.AddSample(stream[i]);
      assert stream[..i + 1] == stream[..i] + [stream[i]];
    }
    assert stream[..|stream|] == stream;
  }
}
