/** The top N confidences over a threshold, kept in a bounded min-queue (jni/tensorflow_jni.cc). */
module TopN {

  /** Confidences are only compared, so an int stands for the rank of a float that is not NaN. */
  datatype Pair = Pair(value: int, index: nat)

  predicate Less(a: Pair, b: Pair) {
    a.value < b.value || (a.value == b.value && a.index < b.index)
  }

  predicate IsLeast(m: Pair, s: set<Pair>) {
    m in s && forall x :: x in s && x != m ==> Less(m, x)
  }

  predicate IsGreatest(m: Pair, s: set<Pair>) {
    m in s && forall x :: x in s && x != m ==> Less(x, m)
  }

  lemma {:induction false} ExtremesExist(s: set<Pair>)
    requires s != {}
    ensures (exists m :: IsLeast(m, s)) && exists m :: IsGreatest(m, s)
    decreases s
  {
    var x :| x in s;
    var rest := s - {x};
    assert forall y :: y in s ==> y == x || y in rest;
    if rest == {} {
      assert IsLeast(x, s) && IsGreatest(x, s);
    } else {
      ExtremesExist(rest);
      var lo :| IsLeast(lo, rest);
      var hi :| IsGreatest(hi, rest);
      assert IsLeast(if Less(x, lo) then x else lo, s);
      assert IsGreatest(if Less(hi, x) then x else hi, s);
    }
  }

  // ---- Sort and take: what the result should be ----

  ghost function Greatest(s: set<Pair>): (m: Pair)
    requires s != {}
    ensures IsGreatest(m, s)
  {
    ExtremesExist(s);
    var m :| IsGreatest(m, s);
    m
  }

  /** The members of s, greatest first. */
  ghost function Descending(s: set<Pair>): (r: seq<Pair>)
    ensures |r| == |s|
    decreases s
  {
    if s == {} then [] else
      var m := Greatest(s);
      [m] + Descending(s - {m})
  }

  /** Descending(s) is sorted and lists exactly the members of s. */
  lemma {:induction false} DescendingIsSort(s: set<Pair>)
    ensures forall i, j :: 0 <= i < j < |s| ==> Less(Descending(s)[j], Descending(s)[i])
    ensures forall x :: x in Descending(s) <==> x in s
    decreases s
  {
    if s != {} {
      var m := Greatest(s);
      var r := Descending(s - {m});
      DescendingIsSort(s - {m});
      assert Descending(s) == [m] + r;
      forall i, j | 0 <= i < j < |s|
        ensures Less(Descending(s)[j], Descending(s)[i])
      {
        assert Descending(s)[j] == r[j - 1] && r[j - 1] in r;
        assert 0 < i ==> Descending(s)[i] == r[i - 1];
      }
    }
  }

  /** Every (value, index) pair of the first n predictions that reaches the threshold. */
  ghost function Candidates(prediction: seq<int>, n: nat, threshold: int): set<Pair>
    requires n <= |prediction|
  {
    set i | 0 <= i < n && threshold <= prediction[i] :: Pair(prediction[i], i)
  }

  function Reversed<T>(s: seq<T>): (r: seq<T>)
    ensures |r| == |s|
  {
    seq(|s|, i requires 0 <= i < |s| => s[|s| - 1 - i])
  }

  lemma ReversedAppend<T>(a: seq<T>, x: T)
    ensures Reversed(a + [x]) == [x] + Reversed(a)
  {
  }

  lemma ReversedConcat<T>(a: seq<T>, b: seq<T>)
    ensures Reversed(a + b) == Reversed(b) + Reversed(a)
  {
  }

  // ---- The queue keeps an upper part ----

  /** u holds members of s, and everything else in s is below all of u. */
  ghost predicate UpperPart(u: set<Pair>, s: set<Pair>) {
    u <= s && forall x, y :: x in s - u && y in u ==> Less(x, y)
  }

  lemma {:induction false} UpperPartSortsFirst(u: set<Pair>, s: set<Pair>)
    requires UpperPart(u, s)
    ensures Descending(s) == Descending(u) + Descending(s - u)
    decreases s
  {
    if u == {} {
      assert s - u == s;
    } else {
      var m := Greatest(u);
      assert IsGreatest(m, s);
      SameGreatest(m, s);
      assert (s - {m}) - (u - {m}) == s - u;
      UpperPartSortsFirst(u - {m}, s - {m});
    }
  }

  lemma SameGreatest(m: Pair, s: set<Pair>)
    requires IsGreatest(m, s)
    ensures Greatest(s) == m
  {
    var g := Greatest(s);
    assert !Less(m, g) || !Less(g, m);
  }

  /** The least member comes last. */
  lemma LeastSortsLast(m: Pair, s: set<Pair>)
    requires IsLeast(m, s)
    ensures Descending(s) == Descending(s - {m}) + [m]
  {
    UpperPartSortsFirst(s - {m}, s);
    assert s - (s - {m}) == {m};
    SingletonSorts(m);
  }

  lemma SingletonSorts(m: Pair)
    ensures Descending({m}) == [m]
  {
    SameGreatest(m, {m});
    assert {m} - {m} == {};
  }

  /** Adding x and dropping the least keeps an upper part. */
  lemma PopKeepsUpper(u: set<Pair>, s: set<Pair>, x: Pair, m: Pair)
    requires UpperPart(u, s) && x !in s && IsLeast(m, u + {x})
    ensures UpperPart(u + {x} - {m}, s + {x})
  {
    var v := u + {x} - {m};
    forall a, b | a in s + {x} - v && b in v
      ensures Less(a, b)
    {
      if a != m {
        assert a in s - u;
        if b == x {
          assert Less(a, m) && Less(m, b);
        }
      }
    }
  }

  /** The queue after i predictions: the capacity's worth of greatest candidates so far. */
  ghost predicate Kept(pq: set<Pair>, prediction: seq<int>, i: nat, threshold: int, capacity: nat) {
    && i <= |prediction|
    && var seen := Candidates(prediction, i, threshold);
       UpperPart(pq, seen) && |pq| == (if capacity < |seen| then capacity else |seen|)
  }

  lemma SkipStep(pq: set<Pair>, prediction: seq<int>, i: nat, threshold: int, capacity: nat)
    requires i < |prediction| && prediction[i] < threshold && Kept(pq, prediction, i, threshold, capacity)
    ensures Kept(pq, prediction, i + 1, threshold, capacity)
  {
    assert Candidates(prediction, i + 1, threshold) == Candidates(prediction, i, threshold);
  }

  lemma NewCandidate(prediction: seq<int>, i: nat, threshold: int)
    requires i < |prediction| && threshold <= prediction[i]
    ensures Pair(prediction[i], i) !in Candidates(prediction, i, threshold)
    ensures Candidates(prediction, i + 1, threshold) == Candidates(prediction, i, threshold) + {Pair(prediction[i], i)}
  {
  }

  lemma SubsetOfSameSize(u: set<Pair>, s: set<Pair>)
    requires u <= s && |u| == |s|
    ensures u == s
  {
    assert |s - u| == 0;
  }

  lemma RoomStep(pq: set<Pair>, prediction: seq<int>, i: nat, threshold: int, capacity: nat)
    requires i < |prediction| && threshold <= prediction[i] && Kept(pq, prediction, i, threshold, capacity)
    requires |pq| < capacity
    ensures Kept(pq + {Pair(prediction[i], i)}, prediction, i + 1, threshold, capacity)
  {
    NewCandidate(prediction, i, threshold);
    SubsetOfSameSize(pq, Candidates(prediction, i, threshold));
  }

  lemma FullStep(pq: set<Pair>, prediction: seq<int>, i: nat, threshold: int, capacity: nat, m: Pair)
    requires i < |prediction| && threshold <= prediction[i] && Kept(pq, prediction, i, threshold, capacity)
    requires |pq| == capacity && IsLeast(m, pq + {Pair(prediction[i], i)})
    ensures Kept(pq + {Pair(prediction[i], i)} - {m}, prediction, i + 1, threshold, capacity)
  {
    var seen, x := Candidates(prediction, i, threshold), Pair(prediction[i], i);
    NewCandidate(prediction, i, threshold);
    PopKeepsUpper(pq, seen, x, m);
    assert |pq + {x} - {m}| == capacity;
    assert |seen + {x}| == |seen| + 1;
  }

  type int32 = x: int | -0x8000_0000 <= x < 0x8000_0000

  /** The number of values of a size_t: 2^32 or 2^64. */
  type Word = x: nat | x == 0x1_0000_0000 || x == 0x1_0000_0000_0000_0000 witness 0x1_0000_0000

  /** The requested count as the source compares it with the queue's size: converted to unsigned,
      so that a negative count is huge. */
  function Capacity(numResults: int32, word: Word): nat {
    if numResults < 0 then numResults + word else numResults
  }

  /** The first n entries of the sorted candidates, or all of them. */
  ghost function Best(prediction: seq<int>, threshold: int, n: nat): seq<Pair> {
    var all := Descending(Candidates(prediction, |prediction|, threshold));
    if n < |all| then all[..n] else all
  }

  lemma KeptIsBest(pq: set<Pair>, prediction: seq<int>, threshold: int, capacity: nat)
    requires Kept(pq, prediction, |prediction|, threshold, capacity)
    ensures Descending(pq) == Best(prediction, threshold, capacity)
  {
    var seen := Candidates(prediction, |prediction|, threshold);
    UpperPartSortsFirst(pq, seen);
    if |seen| <= capacity {
      SubsetOfSameSize(pq, seen);
    }
  }

  // ---- What the result means, spelled out ----

  /** Every entry is a prediction that reaches the threshold, with its index. */
  ghost predicate Qualified(out: seq<Pair>, prediction: seq<int>, threshold: int) {
    forall k :: 0 <= k < |out| ==>
      out[k].index < |prediction| && out[k].value == prediction[out[k].index] && threshold <= out[k].value
  }

  /** The values descend, and among equal ones the indices. */
  ghost predicate Descends(out: seq<Pair>) {
    forall j, k :: 0 <= j < k < |out| ==>
      out[k].value < out[j].value || (out[k].value == out[j].value && out[k].index < out[j].index)
  }

  ghost predicate LeftOut(out: seq<Pair>, i: nat) {
    forall k :: 0 <= k < |out| ==> out[k].index != i
  }

  /** A prediction that reaches the threshold and is left out is below every entry. */
  ghost predicate LeavesOutLower(out: seq<Pair>, prediction: seq<int>, threshold: int) {
    forall i, k :: 0 <= i < |prediction| && 0 <= k < |out| && threshold <= prediction[i] && LeftOut(out, i) ==>
      prediction[i] < out[k].value || (prediction[i] == out[k].value && i < out[k].index)
  }

  ghost function Qualifying(prediction: seq<int>, threshold: int): set<nat> {
    set i: nat | i < |prediction| && threshold <= prediction[i]
  }

  /** out are the first n of all predictions that reach the threshold, or all of them. */
  ghost predicate IsTop(out: seq<Pair>, prediction: seq<int>, threshold: int, n: nat) {
    && Qualified(out, prediction, threshold) && Descends(out) && LeavesOutLower(out, prediction, threshold)
    && var q := |Qualifying(prediction, threshold)|; |out| == if q < n then q else n
  }

  /** The sorted candidates, cut off, are what the source promises. */
  lemma BestIsTop(prediction: seq<int>, threshold: int, n: nat)
    ensures IsTop(Best(prediction, threshold, n), prediction, threshold, n)
  {
    var s, out := Candidates(prediction, |prediction|, threshold), Best(prediction, threshold, n);
    DescendingIsSort(s);
    PrefixIsSorted(s, out);
    EntriesQualify(out, prediction, threshold);
    LeavesOut(s, out, prediction, threshold);
    SameCount(s, Qualifying(prediction, threshold), prediction);
  }

  /** out is the beginning of the members of s in descending order. */
  ghost predicate Begins(out: seq<Pair>, s: set<Pair>) {
    |out| <= |s| && out == Descending(s)[..|out|]
  }

  lemma PrefixIsSorted(s: set<Pair>, out: seq<Pair>)
    requires Begins(out, s)
    ensures Descends(out) && forall x :: x in out ==> x in s
  {
    DescendingIsSort(s);
    assert forall j :: 0 <= j < |out| ==> out[j] == Descending(s)[j];
  }

  lemma EntriesQualify(out: seq<Pair>, prediction: seq<int>, threshold: int)
    requires forall x :: x in out ==> x in Candidates(prediction, |prediction|, threshold)
    ensures Qualified(out, prediction, threshold)
  {
    forall k | 0 <= k < |out|
      ensures out[k].index < |prediction| && out[k].value == prediction[out[k].index] && threshold <= out[k].value
    {
      assert out[k] in out;
    }
  }

  lemma LeavesOut(s: set<Pair>, out: seq<Pair>, prediction: seq<int>, threshold: int)
    requires s == Candidates(prediction, |prediction|, threshold) && Begins(out, s)
    ensures LeavesOutLower(out, prediction, threshold)
  {
    forall i, k | 0 <= i < |prediction| && 0 <= k < |out| && threshold <= prediction[i] && LeftOut(out, i)
      ensures Less(Pair(prediction[i], i), out[k])
    {
      BehindIsLower(s, out, Pair(prediction[i], i), k);
    }
  }

  lemma BehindIsLower(s: set<Pair>, out: seq<Pair>, x: Pair, k: nat)
    requires Begins(out, s) && x in s && k < |out| && LeftOut(out, x.index)
    ensures Less(x, out[k])
  {
    DescendingIsSort(s);
    var all := Descending(s);
    assert x in all;
    var m :| 0 <= m < |all| && all[m] == x;
    assert forall j :: 0 <= j < |out| ==> out[j] == all[j] && out[j].index != x.index;
  }

  /** There are as many candidates as indices of predictions that qualify. */
  lemma {:induction false} SameCount(s: set<Pair>, indices: set<nat>, prediction: seq<int>)
    requires forall i :: i in indices ==> i < |prediction| && Pair(prediction[i], i) in s
    requires forall x :: x in s ==> x.index in indices && x == Pair(prediction[x.index], x.index)
    ensures |s| == |indices|
    decreases s
  {
    if s == {} {
      assert indices == {};
    } else {
      var x :| x in s;
      SameCount(s - {x}, indices - {x.index}, prediction);
    }
  }

  /** Pops the least pair of a nonempty queue. */
  method PopLeast(pq: set<Pair>) returns (m: Pair, rest: set<Pair>)
    requires pq != {}
    ensures IsLeast(m, pq) && rest == pq - {m}
  {
    ExtremesExist(pq);
    m :| m in pq && IsLeast(m, pq);
    rest := pq - {m};
  }

  /** One pass over the predictions: push what reaches the threshold, kick out the least when over capacity. */
  method Select(prediction: seq<int>, capacity: nat, threshold: int) returns (pq: set<Pair>)
    ensures Kept(pq, prediction, |prediction|, threshold, capacity)
  {
    pq := {};
    assert Candidates(prediction, 0, threshold) == {};
    for i := 0 to |prediction|
      invariant Kept(pq, prediction, i, threshold, capacity)
    {
      var value := prediction[i];
      if value < threshold {
        SkipStep(pq, prediction, i, threshold, capacity);
        continue;
      }
      ghost var full := pq;
      pq := pq + {Pair(value, i)};
      NewCandidate(prediction, i, threshold);
      assert |pq| == |full| + 1;
      if capacity < |pq| {
        var m, rest := PopLeast(pq);
        FullStep(full, prediction, i, threshold, capacity, m);
        pq := rest;
      } else {
        RoomStep(full, prediction, i, threshold, capacity);
      }
    }
  }

  lemma DrainStep(pq: set<Pair>, m: Pair, popped: seq<Pair>)
    requires IsLeast(m, pq)
    ensures Descending(pq - {m}) + Reversed(popped + [m]) == Descending(pq) + Reversed(popped)
  {
    LeastSortsLast(m, pq);
    ReversedAppend(popped, m);
    assert Descending(pq - {m}) + ([m] + Reversed(popped)) == Descending(pq - {m}) + [m] + Reversed(popped);
  }

  /** Pops everything, least first, behind what the vector holds. */
  method Drain(queue: set<Pair>, before: seq<Pair>) returns (out: seq<Pair>)
    ensures Reversed(out) == Descending(queue) + Reversed(before)
  {
    var pq := queue;
    ghost var popped: seq<Pair> := [];
    out := before;
    assert Descending(queue) + Reversed(popped) == Descending(queue);
    while pq != {}
      invariant out == before + popped
      invariant Descending(pq) + Reversed(popped) == Descending(queue)
      decreases pq
    {
      var m, rest := PopLeast(pq);
      DrainStep(pq, m, popped);
      out, popped, pq := out + [m], popped + [m], rest;
    }
    ReversedConcat(before, popped);
    assert Descending({}) + Reversed(popped) == Reversed(popped);
  }

  /** The results are appended to what the vector held before, and the whole vector is reversed: for an
      empty vector that leaves exactly the best candidates, greatest first. */
  method GetTopN(prediction: seq<int>, numResults: int32, threshold: int, before: seq<Pair>, word: Word) returns (topResults: seq<Pair>)
    ensures topResults == Best(prediction, threshold, Capacity(numResults, word)) + Reversed(before)
    ensures before == [] && 0 <= numResults ==> IsTop(topResults, prediction, threshold, numResults)
  {
    var pq := Select(prediction, Capacity(numResults, word), threshold);
    KeptIsBest(pq, prediction, threshold, Capacity(numResults, word));
    topResults := Drain(pq, before);
    topResults := Reversed(topResults);
    TopAlone(topResults, prediction, threshold, numResults, word, before);
  }

  lemma TopAlone(out: seq<Pair>, prediction: seq<int>, threshold: int, numResults: int32, word: Word, before: seq<Pair>)
    requires out == Best(prediction, threshold, Capacity(numResults, word)) + Reversed(before)
    ensures before == [] && 0 <= numResults ==> IsTop(out, prediction, threshold, numResults)
  {
    if before == [] && 0 <= numResults {
      NothingBehind(out, Best(prediction, threshold, numResults), before);
      BestIsTop(prediction, threshold, numResults);
    }
  }

  lemma NothingBehind(out: seq<Pair>, best: seq<Pair>, before: seq<Pair>)
    requires out == best + Reversed(before) && before == []
    ensures out == best
  {
    assert Reversed(before) == [];
  }

  /** A negative count, converted to unsigned, keeps every candidate. */
  lemma NegativeCountKeepsAll(prediction: seq<int>, threshold: int, numResults: int32, word: Word)
    requires numResults < 0 && |prediction| < 0x8000_0000
    ensures Best(prediction, threshold, Capacity(numResults, word)) == Descending(Candidates(prediction, |prediction|, threshold))
  {
    CandidatesAtMost(prediction, |prediction|, threshold);
  }

  lemma {:induction false} CandidatesAtMost(prediction: seq<int>, n: nat, threshold: int)
    requires n <= |prediction|
    ensures |Candidates(prediction, n, threshold)| <= n
  {
    if n == 0 {
      assert Candidates(prediction, 0, threshold) == {};
    } else {
      CandidatesAtMost(prediction, n - 1, threshold);
      if threshold <= prediction[n - 1] {
        NewCandidate(prediction, n - 1, threshold);
      } else {
        assert Candidates(prediction, n, threshold) == Candidates(prediction, n - 1, threshold);
      }
    }
  }
}
