/** Array operations the dashboard uses: `filter`, `reverse`, `slice`, and the
    order-preserving subsequence relation that filtering establishes. */
module Seqs {

  /** `xs.filter(p)`. */
  function Filter<T(!new)>(s: seq<T>, p: T -> bool): (r: seq<T>)
    ensures |r| <= |s|
    ensures forall x :: x in r <==> x in s && p(x)
  {
    if |s| == 0 then []
    else (if p(s[0]) then [s[0]] else []) + Filter(s[1..], p)
  }

  /** `a` is obtained from `b` by deleting elements, keeping the order. */
  ghost predicate SubSeq<T>(a: seq<T>, b: seq<T>)
    decreases |b|
  {
    if |a| == 0 then true
    else if |b| == 0 then false
    else (a[0] == b[0] && SubSeq(a[1..], b[1..])) || SubSeq(a, b[1..])
  }

  /** Filtering keeps the survivors in their original order. */
  lemma {:induction false} FilterIsSubSeq<T(!new)>(s: seq<T>, p: T -> bool)
    ensures SubSeq(Filter(s, p), s)
    decreases |s|
  {
    if |s| > 0 {
      FilterIsSubSeq(s[1..], p);
      var r := Filter(s, p);
      if p(s[0]) {
        assert r[0] == s[0] && r[1..] == Filter(s[1..], p);
      } else {
        assert r == Filter(s[1..], p);
      }
    }
  }

  /** The first survivor of a filter is the first element satisfying its
      predicate. */
  lemma {:induction false} FilterFirst<T(!new)>(s: seq<T>, p: T -> bool, j: nat)
    requires j < |s| && p(s[j])
    requires forall k :: 0 <= k < j ==> !p(s[k])
    ensures |Filter(s, p)| > 0 && Filter(s, p)[0] == s[j]
    decreases j
  {
    if j > 0 {
      assert !p(s[0]);
      FilterFirst(s[1..], p, j - 1);
    }
  }

  /** A filter whose predicate holds everywhere returns the array unchanged. */
  lemma {:induction false} FilterKeepsAll<T(!new)>(s: seq<T>, p: T -> bool)
    requires forall i :: 0 <= i < |s| ==> p(s[i])
    ensures Filter(s, p) == s
    decreases |s|
  {
    if |s| > 0 {
      FilterKeepsAll(s[1..], p);
    }
  }

  /** Two filters whose predicates agree on every element give the same array. */
  lemma {:induction false} FilterCongruent<T(!new)>(s: seq<T>, p: T -> bool, q: T -> bool)
    requires forall i :: 0 <= i < |s| ==> p(s[i]) == q(s[i])
    ensures Filter(s, p) == Filter(s, q)
    decreases |s|
  {
    if |s| > 0 {
      FilterCongruent(s[1..], p, q);
    }
  }

  /** The number of elements satisfying `p`. */
  function CountWhere<T>(s: seq<T>, p: T -> bool): nat {
    if |s| == 0 then 0 else (if p(s[0]) then 1 else 0) + CountWhere(s[1..], p)
  }

  /** A filter keeps as many elements as satisfy its predicate. */
  lemma {:induction false} FilterLength<T(!new)>(s: seq<T>, p: T -> bool)
    ensures |Filter(s, p)| == CountWhere(s, p)
    decreases |s|
  {
    if |s| > 0 {
      FilterLength(s[1..], p);
    }
  }

  /** Filtering twice is filtering once by the conjunction `pq` of both predicates. */
  lemma {:induction false} FilterFilter<T(!new)>(s: seq<T>, p: T -> bool, q: T -> bool, pq: T -> bool)
    requires forall x :: pq(x) == (p(x) && q(x))
    ensures Filter(Filter(s, p), q) == Filter(s, pq)
    decreases |s|
  {
    if |s| > 0 {
      var x := s[0];
      var rest := Filter(s[1..], p);
      FilterFilter(s[1..], p, q, pq);
      assert pq(x) == (p(x) && q(x));
      if p(x) {
        assert Filter(s, p) == [x] + rest;
        assert ([x] + rest)[1..] == rest;
        assert Filter([x] + rest, q) == (if q(x) then [x] else []) + Filter(rest, q);
      } else {
        assert Filter(s, p) == rest;
      }
    }
  }

  /** Two sequences that agree on `p` everywhere except at `i`, where only the
      first satisfies it, differ by one in their counts. */
  lemma {:induction false} CountDropsOne<T>(s: seq<T>, s': seq<T>, p: T -> bool, i: nat)
    requires |s| == |s'| && i < |s|
    requires forall j :: 0 <= j < |s| && j != i ==> p(s[j]) == p(s'[j])
    requires p(s[i]) && !p(s'[i])
    ensures CountWhere(s', p) + 1 == CountWhere(s, p)
    decreases |s|
  {
    if i == 0 {
      CountAgree(s[1..], s'[1..], p);
    } else {
      CountDropsOne(s[1..], s'[1..], p, i - 1);
    }
  }

  lemma {:induction false} CountAgree<T>(s: seq<T>, s': seq<T>, p: T -> bool)
    requires |s| == |s'|
    requires forall j :: 0 <= j < |s| ==> p(s[j]) == p(s'[j])
    ensures CountWhere(s', p) == CountWhere(s, p)
    decreases |s|
  {
    if |s| > 0 {
      CountAgree(s[1..], s'[1..], p);
    }
  }

  /** Appending one element adds one to the count exactly when it satisfies `p`. */
  lemma {:induction false} CountAppend<T>(s: seq<T>, x: T, p: T -> bool)
    ensures CountWhere(s + [x], p) == CountWhere(s, p) + (if p(x) then 1 else 0)
    decreases |s|
  {
    if |s| > 0 {
      assert (s + [x])[1..] == s[1..] + [x];
      CountAppend(s[1..], x, p);
    }
  }

  /** `[...xs].reverse()`. */
  function Reverse<T>(s: seq<T>): (r: seq<T>)
    ensures |r| == |s|
    ensures forall i :: 0 <= i < |s| ==> r[i] == s[|s| - 1 - i]
  {
    if |s| == 0 then [] else Reverse(s[1..]) + [s[0]]
  }

  function Max(a: int, b: int): int { if a < b then b else a }
  function Min(a: int, b: int): int { if a < b then a else b }

  /** A relative index of `Array.prototype.slice`, resolved against length `n`:
      negative counts from the end, and the result is clamped to `0..n`. */
  function SliceIndex(i: int, n: nat): (k: nat)
    ensures k <= n
    ensures i < 0 ==> k == Max(n + i, 0)
    ensures i >= 0 ==> k == Min(i, n)
  {
    if i < 0 then Max(n + i, 0) else Min(i, n)
  }

  /** `xs.slice(from, to)`, never out of range, empty when the bounds cross. */
  function JsSlice<T>(s: seq<T>, from: int, to: int): (r: seq<T>)
    ensures 0 <= from && 0 <= to ==> |r| == Max(0, Min(to, |s|) - from)
    ensures 0 <= from ==> forall i :: 0 <= i < |r| ==> from + i < |s| && r[i] == s[from + i]
    ensures 0 <= from <= to ==> |r| <= to - from
  {
    var k := SliceIndex(from, |s|);
    var e := SliceIndex(to, |s|);
    if k < e then s[k..e] else []
  }
}
