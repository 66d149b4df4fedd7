/** Sequence functions the pipelines are built from: counting, filtering,
    truncation, and the subsequence relation that says "order preserved". */
module Seqs {

  /** `p` holds of every element of `s` exactly when it holds of the first
      and of every element of the rest. */
  lemma AllByHead<T>(s: seq<T>, p: T -> bool)
    requires |s| > 0
    ensures (forall i :: 0 <= i < |s| ==> p(s[i])) <==> p(s[0]) && forall i :: 0 <= i < |s[1..]| ==> p(s[1..][i])
  {
    assert forall i :: 0 <= i < |s[1..]| ==> s[1..][i] == s[i + 1];
    assert forall i :: 1 <= i < |s| ==> s[i] == s[1..][i - 1];
  }

  /** The number of elements of `s` satisfying `p` (Python's `sum(map(p, s))`).
      It is at most the length, and equals it exactly when every element
      satisfies `p`. */
  function Count<T>(s: seq<T>, p: T -> bool): (n: nat)
    ensures n <= |s|
    ensures n == |s| <==> forall i :: 0 <= i < |s| ==> p(s[i])
  {
    if |s| == 0 then 0
    else
      AllByHead(s, p);
      (if p(s[0]) then 1 else 0) + Count(s[1..], p)
  }

  /** Counting one more element at the end: the step of a counting loop. */
  lemma {:induction false} CountSnoc<T>(s: seq<T>, x: T, p: T -> bool)
    ensures Count(s + [x], p) == Count(s, p) + if p(x) then 1 else 0
  {
    if |s| > 0 {
      assert (s + [x])[1..] == s[1..] + [x];
      CountSnoc(s[1..], x, p);
    }
  }

  /** If `p` holding at a position of `a` makes `q` hold at the same position
      of `b`, then `b` has at least as many `q`s as `a` has `p`s. */
  lemma {:induction false} CountMonotone<T, U>(a: seq<T>, p: T -> bool, b: seq<U>, q: U -> bool)
    requires |a| == |b|
    requires forall i :: 0 <= i < |a| && p(a[i]) ==> q(b[i])
    ensures Count(a, p) <= Count(b, q)
  {
    if |a| > 0 {
      forall i | 0 <= i < |a[1..]| && p(a[1..][i]) ensures q(b[1..][i]) {
        assert a[1..][i] == a[i + 1] && b[1..][i] == b[i + 1];
      }
      CountMonotone(a[1..], p, b[1..], q);
    }
  }

  /** `a` is `b` with some elements removed and the rest left in order. */
  predicate IsSubseq<T(==)>(a: seq<T>, b: seq<T>)
    decreases |b|
  {
    if |a| == 0 then true
    else if |b| == 0 then false
    else if a[0] == b[0] then IsSubseq(a[1..], b[1..])
    else IsSubseq(a, b[1..])
  }

  /** Python's `filter(p, s)`: the elements satisfying `p`, in order. It keeps
      exactly as many elements as satisfy `p`, all of them satisfy `p`, and
      their relative order is the input's. */
  function Filter<T(==)>(p: T -> bool, s: seq<T>): (r: seq<T>)
    ensures |r| == Count(s, p)
    ensures forall i :: 0 <= i < |r| ==> p(r[i])
    ensures IsSubseq(r, s)
  {
    if |s| == 0 then []
    else if p(s[0]) then
      var rest := Filter(p, s[1..]);
      assert ([s[0]] + rest)[1..] == rest;
      [s[0]] + rest
    else Filter(p, s[1..])
  }

  /** Python's `islice(s, n)` / a dataset's `take(n)`: the first `n` elements,
      or all of them when there are fewer. */
  function Take<T>(s: seq<T>, n: nat): (r: seq<T>)
    ensures |r| == if n <= |s| then n else |s|
    ensures r <= s
  {
    if n <= |s| then s[..n] else s
  }
}
