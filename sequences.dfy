/**
 * The filtering comprehension `[g(x) for x in xs if <g(x) succeeds>]` that
 * several parts of the backend use: each element is mapped to an optional
 * value and the present values are kept, in order.
 */
module Sequences {
  import opened Options

  /** Map every element through `f` and keep the present results, in order. */
  function FilterMap<A, B>(f: A -> Option<B>, xs: seq<A>): (r: seq<B>)
    ensures |r| <= |xs|
  {
    if xs == [] then []
    else
      var front := FilterMap(f, xs[..|xs| - 1]);
      match f(xs[|xs| - 1])
      case Some(y) => front + [y]
      case None => front
  }

  /** Positions form a strictly increasing list of indices into a sequence of length `n`. */
  ghost predicate IncreasingIndices(picked: seq<nat>, n: nat) {
    && (forall m | 0 <= m < |picked| :: picked[m] < n)
    && (forall m1, m2 | 0 <= m1 < m2 < |picked| :: picked[m1] < picked[m2])
  }

  /**
   * The output is exactly the in-order subsequence of results at the positions
   * where `f` succeeds: `picked` lists those positions, increasing, and the
   * m-th output is the result at the m-th of them.
   */
  lemma {:induction false} FilterMapPicks<A, B>(f: A -> Option<B>, xs: seq<A>) returns (picked: seq<nat>)
    ensures |picked| == |FilterMap(f, xs)|
    ensures IncreasingIndices(picked, |xs|)
    ensures forall m | 0 <= m < |picked| :: f(xs[picked[m]]) == Some(FilterMap(f, xs)[m])
    ensures forall k | 0 <= k < |xs| :: f(xs[k]).Some? <==> k in picked
  {
    if xs == [] {
      picked := [];
    } else {
      var n := |xs| - 1;
      var front := xs[..n];
      var p := FilterMapPicks(f, front);
      var r0 := FilterMap(f, front);
      assert forall k | 0 <= k < n :: front[k] == xs[k];
      assert forall m | 0 <= m < |p| :: f(xs[p[m]]) == Some(r0[m]);
      if f(xs[n]).Some? {
        picked := p + [n];
        assert FilterMap(f, xs) == r0 + [f(xs[n]).value];
        assert forall k | 0 <= k < n :: k in picked <==> k in p;
      } else {
        picked := p;
        assert FilterMap(f, xs) == r0;
      }
    }
  }

  /** Filtering distributes over concatenation. */
  lemma {:induction false} FilterMapAppend<A, B>(f: A -> Option<B>, a: seq<A>, b: seq<A>)
    ensures FilterMap(f, a + b) == FilterMap(f, a) + FilterMap(f, b)
    decreases |b|
  {
    if b == [] {
      assert a + b == a;
    } else {
      var n := |b| - 1;
      assert (a + b)[..|a + b| - 1] == a + b[..n];
      assert (a + b)[|a + b| - 1] == b[n];
      FilterMapAppend(f, a, b[..n]);
    }
  }

  /** When `f` fails everywhere nothing is kept. */
  lemma {:induction false} FilterMapNone<A, B>(f: A -> Option<B>, xs: seq<A>)
    requires forall k | 0 <= k < |xs| :: f(xs[k]).None?
    ensures FilterMap(f, xs) == []
  {
    if xs != [] {
      var n := |xs| - 1;
      assert forall k | 0 <= k < n :: xs[..n][k] == xs[k];
      FilterMapNone(f, xs[..n]);
    }
  }

  /** When `f` returns every element unchanged the sequence is kept whole. */
  lemma {:induction false} FilterMapAll<A>(f: A -> Option<A>, xs: seq<A>)
    requires forall k | 0 <= k < |xs| :: f(xs[k]) == Some(xs[k])
    ensures FilterMap(f, xs) == xs
  {
    if xs != [] {
      var n := |xs| - 1;
      assert forall k | 0 <= k < n :: xs[..n][k] == xs[k];
      FilterMapAll(f, xs[..n]);
    }
  }
}
