/**
 * Sequence combinators shared by the models: `Array.prototype.filter`,
 * and keeping the results of a partial map (`filter` combined with `map`,
 * or a loop that pushes only some results).
 */
module Seqs {
  import opened Wrappers

  /** The defined results of `f` over `xs`, in order. */
  function FilterMap<A, B>(xs: seq<A>, f: A -> Option<B>): (r: seq<B>)
    ensures |r| <= |xs|
  {
    if |xs| == 0 then []
    else match f(xs[|xs| - 1])
      case None => FilterMap(xs[..|xs| - 1], f)
      case Some(y) => FilterMap(xs[..|xs| - 1], f) + [y]
  }

  /** The results over two runs are those over the first followed by those
      over the second. */
  lemma {:induction false} FilterMapAppend<A, B>(xs: seq<A>, ys: seq<A>, f: A -> Option<B>)
    ensures FilterMap(xs + ys, f) == FilterMap(xs, f) + FilterMap(ys, f)
    decreases |ys|
  {
    if |ys| == 0 {
      assert xs + ys == xs;
    } else {
      var ys' := ys[..|ys| - 1];
      FilterMapAppend(xs, ys', f);
      assert (xs + ys)[..|xs + ys| - 1] == xs + ys';
      assert (xs + ys)[|xs + ys| - 1] == ys[|ys| - 1];
    }
  }

  /** Every result comes from some element. */
  lemma {:induction false} FilterMapFrom<A, B>(xs: seq<A>, f: A -> Option<B>, k: nat)
    requires k < |FilterMap(xs, f)|
    ensures exists j :: 0 <= j < |xs| && f(xs[j]) == Some(FilterMap(xs, f)[k])
    decreases |xs|
  {
    var init := xs[..|xs| - 1];
    if k < |FilterMap(init, f)| {
      FilterMapFrom(init, f, k);
      var j :| 0 <= j < |init| && f(init[j]) == Some(FilterMap(init, f)[k]);
      assert xs[j] == init[j];
    }
  }

  /** The last defined result of `f` over `xs[lo..n]`, or `none` if there
      is none: a loop that overwrites a variable whenever `f` is defined. */
  function LastOf<A, B>(xs: seq<A>, f: A -> Option<B>, lo: nat, n: nat, none: B): (r: B)
    requires n <= |xs|
    ensures r == none || exists k :: lo <= k < n && f(xs[k]) == Some(r)
  {
    if n <= lo then none
    else match f(xs[n - 1])
      case Some(y) => y
      case None => LastOf(xs, f, lo, n - 1, none)
  }

  /** Without a defined result, the result is `none`. */
  lemma {:induction false} LastOfNone<A, B>(xs: seq<A>, f: A -> Option<B>, lo: nat, n: nat, none: B)
    requires n <= |xs|
    requires forall k :: lo <= k < n ==> f(xs[k]).None?
    ensures LastOf(xs, f, lo, n, none) == none
  {
    if lo < n {
      LastOfNone(xs, f, lo, n - 1, none);
    }
  }

  /** The last defined result wins over every earlier one. */
  lemma {:induction false} LastOfAt<A, B>(xs: seq<A>, f: A -> Option<B>, lo: nat, n: nat, none: B, k: nat)
    requires n <= |xs| && lo <= k < n && f(xs[k]).Some?
    requires forall j :: k < j < n ==> f(xs[j]).None?
    ensures LastOf(xs, f, lo, n, none) == f(xs[k]).value
  {
    if k < n - 1 {
      LastOfAt(xs, f, lo, n - 1, none, k);
    }
  }

  /** The indices of `xs` where `f` is defined, in increasing order. */
  function Sources<A, B>(xs: seq<A>, f: A -> Option<B>): (r: seq<nat>)
    ensures |r| == |FilterMap(xs, f)|
  {
    if |xs| == 0 then []
    else Sources(xs[..|xs| - 1], f) + (if f(xs[|xs| - 1]).Some? then [|xs| - 1] else [])
  }

  /** The k-th result is `f` of the element at the k-th source index, and
      the source indices increase: the results keep the order of `xs`. */
  lemma {:induction false} SourcesOrdered<A, B>(xs: seq<A>, f: A -> Option<B>)
    ensures forall k :: 0 <= k < |Sources(xs, f)| ==>
      Sources(xs, f)[k] < |xs| && f(xs[Sources(xs, f)[k]]) == Some(FilterMap(xs, f)[k])
    ensures forall i, j :: 0 <= i < j < |Sources(xs, f)| ==> Sources(xs, f)[i] < Sources(xs, f)[j]
  {
    if |xs| > 0 {
      var init := xs[..|xs| - 1];
      SourcesOrdered(init, f);
      assert forall k :: 0 <= k < |init| ==> init[k] == xs[k];
    }
  }

  /** `xs.filter(p)`. */
  function Filter<A>(xs: seq<A>, p: A -> bool): (r: seq<A>)
    ensures |r| <= |xs|
    ensures forall k :: 0 <= k < |r| ==> p(r[k])
  {
    if |xs| == 0 then []
    else if p(xs[|xs| - 1]) then Filter(xs[..|xs| - 1], p) + [xs[|xs| - 1]]
    else Filter(xs[..|xs| - 1], p)
  }

  lemma {:induction false} FilterAppend<A>(xs: seq<A>, ys: seq<A>, p: A -> bool)
    ensures Filter(xs + ys, p) == Filter(xs, p) + Filter(ys, p)
    decreases |ys|
  {
    if |ys| == 0 {
      assert xs + ys == xs;
    } else {
      var ys' := ys[..|ys| - 1];
      FilterAppend(xs, ys', p);
      assert (xs + ys)[..|xs + ys| - 1] == xs + ys';
      assert (xs + ys)[|xs + ys| - 1] == ys[|ys| - 1];
    }
  }

  /** What `Filter` keeps: exactly the elements that pass. */
  lemma {:induction false} FilterMembers<A>(xs: seq<A>, p: A -> bool, x: A)
    ensures x in Filter(xs, p) <==> x in xs && p(x)
  {
    if |xs| > 0 {
      var init := xs[..|xs| - 1];
      FilterMembers(init, p, x);
      assert xs == init + [xs[|xs| - 1]];
    }
  }

  /** `Filter` keeps every copy of an element that passes and no copy of
      one that does not. */
  lemma {:induction false} FilterCounts<A>(xs: seq<A>, p: A -> bool, x: A)
    ensures multiset(Filter(xs, p))[x] == if p(x) then multiset(xs)[x] else 0
  {
    if |xs| > 0 {
      var init := xs[..|xs| - 1];
      FilterCounts(init, p, x);
      assert xs == init + [xs[|xs| - 1]];
    }
  }

  /** An element that passes lands in the result right after what passes
      before it. */
  lemma FilterAt<A>(xs: seq<A>, p: A -> bool, k: nat)
    requires k < |xs| && p(xs[k])
    ensures |Filter(xs[..k], p)| < |Filter(xs, p)|
    ensures Filter(xs, p)[|Filter(xs[..k], p)|] == xs[k]
  {
    var rest := xs[k + 1..];
    assert xs == xs[..k] + ([xs[k]] + rest);
    FilterAppend(xs[..k], [xs[k]] + rest, p);
    FilterAppend([xs[k]], rest, p);
    assert [xs[k]][..0] == [];
  }

  /** `r` is `xs` with some elements left out, the others in order. */
  predicate Subsequence<A(==)>(r: seq<A>, xs: seq<A>)
    decreases |xs|
  {
    if |r| == 0 then true
    else if |xs| == 0 then false
    else if r[|r| - 1] == xs[|xs| - 1] then Subsequence(r[..|r| - 1], xs[..|xs| - 1])
    else Subsequence(r, xs[..|xs| - 1])
  }

  lemma {:induction false} FilterSubsequence<A>(xs: seq<A>, p: A -> bool)
    ensures Subsequence(Filter(xs, p), xs)
  {
    if |xs| > 0 {
      var init := xs[..|xs| - 1];
      FilterSubsequence(init, p);
      var r := Filter(xs, p);
      if p(xs[|xs| - 1]) {
        assert r[..|r| - 1] == Filter(init, p);
      } else {
        LeaveOut(r, init, xs[|xs| - 1]);
      }
    }
  }

  /** An element appended to the longer sequence may be left out. */
  lemma {:induction false} LeaveOut<A>(r: seq<A>, xs: seq<A>, x: A)
    requires Subsequence(r, xs)
    ensures Subsequence(r, xs + [x])
    decreases |xs|, 1
  {
    var ys := xs + [x];
    assert ys[..|ys| - 1] == xs;
    if |r| > 0 && r[|r| - 1] == x {
      SubsequenceShorten(r, xs);
    }
  }

  /** Leaving out the last element of a subsequence keeps it one. */
  lemma {:induction false} SubsequenceShorten<A>(r: seq<A>, xs: seq<A>)
    requires |r| > 0 && Subsequence(r, xs)
    ensures Subsequence(r[..|r| - 1], xs)
    decreases |xs|, 0
  {
    var init := r[..|r| - 1];
    var xinit := xs[..|xs| - 1];
    if r[|r| - 1] != xs[|xs| - 1] {
      SubsequenceShorten(r, xinit);
    }
    LeaveOut(init, xinit, xs[|xs| - 1]);
    assert xinit + [xs[|xs| - 1]] == xs;
  }

  /** When everything passes, `Filter` keeps everything. */
  lemma {:induction false} FilterKeepsAll<A>(xs: seq<A>, p: A -> bool)
    requires forall k :: 0 <= k < |xs| ==> p(xs[k])
    ensures Filter(xs, p) == xs
  {
    if |xs| > 0 {
      var init := xs[..|xs| - 1];
      FilterKeepsAll(init, p);
      assert xs == init + [xs[|xs| - 1]];
    }
  }
}
