/** The order in which the highlighter tries its terms
    (src/components/slang-analyzer.tsx, lines 71-73):
    `[...analysis].map((s) => s.term).sort((a, b) => b.length - a.length)`.
    `Array.prototype.sort` is stable, so terms of equal length keep the order
    they have in the analysis; the model is a stable insertion sort. */
module TermOrder {

  /** Every term is at least as long as every term after it. */
  predicate NonIncreasingLength(ts: seq<string>) {
    forall i, j :: 0 <= i < j < |ts| ==> |ts[i]| >= |ts[j]|
  }

  /** Places `t` in front of the first term that is not longer than it. */
  function InsertByLength(t: string, sorted: seq<string>): (r: seq<string>)
    requires NonIncreasingLength(sorted)
    ensures |r| == |sorted| + 1
    ensures r[0] == t || (sorted != [] && r[0] == sorted[0])
    ensures NonIncreasingLength(r)
    decreases |sorted|
  {
    if sorted == [] then [t]
    else if |sorted[0]| <= |t| then [t] + sorted
    else [sorted[0]] + InsertByLength(t, sorted[1..])
  }

  /** Insertion adds `t` and loses nothing. */
  lemma {:induction false} InsertIsPermutation(t: string, sorted: seq<string>)
    requires NonIncreasingLength(sorted)
    ensures multiset(InsertByLength(t, sorted)) == multiset(sorted) + multiset{t}
    decreases |sorted|
  {
    if sorted != [] && |sorted[0]| > |t| {
      InsertIsPermutation(t, sorted[1..]);
      assert sorted == [sorted[0]] + sorted[1..];
    }
  }

  /** The comparator `(a, b) => b.length - a.length` under a stable sort. */
  function SortByLengthDesc(ts: seq<string>): (r: seq<string>)
    ensures |r| == |ts|
    ensures NonIncreasingLength(r)
    decreases |ts|
  {
    if ts == [] then [] else InsertByLength(ts[0], SortByLengthDesc(ts[1..]))
  }

  /** Sorting only reorders: the result has the same terms, as many of each. */
  lemma {:induction false} SortIsPermutation(ts: seq<string>)
    ensures multiset(SortByLengthDesc(ts)) == multiset(ts)
    decreases |ts|
  {
    if ts != [] {
      SortIsPermutation(ts[1..]);
      InsertIsPermutation(ts[0], SortByLengthDesc(ts[1..]));
      assert ts == [ts[0]] + ts[1..];
    }
  }

  /** The terms of length `n`, in order. */
  function WithLength(ts: seq<string>, n: nat): seq<string>
    decreases |ts|
  {
    if ts == [] then []
    else (if |ts[0]| == n then [ts[0]] else []) + WithLength(ts[1..], n)
  }

  lemma {:induction false} InsertKeepsEqualLengthOrder(t: string, sorted: seq<string>, n: nat)
    requires NonIncreasingLength(sorted)
    ensures WithLength(InsertByLength(t, sorted), n)
         == (if |t| == n then [t] else []) + WithLength(sorted, n)
    decreases |sorted|
  {
    var r := InsertByLength(t, sorted);
    var own: seq<string> := if |t| == n then [t] else [];
    if sorted == [] {
      assert r == [t] && r[1..] == [];
      assert WithLength(r, n) == own + WithLength([], n);
    } else if |sorted[0]| <= |t| {
      assert r == [t] + sorted && r[1..] == sorted;
      assert WithLength(r, n) == own + WithLength(sorted, n);
    } else {
      var rest := InsertByLength(t, sorted[1..]);
      InsertKeepsEqualLengthOrder(t, sorted[1..], n);
      assert r == [sorted[0]] + rest && r[1..] == rest;
      var head: seq<string> := if |sorted[0]| == n then [sorted[0]] else [];
      assert WithLength(r, n) == head + WithLength(rest, n);
      assert WithLength(sorted, n) == head + WithLength(sorted[1..], n);
      if own == [] {
        assert own + WithLength(sorted, n) == WithLength(sorted, n);
        assert WithLength(rest, n) == WithLength(sorted[1..], n);
      } else {
        assert head == [];
        assert WithLength(r, n) == WithLength(rest, n);
        assert WithLength(sorted, n) == WithLength(sorted[1..], n);
      }
    }
  }

  /** Stability: terms of any one length appear in the sorted list in the
      same order as in the input. Together with the ensures of
      `SortByLengthDesc` this determines the sorted list completely. */
  lemma {:induction false} SortIsStable(ts: seq<string>, n: nat)
    ensures WithLength(SortByLengthDesc(ts), n) == WithLength(ts, n)
    decreases |ts|
  {
    if ts != [] {
      SortIsStable(ts[1..], n);
      InsertKeepsEqualLengthOrder(ts[0], SortByLengthDesc(ts[1..]), n);
    }
  }

  /** The sorted list holds exactly the terms of the input; with its length
      (the ensures of `SortByLengthDesc`) this means it is empty exactly when
      the input is, so the check on lines 75-77 can never fire once the
      analysis is non-empty. */
  lemma SortedTermsAreTheTerms(ts: seq<string>)
    ensures forall u :: u in SortByLengthDesc(ts) <==> u in ts
  {
    var r := SortByLengthDesc(ts);
    SortIsPermutation(ts);
    forall u ensures u in r <==> u in ts {
      assert u in r <==> u in multiset(r);
      assert u in ts <==> u in multiset(ts);
    }
  }
}
