/**
 * The ranking step shared by `_search_local` and `_search_mongodb` in
 * services/search_service.py: `np.argsort(similarities)[::-1][:top_k]`.
 * Scores are reals; the order among equal scores is left unspecified, as
 * numpy's default (unstable) sort followed by a reversal does not fix it.
 */
module Ranking {

  /** Length of Python's `xs[:k]` when `xs` has `m` items (a negative `k` counts from the end). */
  function SliceLen(k: int, m: nat): nat {
    if k >= 0 then (if k < m then k else m)
    else if m + k > 0 then m + k else 0
  }

  /** No index occurs twice. */
  predicate Distinct(s: seq<nat>) {
    forall i, j :: 0 <= i < j < |s| ==> s[i] != s[j]
  }

  /** Every index is below `m`. */
  predicate InRange(s: seq<nat>, m: nat) {
    forall i :: 0 <= i < |s| ==> s[i] < m
  }

  /** The indices are listed by non-increasing score. */
  predicate Descending(scores: seq<real>, s: seq<nat>)
    requires InRange(s, |scores|)
  {
    forall i, j :: 0 <= i < j < |s| ==> scores[s[i]] >= scores[s[j]]
  }

  /** What `np.argsort(scores)[::-1]` yields: every index exactly once, by non-increasing score. */
  predicate IsDescendingOrder(scores: seq<real>, order: seq<nat>) {
    && |order| == |scores|
    && InRange(order, |scores|)
    && Distinct(order)
    && (forall x: nat :: x < |scores| ==> x in order)
    && Descending(scores, order)
  }

  /**
   * What `np.argsort(scores)[::-1][:k]` yields: as many indices as the slice
   * keeps, distinct, by non-increasing score, and no index left out scores
   * higher than any index kept.
   */
  predicate IsTopSelection(scores: seq<real>, k: int, sel: seq<nat>) {
    && |sel| == SliceLen(k, |scores|)
    && InRange(sel, |scores|)
    && Distinct(sel)
    && Descending(scores, sel)
    && (forall j, i :: 0 <= j < |scores| && j !in sel && 0 <= i < |sel| ==> scores[j] <= scores[sel[i]])
  }

  /** `np.argsort(scores)[::-1]`, built by inserting each index after every index that scores at least as high. */
  method ArgsortDescending(scores: seq<real>) returns (order: seq<nat>)
    ensures IsDescendingOrder(scores, order)
  {
    order := [];
    var i := 0;
    while i < |scores|
      invariant 0 <= i <= |scores|
      invariant |order| == i
      invariant forall x: nat :: x in order <==> x < i
      invariant InRange(order, |scores|)
      invariant Distinct(order)
      invariant Descending(scores, order)
    {
      var p := 0;
      while p < |order| && scores[order[p]] >= scores[i]
        invariant 0 <= p <= |order|
        invariant forall q :: 0 <= q < p ==> scores[order[q]] >= scores[i]
      {
        p := p + 1;
      }
      assert forall q :: p <= q < |order| ==> scores[order[q]] < scores[i];
      assert i !in order;
      InsertKeepsOrder(scores, order, p, i);
      order := InsertAt(order, p, i);
      i := i + 1;
    }
  }

  /** The sequence `order` with `x` inserted at position `p`. */
  function InsertAt(order: seq<nat>, p: nat, x: nat): (o: seq<nat>)
    requires p <= |order|
    ensures |o| == |order| + 1
    ensures forall q :: 0 <= q < p ==> o[q] == order[q]
    ensures o[p] == x
    ensures forall q :: p < q < |o| ==> o[q] == order[q - 1]
    ensures forall y :: y in o <==> y in order || y == x
  {
    assert order == order[..p] + order[p..];
    order[..p] + [x] + order[p..]
  }

  /** Inserting `x` between the indices scoring at least as high and those scoring lower keeps the order valid. */
  lemma InsertKeepsOrder(scores: seq<real>, order: seq<nat>, p: nat, x: nat)
    requires InRange(order, |scores|) && Distinct(order) && Descending(scores, order)
    requires x < |scores| && x !in order && p <= |order|
    requires forall q :: 0 <= q < p ==> scores[order[q]] >= scores[x]
    requires forall q :: p <= q < |order| ==> scores[order[q]] < scores[x]
    ensures InRange(InsertAt(order, p, x), |scores|)
    ensures Distinct(InsertAt(order, p, x))
    ensures Descending(scores, InsertAt(order, p, x))
  {
    var o := InsertAt(order, p, x);
    forall a, b | 0 <= a < b < |o| ensures o[a] != o[b] && scores[o[a]] >= scores[o[b]] {
      if b < p {
        assert o[a] == order[a] && o[b] == order[b];
      } else if b == p {
        assert o[a] == order[a] && o[b] == x;
      } else if a < p {
        assert o[a] == order[a] && o[b] == order[b - 1];
      } else if a == p {
        assert o[a] == x && o[b] == order[b - 1];
      } else {
        assert o[a] == order[a - 1] && o[b] == order[b - 1];
      }
    }
  }

  /** `np.argsort(scores)[::-1][:k]`. */
  method TopIndices(scores: seq<real>, k: int) returns (top: seq<nat>)
    ensures IsTopSelection(scores, k, top)
  {
    var order := ArgsortDescending(scores);
    var n := SliceLen(k, |scores|);
    top := order[..n];
    forall j, i | 0 <= j < |scores| && j !in top && 0 <= i < |top|
      ensures scores[j] <= scores[top[i]]
    {
      assert j in order;
      var p :| 0 <= p < |order| && order[p] == j;
      assert p >= n;
    }
  }

  // ---------------------------------------------------------------------------
  // Lemmas
  // ---------------------------------------------------------------------------

  /** Pigeonhole: distinct indices that all occur in `b` are no more than `|b|`. */
  lemma {:induction false} DistinctSubsetBound(a: seq<nat>, b: seq<nat>)
    requires Distinct(a)
    requires forall x :: x in a ==> x in b
    ensures |a| <= |b|
  {
    if a != [] {
      assert a[0] in a;
      var p :| 0 <= p < |b| && b[p] == a[0];
      var b' := b[..p] + b[p + 1..];
      forall x | x in a[1..] ensures x in b' {
        var q :| 0 <= q < |a[1..]| && a[1..][q] == x;
        assert a[q + 1] == x && x != a[0];
        assert x in a;
        var r :| 0 <= r < |b| && b[r] == x;
        if r < p { assert b'[r] == x; } else { assert b'[r - 1] == x; }
      }
      DistinctSubsetBound(a[1..], b');
    }
  }

  /** An index scoring above position `i` of a valid selection occurs among its first `i` entries. */
  lemma HigherScoreSelectedEarlier(scores: seq<real>, k: int, sel: seq<nat>, i: nat, x: nat)
    requires IsTopSelection(scores, k, sel)
    requires i < |sel| && x < |scores|
    requires scores[x] > scores[sel[i]]
    ensures x in sel[..i]
  {
    if x !in sel {
      assert false;
    }
    var r :| 0 <= r < |sel| && sel[r] == x;
    if r >= i {
      assert false;
    }
    assert sel[..i][r] == x;
  }

  /** Position `i` of one valid selection scores no higher than position `i` of another. */
  lemma ScoreAtMost(scores: seq<real>, k: int, s1: seq<nat>, s2: seq<nat>, i: nat)
    requires IsTopSelection(scores, k, s1) && IsTopSelection(scores, k, s2)
    requires i < |s1|
    ensures scores[s1[i]] <= scores[s2[i]]
  {
    if scores[s1[i]] > scores[s2[i]] {
      var a := s1[..i + 1];
      var b := s2[..i];
      forall x | x in a ensures x in b {
        var q :| 0 <= q <= i && s1[q] == x;
        assert scores[x] >= scores[s1[i]];
        HigherScoreSelectedEarlier(scores, k, s2, i, x);
      }
      DistinctSubsetBound(a, b);
      assert false;
    }
  }

  /**
   * Any two valid top-k selections of the same scores agree on the score at
   * every position: only the order among equal scores is left open.
   */
  lemma TopSelectionScoresAgree(scores: seq<real>, k: int, s1: seq<nat>, s2: seq<nat>)
    requires IsTopSelection(scores, k, s1) && IsTopSelection(scores, k, s2)
    ensures |s1| == |s2|
    ensures forall i :: 0 <= i < |s1| ==> scores[s1[i]] == scores[s2[i]]
  {
    forall i | 0 <= i < |s1| ensures scores[s1[i]] == scores[s2[i]] {
      ScoreAtMost(scores, k, s1, s2, i);
      ScoreAtMost(scores, k, s2, s1, i);
    }
  }

  /** Without ties the selection is fully determined. */
  lemma TopSelectionUniqueWithoutTies(scores: seq<real>, k: int, s1: seq<nat>, s2: seq<nat>)
    requires forall i, j :: 0 <= i < j < |scores| ==> scores[i] != scores[j]
    requires IsTopSelection(scores, k, s1) && IsTopSelection(scores, k, s2)
    ensures s1 == s2
  {
    TopSelectionScoresAgree(scores, k, s1, s2);
    forall i | 0 <= i < |s1| ensures s1[i] == s2[i] {
      assert scores[s1[i]] == scores[s2[i]];
    }
  }

  /** When `k` reaches the number of scores, every index is selected, each once. */
  lemma FullSelectionCoversAll(scores: seq<real>, k: int, sel: seq<nat>)
    requires k >= |scores|
    requires IsTopSelection(scores, k, sel)
    ensures |sel| == |scores|
    ensures forall j :: 0 <= j < |scores| ==> j in sel
  {
    var range := seq(|scores|, x requires 0 <= x => x as nat);
    forall j | 0 <= j < |scores| ensures j in sel {
      if j !in sel {
        var a := sel + [j];
        forall x | x in a ensures x in range {
          assert x < |scores| && range[x] == x;
        }
        DistinctSubsetBound(a, range);
      }
    }
  }
}
