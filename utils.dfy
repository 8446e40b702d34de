/** The list helpers of utils.py. */
module Utils {
  import opened Itertools

  /** `insertions(xs, e)`: the lists obtained by putting `e` at each position 0..|xs| of `xs`. */
  function Insertions<T>(xs: seq<T>, e: T): (r: seq<seq<T>>)
    ensures |r| == |xs| + 1
    ensures forall i | 0 <= i < |r| :: |r[i]| == |xs| + 1 && r[i][i] == e
    ensures r[0][0] == e && r[|xs|][|xs|] == e
  {
    seq(|xs| + 1, i requires 0 <= i <= |xs| => xs[..i] + [e] + xs[i..])
  }

  /** Removing the inserted element from the i-th insertion gives back `xs`, and every
      element of `xs` keeps its relative place. */
  lemma InsertionsRemove<T>(xs: seq<T>, e: T, i: nat)
    requires i <= |xs|
    ensures RemoveAt(Insertions(xs, e)[i], i) == xs
    ensures multiset(Insertions(xs, e)[i]) == multiset(xs) + multiset{e}
  {
    var p := Insertions(xs, e)[i];
    assert p == xs[..i] + [e] + xs[i..];
    assert p[..i] == xs[..i];
    assert p[i + 1..] == xs[i..];
    assert xs == xs[..i] + xs[i..];
  }

  /** `all_subsets(s)`: the combinations of every size 0, 1, .., |s|, smallest first. */
  function AllSubsets<T>(s: seq<T>): seq<seq<T>> {
    SubsetsFrom(s, 0)
  }

  function SubsetsFrom<T>(s: seq<T>, r: nat): seq<seq<T>>
    decreases |s| + 1 - r
  {
    if r > |s| then [] else Combinations(s, r) + SubsetsFrom(s, r + 1)
  }

  function Power2(n: nat): nat {
    if n == 0 then 1 else 2 * Power2(n - 1)
  }

  /** sum of Binomial(n, q) for q = r..n. */
  function BinomialsFrom(n: nat, r: nat): nat
    decreases n + 1 - r
  {
    if r > n then 0 else Binomial(n, r) + BinomialsFrom(n, r + 1)
  }

  lemma {:induction false} BinomialAbove(n: nat, r: nat)
    requires r > n
    ensures Binomial(n, r) == 0
  {
    if n > 0 {
      BinomialAbove(n - 1, r - 1);
      BinomialAbove(n - 1, r);
    }
  }

  lemma {:induction false} SubsetsFromCount<T>(s: seq<T>, r: nat)
    ensures |SubsetsFrom(s, r)| == BinomialsFrom(|s|, r)
    decreases |s| + 1 - r
  {
    if r <= |s| {
      CombinationsCount(s, r);
      SubsetsFromCount(s, r + 1);
    }
  }

  /** Pascal's rule summed over a tail of a row. */
  lemma {:induction false} BinomialsFromPascal(n: nat, r: nat)
    ensures BinomialsFrom(n + 1, r + 1) == BinomialsFrom(n, r) + BinomialsFrom(n, r + 1)
    decreases n + 1 - r
  {
    if r <= n {
      BinomialsFromPascal(n, r + 1);
      if r + 1 > n {
        BinomialAbove(n, r + 1);
      }
    }
  }

  lemma {:induction false} BinomialsRow(n: nat)
    ensures BinomialsFrom(n, 0) == Power2(n)
  {
    if n > 0 {
      BinomialsRow(n - 1);
      BinomialsFromPascal(n - 1, 0);
    }
  }

  /** `all_subsets` yields 2^n lists for an n-element input. */
  lemma AllSubsetsCount<T>(s: seq<T>)
    ensures |AllSubsets(s)| == Power2(|s|)
  {
    SubsetsFromCount(s, 0);
    BinomialsRow(|s|);
  }

  lemma {:induction false} SubsetsFromBounds<T>(s: seq<T>, r: nat)
    ensures forall i | 0 <= i < |SubsetsFrom(s, r)| :: r <= |SubsetsFrom(s, r)[i]|
    decreases |s| + 1 - r
  {
    if r <= |s| {
      SubsetsFromBounds(s, r + 1);
      CombinationsLengths(s, r);
      var block, rest := Combinations(s, r), SubsetsFrom(s, r + 1);
      var all := SubsetsFrom(s, r);
      assert all == block + rest;
      forall i | 0 <= i < |all|
        ensures r <= |all[i]|
      {
        if i < |block| {
          assert all[i] == block[i];
        } else {
          assert all[i] == rest[i - |block|];
        }
      }
    }
  }
  lemma {:induction false} SubsetsFromSizes<T>(s: seq<T>, r: nat)
    ensures forall i, j | 0 <= i < j < |SubsetsFrom(s, r)| ::
      |SubsetsFrom(s, r)[i]| <= |SubsetsFrom(s, r)[j]|
    decreases |s| + 1 - r
  {
    if r <= |s| {
      SubsetsFromSizes(s, r + 1);
      SubsetsFromBounds(s, r + 1);
      CombinationsLengths(s, r);
      var block, rest := Combinations(s, r), SubsetsFrom(s, r + 1);
      var all := SubsetsFrom(s, r);
      assert all == block + rest;
      forall i, j | 0 <= i < j < |all|
        ensures |all[i]| <= |all[j]|
      {
        if j < |block| {
          assert all[i] == block[i] && all[j] == block[j];
        } else if i < |block| {
          assert all[i] == block[i] && all[j] == rest[j - |block|];
        } else {
          assert all[i] == rest[i - |block|] && all[j] == rest[j - |block|];
        }
      }
    }
  }

  /** `all_subsets` yields subsets in non-decreasing size, each one a subsequence of the
      input (it keeps the input's relative order). */
  lemma AllSubsetsShape<T>(s: seq<T>)
    ensures forall i, j | 0 <= i < j < |AllSubsets(s)| :: |AllSubsets(s)[i]| <= |AllSubsets(s)[j]|
    ensures forall c | c in AllSubsets(s) ::
      exists idx :: Increasing(idx, |s|) && |idx| == |c| && c == Pick(s, idx)
  {
    SubsetsFromSizes(s, 0);
    forall c | c in AllSubsets(s)
      ensures exists idx :: Increasing(idx, |s|) && |idx| == |c| && c == Pick(s, idx)
    {
      var r := SubsetsFromMember(s, 0, c);
      CombinationsShape(s, r, c);
    }
  }

  lemma {:induction false} SubsetsFromMember<T>(s: seq<T>, r: nat, c: seq<T>) returns (q: nat)
    requires c in SubsetsFrom(s, r)
    ensures c in Combinations(s, q)
    decreases |s| + 1 - r
  {
    if c in Combinations(s, r) {
      q := r;
    } else {
      q := SubsetsFromMember(s, r + 1, c);
    }
  }

  /** Every choice of increasing positions is among `all_subsets(s)`: nothing is missed. */
  lemma AllSubsetsComplete<T>(s: seq<T>, idx: seq<nat>)
    requires Increasing(idx, |s|)
    ensures Pick(s, idx) in AllSubsets(s)
  {
    CombinationsComplete(s, idx);
    if |idx| > 0 {
      PositionsAtLeast(idx, |s|, |idx| - 1);
    }
    SubsetsFromContains(s, 0, |idx|, Pick(s, idx));
  }

  lemma {:induction false} PositionsAtLeast(idx: seq<nat>, n: nat, m: nat)
    requires Increasing(idx, n) && m < |idx|
    ensures idx[m] >= m
  {
    if m > 0 {
      PositionsAtLeast(idx, n, m - 1);
    }
  }

  lemma {:induction false} SubsetsFromContains<T>(s: seq<T>, r: nat, q: nat, c: seq<T>)
    requires r <= q <= |s| && c in Combinations(s, q)
    ensures c in SubsetsFrom(s, r)
    decreases q - r
  {
    assert SubsetsFrom(s, r) == Combinations(s, r) + SubsetsFrom(s, r + 1);
    if r < q {
      SubsetsFromContains(s, r + 1, q, c);
    }
  }
}
