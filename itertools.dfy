/** The parts of Python's `itertools` that the repository enumerates with:
    `combinations` and `permutations`, each producing its results in the library's order. */
module Itertools {

  /** `[[x] + c for c in cs]`. */
  function PrependAll<T>(x: T, cs: seq<seq<T>>): (r: seq<seq<T>>)
    ensures |r| == |cs|
    ensures forall i | 0 <= i < |cs| :: r[i] == [x] + cs[i]
  {
    seq(|cs|, i requires 0 <= i < |cs| => [x] + cs[i])
  }

  /** `itertools.combinations(s, r)`: the length-`r` subsequences of `s`, ordered
      lexicographically by the positions they pick. */
  function Combinations<T>(s: seq<T>, r: nat): (cs: seq<seq<T>>)
    decreases |s|
  {
    if r == 0 then [[]]
    else if |s| == 0 then []
    else PrependAll(s[0], Combinations(s[1..], r - 1)) + Combinations(s[1..], r)
  }

  /** Strictly increasing positions below `n`. */
  predicate Increasing(idx: seq<nat>, n: nat) {
    (forall m | 0 <= m < |idx| :: idx[m] < n) &&
    (forall a, b | 0 <= a < b < |idx| :: idx[a] < idx[b])
  }

  /** The elements of `s` at the positions `idx`. */
  function Pick<T>(s: seq<T>, idx: seq<nat>): (r: seq<T>)
    requires forall m | 0 <= m < |idx| :: idx[m] < |s|
    ensures |r| == |idx|
  {
    seq(|idx|, m requires 0 <= m < |idx| => s[idx[m]])
  }

  function Shift(idx: seq<nat>, d: int): (r: seq<nat>)
    requires forall m | 0 <= m < |idx| :: idx[m] + d >= 0
    ensures |r| == |idx| && forall m | 0 <= m < |idx| :: r[m] == idx[m] + d
  {
    seq(|idx|, m requires 0 <= m < |idx| => (idx[m] + d) as nat)
  }

  /** Helpers relating picks from `s` to picks from `s[1..]`. */
  lemma ConsIncreasing<T>(s: seq<T>, rest: seq<nat>)
    requires |s| > 0 && Increasing(rest, |s| - 1)
    ensures Increasing([0] + Shift(rest, 1), |s|)
    ensures Pick(s, [0] + Shift(rest, 1)) == [s[0]] + Pick(s[1..], rest)
  {
  }

  lemma ShiftIncreasing<T>(s: seq<T>, rest: seq<nat>)
    requires |s| > 0 && Increasing(rest, |s| - 1)
    ensures Increasing(Shift(rest, 1), |s|)
    ensures Pick(s, Shift(rest, 1)) == Pick(s[1..], rest)
  {
  }

  lemma UnconsIncreasing<T>(s: seq<T>, idx: seq<nat>)
    requires Increasing(idx, |s|) && |idx| > 0 && idx[0] == 0
    ensures Increasing(Shift(idx[1..], -1), |s| - 1)
    ensures Pick(s, idx) == [s[0]] + Pick(s[1..], Shift(idx[1..], -1))
  {
  }

  lemma UnshiftIncreasing<T>(s: seq<T>, idx: seq<nat>)
    requires Increasing(idx, |s|) && |idx| > 0 && idx[0] > 0
    ensures Increasing(Shift(idx, -1), |s| - 1)
    ensures Pick(s, idx) == Pick(s[1..], Shift(idx, -1))
  {
    assert forall m | 0 <= m < |idx| :: idx[0] <= idx[m];
  }

  /** Every combination is the pick of some increasing positions. */
  lemma {:induction false} CombinationsSound<T>(s: seq<T>, r: nat, c: seq<T>) returns (idx: seq<nat>)
    requires c in Combinations(s, r)
    ensures |idx| == r && Increasing(idx, |s|) && c == Pick(s, idx)
    decreases |s|
  {
    if r == 0 {
      idx := [];
      assert c == [];
    } else {
      var tails := Combinations(s[1..], r - 1);
      var rests := Combinations(s[1..], r);
      assert Combinations(s, r) == PrependAll(s[0], tails) + rests;
      if c in PrependAll(s[0], tails) {
        var k := PrependedMember(s[0], tails, c);
        var rest := CombinationsSound(s[1..], r - 1, tails[k]);
        ConsIncreasing(s, rest);
        idx := [0] + Shift(rest, 1);
      } else {
        assert c in rests;
        var rest := CombinationsSound(s[1..], r, c);
        ShiftIncreasing(s, rest);
        idx := Shift(rest, 1);
      }
    }
  }

  lemma PrependedMember<T>(x: T, cs: seq<seq<T>>, c: seq<T>) returns (k: nat)
    requires c in PrependAll(x, cs)
    ensures k < |cs| && c == [x] + cs[k]
  {
    var ps := PrependAll(x, cs);
    k :| 0 <= k < |ps| && ps[k] == c;
  }

  /** Every choice of increasing positions appears among the combinations. */
  lemma {:induction false} CombinationsComplete<T>(s: seq<T>, idx: seq<nat>)
    requires Increasing(idx, |s|)
    ensures Pick(s, idx) in Combinations(s, |idx|)
    decreases |s|
  {
    if |idx| == 0 {
      assert Pick(s, idx) == [];
    } else if idx[0] == 0 {
      var rest := Shift(idx[1..], -1);
      UnconsIncreasing(s, idx);
      CombinationsComplete(s[1..], rest);
      var cs := Combinations(s[1..], |idx| - 1);
      var k :| 0 <= k < |cs| && cs[k] == Pick(s[1..], rest);
      assert PrependAll(s[0], cs)[k] == Pick(s, idx);
      assert Combinations(s, |idx|) == PrependAll(s[0], cs) + Combinations(s[1..], |idx|);
    } else {
      var rest := Shift(idx, -1);
      UnshiftIncreasing(s, idx);
      CombinationsComplete(s[1..], rest);
      assert Combinations(s, |idx|) == PrependAll(s[0], Combinations(s[1..], |idx| - 1)) + Combinations(s[1..], |idx|);
    }
  }

  lemma PickInCombinations<T>(s: seq<T>, idx: seq<nat>, c: seq<T>, r: nat)
    requires Increasing(idx, |s|) && r == |idx| && c == Pick(s, idx)
    ensures c in Combinations(s, r)
  {
    CombinationsComplete(s, idx);
  }

  lemma PickTriple<T>(s: seq<T>, i: nat, j: nat, k: nat)
    requires i < j < k < |s|
    ensures Increasing([i, j, k], |s|) && Pick(s, [i, j, k]) == [s[i], s[j], s[k]]
  {
  }

  lemma PickPair<T>(s: seq<T>, i: nat, j: nat)
    requires i < j < |s|
    ensures Increasing([i, j], |s|) && Pick(s, [i, j]) == [s[i], s[j]]
  {
  }

  lemma ThreePicked<T>(s: seq<T>, idx: seq<nat>)
    requires Increasing(idx, |s|) && |idx| == 3
    ensures idx[0] < idx[1] < idx[2] < |s|
    ensures Pick(s, idx) == [s[idx[0]], s[idx[1]], s[idx[2]]]
  {
  }

  lemma TwoPicked<T>(s: seq<T>, idx: seq<nat>)
    requires Increasing(idx, |s|) && |idx| == 2
    ensures idx[0] < idx[1] < |s|
    ensures Pick(s, idx) == [s[idx[0]], s[idx[1]]]
  {
  }

  /** `combinations(s, 3)` holds exactly the triples at positions i < j < k. */
  lemma TriplesOfCombinations<T>(s: seq<T>, c: seq<T>)
    ensures c in Combinations(s, 3) <==>
      exists i, j, k :: 0 <= i < j < k < |s| && c == [s[i], s[j], s[k]]
  {
    if c in Combinations(s, 3) {
      TripleOfMember(s, c);
    }
    if exists i, j, k :: 0 <= i < j < k < |s| && c == [s[i], s[j], s[k]] {
      var i, j, k :| 0 <= i < j < k < |s| && c == [s[i], s[j], s[k]];
      TripleInCombinations(s, i, j, k);
    }
  }

  lemma TripleOfMember<T>(s: seq<T>, c: seq<T>)
    requires c in Combinations(s, 3)
    ensures exists i, j, k :: 0 <= i < j < k < |s| && c == [s[i], s[j], s[k]]
  {
    var idx := CombinationsSound(s, 3, c);
    ThreePicked(s, idx);
    assert c == [s[idx[0]], s[idx[1]], s[idx[2]]];
  }

  lemma TripleInCombinations<T>(s: seq<T>, i: nat, j: nat, k: nat)
    requires i < j < k < |s|
    ensures [s[i], s[j], s[k]] in Combinations(s, 3)
  {
    PickTriple(s, i, j, k);
    PickInCombinations(s, [i, j, k], [s[i], s[j], s[k]], 3);
  }

  /** `combinations(s, 2)` holds exactly the pairs at positions i < j. */
  lemma PairsOfCombinations<T>(s: seq<T>, c: seq<T>)
    ensures c in Combinations(s, 2) <==>
      exists i, j :: 0 <= i < j < |s| && c == [s[i], s[j]]
  {
    if c in Combinations(s, 2) {
      PairOfMember(s, c);
    }
    if exists i, j :: 0 <= i < j < |s| && c == [s[i], s[j]] {
      var i, j :| 0 <= i < j < |s| && c == [s[i], s[j]];
      PairInCombinations(s, i, j);
    }
  }

  lemma PairOfMember<T>(s: seq<T>, c: seq<T>)
    requires c in Combinations(s, 2)
    ensures exists i, j :: 0 <= i < j < |s| && c == [s[i], s[j]]
  {
    var idx := CombinationsSound(s, 2, c);
    TwoPicked(s, idx);
    assert c == [s[idx[0]], s[idx[1]]];
  }

  lemma PairInCombinations<T>(s: seq<T>, i: nat, j: nat)
    requires i < j < |s|
    ensures [s[i], s[j]] in Combinations(s, 2)
  {
    PickPair(s, i, j);
    PickInCombinations(s, [i, j], [s[i], s[j]], 2);
  }

  /** The binomial coefficient, by Pascal's rule. */
  function Binomial(n: nat, r: nat): nat {
    if r == 0 then 1 else if n == 0 then 0 else Binomial(n - 1, r - 1) + Binomial(n - 1, r)
  }

  /** There are `Binomial(|s|, r)` combinations. */
  lemma {:induction false} CombinationsCount<T>(s: seq<T>, r: nat)
    ensures |Combinations(s, r)| == Binomial(|s|, r)
    decreases |s|
  {
    if r > 0 && |s| > 0 {
      CombinationsCount(s[1..], r - 1);
      CombinationsCount(s[1..], r);
    }
  }

  /** Every combination has length `r` and keeps the relative order of `s`. */
  lemma CombinationsShape<T>(s: seq<T>, r: nat, c: seq<T>)
    requires c in Combinations(s, r)
    ensures |c| == r
    ensures exists idx :: Increasing(idx, |s|) && |idx| == r && c == Pick(s, idx)
  {
    var idx := CombinationsSound(s, r, c);
  }

  /** Every entry of `combinations(s, r)` has `r` elements, stated by position. */
  lemma {:induction false} CombinationsLengths<T>(s: seq<T>, r: nat)
    ensures forall i | 0 <= i < |Combinations(s, r)| :: |Combinations(s, r)[i]| == r
  {
    forall i | 0 <= i < |Combinations(s, r)|
      ensures |Combinations(s, r)[i]| == r
    {
      assert Combinations(s, r)[i] in Combinations(s, r);
      CombinationsShape(s, r, Combinations(s, r)[i]);
    }
  }

  /** `seq[:i] + seq[i + 1:]`. */
  function RemoveAt<T>(s: seq<T>, i: nat): (r: seq<T>)
    requires i < |s|
    ensures |r| == |s| - 1
  {
    s[..i] + s[i + 1..]
  }

  /** `itertools.permutations(s)`: for each position i in turn, `s[i]` followed by every
      permutation of the remaining elements. */
  function Permutations<T>(s: seq<T>): (ps: seq<seq<T>>)
    decreases |s|, 1, 0
  {
    if |s| == 0 then [[]] else PermutationsFrom(s, 0)
  }

  function PermutationsFrom<T>(s: seq<T>, i: nat): (ps: seq<seq<T>>)
    requires i <= |s|
    decreases |s|, 0, |s| - i
  {
    if i == |s| then []
    else PrependAll(s[i], Permutations(RemoveAt(s, i))) + PermutationsFrom(s, i + 1)
  }

  lemma RemoveAtMultiset<T>(s: seq<T>, i: nat)
    requires i < |s|
    ensures multiset(RemoveAt(s, i)) == multiset(s) - multiset{s[i]}
  {
    assert s == s[..i] + [s[i]] + s[i + 1..];
  }

  /** Every permutation yielded rearranges `s`. */
  lemma {:induction false} PermutationsSound<T>(s: seq<T>, p: seq<T>)
    requires p in Permutations(s)
    ensures multiset(p) == multiset(s)
    decreases |s|, 1, 0
  {
    if |s| > 0 {
      PermutationsFromSound(s, 0, p);
    }
  }

  lemma {:induction false} PermutationsFromSound<T>(s: seq<T>, i: nat, p: seq<T>)
    requires i <= |s| && p in PermutationsFrom(s, i)
    ensures multiset(p) == multiset(s)
    decreases |s|, 0, |s| - i
  {
    var head := PrependAll(s[i], Permutations(RemoveAt(s, i)));
    if p in head {
      var k :| 0 <= k < |head| && head[k] == p;
      PermutationsSound(RemoveAt(s, i), Permutations(RemoveAt(s, i))[k]);
      RemoveAtMultiset(s, i);
      assert p == [s[i]] + Permutations(RemoveAt(s, i))[k];
    } else {
      PermutationsFromSound(s, i + 1, p);
    }
  }

  /** Every rearrangement of `s` is yielded. */
  lemma {:induction false} PermutationsComplete<T>(s: seq<T>, p: seq<T>)
    requires multiset(p) == multiset(s)
    ensures p in Permutations(s)
    decreases |s|
  {
    if |s| == 0 {
      assert p == [];
    } else {
      assert |p| == |multiset(p)| == |s|;
      assert p[0] in multiset(s);
      var i :| 0 <= i < |s| && s[i] == p[0];
      RemoveAtMultiset(s, i);
      assert p == [p[0]] + p[1..];
      assert multiset(p[1..]) == multiset(p) - multiset{p[0]};
      PermutationsComplete(RemoveAt(s, i), p[1..]);
      var rest := Permutations(RemoveAt(s, i));
      var k :| 0 <= k < |rest| && rest[k] == p[1..];
      assert PrependAll(s[i], rest)[k] == p;
      PermutationsFromContains(s, 0, i, p);
    }
  }

  lemma {:induction false} PermutationsFromContains<T>(s: seq<T>, j: nat, i: nat, p: seq<T>)
    requires j <= i < |s|
    requires p in PrependAll(s[i], Permutations(RemoveAt(s, i)))
    ensures p in PermutationsFrom(s, j)
    decreases i - j
  {
    if j < i {
      PermutationsFromContains(s, j + 1, i, p);
    }
  }
}
