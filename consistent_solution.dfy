/** `ConsistentSolution` (src/thinness/consistent_solution.py): a vertex order together with
    a list of classes, and its construction from a solver model. The model is abstracted as
    the values it assigns: the order value of each node, the class of each node and the
    number of classes. */
module ConsistentSolution {
  import opened Wrappers

  /** The constructor stores `order` and `partition` as given; a solution is never changed
      afterwards, so it is a value. */
  datatype Solution = Solution(order: seq<nat>, partition: seq<set<nat>>)
  {
    /** `thinness`: the number of classes, empty classes included. */
    function Thinness(): (t: nat)
      ensures forall v | PartOf(v).Some? :: PartOf(v).value < t
    {
      |partition|
    }

    /** `part_of(v)`: the index of the first class holding `v`, or `None`. */
    function PartOf(v: nat): (r: Option<nat>)
      ensures r.Some? ==> r.value < |partition| && v in partition[r.value]
      ensures r.Some? ==> forall p | 0 <= p < r.value :: v !in partition[p]
      ensures r.None? <==> forall p | 0 <= p < |partition| :: v !in partition[p]
    {
      FirstPartFrom(v, 0)
    }

    /** The scan of `part_of`, from class `start` on. */
    function FirstPartFrom(v: nat, start: nat): (r: Option<nat>)
      requires start <= |partition|
      ensures r.Some? ==> start <= r.value < |partition| && v in partition[r.value]
      ensures r.Some? ==> forall p | start <= p < r.value :: v !in partition[p]
      ensures r.None? <==> forall p | start <= p < |partition| :: v !in partition[p]
      decreases |partition| - start
    {
      if start == |partition| then None
      else if v in partition[start] then Some(start)
      else FirstPartFrom(v, start + 1)
    }
  }

  /** Two vertices share a class in the sense the verifiers use: `part_of` gives the same
      answer, which includes both being in no class. */
  predicate SameClass(s: Solution, u: nat, v: nat) {
    s.PartOf(u) == s.PartOf(v)
  }

  /** Classes given by membership agree with `part_of` when the classes are disjoint. */
  lemma PartOfDisjoint(s: Solution, v: nat, p: nat)
    requires p < |s.partition| && v in s.partition[p]
    requires forall a, b | 0 <= a < b < |s.partition| :: s.partition[a] !! s.partition[b]
    ensures s.PartOf(v) == Some(p)
  {
    assert forall a | 0 <= a < |s.partition| && a != p :: v !in s.partition[a] by {
      forall a | 0 <= a < |s.partition| && a != p
        ensures v !in s.partition[a]
      {
        if a < p {
          assert s.partition[a] !! s.partition[p];
        } else {
          assert s.partition[p] !! s.partition[a];
        }
      }
    }
  }

  /** Every entry of `xs` has a model value. */
  predicate Keyed(xs: seq<nat>, value: map<nat, int>) {
    forall i | 0 <= i < |xs| :: xs[i] in value
  }

  /** `xs` is in ascending order of model value. */
  predicate SortedBy(xs: seq<nat>, value: map<nat, int>) {
    Keyed(xs, value) && forall i, j | 0 <= i < j < |xs| :: value[xs[i]] <= value[xs[j]]
  }

  /** `_order_from_model`: the nodes sorted by ascending model value (`sorted` with a key). */
  function OrderFromModel(nodes: seq<nat>, value: map<nat, int>): (r: seq<nat>)
    requires Keyed(nodes, value)
    ensures multiset(r) == multiset(nodes)
    ensures SortedBy(r, value)
  {
    if nodes == [] then []
    else
      var rest := OrderFromModel(nodes[1..], value);
      assert nodes == [nodes[0]] + nodes[1..];
      InsertByValue(nodes[0], rest, value)
  }

  /** Inserts `x` in front of the first element whose value is not smaller, so that
      elements with equal value keep their input order. */
  function InsertByValue(x: nat, xs: seq<nat>, value: map<nat, int>): (r: seq<nat>)
    requires x in value && SortedBy(xs, value)
    ensures multiset(r) == multiset(xs) + multiset{x}
    ensures SortedBy(r, value)
  {
    if xs == [] || value[x] <= value[xs[0]] then
      InsertHere(x, xs, value);
      [x] + xs
    else
      var rest := InsertByValue(x, xs[1..], value);
      InsertFurther(x, xs, rest, value);
      [xs[0]] + rest
  }

  lemma InsertHere(x: nat, xs: seq<nat>, value: map<nat, int>)
    requires x in value && SortedBy(xs, value)
    requires xs == [] || value[x] <= value[xs[0]]
    ensures SortedBy([x] + xs, value)
  {
    forall i | 0 <= i < |xs|
      ensures value[x] <= value[xs[i]]
    {
      if i > 0 {
        assert value[xs[0]] <= value[xs[i]];
      }
    }
    SortedFront(x, xs, value);
  }

  lemma InsertFurther(x: nat, xs: seq<nat>, rest: seq<nat>, value: map<nat, int>)
    requires |xs| > 0 && x in value && SortedBy(xs, value)
    requires value[xs[0]] < value[x]
    requires multiset(rest) == multiset(xs[1..]) + multiset{x} && SortedBy(rest, value)
    ensures multiset([xs[0]] + rest) == multiset(xs) + multiset{x}
    ensures SortedBy([xs[0]] + rest, value)
  {
    assert xs == [xs[0]] + xs[1..];
    forall i | 0 <= i < |rest|
      ensures value[xs[0]] <= value[rest[i]]
    {
      assert rest[i] in multiset(rest);
      if rest[i] != x {
        assert rest[i] in multiset(xs[1..]);
        var k :| 0 <= k < |xs[1..]| && xs[1..][k] == rest[i];
        assert xs[k + 1] == rest[i];
      }
    }
    SortedFront(xs[0], rest, value);
  }

  /** The entries of `xs` whose model value is `k`, in their order in `xs`. */
  function WithValue(xs: seq<nat>, value: map<nat, int>, k: int): seq<nat>
    requires Keyed(xs, value)
  {
    if xs == [] then []
    else (if value[xs[0]] == k then [xs[0]] else []) + WithValue(xs[1..], value, k)
  }

  /** Inserting `x` puts it ahead of every entry with its value: the entries skipped have
      smaller values. */
  lemma {:induction false} InsertByValueStable(x: nat, xs: seq<nat>, value: map<nat, int>, k: int)
    requires x in value && SortedBy(xs, value)
    ensures WithValue(InsertByValue(x, xs, value), value, k) ==
            (if value[x] == k then [x] else []) + WithValue(xs, value, k)
  {
    if xs == [] || value[x] <= value[xs[0]] {
      WithValueCons(x, xs, value, k);
    } else {
      var rest := InsertByValue(x, xs[1..], value);
      InsertByValueStable(x, xs[1..], value, k);
      WithValueCons(xs[0], rest, value, k);
      assert xs == [xs[0]] + xs[1..];
      WithValueCons(xs[0], xs[1..], value, k);
    }
  }

  lemma WithValueCons(a: nat, ys: seq<nat>, value: map<nat, int>, k: int)
    requires a in value && Keyed(ys, value)
    ensures WithValue([a] + ys, value, k) == (if value[a] == k then [a] else []) + WithValue(ys, value, k)
  {
    assert ([a] + ys)[1..] == ys;
  }

  /** `sorted` is stable: nodes with the same model value keep their input order. */
  lemma {:induction false} OrderFromModelStable(nodes: seq<nat>, value: map<nat, int>, k: int)
    requires Keyed(nodes, value)
    ensures WithValue(OrderFromModel(nodes, value), value, k) == WithValue(nodes, value, k)
  {
    if nodes != [] {
      OrderFromModelStable(nodes[1..], value, k);
      InsertByValueStable(nodes[0], OrderFromModel(nodes[1..], value), value, k);
    }
  }

  /** A value no larger than everything in a sorted list can go in front of it. */
  lemma SortedFront(y: nat, rest: seq<nat>, value: map<nat, int>)
    requires y in value && SortedBy(rest, value)
    requires forall i | 0 <= i < |rest| :: value[y] <= value[rest[i]]
    ensures SortedBy([y] + rest, value)
  {
    var r := [y] + rest;
    forall i, j | 0 <= i < j < |r|
      ensures value[r[i]] <= value[r[j]]
    {
      assert r[j] == rest[j - 1];
      if i > 0 {
        assert r[i] == rest[i - 1];
      }
    }
  }

  /** Python list indexing: a negative index counts from the end. */
  predicate InRange(index: int, length: nat) {
    -(length as int) <= index < length
  }

  function Position(index: int, length: nat): (p: nat)
    requires InRange(index, length)
    ensures p < length
    ensures 0 <= index ==> p == index
  {
    if index < 0 then index + length else index
  }

  /** The nodes that `_partition_from_model` files into part `p`: those whose class
      value `c` makes `partition[c - 1]` refer to position `p`. */
  function PartMembers(classes: seq<(nat, int)>, count: nat, p: nat): set<nat> {
    set m | 0 <= m < |classes| && InRange(classes[m].1 - 1, count)
                                && Position(classes[m].1 - 1, count) == p :: classes[m].0
  }

  /** `_partition_from_model`: `count` empty classes, then each node of the class
      assignment (in dictionary order) is added to class `c - 1`. A class value outside
      the list's index range raises `IndexError`; a value 0 selects the last class, as
      Python's index -1 does. */
  method PartitionFromModel(count: int, classes: seq<(nat, int)>) returns (r: Result<seq<set<nat>>>)
    ensures r.Success? <==> forall m | 0 <= m < |classes| :: InRange(classes[m].1 - 1, if count < 0 then 0 else count)
    ensures r.Success? ==> |r.value| == (if count < 0 then 0 else count)
    ensures r.Success? ==> forall p | 0 <= p < |r.value| :: r.value[p] == PartMembers(classes, |r.value|, p)
  {
    var size: nat := if count < 0 then 0 else count;
    var partition: seq<set<nat>> := seq(size, _ => {});
    var t := 0;
    while t < |classes|
      invariant 0 <= t <= |classes| && |partition| == size
      invariant forall m | 0 <= m < t :: InRange(classes[m].1 - 1, size)
      invariant forall p | 0 <= p < size :: partition[p] == PartMembers(classes[..t], size, p)
    {
      var (node, c) := classes[t];
      if !InRange(c - 1, size) {
        return Failure("IndexError: list index out of range");
      }
      var p := Position(c - 1, size);
      forall q | 0 <= q < size
        ensures PartMembers(classes[..t + 1], size, q)
             == PartMembers(classes[..t], size, q) + (if q == p then {node} else {})
      {
        PartMembersStep(classes, t, size, q);
      }
      partition := partition[p := partition[p] + {node}];
      t := t + 1;
    }
    assert classes[..t] == classes;
    return Success(partition);
  }

  lemma PartMembersStep(classes: seq<(nat, int)>, t: nat, count: nat, q: nat)
    requires t < |classes| && InRange(classes[t].1 - 1, count)
    ensures PartMembers(classes[..t + 1], count, q)
         == PartMembers(classes[..t], count, q)
            + (if Position(classes[t].1 - 1, count) == q then {classes[t].0} else {})
  {
    var before, after := classes[..t], classes[..t + 1];
    assert forall m | 0 <= m < t :: after[m] == before[m];
    assert after[t] == classes[t];
  }

  /** A node whose class value c lies in 1..count lands in part c - 1. */
  lemma NodeInItsPart(count: int, classes: seq<(nat, int)>, r: Result<seq<set<nat>>>, m: nat)
    requires r.Success? && |r.value| == (if count < 0 then 0 else count)
    requires forall p | 0 <= p < |r.value| :: r.value[p] == PartMembers(classes, |r.value|, p)
    requires m < |classes| && 1 <= classes[m].1 <= count
    ensures classes[m].0 in r.value[classes[m].1 - 1]
  {
    var p := classes[m].1 - 1;
    assert Position(p, |r.value|) == p;
  }

  /** `from_model`: the order and the partition read off the model. */
  method FromModel(nodes: seq<nat>, orderValue: map<nat, int>, count: int, classes: seq<(nat, int)>)
    returns (r: Result<Solution>)
    requires Keyed(nodes, orderValue)
    ensures r.Success? <==> forall m | 0 <= m < |classes| :: InRange(classes[m].1 - 1, if count < 0 then 0 else count)
    ensures r.Success? ==> multiset(r.value.order) == multiset(nodes)
    ensures r.Success? ==> SortedBy(r.value.order, orderValue)
    ensures r.Success? ==> r.value.Thinness() == (if count < 0 then 0 else count)
    ensures r.Success? ==> forall p | 0 <= p < |r.value.partition| ::
      r.value.partition[p] == PartMembers(classes, |r.value.partition|, p)
  {
    var order := OrderFromModel(nodes, orderValue);
    var partition := PartitionFromModel(count, classes);
    if partition.Failure? {
      return Failure(partition.error);
    }
    return Success(Solution(order, partition.value));
  }
}
