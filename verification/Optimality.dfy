/** What the merge record implies: the leaf depths are an optimal complete code, and the weights
    grow like Fibonacci numbers with the depth. */
module Optimality {
  import opened Numbers
  import opened LengthAssignments
  import opened HuffmanTree

  /** Admissible lengths cost at least the weights still to be merged. */
  lemma {:induction false} ForestLowerBound(w: seq<nat>, run: Run, t: nat, l: seq<nat>)
    requires Merges(w, run) && t <= |run.weight| == |w| - 1
    requires run.cut[t] <= |w| && 0 <= Inner(run, t) <= t
    requires |l| == |Forest(w, run, t)| && KraftSum(l) <= 1.0
    ensures Cost(Forest(w, run, t), l) >= Sum(run.weight[t..])
    decreases |run.weight| - t
  {
    if t < |run.weight| {
      var p, q := ForestStep(w, run, t);
      var l' := GreedyStep(Forest(w, run, t), l, p, q);
      ForestLowerBound(w, run, t + 1, l');
      assert run.weight[t..][1..] == run.weight[t + 1..];
    }
  }

  /** In depths x of the leaves and y of the inner nodes, merge t's two children lie one level below
      inner node t. */
  ghost predicate OneBelow(run: Run, x: seq<nat>, y: seq<nat>, t: nat)
    requires t + 1 < |run.cut| && t < |y|
  {
    && (forall j | run.cut[t] <= j < run.cut[t + 1] && j < |x| :: x[j] == 1 + y[t])
    && (forall m | Inner(run, t) <= m < Inner(run, t + 1) && 0 <= m < |y| :: y[m] == 1 + y[t])
  }

  lemma DepthMerge(x: seq<nat>, y: seq<nat>, l: nat, l': nat, r: nat, r': nat, t: nat, p: nat, q: nat)
    requires l <= l' <= l + 2 && l' <= |x|
    requires r <= r' <= t < |y| && (l' - l) + (r' - r) == 2
    requires p == FirstFront(|x| - l, l' - l) && q == SecondFront(|x| - l, l' - l)
    requires forall j | l <= j < l' :: x[j] == 1 + y[t]
    requires forall m | r <= m < r' :: y[m] == 1 + y[t]
    ensures q < |Live(x, y, l, r, t)|
    ensures Live(x, y, l, r, t)[p] == Live(x, y, l, r, t)[q] == 1 + y[t]
    ensures Live(x, y, l', r', t + 1) == Merged(Live(x, y, l, r, t), p, q, y[t])
  {
    LiveStep(x, y, l, l', r, r', t, p, q);
  }

  function ForestDepths(run: Run, x: seq<nat>, y: seq<nat>, t: nat): seq<nat>
    requires t < |run.cut| && run.cut[t] <= |x| && 0 <= Inner(run, t) <= t <= |y|
  {
    Live(x, y, run.cut[t], Inner(run, t), t)
  }

  lemma AttainedStep(w: seq<nat>, run: Run, x: seq<nat>, y: seq<nat>, t: nat)
    requires Merges(w, run) && |w| == |x| && |y| == |run.weight| && t < |y|
    requires OneBelow(run, x, y, t)
    ensures run.cut[t] <= run.cut[t + 1] <= |w| && 0 <= Inner(run, t) <= t && 0 <= Inner(run, t + 1) <= t
    ensures Cost(Forest(w, run, t), ForestDepths(run, x, y, t)) ==
      Cost(Forest(w, run, t + 1), ForestDepths(run, x, y, t + 1)) + run.weight[t]
    ensures KraftSum(ForestDepths(run, x, y, t)) == KraftSum(ForestDepths(run, x, y, t + 1))
  {
    var p, q := ForestStep(w, run, t);
    assert Inner(run, t) <= Inner(run, t + 1) by { assert TakesSmallest(w, run, t); }
    DepthMerge(x, y, run.cut[t], run.cut[t + 1], Inner(run, t), Inner(run, t + 1), t, p, q);
    var f, d := Forest(w, run, t), ForestDepths(run, x, y, t);
    assert Forest(w, run, t + 1) == Merged(f, p, q, f[p] + f[q]);
    assert ForestDepths(run, x, y, t + 1) == Merged(d, p, q, d[p] - 1);
    MergedSums(f, d, p, q);
  }

  /** After the last merge only the root is left, at depth 0. */
  lemma AttainedRoot(w: seq<nat>, run: Run, x: seq<nat>, y: seq<nat>, t: nat)
    requires Merges(w, run) && |w| == |x| == |y| + 1 && t == |y| == |run.weight| >= 1
    requires y[t - 1] == 0
    ensures run.cut[t] <= |w| && 0 <= Inner(run, t) <= t
    ensures Forest(w, run, t) == [run.weight[t - 1]]
    ensures Cost(Forest(w, run, t), ForestDepths(run, x, y, t)) == 0
    ensures KraftSum(ForestDepths(run, x, y, t)) == 1.0
  {
    assert TakesSmallest(w, run, t - 1);
    CutMonotone(w, run, t, t);
    assert ForestDepths(run, x, y, t) == [0];
    assert Forest(w, run, t) == [run.weight[t - 1]];
    assert KraftSum([0]) == 1.0;
  }

  /** Such depths cost exactly the weights still to be merged, and fill the code space completely. */
  lemma {:induction false} ForestAttained(w: seq<nat>, run: Run, x: seq<nat>, y: seq<nat>, t: nat)
    requires Merges(w, run) && |w| == |x| == |y| + 1 && |y| == |run.weight| >= 1 && t <= |y|
    requires forall s | 0 <= s < |y| :: OneBelow(run, x, y, s)
    requires y[|y| - 1] == 0
    requires run.cut[t] <= |w| && 0 <= Inner(run, t) <= t
    ensures Cost(Forest(w, run, t), ForestDepths(run, x, y, t)) == Sum(run.weight[t..])
    ensures KraftSum(ForestDepths(run, x, y, t)) == 1.0
    decreases |y| - t
  {
    if t < |y| {
      AttainedStep(w, run, x, y, t);
      ForestAttained(w, run, x, y, t + 1);
      SumTail(run.weight, t);
    } else {
      AttainedRoot(w, run, x, y, t);
      assert run.weight[t..] == [];
    }
  }

  /** The depths found by following parents lie one below another as merged. */
  lemma ParentDepths(w: seq<nat>, run: Run, t: nat)
    requires Complete(w, run) && WellFormed(run) && t < |run.weight|
    requires |run.leafParent| == |w| && |run.innerParent| == |w| - 2
    ensures OneBelow(run, LeafDepths(run), InnerDepths(run), t)
  {
    ParentsBelow(w, run, t);
    ParentsBelow(w, run, t + 1);
    CutMonotone(w, run, t + 1, |run.weight|);
  }

  lemma TreeAttained(w: seq<nat>, run: Run)
    requires Complete(w, run)
    ensures WellFormed(run) && |LeafDepths(run)| == |w|
    ensures Cost(w, LeafDepths(run)) == Sum(run.weight)
    ensures KraftSum(LeafDepths(run)) == 1.0
  {
    CompleteWellFormed(w, run);
    var x, y := LeafDepths(run), InnerDepths(run);
    forall s | 0 <= s < |y|
      ensures OneBelow(run, x, y, s)
    {
      ParentDepths(w, run, s);
    }
    assert Inner(run, 0) == 0;
    ForestAttained(w, run, x, y, 0);
    assert ForestDepths(run, x, y, 0) == x && Forest(w, run, 0) == w;
    assert run.weight[0..] == run.weight;
  }

  /** The leaf depths form a complete code. */
  lemma DepthsComplete(w: seq<nat>, run: Run)
    requires Complete(w, run)
    ensures WellFormed(run)
    ensures KraftSum(LeafDepths(run)) == 1.0
  {
    TreeAttained(w, run);
  }

  lemma CostLowerBound(w: seq<nat>, run: Run, l: seq<nat>)
    requires Complete(w, run)
    requires |l| == |w| && KraftSum(l) <= 1.0
    ensures Cost(w, l) >= Sum(run.weight)
  {
    CompleteWellFormed(w, run);
    assert Inner(run, 0) == 0;
    var f := Forest(w, run, 0);
    assert f == w;
    ForestLowerBound(w, run, 0, l);
    assert run.weight[0..] == run.weight;
  }

  /** Huffman's theorem: no lengths with Kraft sum at most 1 have a smaller weighted sum. */
  lemma DepthsOptimal(w: seq<nat>, run: Run, l: seq<nat>)
    requires Complete(w, run)
    requires |l| == |w| && KraftSum(l) <= 1.0
    ensures WellFormed(run) && |LeafDepths(run)| == |w|
    ensures Cost(w, LeafDepths(run)) <= Cost(w, l)
  {
    TreeAttained(w, run);
    CostLowerBound(w, run, l);
  }

  /** Merging conserves the total weight of the forest. */
  lemma {:induction false} WeightConserved(w: seq<nat>, run: Run, t: nat)
    requires Merges(w, run) && t <= |run.weight|
    requires run.cut[t] <= |w| && 0 <= Inner(run, t) <= t
    ensures Sum(Forest(w, run, t)) == Sum(w)
  {
    if t == 0 {
      assert Inner(run, 0) == 0;
      assert Forest(w, run, 0) == w;
    } else {
      var p, q := ForestStep(w, run, t - 1);
      var f := Forest(w, run, t - 1);
      WeightConserved(w, run, t - 1);
      SumRemove(f, q);
      SumRemove(Remove(f, q), p);
      SumSnoc(Remove(Remove(f, q), p), run.weight[t - 1]);
    }
  }

  lemma {:induction false} SumRemove(s: seq<nat>, i: nat)
    requires i < |s|
    ensures Sum(s) == s[i] + Sum(Remove(s, i))
  {
    if i == 0 {
      assert Remove(s, 0) == s[1..];
    } else {
      SumRemove(s[1..], i - 1);
      RemoveTail(s, i);
    }
  }

  /** The root weighs as much as all the leaves together. */
  lemma RootWeight(w: seq<nat>, run: Run)
    requires Complete(w, run)
    ensures run.weight[|w| - 2] == Sum(w)
  {
    var n := |w|;
    CompleteWellFormed(w, run);
    WeightConserved(w, run, n - 1);
    assert Forest(w, run, n - 1) == [run.weight[n - 2]];
    assert Sum([run.weight[n - 2]]) == run.weight[n - 2];
  }

  // ----- Fibonacci growth -----

  /** The h-th ancestor of leaf j. */
  function Ancestor(run: Run, j: nat, h: nat): (a: nat)
    requires WellFormed(run) && j < |run.leafParent|
    requires 1 <= h <= LeafDepth(run, j)
    ensures a <= |run.innerParent|
    ensures InnerDepth(run.innerParent, a) == LeafDepth(run, j) - h
  {
    if h == 1 then run.leafParent[j] else run.innerParent[Ancestor(run, j, h - 1)]
  }

  /** The h-th ancestor's weight; the leaf's own weight for h == 0. */
  function PathWeight(w: seq<nat>, run: Run, j: nat, h: nat): nat
    requires WellFormed(run) && j < |run.leafParent| == |w|
    requires |run.weight| == |run.innerParent| + 1
    requires h <= LeafDepth(run, j)
  {
    if h == 0 then w[j] else run.weight[Ancestor(run, j, h)]
  }

  /** Two steps up a path, the weight is at least that of the two nodes below together. */
  lemma PathGrows(w: seq<nat>, run: Run, j: nat, h: nat)
    requires Complete(w, run) && WellFormed(run) && j < |run.leafParent| == |w|
    requires |run.innerParent| == |w| - 2
    requires h + 2 <= LeafDepth(run, j)
    ensures PathWeight(w, run, j, h + 2) >= PathWeight(w, run, j, h + 1) + PathWeight(w, run, j, h)
  {
    var a, c := Ancestor(run, j, h + 2), Ancestor(run, j, h + 1);
    assert InnerParentOk(run, c);
    UncleIsHeavier(w, run, c, a);
    if h == 0 {
      assert LeafParentOk(run, j);
    } else {
      assert InnerParentOk(run, Ancestor(run, j, h));
      CutMonotone(w, run, c, c);
    }
  }

  lemma {:induction false} AncestorWeight(w: seq<nat>, run: Run, j: nat, h: nat)
    requires Complete(w, run) && WellFormed(run) && j < |run.leafParent| == |w|
    requires |run.innerParent| == |w| - 2
    requires forall i | 0 <= i < |w| :: w[i] >= 1
    requires h <= LeafDepth(run, j)
    ensures PathWeight(w, run, j, h) >= Fib(h + 2)
  {
    if h == 0 {
      assert Fib(2) == 1;
    } else if h == 1 {
      assert Fib(3) == 2;
      var a := Ancestor(run, j, 1);
      WeightsPositive(w, run);
      assert TakesSmallest(w, run, a);
    } else {
      AncestorWeight(w, run, j, h - 1);
      AncestorWeight(w, run, j, h - 2);
      PathGrows(w, run, j, h - 2);
    }
  }

  lemma WeightsPositive(w: seq<nat>, run: Run)
    requires Complete(w, run)
    requires forall i | 0 <= i < |w| :: w[i] >= 1
    ensures forall m | 0 <= m < |run.weight| :: run.weight[m] >= 1
  {
    assert TakesSmallest(w, run, 0);
    forall m | 0 <= m < |run.weight|
      ensures run.weight[m] >= 1
    {
      WeightsAscend(w, run, 0, m);
    }
  }

  /** A code of length d needs a total weight of at least Fib(d + 2). */
  lemma DepthNeedsWeight(w: seq<nat>, run: Run, j: nat)
    requires Complete(w, run) && WellFormed(run) && j < |run.leafParent|
    requires forall i | 0 <= i < |w| :: w[i] >= 1
    ensures Sum(w) >= Fib(LeafDepth(run, j) + 2)
  {
    CompleteWellFormed(w, run);
    var d := LeafDepth(run, j);
    AncestorWeight(w, run, j, d);
    assert InnerDepth(run.innerParent, Ancestor(run, j, d)) == 0;
    assert Ancestor(run, j, d) == |w| - 2;
    RootWeight(w, run);
  }
}
