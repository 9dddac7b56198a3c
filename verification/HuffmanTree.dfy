/** The Huffman tree as a record of merges.

    The leaves are the symbols 0..n, weights ascending.  Merge t creates inner node t.  Merged
    nodes come out in ascending weight too, so the forest before merge t is always an upper part of
    the leaves and an upper part of the inner nodes made so far: two queues. */
module HuffmanTree {
  import opened LengthAssignments

  /** cut[t] is the number of leaves consumed before merge t, and 2 * t - cut[t] the number of inner
      nodes; weight[t] is the weight of inner node t.  The parents are those of the consumed nodes. */
  datatype Run = Run(cut: seq<nat>, weight: seq<nat>, leafParent: seq<nat>, innerParent: seq<nat>)

  function Inner(run: Run, t: nat): int
    requires t < |run.cut|
  {
    2 * t - run.cut[t]
  }

  function PairWeight(w: seq<nat>, weight: seq<nat>, l: nat, l': nat, r: nat): nat
    requires l <= l' <= l + 2 && l' <= |w|
    requires r + 2 - (l' - l) <= |weight|
  {
    if l' == l + 2 then w[l] + w[l + 1]
    else if l' == l + 1 then w[l] + weight[r]
    else weight[r] + weight[r + 1]
  }

  /** Merge t joins two nodes of the forest that are no heavier than any node left behind; an inner
      node is taken only if it is strictly lighter than every leaf left behind. */
  ghost predicate TakesSmallest(w: seq<nat>, run: Run, t: nat)
    requires t < |run.weight| && t + 1 < |run.cut|
  {
    var l, l', r, r' := run.cut[t], run.cut[t + 1], Inner(run, t), Inner(run, t + 1);
    && l <= l' <= l + 2
    && l' <= |w|
    && 0 <= r <= r' <= t
    && run.weight[t] == PairWeight(w, run.weight, l, l', r)
    && (forall i, j | l <= i < l' <= j < |w| :: w[i] <= w[j])
    && (forall i, m | l <= i < l' && r' <= m < t :: w[i] <= run.weight[m])
    && (forall m, j | r <= m < r' && l' <= j < |w| :: run.weight[m] < w[j])
    && (forall m, k | r <= m < r' <= k < t :: run.weight[m] <= run.weight[k])
  }

  ghost predicate Merges(w: seq<nat>, run: Run)
  {
    && |run.cut| == |run.weight| + 1
    && run.cut[0] == 0
    && forall t | 0 <= t < |run.weight| :: TakesSmallest(w, run, t)
  }

  /** The first |run.weight| merges over the leaves w, with the parents they give. */
  ghost predicate Merging(w: seq<nat>, run: Run)
  {
    var next := |run.weight|;
    && Merges(w, run)
    && |run.leafParent| == run.cut[next]
    && |run.innerParent| == Inner(run, next)
    && (forall j | 0 <= j < |run.leafParent| :: LeafParentOk(run, j))
    && (forall m | 0 <= m < |run.innerParent| :: InnerParentOk(run, m))
  }

  /** Leaf j was consumed by the merge recorded as its parent. */
  ghost predicate LeafParentOk(run: Run, j: nat)
    requires j < |run.leafParent|
  {
    var t := run.leafParent[j];
    t < |run.weight| && t + 1 < |run.cut| && run.cut[t] <= j < run.cut[t + 1]
  }

  ghost predicate InnerParentOk(run: Run, m: nat)
    requires m < |run.innerParent|
  {
    var t := run.innerParent[m];
    t < |run.weight| && t + 1 < |run.cut| && Inner(run, t) <= m < Inner(run, t + 1)
  }

  /** All n - 1 merges: one tree is left, with root n - 2. */
  ghost predicate Complete(w: seq<nat>, run: Run)
  {
    |w| >= 2 && |run.weight| == |w| - 1 && Merging(w, run)
  }

  lemma {:induction false} CutMonotone(w: seq<nat>, run: Run, s: nat, t: nat)
    requires Merges(w, run) && s <= t <= |run.weight|
    ensures run.cut[s] <= run.cut[t] && Inner(run, s) <= Inner(run, t)
    ensures 0 <= Inner(run, s) <= s
    ensures run.cut[t] <= |w|
    decreases t
  {
    if s > 0 {
      assert TakesSmallest(w, run, s - 1);
    }
    if s < t {
      CutMonotone(w, run, s, t - 1);
      assert TakesSmallest(w, run, t - 1);
    }
  }

  /** A complete run has consumed every leaf and every inner node but the root. */
  lemma CompleteCounts(w: seq<nat>, run: Run)
    requires Complete(w, run)
    ensures |run.leafParent| == |w| && |run.innerParent| == |w| - 2
  {
    var n := |w|;
    CutMonotone(w, run, n - 1, n - 1);
    assert TakesSmallest(w, run, n - 2);
  }

  /** Parents come later than their children. */
  lemma ParentsLater(w: seq<nat>, run: Run)
    requires Merging(w, run)
    ensures forall m | 0 <= m < |run.innerParent| :: m < run.innerParent[m] < |run.weight|
    ensures forall j | 0 <= j < |run.leafParent| :: run.leafParent[j] < |run.weight|
  {
    forall m | 0 <= m < |run.innerParent|
      ensures m < run.innerParent[m] < |run.weight|
    {
      assert InnerParentOk(run, m);
      assert TakesSmallest(w, run, run.innerParent[m]);
    }
    forall j | 0 <= j < |run.leafParent|
      ensures run.leafParent[j] < |run.weight|
    {
      assert LeafParentOk(run, j);
    }
  }

  /** A node's parent is below t exactly when the node was consumed before merge t. */
  lemma ParentsBelow(w: seq<nat>, run: Run, t: nat)
    requires Merging(w, run) && t <= |run.weight|
    ensures forall j | 0 <= j < |run.leafParent| :: run.leafParent[j] < t <==> j < run.cut[t]
    ensures forall m | 0 <= m < |run.innerParent| :: run.innerParent[m] < t <==> m < Inner(run, t)
  {
    forall j | 0 <= j < |run.leafParent|
      ensures run.leafParent[j] < t <==> j < run.cut[t]
    {
      assert LeafParentOk(run, j);
      var p := run.leafParent[j];
      if p < t { CutMonotone(w, run, p + 1, t); } else { CutMonotone(w, run, t, p); }
    }
    forall m | 0 <= m < |run.innerParent|
      ensures run.innerParent[m] < t <==> m < Inner(run, t)
    {
      assert InnerParentOk(run, m);
      var p := run.innerParent[m];
      if p < t { CutMonotone(w, run, p + 1, t); } else { CutMonotone(w, run, t, p); }
    }
  }

  // ----- depths -----

  /** The parent pointers of the inner nodes alone, all pointing upwards; node |parents| is the root. */
  ghost predicate Upward(parents: seq<nat>)
  {
    forall m | 0 <= m < |parents| :: m < parents[m] <= |parents|
  }

  function InnerDepth(parents: seq<nat>, m: nat): nat
    requires Upward(parents) && m <= |parents|
    decreases |parents| - m
  {
    if m == |parents| then 0 else 1 + InnerDepth(parents, parents[m])
  }

  ghost predicate WellFormed(run: Run)
  {
    && Upward(run.innerParent)
    && forall j | 0 <= j < |run.leafParent| :: run.leafParent[j] <= |run.innerParent|
  }

  /** The depth of leaf j: the number of edges from the root, found by following parents. */
  function LeafDepth(run: Run, j: nat): nat
    requires WellFormed(run) && j < |run.leafParent|
  {
    1 + InnerDepth(run.innerParent, run.leafParent[j])
  }

  function LeafDepths(run: Run): (d: seq<nat>)
    requires WellFormed(run)
    ensures |d| == |run.leafParent|
    ensures forall j | 0 <= j < |d| :: d[j] == LeafDepth(run, j)
  {
    seq(|run.leafParent|, j requires 0 <= j < |run.leafParent| => LeafDepth(run, j))
  }

  function InnerDepths(run: Run): (d: seq<nat>)
    requires WellFormed(run)
    ensures |d| == |run.innerParent| + 1
    ensures forall m | 0 <= m < |d| :: d[m] == InnerDepth(run.innerParent, m)
  {
    seq(|run.innerParent| + 1, m requires 0 <= m <= |run.innerParent| => InnerDepth(run.innerParent, m))
  }

  lemma CompleteWellFormed(w: seq<nat>, run: Run)
    requires Complete(w, run)
    ensures WellFormed(run) && |run.leafParent| == |w| && |run.innerParent| == |w| - 2
  {
    CompleteCounts(w, run);
    ParentsLater(w, run);
  }

  // ----- the forest before merge t -----

  /** Attribute x of the leaves left and attribute y of the inner nodes left before merge t. */
  function Live(x: seq<nat>, y: seq<nat>, l: nat, r: nat, t: nat): seq<nat>
    requires l <= |x| && r <= t <= |y|
  {
    x[l..] + y[r..t]
  }

  /** The positions in the forest of the two nodes that a merge takes from the queue fronts. */
  function FirstFront(left: nat, taken: nat): nat
    requires taken <= 2 && taken <= left
  {
    if taken == 0 then left else 0
  }

  function SecondFront(left: nat, taken: nat): (q: nat)
    requires taken <= 2 && taken <= left
    ensures FirstFront(left, taken) < q
  {
    if taken == 0 then left + 1 else if taken == 1 then left else 1
  }

  lemma RemoveTwoLeft(a: seq<nat>, b: seq<nat>)
    requires |a| >= 2
    ensures Remove(Remove(a + b, 1), 0) == a[2..] + b
  {
    assert Remove(a + b, 1) == [a[0]] + (a[2..] + b);
  }

  lemma RemoveOneEach(a: seq<nat>, b: seq<nat>)
    requires |a| >= 1 && |b| >= 1
    ensures Remove(Remove(a + b, |a|), 0) == a[1..] + b[1..]
  {
    assert Remove(a + b, |a|) == a + b[1..];
  }

  lemma RemoveTwoRight(a: seq<nat>, b: seq<nat>)
    requires |b| >= 2
    ensures Remove(Remove(a + b, |a| + 1), |a|) == a + b[2..]
  {
    assert Remove(a + b, |a| + 1) == a + ([b[0]] + b[2..]);
  }

  lemma LiveTail(x: seq<nat>, y: seq<nat>, l: nat, l': nat, r: nat, r': nat, t: nat)
    requires l <= l' <= |x| && r <= r' <= t < |y|
    ensures Live(x, y, l', r', t + 1) == x[l..][l' - l..] + y[r..t][r' - r..] + [y[t]]
  {
    assert x[l'..] == x[l..][l' - l..];
    assert y[r'..t + 1] == y[r..t][r' - r..] + [y[t]];
  }

  /** A merge removes its two nodes from the fronts and puts the new one at the end. */
  lemma LiveStep(x: seq<nat>, y: seq<nat>, l: nat, l': nat, r: nat, r': nat, t: nat, p: nat, q: nat)
    requires l <= l' <= l + 2 && l' <= |x|
    requires r <= r' <= t < |y| && (l' - l) + (r' - r) == 2
    requires p == FirstFront(|x| - l, l' - l) && q == SecondFront(|x| - l, l' - l)
    ensures q < |Live(x, y, l, r, t)|
    ensures Live(x, y, l', r', t + 1) == Remove(Remove(Live(x, y, l, r, t), q), p) + [y[t]]
    ensures Live(x, y, l, r, t)[p] == (if l' > l then x[l] else y[r])
    ensures Live(x, y, l, r, t)[q] == (if l' == l + 2 then x[l + 1] else if l' == l + 1 then y[r] else y[r + 1])
  {
    var a, b := x[l..], y[r..t];
    LiveTail(x, y, l, l', r, r', t);
    if l' == l + 2 {
      RemoveTwoLeft(a, b);
      assert b[0..] == b;
    } else if l' == l + 1 {
      RemoveOneEach(a, b);
    } else {
      RemoveTwoRight(a, b);
      assert a[0..] == a;
    }
  }

  function Forest(w: seq<nat>, run: Run, t: nat): seq<nat>
    requires t < |run.cut| && run.cut[t] <= |w| && 0 <= Inner(run, t) <= t <= |run.weight|
  {
    Live(w, run.weight, run.cut[t], Inner(run, t), t)
  }

  lemma ForestStep(w: seq<nat>, run: Run, t: nat) returns (p: nat, q: nat)
    requires Merges(w, run) && t < |run.weight|
    ensures run.cut[t] <= run.cut[t + 1] <= |w| && 0 <= Inner(run, t) <= t
    ensures run.cut[t + 1] <= run.cut[t] + 2
    ensures 0 <= Inner(run, t + 1) <= t
    ensures var left, taken := |w| - run.cut[t], run.cut[t + 1] - run.cut[t];
      p == FirstFront(left, taken) && q == SecondFront(left, taken)
    ensures var f := Forest(w, run, t);
      && p < q < |f|
      && f[p] + f[q] == run.weight[t]
      && Forest(w, run, t + 1) == Merged(f, p, q, run.weight[t])
      && forall k | 0 <= k < |f| && k != p && k != q :: f[p] <= f[k] && f[q] <= f[k]
  {
    assert TakesSmallest(w, run, t);
    var l, l', r, r' := run.cut[t], run.cut[t + 1], Inner(run, t), Inner(run, t + 1);
    p, q := FirstFront(|w| - l, l' - l), SecondFront(|w| - l, l' - l);
    LiveStep(w, run.weight, l, l', r, r', t, p, q);
    FrontsSmallest(w, run, t, p, q);
  }

  lemma FrontsSmallest(w: seq<nat>, run: Run, t: nat, p: nat, q: nat)
    requires t < |run.weight| && t + 1 < |run.cut| && TakesSmallest(w, run, t)
    requires var left, taken := |w| - run.cut[t], run.cut[t + 1] - run.cut[t];
      p == FirstFront(left, taken) && q == SecondFront(left, taken)
    ensures var f := Forest(w, run, t);
      q < |f| && forall k | 0 <= k < |f| && k != p && k != q :: f[p] <= f[k] && f[q] <= f[k]
  {
    var l, r := run.cut[t], Inner(run, t);
    var f := Forest(w, run, t);
    assert forall k | 0 <= k < |w| - l :: f[k] == w[l + k];
    assert forall k | |w| - l <= k < |f| :: f[k] == run.weight[r + k - (|w| - l)];
  }

  // ----- weights of merged nodes -----

  /** The weights of the two nodes merge t takes, and what is known of the nodes it leaves. */
  lemma MergePair(w: seq<nat>, run: Run, t: nat) returns (a: nat, b: nat)
    requires t < |run.weight| && t + 1 < |run.cut| && TakesSmallest(w, run, t)
    ensures run.weight[t] == a + b
    ensures forall j | run.cut[t] <= j < run.cut[t + 1] :: w[j] == a || w[j] == b
    ensures forall m | Inner(run, t) <= m < Inner(run, t + 1) :: run.weight[m] == a || run.weight[m] == b
    ensures forall j | run.cut[t + 1] <= j < |w| :: w[j] >= a && w[j] >= b
    ensures forall m | Inner(run, t + 1) <= m < t :: run.weight[m] >= a && run.weight[m] >= b
  {
    var l, l', r := run.cut[t], run.cut[t + 1], Inner(run, t);
    if l' == l + 2 {
      a, b := w[l], w[l + 1];
    } else if l' == l + 1 {
      a, b := w[l], run.weight[r];
    } else {
      a, b := run.weight[r], run.weight[r + 1];
    }
  }

  /** If every node in the forest weighs at least x, except that inner node s may be taken, then
      merge t makes a node of weight at least 2 * x, or at least x more than node s. */
  lemma MergeAtLeast(w: seq<nat>, run: Run, t: nat, s: nat, x: nat)
    requires t < |run.weight| && t + 1 < |run.cut| && TakesSmallest(w, run, t)
    requires s < t
    requires forall j | run.cut[t] <= j < |w| :: w[j] >= x
    requires forall m | Inner(run, t) <= m < t && m != s :: run.weight[m] >= x
    ensures if Inner(run, t) <= s < Inner(run, t + 1)
            then run.weight[t] >= run.weight[s] + x
            else run.weight[t] >= 2 * x
  {
  }

  /** Weights come out in ascending order. */
  lemma WeightStep(w: seq<nat>, run: Run, t: nat)
    requires Merges(w, run) && t + 1 < |run.weight|
    ensures run.weight[t] <= run.weight[t + 1]
  {
    assert TakesSmallest(w, run, t);
    assert TakesSmallest(w, run, t + 1);
    var a, b := MergePair(w, run, t);
    var x := if a < b then b else a;
    forall j | run.cut[t + 1] <= j < |w|
      ensures w[j] >= x
    {
    }
    forall m | Inner(run, t + 1) <= m < t
      ensures run.weight[m] >= x
    {
    }
    MergeAtLeast(w, run, t + 1, t, x);
  }

  lemma {:induction false} WeightsAscend(w: seq<nat>, run: Run, s: nat, t: nat)
    requires Merges(w, run) && s <= t < |run.weight|
    ensures run.weight[s] <= run.weight[t]
    decreases t
  {
    if s < t {
      WeightsAscend(w, run, s, t - 1);
      WeightStep(w, run, t - 1);
    }
  }

  /** A node outweighs its inner child by at least the weight of either grandchild below that child. */
  lemma UncleIsHeavier(w: seq<nat>, run: Run, s: nat, t: nat)
    requires Merges(w, run) && s < t < |run.weight|
    requires Inner(run, t) <= s < Inner(run, t + 1)
    ensures run.cut[s + 1] <= |w|
    ensures forall j | run.cut[s] <= j < run.cut[s + 1] :: run.weight[t] >= run.weight[s] + w[j]
    ensures forall m | 0 <= Inner(run, s) <= m < Inner(run, s + 1) && m < |run.weight| ::
      run.weight[t] >= run.weight[s] + run.weight[m]
  {
    assert TakesSmallest(w, run, s) && TakesSmallest(w, run, t);
    var a, b := MergePair(w, run, s);
    var x := if a < b then b else a;
    CutMonotone(w, run, s + 1, t);
    forall m | s <= m < t
      ensures run.weight[m] >= x
    {
      WeightsAscend(w, run, s, m);
    }
    MergeAtLeast(w, run, t, s, x);
  }

  // ----- the run is determined by the weights -----

  /** How many leaves merge t takes is decided by the queue fronts. */
  lemma CutDecided(w: seq<nat>, run: Run, t: nat)
    requires t < |run.weight| && t + 1 < |run.cut| && TakesSmallest(w, run, t)
    ensures var l, r := run.cut[t], Inner(run, t);
      && l <= run.cut[t + 1] <= l + 2
      && (run.cut[t + 1] == l <==> r + 2 <= t && (l == |w| || run.weight[r + 1] < w[l]))
      && (run.cut[t + 1] == l + 2 <==> l + 2 <= |w| && (r == t || w[l + 1] <= run.weight[r]))
  {
  }

  lemma SameStep(w: seq<nat>, run1: Run, run2: Run, t: nat)
    requires t < |run1.weight| && t < |run2.weight| && t + 1 < |run1.cut| && t + 1 < |run2.cut|
    requires TakesSmallest(w, run1, t) && TakesSmallest(w, run2, t)
    requires run1.cut[t] == run2.cut[t]
    requires forall m | 0 <= m < t :: run1.weight[m] == run2.weight[m]
    ensures run1.cut[t + 1] == run2.cut[t + 1] && run1.weight[t] == run2.weight[t]
  {
    CutDecided(w, run1, t);
    CutDecided(w, run2, t);
  }

  lemma {:induction false} SameMerges(w: seq<nat>, run1: Run, run2: Run, t: nat)
    requires Merges(w, run1) && Merges(w, run2) && t <= |run1.weight| && t <= |run2.weight|
    ensures forall s | 0 <= s <= t :: run1.cut[s] == run2.cut[s]
    ensures forall s | 0 <= s < t :: run1.weight[s] == run2.weight[s]
  {
    if t > 0 {
      var s := t - 1;
      SameMerges(w, run1, run2, s);
      assert TakesSmallest(w, run1, s);
      assert TakesSmallest(w, run2, s);
      SameStep(w, run1, run2, s);
    }
  }

  /** The weights determine the tree: two complete runs over the same weights are equal. */
  lemma RunUnique(w: seq<nat>, run1: Run, run2: Run)
    requires Complete(w, run1) && Complete(w, run2)
    ensures run1 == run2
  {
    var n := |w|;
    SameMerges(w, run1, run2, n - 1);
    CompleteCounts(w, run1);
    CompleteCounts(w, run2);
    assert run1.cut == run2.cut && run1.weight == run2.weight;
    SameParents(w, run1, run2);
  }

  lemma SameParents(w: seq<nat>, run1: Run, run2: Run)
    requires Complete(w, run1) && Complete(w, run2) && run1.cut == run2.cut
    requires |run1.leafParent| == |run2.leafParent| && |run1.innerParent| == |run2.innerParent|
    ensures run1.leafParent == run2.leafParent && run1.innerParent == run2.innerParent
  {
    forall j | 0 <= j < |run1.leafParent|
      ensures run1.leafParent[j] == run2.leafParent[j]
    {
      assert LeafParentOk(run1, j) && LeafParentOk(run2, j);
      ParentsBelow(w, run1, run2.leafParent[j]);
      ParentsBelow(w, run2, run1.leafParent[j]);
    }
    forall m | 0 <= m < |run1.innerParent|
      ensures run1.innerParent[m] == run2.innerParent[m]
    {
      assert InnerParentOk(run1, m) && InnerParentOk(run2, m);
      ParentsBelow(w, run1, run2.innerParent[m]);
      ParentsBelow(w, run2, run1.innerParent[m]);
    }
  }
}
