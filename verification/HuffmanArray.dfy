/** The in-place construction: one array holds frequencies, then inner weights, then parent
    indices, then code lengths. */
module HuffmanArray {
  import opened Numbers
  import opened Sequences
  import opened HuffmanTree

  /** The C++ `int` that accumulates a pair's weight. */
  newtype Int32 = x: int | -0x8000_0000 <= x < 0x8000_0000

  const MAX_TOTAL: nat := 0x8000_0000

  // ----- one merge of phase 1 -----

  /** The nodes taken so far, leaves l..l' and inner nodes r..r', come before all that are left. */
  ghost predicate Taken(w: seq<nat>, weight: seq<nat>, l: nat, l': nat, r: nat, r': nat)
  {
    && l <= l' <= |w| && r <= r' <= |weight|
    && (forall i, j | l <= i < l' <= j < |w| :: w[i] <= w[j])
    && (forall i, m | l <= i < l' && r' <= m < |weight| :: w[i] <= weight[m])
    && (forall m, j | r <= m < r' && l' <= j < |w| :: weight[m] < w[j])
    && (forall m, k | r <= m < r' <= k < |weight| :: weight[m] <= weight[k])
  }

  lemma TakeLeaf(w: seq<nat>, weight: seq<nat>, l: nat, l': nat, r: nat, r': nat)
    requires Taken(w, weight, l, l', r, r') && Nondecreasing(w) && Nondecreasing(weight)
    requires l' < |w| && (r' < |weight| ==> w[l'] <= weight[r'])
    ensures Taken(w, weight, l, l' + 1, r, r')
  {
  }

  lemma TakeInner(w: seq<nat>, weight: seq<nat>, l: nat, l': nat, r: nat, r': nat)
    requires Taken(w, weight, l, l', r, r') && Nondecreasing(w) && Nondecreasing(weight)
    requires r' < |weight| && (l' < |w| ==> weight[r'] < w[l'])
    ensures Taken(w, weight, l, l', r, r' + 1)
  {
  }

  function Extended(run: Run, l': nat, sum: nat): Run
    requires |run.cut| == |run.weight| + 1
    requires var t := |run.weight|; run.cut[t] <= l' && Inner(run, t) <= 2 * t + 2 - l'
  {
    var t := |run.weight|;
    Run(run.cut + [l'], run.weight + [sum],
        run.leafParent + Repeat(t, l' - run.cut[t]),
        run.innerParent + Repeat(t, 2 * t + 2 - l' - Inner(run, t)))
  }

  lemma StepKept(w: seq<nat>, run: Run, run': Run, t: nat)
    requires t < |run.weight| && t + 1 < |run.cut| && TakesSmallest(w, run, t)
    requires run.weight <= run'.weight && run.cut <= run'.cut
    ensures TakesSmallest(w, run', t)
  {
  }

  /** The conditions under which a merge that takes leaves up to l' extends the run. */
  ghost predicate Extends(w: seq<nat>, run: Run, l': nat, sum: nat)
    requires |run.cut| == |run.weight| + 1
  {
    var t := |run.weight|;
    var l, r := run.cut[t], Inner(run, t);
    && 0 <= r <= 2 * t + 2 - l' <= t
    && Taken(w, run.weight, l, l', r, 2 * t + 2 - l')
    && l <= l' <= l + 2
    && sum == PairWeight(w, run.weight, l, l', r)
  }

  lemma ExtendMerges(w: seq<nat>, run: Run, l': nat, sum: nat)
    requires Merges(w, run) && Extends(w, run, l', sum)
    ensures Merges(w, Extended(run, l', sum))
  {
    var t := |run.weight|;
    var run' := Extended(run, l', sum);
    forall s | 0 <= s < t + 1
      ensures TakesSmallest(w, run', s)
    {
      if s < t {
        assert TakesSmallest(w, run, s);
        StepKept(w, run, run', s);
      }
    }
  }

  lemma ExtendRun(w: seq<nat>, run: Run, l': nat, sum: nat)
    requires Merging(w, run) && Extends(w, run, l', sum)
    ensures Merging(w, Extended(run, l', sum))
  {
    var run' := Extended(run, l', sum);
    ExtendMerges(w, run, l', sum);
    forall j | 0 <= j < |run'.leafParent|
      ensures LeafParentOk(run', j)
    {
      if j < |run.leafParent| {
        assert LeafParentOk(run, j);
      }
    }
    forall m | 0 <= m < |run'.innerParent|
      ensures InnerParentOk(run', m)
    {
      if m < |run.innerParent| {
        assert InnerParentOk(run, m);
      }
    }
  }

  lemma ExtendedAscends(w: seq<nat>, run: Run, l': nat, sum: nat)
    requires Merging(w, run)
    requires var t := |run.weight|; run.cut[t] <= l' && Inner(run, t) <= 2 * t + 2 - l'
    requires Merging(w, Extended(run, l', sum))
    ensures Nondecreasing(run.weight + [sum])
  {
    var run' := Extended(run, l', sum);
    forall i, j | 0 <= i <= j < |run'.weight|
      ensures run'.weight[i] <= run'.weight[j]
    {
      WeightsAscend(w, run', i, j);
    }
  }

  /** What the array holds: parents of consumed inner nodes, weights of unconsumed ones,
      frequencies of unconsumed leaves. */
  ghost predicate Cells(a: seq<nat>, w: seq<nat>, weight: seq<nat>, parent: seq<nat>, leaf: nat)
  {
    && |a| == |w|
    && |parent| <= |weight| <= |w|
    && (forall m | 0 <= m < |parent| :: a[m] == parent[m])
    && (forall m | |parent| <= m < |weight| :: a[m] == weight[m])
    && (forall j | leaf <= j < |w| :: a[j] == w[j])
  }

  lemma WriteWeight(a: seq<nat>, w: seq<nat>, weight: seq<nat>, parent: seq<nat>, leaf: nat, x: nat)
    requires Cells(a, w, weight, parent, leaf) && |weight| < leaf && |weight| < |w|
    ensures Cells(a[|weight| := x], w, weight + [x], parent, leaf)
  {
  }

  /** The weight taken by the current merge so far, after zero, one or two nodes. */
  ghost predicate PairSum(w: seq<nat>, weight: seq<nat>, l: nat, l': nat, r: nat, r': nat, sum: nat)
  {
    && l <= l' <= |w| && r <= r' <= |weight| && l' - l + r' - r <= 2
    && sum == if l' - l + r' - r == 0 then 0
              else if l' - l + r' - r == 2 then PairWeight(w, weight, l, l', r)
              else if l' > l then w[l]
              else weight[r]
  }

  /** Takes the lighter of the two queue fronts, preferring the leaf on a tie. */
  method TakeLighter(A: array<nat>, leaf: nat, root: nat, next: nat,
                     ghost w: seq<nat>, ghost weight: seq<nat>, ghost parent: seq<nat>)
    returns (x: nat, leaf': nat, root': nat)
    requires Cells(A[..], w, weight, parent, leaf)
    requires |parent| == root <= next == |weight| < |w| && leaf <= |w|
    requires 2 * next <= leaf + root < |w| + next
    requires Nondecreasing(w) && Nondecreasing(weight)
    modifies A
    ensures leaf <= leaf' <= |w| && root <= root' <= next && leaf' + root' == leaf + root + 1
    ensures Cells(A[..], w, weight, parent + Repeat(next, root' - root), leaf')
    ensures x == if leaf' > leaf then w[leaf] else weight[root]
    ensures leaf' > leaf ==> root < next ==> w[leaf] <= weight[root]
    ensures root' > root ==> leaf < |w| ==> weight[root] < w[leaf]
  {
    leaf', root' := leaf, root;
    if leaf >= A.Length || (root < next && A[root] < A[leaf]) {
      x := A[root];
      A[root] := next;
      root' := root + 1;
    } else {
      x := A[leaf];
      if leaf > next {
        A[leaf] := 0;
      }
      leaf' := leaf + 1;
    }
  }

  lemma TookOne(w: seq<nat>, weight: seq<nat>, l: nat, leaf: nat, leaf': nat, r: nat, root: nat, root': nat,
                sum: nat, x: nat)
    requires Taken(w, weight, l, leaf, r, root) && Nondecreasing(w) && Nondecreasing(weight)
    requires PairSum(w, weight, l, leaf, r, root, sum) && leaf - l + root - r <= 1
    requires leaf <= leaf' <= |w| && root <= root' <= |weight| && leaf' + root' == leaf + root + 1
    requires x == if leaf' > leaf then w[leaf] else weight[root]
    requires leaf' > leaf ==> root < |weight| ==> w[leaf] <= weight[root]
    requires root' > root ==> leaf < |w| ==> weight[root] < w[leaf]
    ensures Taken(w, weight, l, leaf', r, root')
    ensures PairSum(w, weight, l, leaf', r, root', sum + x)
    ensures x + Sum(w[leaf'..]) + Sum(weight[root'..]) == Sum(w[leaf..]) + Sum(weight[root..])
  {
    if leaf' > leaf {
      TakeLeaf(w, weight, l, leaf, r, root);
      SumTail(w, leaf);
    } else {
      TakeInner(w, weight, l, leaf, r, root);
      SumTail(weight, root);
    }
  }

  /** The state within a merge: the nodes l..l' and r..r' have been taken, with weight `sum`. */
  ghost predicate Within(a: seq<nat>, w: seq<nat>, weight: seq<nat>, parent: seq<nat>, next: nat,
                         l: nat, l': nat, r: nat, r': nat, sum: int)
  {
    && l <= l' <= |w| && r <= r' <= next == |weight| && sum >= 0
    && Taken(w, weight, l, l', r, r')
    && PairSum(w, weight, l, l', r, r', sum)
    && Cells(a, w, weight, parent + Repeat(next, r' - r), l')
    && sum + Sum(w[l'..]) + Sum(weight[r'..]) == Sum(w)
  }

  lemma WithinStep(a: seq<nat>, a': seq<nat>, w: seq<nat>, weight: seq<nat>, parent: seq<nat>, next: nat,
                   l: nat, leaf: nat, leaf': nat, r: nat, root: nat, root': nat, sum: nat, x: nat)
    requires Within(a, w, weight, parent, next, l, leaf, r, root, sum) && leaf - l + root - r <= 1
    requires Nondecreasing(w) && Nondecreasing(weight)
    requires leaf <= leaf' <= |w| && root <= root' <= next && leaf' + root' == leaf + root + 1
    requires Cells(a', w, weight, parent + Repeat(next, root - r) + Repeat(next, root' - root), leaf')
    requires x == if leaf' > leaf then w[leaf] else weight[root]
    requires leaf' > leaf ==> root < next ==> w[leaf] <= weight[root]
    requires root' > root ==> leaf < |w| ==> weight[root] < w[leaf]
    ensures Within(a', w, weight, parent, next, l, leaf', r, root', sum + x)
    ensures sum + x <= Sum(w)
  {
    TookOne(w, weight, l, leaf, leaf', r, root, root', sum, x);
    assert parent + Repeat(next, root - r) + Repeat(next, root' - root) == parent + Repeat(next, root' - r);
  }

  /** The state between merges. */
  ghost predicate Between(a: seq<nat>, w: seq<nat>, run: Run, leaf: nat, root: nat, next: nat)
  {
    && leaf <= |w| && root <= next < |w|
    && Merging(w, run) && |run.weight| == next
    && leaf == run.cut[next] && root == |run.innerParent|
    && Cells(a, w, run.weight, run.innerParent, leaf)
    && Sum(w[leaf..]) + Sum(run.weight[root..]) == Sum(w)
    && Nondecreasing(run.weight)
  }

  lemma MergeDone(a: seq<nat>, w: seq<nat>, run: Run, leaf: nat, root: nat, next: nat, sum: nat)
    requires leaf <= |w| && root <= next && next + 1 < |w|
    requires Merging(w, run) && |run.weight| == next && |run.innerParent| <= root
    requires leaf + root == 2 * next + 2
    requires Taken(w, run.weight, run.cut[next], leaf, |run.innerParent|, root)
    requires PairSum(w, run.weight, run.cut[next], leaf, |run.innerParent|, root, sum)
    requires Cells(a, w, run.weight + [sum], run.innerParent + Repeat(next, root - |run.innerParent|), leaf)
    requires sum + Sum(w[leaf..]) + Sum(run.weight[root..]) == Sum(w)
    ensures Between(a, w, Extended(run, leaf, sum), leaf, root, next + 1)
  {
    ExtendRun(w, run, leaf, sum);
    ExtendedAscends(w, run, leaf, sum);
    assert Sum((run.weight + [sum])[root..]) == Sum(run.weight[root..]) + sum by {
      SumSnoc(run.weight[root..], sum);
      assert (run.weight + [sum])[root..] == run.weight[root..] + [sum];
    }
  }

  /** Takes the two lightest nodes of the forest, marking `next` as their parent. */
  method TakeTwo(A: array<nat>, leaf: nat, root: nat, next: nat,
                 ghost w: seq<nat>, ghost weight: seq<nat>, ghost parent: seq<nat>)
    returns (sum: Int32, leaf': nat, root': nat)
    requires Cells(A[..], w, weight, parent, leaf)
    requires leaf <= |w| && |parent| == root <= next == |weight| && next + 1 < |w| && leaf + root == 2 * next
    requires Nondecreasing(w) && Nondecreasing(weight)
    requires Sum(w[leaf..]) + Sum(weight[root..]) == Sum(w) < MAX_TOTAL
    modifies A
    ensures leaf <= leaf' <= |w| && root <= root' <= next && leaf' + root' == 2 * next + 2 && sum >= 0
    ensures Taken(w, weight, leaf, leaf', root, root')
    ensures PairSum(w, weight, leaf, leaf', root, root', sum as int)
    ensures Cells(A[..], w, weight, parent + Repeat(next, root' - root), leaf')
    ensures sum as int + Sum(w[leaf'..]) + Sum(weight[root'..]) == Sum(w)
  {
    sum, leaf', root' := 0, leaf, root;
    var i := 0;
    assert parent + Repeat(next, 0) == parent;
    while i < 2
      invariant i <= 2 && leaf' + root' == 2 * next + i
      invariant Within(A[..], w, weight, parent, next, leaf, leaf', root, root', sum as int)
    {
      ghost var before := A[..];
      ghost var marked := parent + Repeat(next, root' - root);
      var x, leaf'', root'' := TakeLighter(A, leaf', root', next, w, weight, marked);
      WithinStep(before, A[..], w, weight, parent, next, leaf, leaf', leaf'', root, root', root'', sum as int, x);
      sum := (sum as int + x) as Int32;
      leaf', root' := leaf'', root'';
      i := i + 1;
    }
  }

  /** One merge: takes two nodes and records their parent's weight. */
  method MergeOnce(A: array<nat>, leaf: nat, root: nat, next: nat, ghost w: seq<nat>, ghost run: Run)
    returns (leaf': nat, root': nat, ghost run': Run)
    requires Between(A[..], w, run, leaf, root, next) && next + 1 < |w|
    requires Nondecreasing(w) && Sum(w) < MAX_TOTAL
    modifies A
    ensures Between(A[..], w, run', leaf', root', next + 1)
  {
    var sum;
    ghost var weight, parent := run.weight, run.innerParent;
    sum, leaf', root' := TakeTwo(A, leaf, root, next, w, weight, parent);
    ghost var before := A[..];
    A[next] := sum as int;
    ghost var x: nat := sum as int;
    assert A[..] == before[next := x];
    WriteWeight(before, w, weight, parent + Repeat(next, root' - root), leaf', x);
    MergeDone(A[..], w, run, leaf', root', next, x);
    run' := Extended(run, leaf', x);
  }

  /** Phase 1: merges the two lightest nodes n - 1 times, leaving parent indices in the array. */
  method BuildTree(A: array<nat>) returns (ghost run: Run)
    requires A.Length >= 2
    requires forall i | 0 <= i < A.Length :: A[i] >= 1
    requires Nondecreasing(A[..]) && Sum(A[..]) < MAX_TOTAL
    modifies A
    ensures Complete(old(A[..]), run)
    ensures |run.innerParent| == A.Length - 2
    ensures A[..A.Length - 2] == run.innerParent
    ensures A[A.Length - 2] == Sum(old(A[..]))
  {
    ghost var w := A[..];
    var n := A.Length;
    var leaf, root, next := 0, 0, 0;
    run := Run([0], [], [], []);
    assert w[0..] == w;
    while next < n - 1
      invariant Between(A[..], w, run, leaf, root, next)
    {
      leaf, root, run := MergeOnce(A, leaf, root, next, w, run);
      next := next + 1;
    }
    TreeBuilt(A[..], w, run, leaf, root);
  }

  lemma TreeBuilt(a: seq<nat>, w: seq<nat>, run: Run, leaf: nat, root: nat)
    requires |w| >= 2 && Between(a, w, run, leaf, root, |w| - 1)
    ensures Complete(w, run) && |run.innerParent| == |w| - 2
    ensures a[..|w| - 2] == run.innerParent && a[|w| - 2] == Sum(w)
  {
    var n := |w|;
    CompleteCounts(w, run);
    assert w[n..] == [] && run.weight[n - 2..] == [a[n - 2]];
    assert Sum([a[n - 2]]) == a[n - 2];
  }

  /** The depths of the leaves from i up are written; the inner nodes top..above, of depth `depth` - 1,
      are to be expanded; the parents of all inner nodes below them are still there. */
  ghost predicate AtLevel(a: seq<nat>, w: seq<nat>, run: Run, i: int, top: int, above: int, depth: int)
  {
    var n := |w|;
    && |a| == n && Complete(w, run) && WellFormed(run) && |run.leafParent| == n && |run.innerParent| == n - 2
    && 0 <= top <= above <= n - 1 && depth >= 1
    && i == run.cut[above] && top == Inner(run, above)
    && (forall m | 0 <= m < top :: a[m] == run.innerParent[m])
    && (forall m | top <= m < above :: InnerDepth(run.innerParent, m) == depth - 1)
    && (forall j | 0 <= i <= j < n :: a[j] == LeafDepth(run, j))
  }

  lemma FirstLevel(a: seq<nat>, w: seq<nat>, run: Run)
    requires Complete(w, run) && |a| == |w| && |run.innerParent| == |w| - 2
    requires a[..|w| - 2] == run.innerParent
    ensures WellFormed(run) && AtLevel(a, w, run, |w|, |w| - 2, |w| - 1, 1)
  {
    CompleteWellFormed(w, run);
    ParentsBelow(w, run, |w| - 1);
  }

  /** What delimits the next level: parents below the top, and as many leaves as the counts say. */
  lemma LevelBounds(a: seq<nat>, w: seq<nat>, run: Run, i: int, top: int, above: int, depth: int)
    requires AtLevel(a, w, run, i, top, above, depth)
    ensures 0 <= Inner(run, top) <= top && (top > 0 ==> Inner(run, top) < top)
    ensures forall m | 0 <= m < top :: a[m] < top <==> m < Inner(run, top)
    ensures i == top + 2 * (above - top) && 0 <= run.cut[top] <= i <= |w| && run.cut[0] == 0
  {
    ParentsBelow(w, run, top);
    CutMonotone(w, run, top, above);
    assert top > 0 ==> TakesSmallest(w, run, top - 1);
  }

  /** Writing the level's leaves completes it. */
  lemma NextLevel(a: seq<nat>, a': seq<nat>, w: seq<nat>, run: Run, i: int, top: int, above: int, depth: nat)
    requires AtLevel(a, w, run, i, top, above, depth)
    requires |a'| == |a| && 0 <= run.cut[top] <= i <= |a|
    requires forall q | 0 <= q < |a| ::
      a'[q] == if run.cut[top] <= q < i then depth else a[q]
    ensures AtLevel(a', w, run, run.cut[top], Inner(run, top), top, depth + 1)
  {
    LevelBounds(a, w, run, i, top, above, depth);
    ParentsBelow(w, run, top);
    ParentsBelow(w, run, above);
    forall j | run.cut[top] <= j < i
      ensures LeafDepth(run, j) == depth
    {
      assert top <= run.leafParent[j] < above;
    }
    forall m | Inner(run, top) <= m < top
      ensures InnerDepth(run.innerParent, m) == depth
    {
      assert top <= run.innerParent[m] < above;
    }
  }

  /** Scans down to the first node whose parent lies below the level's top. */
  method ScanLevel(A: array<nat>, levelTop: nat, ghost bottom: int) returns (k: nat)
    requires 0 <= bottom <= levelTop <= A.Length
    requires forall m | 0 <= m < levelTop :: A[m] < levelTop <==> m < bottom
    ensures k == bottom
  {
    k := levelTop;
    while k > 0 && A[k - 1] >= levelTop
      invariant bottom <= k <= levelTop
    {
      k := k - 1;
    }
  }

  /** Writes one level's leaves, from index i0 down. */
  method WriteLeaves(A: array<nat>, i0: nat, leavesAtLevel: nat, depth: nat) returns (i: nat)
    requires leavesAtLevel <= i0 <= A.Length
    modifies A
    ensures i == i0 - leavesAtLevel
    ensures forall q | 0 <= q < A.Length :: A[q] == if i <= q < i0 then depth else old(A[q])
  {
    i := i0;
    var j := 0;
    while j < leavesAtLevel
      invariant 0 <= j <= leavesAtLevel && i == i0 - j
      invariant forall q | 0 <= q < A.Length :: A[q] == if i <= q < i0 then depth else old(A[q])
    {
      i := i - 1;
      A[i] := depth;
      j := j + 1;
    }
  }

  /** Phase 2: turns parent indices into leaf depths, level by level from the root, overwriting them
      from the far end. */
  method AssignDepths(A: array<nat>, ghost w: seq<nat>, ghost run: Run)
    requires Complete(w, run) && A.Length == |w|
    requires |run.innerParent| == |w| - 2 && A[..A.Length - 2] == run.innerParent
    modifies A
    ensures WellFormed(run) && A[..] == LeafDepths(run)
  {
    var n := A.Length;
    var i := n;
    var levelTop := n - 2;
    var depth := 1;
    var totalNodesAtLevel := 2;
    ghost var above := n - 1;  // the level being expanded is the inner nodes levelTop..above
    FirstLevel(A[..], w, run);
    while i > 0
      invariant AtLevel(A[..], w, run, i, levelTop, above, depth)
      invariant totalNodesAtLevel == 2 * (above - levelTop)
      decreases i, levelTop
    {
      ghost var before := A[..];
      LevelBounds(before, w, run, i, levelTop, above, depth);
      var k := ScanLevel(A, levelTop, Inner(run, levelTop));
      var internalNodesAtLevel := levelTop - k;
      var leavesAtLevel := totalNodesAtLevel - internalNodesAtLevel;
      assert leavesAtLevel == i - run.cut[levelTop];
      ghost var from := i;
      i := WriteLeaves(A, i, leavesAtLevel, depth);
      NextLevel(before, A[..], w, run, from, levelTop, above, depth);
      above := levelTop;
      totalNodesAtLevel := internalNodesAtLevel * 2;
      levelTop := k;
      depth := depth + 1;
    }
  }
}
