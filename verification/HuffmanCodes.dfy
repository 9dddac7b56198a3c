/** The whole of code generation: tree, depths, reversal, canonical codes, and the map. */
module HuffmanCodes {
  import opened Numbers
  import opened Sequences
  import opened LengthAssignments
  import opened HuffmanTree
  import opened Optimality
  import opened HuffmanArray
  import opened BinaryStrings
  import opened CanonicalCodes
  import opened Vectors
  import opened Bytes

  const MAX_CODE_LENGTH: nat := 44

  type Codes = map<Byte, string>

  /** A decodable code: nonempty bit strings, none a prefix of another. */
  ghost predicate IsPrefixCode(codes: Codes)
  {
    && (forall x | x in codes :: IsBits(codes[x]) && |codes[x]| >= 1)
    && (forall x, y | x in codes && y in codes && x != y :: !(codes[x] <= codes[y]))
  }

  function Lengths(b: seq<Byte>, codes: Codes): (l: seq<nat>)
    requires forall x | x in b :: x in codes
    ensures |l| == |b| && forall i | 0 <= i < |b| :: l[i] == |codes[b[i]]|
  {
    seq(|b|, i requires 0 <= i < |b| => assert b[i] in b; |codes[b[i]]|)
  }

  /** No code with admissible lengths spends fewer bits on symbols of weights w. */
  ghost predicate Optimal(w: seq<nat>, lengths: seq<nat>)
    requires |w| == |lengths|
  {
    forall l: seq<nat> {:trigger Cost(w, l)} | |l| == |w| && KraftSum(l) <= 1.0 :: Cost(w, lengths) <= Cost(w, l)
  }

  /** The code of symbols b with weights w: complete, optimal and prefix-free, with the all-zero
      code on the heaviest symbol. */
  ghost predicate IsHuffmanCode(w: seq<nat>, b: seq<Byte>, codes: Codes)
  {
    && |w| == |b| >= 2
    && codes.Keys == Elements(b)
    && IsPrefixCode(codes)
    && KraftSum(Lengths(b, codes)) == 1.0
    && Optimal(w, Lengths(b, codes))
    && (forall x | x in codes :: |codes[x]| <= MAX_CODE_LENGTH)
    && codes[b[|b| - 1]] == Zeros(|codes[b[|b| - 1]]|)
  }

  // ----- lengths -----

  /** A heavier leaf is never deeper. */
  lemma {:induction false} InnerDepthDescends(w: seq<nat>, run: Run, m: nat, k: nat)
    requires Complete(w, run) && WellFormed(run)
    requires m <= k <= |run.innerParent|
    ensures InnerDepth(run.innerParent, m) >= InnerDepth(run.innerParent, k)
    decreases |run.innerParent| - m
  {
    if k < |run.innerParent| {
      assert InnerParentOk(run, m) && InnerParentOk(run, k);
      ParentsBelow(w, run, run.innerParent[k]);
      assert run.innerParent[m] <= run.innerParent[k] by {
        if run.innerParent[k] < run.innerParent[m] {
          ParentsBelow(w, run, run.innerParent[m]);
        }
      }
      InnerDepthDescends(w, run, run.innerParent[m], run.innerParent[k]);
    }
  }

  lemma LeafDepthDescends(w: seq<nat>, run: Run, i: nat, j: nat)
    requires Complete(w, run) && WellFormed(run)
    requires i <= j < |run.leafParent|
    ensures LeafDepth(run, i) >= LeafDepth(run, j)
  {
    assert LeafParentOk(run, i) && LeafParentOk(run, j);
    if run.leafParent[j] < run.leafParent[i] {
      ParentsBelow(w, run, run.leafParent[i]);
    }
    InnerDepthDescends(w, run, run.leafParent[i], run.leafParent[j]);
  }

  /** Ten steps along the Fibonacci numbers. */
  lemma FibTen(n: nat)
    ensures Fib(n + 10) == 34 * Fib(n) + 55 * Fib(n + 1)
    ensures Fib(n + 11) == 55 * Fib(n) + 89 * Fib(n + 1)
  {
    assert Fib(n + 2) == Fib(n) + Fib(n + 1);
    assert Fib(n + 5) == 3 * Fib(n) + 5 * Fib(n + 1);
    assert Fib(n + 6) == 5 * Fib(n) + 8 * Fib(n + 1);
    assert Fib(n + 9) == 3 * Fib(n + 5) + 5 * Fib(n + 6) - Fib(n + 8);
  }

  lemma FibBeyond(n: nat)
    requires n >= 47
    ensures Fib(n) > MAX_TOTAL
  {
    FibTen(0);
    FibTen(10);
    FibTen(20);
    FibTen(30);
    FibTen(37);
    FibMonotone(47, n);
  }

  /** Below 2^31 symbols in all, no code is longer than 44 bits. */
  lemma DepthBound(w: seq<nat>, run: Run, j: nat)
    requires Complete(w, run) && WellFormed(run) && j < |run.leafParent|
    requires (forall i | 0 <= i < |w| :: w[i] >= 1) && Sum(w) < MAX_TOTAL
    ensures LeafDepth(run, j) <= MAX_CODE_LENGTH
  {
    DepthNeedsWeight(w, run, j);
    if LeafDepth(run, j) >= 45 {
      FibBeyond(LeafDepth(run, j) + 2);
    }
  }

  lemma {:induction false} KraftReversed(l: seq<nat>)
    ensures KraftSum(Reversed(l)) == KraftSum(l)
  {
    if |l| > 0 {
      KraftReversed(l[1..]);
      ReversedTail(l);
      KraftSnoc(Reversed(l[1..]), l[0]);
    }
  }

  lemma ReversedAscends(w: seq<nat>, run: Run)
    requires Complete(w, run) && WellFormed(run)
    ensures Nondecreasing(Reversed(LeafDepths(run)))
  {
    var d := LeafDepths(run);
    forall i, j | 0 <= i <= j < |d|
      ensures Reversed(d)[i] <= Reversed(d)[j]
    {
      LeafDepthDescends(w, run, |d| - 1 - j, |d| - 1 - i);
    }
  }

  // ----- the code map -----

  /** The map gives each symbol its code from the list. */
  ghost predicate Maps(codes: Codes, b: seq<Byte>, list: seq<string>)
  {
    && |b| == |list|
    && codes.Keys == Elements(b)
    && forall i | 0 <= i < |b| :: b[i] in codes && codes[b[i]] == list[i]
  }

  lemma MapsPrefixCode(codes: Codes, b: seq<Byte>, list: seq<string>, l: seq<nat>)
    requires Maps(codes, b, list)
    requires |l| == |list| && IsCanonical(l, list)
    requires forall i | 0 <= i < |l| :: l[i] >= 1
    ensures IsPrefixCode(codes)
  {
    CanonicalPrefixFree(l, list);
    forall x, y | x in codes && y in codes && x != y
      ensures !(codes[x] <= codes[y])
    {
      var i :| 0 <= i < |b| && b[i] == x;
      var j :| 0 <= j < |b| && b[j] == y;
    }
  }

  lemma ReversedMember<T>(s: seq<T>, x: T)
    ensures x in Reversed(s) <==> x in s
  {
    if x in s {
      var i :| 0 <= i < |s| && s[i] == x;
      assert Reversed(s)[|s| - 1 - i] == x;
    }
  }

  lemma SameMembers<T>(s: seq<T>)
    ensures Elements(Reversed(s)) == Elements(s)
  {
    forall x
      ensures x in s <==> x in Reversed(s)
    {
      ReversedMember(s, x);
    }
  }

  /** The codes assigned to the reversed symbols, seen from the symbols in ascending order. */
  lemma MapsReversed(codes: Codes, b: seq<Byte>, list: seq<string>, d: seq<nat>)
    requires Maps(codes, Reversed(b), list) && |d| == |b|
    requires IsCanonical(Reversed(d), list)
    ensures codes.Keys == Elements(b)
    ensures Lengths(b, codes) == d
  {
    SameMembers(b);
    forall i | 0 <= i < |b|
      ensures b[i] in codes && |codes[b[i]]| == d[i]
    {
      var k := |b| - 1 - i;
      assert Reversed(b)[k] == b[i] && Reversed(d)[k] == d[i];
      assert |list[k]| == Reversed(d)[k];
    }
  }

  lemma LengthsOptimal(w: seq<nat>, run: Run)
    requires Complete(w, run)
    ensures WellFormed(run) && |LeafDepths(run)| == |w| && Optimal(w, LeafDepths(run))
  {
    CompleteWellFormed(w, run);
    forall l: seq<nat> {:trigger Cost(w, l)} | |l| == |w| && KraftSum(l) <= 1.0
      ensures Cost(w, LeafDepths(run)) <= Cost(w, l)
    {
      DepthsOptimal(w, run, l);
    }
  }

  lemma CodesBounded(w: seq<nat>, b: seq<Byte>, codes: Codes, run: Run)
    requires Complete(w, run) && WellFormed(run)
    requires (forall i | 0 <= i < |w| :: w[i] >= 1) && Sum(w) < MAX_TOTAL
    requires codes.Keys == Elements(b) && Lengths(b, codes) == LeafDepths(run)
    ensures forall x | x in codes :: |codes[x]| <= MAX_CODE_LENGTH
  {
    forall x | x in codes
      ensures |codes[x]| <= MAX_CODE_LENGTH
    {
      var i :| 0 <= i < |b| && b[i] == x;
      assert |codes[b[i]]| == Lengths(b, codes)[i];
      DepthBound(w, run, i);
    }
  }

  lemma AssembleHuffmanCode(w: seq<nat>, b: seq<Byte>, codes: Codes, run: Run, list: seq<string>)
    requires Complete(w, run) && WellFormed(run) && |b| == |w| == |LeafDepths(run)|
    requires (forall i | 0 <= i < |w| :: w[i] >= 1) && Sum(w) < MAX_TOTAL
    requires Maps(codes, Reversed(b), list)
    requires IsCanonical(Reversed(LeafDepths(run)), list)
    ensures codes.Keys == Elements(b) && Lengths(b, codes) == LeafDepths(run)
    ensures IsHuffmanCode(w, b, codes)
  {
    var d := LeafDepths(run);
    MapsReversed(codes, b, list, d);
    MapsPrefixCode(codes, Reversed(b), list, Reversed(d));
    DepthsComplete(w, run);
    KraftReversed(d);
    CanonicalEnds(Reversed(d), list);
    assert codes[b[|b| - 1]] == list[0] by { assert Reversed(b)[0] == b[|b| - 1]; }
    LengthsOptimal(w, run);
    CodesBounded(w, b, codes, run);
  }

  method BuildMap(B: array<Byte>, list: seq<string>) returns (codes: Codes)
    requires B.Length == |list| && Distinct(B[..])
    ensures Maps(codes, B[..], list)
  {
    codes := map[];
    var i := 0;
    while i < B.Length
      invariant 0 <= i <= B.Length
      invariant codes.Keys == Elements(B[..i])
      invariant forall k | 0 <= k < i :: B[k] in codes && codes[B[k]] == list[k]
    {
      assert B[..i + 1] == B[..i] + [B[i]];
      assert forall k | 0 <= k < i :: B[..][k] != B[..][i];
      codes := codes[B[i] := list[i]];
      i := i + 1;
    }
    assert B[..i] == B[..];
  }

  function CodeList(b: seq<Byte>, codes: Codes): (list: seq<string>)
    requires forall x | x in b :: x in codes
  {
    seq(|b|, i requires 0 <= i < |b| => assert b[i] in b; codes[b[i]])
  }

  lemma ReversedDistinct<T>(s: seq<T>)
    requires Distinct(s)
    ensures Distinct(Reversed(s))
  {
  }

  /** Phases 1 and 2: frequencies in, depths of the Huffman tree's leaves out. */
  method GenerateLengths(A: array<nat>) returns (ghost run: Run)
    requires A.Length >= 2
    requires forall i | 0 <= i < A.Length :: A[i] >= 1
    requires Nondecreasing(A[..]) && Sum(A[..]) < MAX_TOTAL
    modifies A
    ensures Complete(old(A[..]), run) && WellFormed(run)
    ensures A[..] == LeafDepths(run)
  {
    ghost var w := A[..];
    run := BuildTree(A);
    AssignDepths(A, w, run);
  }

  /** Lengths and symbols, reversed to ascending lengths. */
  method GenerateAscending(A: array<nat>, B: array<Byte>) returns (ghost run: Run)
    requires A.Length == B.Length >= 2
    requires forall i | 0 <= i < A.Length :: A[i] >= 1
    requires Nondecreasing(A[..]) && Sum(A[..]) < MAX_TOTAL
    requires Distinct(B[..])
    modifies A, B
    ensures Complete(old(A[..]), run) && WellFormed(run)
    ensures A[..] == Reversed(LeafDepths(run)) && B[..] == Reversed(old(B[..]))
    ensures Nondecreasing(A[..]) && KraftSum(A[..]) == 1.0 && Distinct(B[..])
  {
    ghost var w, b := A[..], B[..];
    run := GenerateLengths(A);
    ReverseVector(A);
    ReverseVector(B);
    ReversedAscends(w, run);
    DepthsComplete(w, run);
    KraftReversed(LeafDepths(run));
    ReversedDistinct(b);
  }

  /** Canonical codes for ascending lengths, as a map. */
  method AssignMap(A: array<nat>, B: array<Byte>) returns (codes: Codes, ghost list: seq<string>)
    requires A.Length == B.Length >= 1
    requires Nondecreasing(A[..]) && KraftSum(A[..]) == 1.0
    requires Distinct(B[..])
    ensures Maps(codes, B[..], list) && IsCanonical(A[..], list)
    ensures forall x | x in B[..] :: x in codes
    ensures list == CodeList(B[..], codes)
  {
    var codeWords := AssignCodes(A);
    codes := BuildMap(B, codeWords);
    list := codeWords;
  }

  /** Code generation: the code lengths are the leaf depths of the Huffman tree, and the codes are the
      canonical ones for those lengths. */
  method GenerateHuffmanCodes(A: array<nat>, B: array<Byte>) returns (codes: Codes, ghost run: Run)
    requires A.Length == B.Length >= 2
    requires forall i | 0 <= i < A.Length :: A[i] >= 1
    requires Nondecreasing(A[..]) && Sum(A[..]) < MAX_TOTAL
    requires Distinct(B[..])
    modifies A, B
    ensures Complete(old(A[..]), run) && WellFormed(run)
    ensures A[..] == Reversed(LeafDepths(run)) && B[..] == Reversed(old(B[..]))
    ensures forall x | x in B[..] :: x in codes
    ensures IsCanonical(A[..], CodeList(B[..], codes))
    ensures codes.Keys == Elements(old(B[..]))
    ensures Lengths(old(B[..]), codes) == LeafDepths(run)
    ensures IsHuffmanCode(old(A[..]), old(B[..]), codes)
  {
    ghost var w, b := A[..], B[..];
    run := GenerateAscending(A, B);
    ghost var list;
    codes, list := AssignMap(A, B);
    AssembleHuffmanCode(w, b, codes, run, list);
  }
}
