/** Canonical codes: consecutive binary numbers, each widened to its length with zeros. */
module CanonicalCodes {
  import opened Numbers
  import opened Sequences
  import opened LengthAssignments
  import opened BinaryStrings

  ghost predicate PrefixFree(codes: seq<string>)
  {
    forall i, j | 0 <= i < |codes| && 0 <= j < |codes| && i != j :: !(codes[i] <= codes[j])
  }

  lemma {:induction false} KraftCountWiden(l: seq<nat>, m: nat, d: nat)
    requires forall i | 0 <= i < |l| :: l[i] <= m
    ensures KraftCount(l, m + d) == KraftCount(l, m) * Pow2(d)
  {
    if |l| > 0 {
      KraftCountWiden(l[1..], m, d);
      Pow2Sum(m - l[0], d);
      Factor(Pow2(m - l[0]), KraftCount(l[1..], m), Pow2(d));
    }
  }

  lemma Factor(x: nat, y: nat, d: nat)
    ensures (x + y) * d == x * d + y * d
  {}

  lemma KraftCountSnoc(l: seq<nat>, x: nat, m: nat)
    requires x <= m && forall i | 0 <= i < |l| :: l[i] <= m
    ensures KraftCount(l + [x], m) == KraftCount(l, m) + Pow2(m - x)
  {
    KraftCountRemove(l + [x], m, |l|);
    assert Remove(l + [x], |l|) == l;
  }

  lemma {:induction false} KraftConcat(a: seq<nat>, b: seq<nat>)
    ensures KraftSum(a + b) == KraftSum(a) + KraftSum(b)
  {
    if |b| == 0 {
      assert a + b == a;
    } else {
      var b' := b[..|b| - 1];
      KraftConcat(a, b');
      KraftSnoc(a + b', b[|b| - 1]);
      KraftSnoc(b', b[|b| - 1]);
      assert a + b == (a + b') + [b[|b| - 1]] && b == b' + [b[|b| - 1]];
    }
  }

  lemma KraftCompared(l: seq<nat>, m: nat)
    requires forall i | 0 <= i < |l| :: l[i] <= m
    ensures KraftSum(l) < 1.0 <==> KraftCount(l, m) < Pow2(m)
    ensures KraftSum(l) == 1.0 <==> KraftCount(l, m) == Pow2(m)
  {
    KraftScaled(l, m);
    ScaleOne(m);
    ScaleLinear(KraftSum(l), 1.0, m);
    ScaleLinear(1.0, KraftSum(l), m);
  }

  /** The value of code i: the sum over the earlier codes j of 2^(l[i] - l[j]). */
  function CodeValue(l: seq<nat>, i: nat): nat
    requires i < |l| && forall j | 0 <= j < i :: l[j] <= l[i]
  {
    KraftCount(l[..i], l[i])
  }

  lemma CodeValueStep(l: seq<nat>, i: nat)
    requires Nondecreasing(l) && i + 1 < |l|
    ensures CodeValue(l, i + 1) == (CodeValue(l, i) + 1) * Pow2(l[i + 1] - l[i])
  {
    KraftCountSnoc(l[..i], l[i], l[i]);
    assert l[..i + 1] == l[..i] + [l[i]];
    KraftCountWiden(l[..i + 1], l[i], l[i + 1] - l[i]);
  }

  /** Before the last code there is always room to count up by one. */
  lemma NoCarryOut(l: seq<nat>, i: nat)
    requires Nondecreasing(l) && i < |l| && KraftSum(l) == 1.0
    ensures i + 1 < |l| ==> CodeValue(l, i) + 1 < Pow2(l[i])
    ensures i + 1 == |l| ==> CodeValue(l, i) + 1 == Pow2(l[i])
  {
    KraftCountSnoc(l[..i], l[i], l[i]);
    assert l[..i + 1] == l[..i] + [l[i]];
    KraftCompared(l[..i + 1], l[i]);
    var rest := l[i + 1..];
    assert l == l[..i + 1] + rest;
    KraftConcat(l[..i + 1], rest);
    if |rest| > 0 {
      UnitPositive(rest[0]);
      KraftNonnegative(rest[1..]);
    }
  }

  ghost predicate IsCanonical(l: seq<nat>, codes: seq<string>)
  {
    && |codes| <= |l| && Nondecreasing(l)
    && forall i | 0 <= i < |codes| ::
         IsBits(codes[i]) && |codes[i]| == l[i] && Value(codes[i]) == CodeValue(l, i)
  }

  /** The code after `code`: one more, widened to `width` with zeros on the right. */
  method NextCode(code: string, width: nat) returns (temp: string)
    requires IsBits(code) && 1 <= |code| <= width && Value(code) + 1 < Pow2(|code|)
    ensures IsBits(temp) && |temp| == width && Value(temp) == (Value(code) + 1) * Pow2(width - |code|)
  {
    assert Value("1") == 1 by { assert "1"[..0] == ""; }
    temp := AddBinary(code, "1");
    assert Max(|code|, 1) == |code|;
    var tempLength := |temp|;
    ghost var next := temp;
    var j := 0;
    while j < width - tempLength
      invariant 0 <= j <= width - tempLength && temp == next + Zeros(j)
    {
      temp := temp + ['0'];
      j := j + 1;
    }
    Widen(next, j);
  }

  /** Assigns the codes in order of ascending length: the previous code plus one, then zeros. */
  method AssignCodes(A: array<nat>) returns (codes: seq<string>)
    requires A.Length >= 1
    requires Nondecreasing(A[..]) && KraftSum(A[..]) == 1.0
    ensures |codes| == A.Length && IsCanonical(A[..], codes)
  {
    ghost var l := A[..];
    var result := "";
    var i := 0;
    while i < A[0]
      invariant i <= A[0] && result == Zeros(i)
    {
      result := result + ['0'];
      i := i + 1;
    }
    ValueZeros(A[0]);
    codes := [result];
    i := 1;
    while i < A.Length
      invariant 1 <= i <= A.Length && |codes| == i
      invariant IsCanonical(l, codes)
    {
      NoCarryOut(l, i - 1);
      var temp := NextCode(codes[i - 1], A[i]);
      CodeValueStep(l, i - 1);
      codes := codes + [temp];
      i := i + 1;
    }
  }

  lemma Widen(s: string, d: nat)
    ensures Value(s + Zeros(d)) == Value(s) * Pow2(d)
  {
    ValueConcat(s, Zeros(d));
    ValueZeros(d);
  }

  /** A later code's value lies beyond every extension of an earlier code. */
  lemma {:induction false} LaterIsBeyond(l: seq<nat>, i: nat, j: nat)
    requires Nondecreasing(l) && i < j < |l|
    ensures CodeValue(l, j) >= (CodeValue(l, i) + 1) * Pow2(l[j] - l[i])
    decreases j
  {
    CodeValueStep(l, j - 1);
    if i + 1 < j {
      LaterIsBeyond(l, i, j - 1);
      Pow2Sum(l[j - 1] - l[i], l[j] - l[j - 1]);
      Chain(CodeValue(l, i) + 1, Pow2(l[j - 1] - l[i]), Pow2(l[j] - l[j - 1]), CodeValue(l, j - 1));
    }
  }

  lemma Chain(u: nat, p: nat, q: nat, v: nat)
    requires v >= u * p
    ensures (v + 1) * q >= u * (p * q)
  {
    assert (v + 1) * q >= (u * p) * q;
    assert (u * p) * q == u * (p * q);
  }

  /** No code is a prefix of another. */
  lemma CanonicalPrefixFree(l: seq<nat>, codes: seq<string>)
    requires |codes| == |l| && IsCanonical(l, codes)
    ensures PrefixFree(codes)
  {
    forall i, j | 0 <= i < |codes| && 0 <= j < |codes| && i != j
      ensures !(codes[i] <= codes[j])
    {
      if codes[i] <= codes[j] {
        var a, b := if i < j then i else j, if i < j then j else i;
        assert codes[a] <= codes[b];
        LaterIsBeyond(l, a, b);
        PrefixValue(codes[a], codes[b]);
        assert false;
      }
    }
  }

  lemma {:induction false} OnesOnly(s: string)
    requires IsBits(s) && Value(s) + 1 == Pow2(|s|)
    ensures s == Repeat('1', |s|)
  {
    if |s| > 0 {
      ValueBound(s[..|s| - 1]);
      OnesOnly(s[..|s| - 1]);
      assert s == s[..|s| - 1] + [s[|s| - 1]];
    }
  }

  /** The first code is all zeros and the last all ones. */
  lemma CanonicalEnds(l: seq<nat>, codes: seq<string>)
    requires |codes| == |l| >= 1 && IsCanonical(l, codes) && KraftSum(l) == 1.0
    ensures codes[0] == Zeros(l[0])
    ensures codes[|l| - 1] == Repeat('1', l[|l| - 1])
  {
    ValueZeros(l[0]);
    ValueInjective(codes[0], Zeros(l[0]));
    NoCarryOut(l, |l| - 1);
    OnesOnly(codes[|l| - 1]);
  }
}
