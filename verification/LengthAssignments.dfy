/** Weighted length and Kraft sum of a sequence of code lengths, and the exchange argument
    that drives Huffman's optimality proof. */
module LengthAssignments {
  import opened Numbers

  function Remove<T>(s: seq<T>, i: nat): (r: seq<T>)
    requires i < |s|
  {
    s[..i] + s[i + 1..]
  }

  lemma RemoveTail<T>(s: seq<T>, i: nat)
    requires 1 <= i < |s|
    ensures Remove(s, i)[0] == s[0]
    ensures Remove(s, i)[1..] == Remove(s[1..], i - 1)
  {
    assert s[..i][1..] == s[1..][..i - 1];
    assert s[i + 1..] == s[1..][i..];
    assert s[..i] == [s[0]] + s[..i][1..];
  }

  /** The weighted sum of the lengths: the number of bits the code spends. */
  function Cost(w: seq<nat>, l: seq<nat>): nat
    requires |w| == |l|
  {
    if |w| == 0 then 0 else w[0] * l[0] + Cost(w[1..], l[1..])
  }

  /** 2^-l. */
  function Unit(l: nat): real
  {
    if l == 0 then 1.0 else Unit(l - 1) / 2.0
  }

  function KraftSum(l: seq<nat>): real
  {
    if |l| == 0 then 0.0 else Unit(l[0]) + KraftSum(l[1..])
  }

  lemma {:induction false} UnitPositive(l: nat)
    ensures Unit(l) > 0.0
  {
    if l > 0 {
      UnitPositive(l - 1);
    }
  }

  lemma {:induction false} CostRemove(w: seq<nat>, l: seq<nat>, i: nat)
    requires i < |w| == |l|
    ensures Cost(w, l) == w[i] * l[i] + Cost(Remove(w, i), Remove(l, i))
  {
    if i == 0 {
      assert Remove(w, 0) == w[1..] && Remove(l, 0) == l[1..];
    } else {
      CostRemove(w[1..], l[1..], i - 1);
      RemoveTail(w, i);
      RemoveTail(l, i);
    }
  }

  lemma {:induction false} KraftRemove(l: seq<nat>, i: nat)
    requires i < |l|
    ensures KraftSum(l) == Unit(l[i]) + KraftSum(Remove(l, i))
  {
    if i == 0 {
      assert Remove(l, 0) == l[1..];
    } else {
      KraftRemove(l[1..], i - 1);
      RemoveTail(l, i);
    }
  }

  lemma CostUpdate(w: seq<nat>, l: seq<nat>, i: nat, x: nat)
    requires i < |w| == |l|
    ensures Cost(w, l[i := x]) + w[i] * l[i] == Cost(w, l) + w[i] * x
  {
    CostRemove(w, l, i);
    CostRemove(w, l[i := x], i);
    assert Remove(l[i := x], i) == Remove(l, i);
  }

  lemma KraftUpdate(l: seq<nat>, i: nat, x: nat)
    requires i < |l|
    ensures KraftSum(l[i := x]) == KraftSum(l) - Unit(l[i]) + Unit(x)
  {
    KraftRemove(l, i);
    KraftRemove(l[i := x], i);
    assert Remove(l[i := x], i) == Remove(l, i);
  }

  lemma CostSnoc(w: seq<nat>, l: seq<nat>, x: nat, y: nat)
    requires |w| == |l|
    ensures Cost(w + [x], l + [y]) == Cost(w, l) + x * y
  {
    CostRemove(w + [x], l + [y], |w|);
    assert Remove(w + [x], |w|) == w && Remove(l + [y], |l|) == l;
  }

  lemma KraftSnoc(l: seq<nat>, y: nat)
    ensures KraftSum(l + [y]) == KraftSum(l) + Unit(y)
  {
    KraftRemove(l + [y], |l|);
    assert Remove(l + [y], |l|) == l;
  }

  /** The Kraft sum scaled by 2^m, an integer. */
  function KraftCount(l: seq<nat>, m: nat): nat
    requires forall i | 0 <= i < |l| :: l[i] <= m
  {
    if |l| == 0 then 0 else Pow2(m - l[0]) + KraftCount(l[1..], m)
  }

  /** x * 2^m. */
  function Scale(x: real, m: nat): real
  {
    if m == 0 then x else 2.0 * Scale(x, m - 1)
  }

  lemma {:induction false} ScaleLinear(x: real, y: real, m: nat)
    ensures Scale(x + y, m) == Scale(x, m) + Scale(y, m)
    ensures x <= y <==> Scale(x, m) <= Scale(y, m)
  {
    if m > 0 {
      ScaleLinear(x, y, m - 1);
    }
  }

  lemma {:induction false} ScaleOne(m: nat)
    ensures Scale(1.0, m) == Pow2(m) as real
  {
    if m > 0 {
      ScaleOne(m - 1);
    }
  }

  lemma {:induction false} UnitScaled(l: nat, m: nat)
    requires l <= m
    ensures Scale(Unit(l), m) == Pow2(m - l) as real
  {
    if l == 0 {
      ScaleOne(m);
    } else {
      UnitScaled(l - 1, m);
      assert Unit(l - 1) == Unit(l) + Unit(l);
      ScaleLinear(Unit(l), Unit(l), m);
      assert Pow2(m - (l - 1)) == 2 * Pow2(m - l);
    }
  }

  lemma {:induction false} KraftScaled(l: seq<nat>, m: nat)
    requires forall i | 0 <= i < |l| :: l[i] <= m
    ensures Scale(KraftSum(l), m) == KraftCount(l, m) as real
  {
    if |l| == 0 {
      ScaleLinear(0.0, 0.0, m);
    } else {
      KraftScaled(l[1..], m);
      UnitScaled(l[0], m);
      ScaleLinear(Unit(l[0]), KraftSum(l[1..]), m);
    }
  }

  lemma KraftAtMostOne(l: seq<nat>, m: nat)
    requires forall i | 0 <= i < |l| :: l[i] <= m
    ensures KraftSum(l) <= 1.0 <==> KraftCount(l, m) <= Pow2(m)
  {
    KraftScaled(l, m);
    ScaleOne(m);
    ScaleLinear(KraftSum(l), 1.0, m);
  }

  /** When every length is below m, each term of the scaled sum is even. */
  lemma {:induction false} KraftCountEven(l: seq<nat>, m: nat) returns (half: nat)
    requires forall i | 0 <= i < |l| :: l[i] < m
    ensures KraftCount(l, m) == 2 * half
  {
    if |l| == 0 {
      half := 0;
    } else {
      half := KraftCountEven(l[1..], m);
      half := half + Pow2(m - l[0] - 1);
    }
  }

  lemma {:induction false} KraftCountRemove(l: seq<nat>, m: nat, i: nat)
    requires i < |l|
    requires forall i | 0 <= i < |l| :: l[i] <= m
    ensures KraftCount(l, m) == Pow2(m - l[i]) + KraftCount(Remove(l, i), m)
  {
    if i == 0 {
      assert Remove(l, 0) == l[1..];
    } else {
      KraftCountRemove(l[1..], m, i - 1);
      RemoveTail(l, i);
    }
  }

  /** A longest code that has no companion of its own length can be shortened by one bit. */
  lemma ShortenLonely(l: seq<nat>, a: nat)
    requires a < |l| && l[a] >= 1
    requires forall k | 0 <= k < |l| && k != a :: l[k] < l[a]
    requires KraftSum(l) <= 1.0
    ensures KraftSum(l[a := l[a] - 1]) <= 1.0
  {
    var m := l[a];
    var l', rest := l[a := m - 1], Remove(l, a);
    assert Remove(l', a) == rest;
    KraftCountRemove(l, m, a);
    KraftCountRemove(l', m, a);
    var half := KraftCountEven(rest, m);
    assert Pow2(m) == 2 * Pow2(m - 1) && Pow2(1) == 2 * Pow2(0) == 2;
    KraftAtMostOne(l, m);
    RoomForOne(half, Pow2(m - 1));
    KraftAtMostOne(l', m);
  }

  lemma RoomForOne(half: nat, p: nat)
    requires 1 + 2 * half <= 2 * p
    ensures 2 + 2 * half <= 2 * p
  {
  }

  function MaxIndex(l: seq<nat>): (a: nat)
    requires |l| > 0
    ensures a < |l|
    ensures forall k | 0 <= k < |l| :: l[k] <= l[a]
  {
    if |l| == 1 then 0
    else
      var b := MaxIndex(l[1..]) + 1;
      assert forall k | 1 <= k < |l| :: l[k] == l[1..][k - 1];
      if l[0] <= l[b] then b else 0
  }

  lemma {:induction false} SumUpdate(l: seq<nat>, a: nat, x: nat)
    requires a < |l|
    ensures Sum(l[a := x]) + l[a] == Sum(l) + x
  {
    if a > 0 {
      SumUpdate(l[1..], a - 1, x);
      assert l[a := x][1..] == l[1..][a - 1 := x];
    }
  }

  lemma KraftAtLeastUnits(l: seq<nat>, a: nat, b: nat)
    requires a < b < |l|
    ensures KraftSum(l) >= Unit(l[a]) + Unit(l[b])
  {
    KraftRemove(l, b);
    assert Remove(l, b)[a] == l[a];
    KraftRemove(Remove(l, b), a);
    KraftNonnegative(Remove(Remove(l, b), a));
  }

  lemma {:induction false} KraftNonnegative(l: seq<nat>)
    ensures KraftSum(l) >= 0.0
  {
    if |l| != 0 {
      KraftNonnegative(l[1..]);
      UnitPositive(l[0]);
    }
  }

  /** Without raising the cost, the lengths can be made to have two codes of the greatest length. */
  lemma {:induction false} PairLongest(w: seq<nat>, l: seq<nat>) returns (l': seq<nat>, a: nat, b: nat)
    requires |w| == |l| >= 2 && KraftSum(l) <= 1.0
    ensures |l'| == |l| && KraftSum(l') <= 1.0 && Cost(w, l') <= Cost(w, l)
    ensures a < |l| && b < |l| && a != b && l'[a] == l'[b] >= 1
    ensures forall k | 0 <= k < |l| :: l'[k] <= l'[a]
    decreases Sum(l)
  {
    a := MaxIndex(l);
    if c :| 0 <= c < |l| && c != a && l[c] == l[a] {
      l', b := l, c;
      if l[a] == 0 {
        KraftAtLeastUnits(l, if a < b then a else b, if a < b then b else a);
        assert false;
      }
    } else {
      var shorter := l[a := l[a] - 1];
      ShortenLonely(l, a);
      SumUpdate(l, a, l[a] - 1);
      CostUpdate(w, l, a, l[a] - 1);
      assert w[a] * (l[a] - 1) <= w[a] * l[a];
      l', a, b := PairLongest(w, shorter);
    }
  }

  lemma Rearrangement(w: nat, w': nat, l: nat, l': nat)
    requires w <= w' && l <= l'
    ensures w * l' + w' * l <= w * l + w' * l'
  {
    assert (w' - w) * (l' - l) >= 0;
  }

  lemma SwapLengths(w: seq<nat>, l: seq<nat>, p: nat, a: nat)
    requires p < |w| == |l| && a < |w| && p != a
    requires w[p] <= w[a] && l[p] <= l[a]
    ensures KraftSum(l[p := l[a]][a := l[p]]) == KraftSum(l)
    ensures Cost(w, l[p := l[a]][a := l[p]]) <= Cost(w, l)
  {
    KraftUpdate(l, p, l[a]);
    KraftUpdate(l[p := l[a]], a, l[p]);
    CostUpdate(w, l, p, l[a]);
    CostUpdate(w, l[p := l[a]], a, l[p]);
    Rearrangement(w[p], w[a], l[p], l[a]);
  }

  /** Without raising the cost, two given smallest weights can be given the same greatest length. */
  lemma DeepestPair(w: seq<nat>, l: seq<nat>, p: nat, q: nat) returns (l': seq<nat>)
    requires p < q < |w| == |l| && KraftSum(l) <= 1.0
    requires forall k | 0 <= k < |w| && k != p && k != q :: w[p] <= w[k] && w[q] <= w[k]
    ensures |l'| == |l| && KraftSum(l') <= 1.0 && Cost(w, l') <= Cost(w, l)
    ensures l'[p] == l'[q] >= 1
  {
    var a, b;
    l', a, b := PairLongest(w, l);
    var top := l'[a];
    if l'[p] != top {
      var c := if a != q then a else b;
      var d := if a != q then b else a;
      SwapLengths(w, l', p, c);
      l' := l'[p := l'[c]][c := l'[p]];
      a, b := p, d;
    }
    assert l'[p] == top && l'[a] == l'[b] == top && a != b;
    if l'[q] != top {
      var c := if a != p then a else b;
      SwapLengths(w, l', q, c);
      l' := l'[q := l'[c]][c := l'[q]];
    }
  }

  function Merged(w: seq<nat>, p: nat, q: nat, x: nat): seq<nat>
    requires p < q < |w|
  {
    Remove(Remove(w, q), p) + [x]
  }

  lemma OneLevelUp(x: nat, y: nat, d: nat)
    ensures (x + y) * d + x + y == x * (d + 1) + y * (d + 1)
  {}

  lemma MergedSums(w: seq<nat>, l: seq<nat>, p: nat, q: nat)
    requires p < q < |w| == |l|
    requires l[p] == l[q] >= 1
    ensures Cost(Merged(w, p, q, w[p] + w[q]), Merged(l, p, q, l[p] - 1)) + w[p] + w[q] == Cost(w, l)
    ensures KraftSum(Merged(l, p, q, l[p] - 1)) == KraftSum(l)
  {
    var w1, l1 := Remove(w, q), Remove(l, q);
    var w2, l2 := Remove(w1, p), Remove(l1, p);
    assert w1[p] == w[p] && l1[p] == l[p];
    var d := l[p] - 1;
    CostRemove(w, l, q);
    CostRemove(w1, l1, p);
    CostSnoc(w2, l2, w[p] + w[q], d);
    OneLevelUp(w[p], w[q], d);
    KraftRemove(l, q);
    KraftRemove(l1, p);
    KraftSnoc(l2, d);
  }

  /** Huffman's greedy step: merging two smallest weights turns any admissible assignment into one
      for the smaller problem that is cheaper by at least the merged weight. */
  lemma GreedyStep(w: seq<nat>, l: seq<nat>, p: nat, q: nat) returns (l': seq<nat>)
    requires p < q < |w| == |l| && KraftSum(l) <= 1.0
    requires forall k | 0 <= k < |w| && k != p && k != q :: w[p] <= w[k] && w[q] <= w[k]
    ensures |l'| == |w| - 1 && KraftSum(l') <= 1.0
    ensures Cost(Merged(w, p, q, w[p] + w[q]), l') + w[p] + w[q] <= Cost(w, l)
  {
    var deep := DeepestPair(w, l, p, q);
    MergedSums(w, deep, p, q);
    l' := Merged(deep, p, q, deep[p] - 1);
  }
}
