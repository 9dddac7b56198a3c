/** Strings of '0' and '1' read as numbers, and their addition. */
module BinaryStrings {
  import opened Numbers
  import opened Sequences

  predicate IsBits(s: string)
  {
    forall i | 0 <= i < |s| :: s[i] == '0' || s[i] == '1'
  }

  function Bit(c: char): nat
  {
    if c == '1' then 1 else 0
  }

  /** The number a bit string denotes, most significant bit first. */
  function Value(s: string): nat
  {
    if |s| == 0 then 0 else 2 * Value(s[..|s| - 1]) + Bit(s[|s| - 1])
  }

  function Zeros(k: nat): (s: string)
    ensures |s| == k && forall i | 0 <= i < k :: s[i] == '0'
  {
    Repeat('0', k)
  }

  lemma {:induction false} ValueBound(s: string)
    ensures Value(s) < Pow2(|s|)
  {
    if |s| > 0 {
      ValueBound(s[..|s| - 1]);
    }
  }

  lemma Regroup(a: nat, p: nat, q: nat, b: nat)
    requires q == 2 * p
    ensures 2 * (a * p + b) == a * q + 2 * b
  {}

  lemma {:induction false} ValueConcat(a: string, b: string)
    ensures Value(a + b) == Value(a) * Pow2(|b|) + Value(b)
    decreases |b|
  {
    if |b| == 0 {
      assert a + b == a;
    } else {
      var b' := b[..|b| - 1];
      assert (a + b)[..|a + b| - 1] == a + b';
      ValueConcat(a, b');
      Regroup(Value(a), Pow2(|b'|), Pow2(|b|), Value(b'));
    }
  }

  /** What a character contributes with k characters after it. */
  function Weight(c: char, k: nat): nat
  {
    if c == '1' then Pow2(k) else 0
  }

  lemma {:induction false} ValueCons(c: char, s: string)
    ensures Value([c] + s) == Weight(c, |s|) + Value(s)
    decreases |s|
  {
    if |s| == 0 {
      assert [c] + s == [c] && [c][..0] == "";
    } else {
      var k := |s| - 1;
      ValueCons(c, s[..k]);
      assert ([c] + s)[..|s|] == [c] + s[..k];
    }
  }

  lemma {:induction false} ValueZeros(k: nat)
    ensures Value(Zeros(k)) == 0
  {
    if k > 0 {
      ValueZeros(k - 1);
      assert Zeros(k)[..k - 1] == Zeros(k - 1);
    }
  }

  /** Bit strings of one length are determined by their values. */
  lemma {:induction false} ValueInjective(a: string, b: string)
    requires IsBits(a) && IsBits(b) && |a| == |b| && Value(a) == Value(b)
    ensures a == b
  {
    if |a| > 0 {
      var k := |a| - 1;
      ValueInjective(a[..k], b[..k]);
      assert a == a[..k] + [a[k]] && b == b[..k] + [b[k]];
    }
  }

  /** A proper prefix fixes the value up to the remaining bits. */
  lemma PrefixValue(p: string, s: string)
    requires p <= s
    ensures Value(p) * Pow2(|s| - |p|) <= Value(s) < (Value(p) + 1) * Pow2(|s| - |p|)
  {
    var rest := s[|p|..];
    assert s == p + rest;
    ValueConcat(p, rest);
    ValueBound(rest);
    Step(Value(p), Pow2(|rest|));
  }

  lemma Step(v: nat, m: nat)
    ensures (v + 1) * m == v * m + m
  {}

  function Max(a: nat, b: nat): nat
  {
    if a < b then b else a
  }

  /** Pads a bit string on the left, which does not change its value. */
  method PadLeft(s: string, length: nat) returns (r: string)
    requires IsBits(s)
    ensures IsBits(r) && |r| == Max(|s|, length) && Value(r) == Value(s)
  {
    r := s;
    while |r| < length
      invariant IsBits(r) && |s| <= |r| <= Max(|s|, length) && Value(r) == Value(s)
    {
      ValueCons('0', r);
      r := "0" + r;
    }
  }

  /** The columns from i on have been added: `result` holds their digits and `carry` the overflow. */
  ghost predicate Added(a: string, b: string, i: nat, result: string, carry: nat)
  {
    && i <= |a| == |b| && |result| == |a| - i
    && IsBits(a) && IsBits(b) && IsBits(result) && carry <= 1
    && Value(result) + Overflow(carry, |result|) == Value(a[i..]) + Value(b[i..])
  }

  function Overflow(carry: nat, k: nat): nat
  {
    if carry == 0 then 0 else Pow2(k)
  }

  lemma SuffixValue(a: string, i: nat)
    requires i < |a|
    ensures Value(a[i..]) == Weight(a[i], |a| - i - 1) + Value(a[i + 1..])
  {
    assert a[i..] == [a[i]] + a[i + 1..];
    ValueCons(a[i], a[i + 1..]);
  }

  lemma AddedStep(a: string, b: string, i: nat, result: string, carry: nat)
    requires i < |a| && Added(a, b, i + 1, result, carry)
    ensures var sum := Bit(a[i]) + Bit(b[i]) + carry;
      Added(a, b, i, [if sum % 2 == 1 then '1' else '0'] + result, sum / 2)
  {
    var sum := Bit(a[i]) + Bit(b[i]) + carry;
    ValueCons(if sum % 2 == 1 then '1' else '0', result);
    SuffixValue(a, i);
    SuffixValue(b, i);
    assert Pow2(|result| + 1) == 2 * Pow2(|result|);
  }

  lemma AddedAll(a: string, b: string, result: string, carry: nat)
    requires Added(a, b, 0, result, carry)
    ensures Value(result) + Overflow(carry, |a|) == Value(a) + Value(b)
    ensures carry == 0 <==> Value(a) + Value(b) < Pow2(|a|)
  {
    assert a[0..] == a && b[0..] == b;
    ValueBound(result);
  }

  lemma PrependCarry(result: string)
    requires IsBits(result)
    ensures IsBits(['1'] + result) && Value(['1'] + result) == Pow2(|result|) + Value(result)
  {
    ValueCons('1', result);
  }

  /** Adds two bit strings of one length, from the last column to the first. */
  method AddColumns(a: string, b: string) returns (result: string, carry: nat)
    requires IsBits(a) && IsBits(b) && |a| == |b|
    ensures Added(a, b, 0, result, carry)
  {
    result := "";
    carry := 0;
    var i := |a| - 1;
    assert a[|a|..] == "" && b[|b|..] == "";
    while i >= 0
      invariant -1 <= i < |a|
      invariant Added(a, b, i + 1, result, carry)
    {
      var bit1 := (a[i] - '0') as int;
      var bit2 := (b[i] - '0') as int;
      var sum := bit1 + bit2 + carry;
      AddedStep(a, b, i, result, carry);
      carry := sum / 2;
      result := [if sum % 2 == 1 then '1' else '0'] + result;
      i := i - 1;
    }
  }

  /** Binary addition.  The result has one digit more than the longer operand exactly when the sum
      does not fit. */
  method AddBinary(a0: string, b0: string) returns (result: string)
    requires IsBits(a0) && IsBits(b0)
    ensures IsBits(result) && Value(result) == Value(a0) + Value(b0)
    ensures var m := Max(|a0|, |b0|);
      |result| == if Value(a0) + Value(b0) < Pow2(m) then m else m + 1
  {
    var a := PadLeft(a0, |b0|);
    var b := PadLeft(b0, |a|);
    var carry;
    result, carry := AddColumns(a, b);
    AddedAll(a, b, result, carry);
    PrependCarry(result);
    if carry > 0 {
      result := ['1'] + result;
    }
  }
}
