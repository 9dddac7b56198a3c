/** Kraft's inequality: the lengths of a prefix-free code have Kraft sum at most 1. */
module KraftInequality {
  import opened LengthAssignments
  import opened BinaryStrings
  import opened CanonicalCodes

  function Widths(codes: seq<string>): (l: seq<nat>)
    ensures |l| == |codes| && forall i | 0 <= i < |l| :: l[i] == |codes[i]|
  {
    seq(|codes|, i requires 0 <= i < |codes| => |codes[i]|)
  }

  /** What follows a first bit c, code by code. */
  function Behind(codes: seq<string>, c: char): seq<string>
  {
    if |codes| == 0 then []
    else (if codes[0] != "" && codes[0][0] == c then [codes[0][1..]] else []) + Behind(codes[1..], c)
  }

  lemma {:induction false} BehindMember(codes: seq<string>, c: char, s: string)
    requires s in Behind(codes, c)
    ensures [c] + s in codes
  {
    if s in Behind(codes[1..], c) {
      BehindMember(codes[1..], c, s);
    } else {
      assert codes[0] == [c] + codes[0][1..];
    }
  }

  lemma PrefixFreeTail(codes: seq<string>)
    requires PrefixFree(codes) && |codes| > 0
    ensures PrefixFree(codes[1..])
    ensures forall s | s in codes[1..] :: !(codes[0] <= s) && !(s <= codes[0])
  {
    forall s | s in codes[1..]
      ensures !(codes[0] <= s) && !(s <= codes[0])
    {
      var i :| 0 <= i < |codes[1..]| && codes[1..][i] == s;
      assert codes[i + 1] == s;
    }
  }

  lemma PrefixFreeCons(x: string, codes: seq<string>)
    requires PrefixFree(codes) && forall s | s in codes :: !(x <= s) && !(s <= x)
    ensures PrefixFree([x] + codes)
  {
    var all := [x] + codes;
    forall i, j | 0 <= i < |all| && 0 <= j < |all| && i != j
      ensures !(all[i] <= all[j])
    {
      assert i > 0 ==> all[i] == codes[i - 1] && codes[i - 1] in codes;
      assert j > 0 ==> all[j] == codes[j - 1] && codes[j - 1] in codes;
    }
  }

  lemma {:induction false} BehindPrefixFree(codes: seq<string>, c: char)
    requires PrefixFree(codes)
    ensures PrefixFree(Behind(codes, c))
  {
    if |codes| > 0 {
      var x, rest := codes[0], codes[1..];
      PrefixFreeTail(codes);
      BehindPrefixFree(rest, c);
      if x != "" && x[0] == c {
        assert x == [c] + x[1..];
        forall s | s in Behind(rest, c)
          ensures !(x[1..] <= s) && !(s <= x[1..])
        {
          BehindMember(rest, c, s);
          assert x[1..] <= s ==> x <= [c] + s;
          assert s <= x[1..] ==> [c] + s <= x;
        }
        PrefixFreeCons(x[1..], Behind(rest, c));
      } else {
        assert Behind(codes, c) == Behind(rest, c);
      }
    }
  }

  lemma KraftCons(x: string, codes: seq<string>)
    ensures KraftSum(Widths([x] + codes)) == Unit(|x|) + KraftSum(Widths(codes))
  {
    assert Widths([x] + codes)[1..] == Widths(codes);
  }

  /** Nonempty codes weigh half as much as their remainders behind a 0 and behind a 1. */
  lemma {:induction false} KraftHalves(codes: seq<string>)
    requires forall s | s in codes :: IsBits(s) && s != ""
    ensures 2.0 * KraftSum(Widths(codes)) == KraftSum(Widths(Behind(codes, '0'))) + KraftSum(Widths(Behind(codes, '1')))
  {
    if |codes| > 0 {
      var x, rest := codes[0], codes[1..];
      assert x in codes && codes == [x] + rest;
      KraftHalves(rest);
      KraftCons(x, rest);
      KraftCons(x[1..], Behind(rest, x[0]));
      assert x[0] == '0' || x[0] == '1';
      var other := if x[0] == '0' then '1' else '0';
      assert Behind(codes, x[0]) == [x[1..]] + Behind(rest, x[0]);
      assert Behind(codes, other) == Behind(rest, other);
      assert Unit(|x|) == Unit(|x[1..]|) / 2.0;
    }
  }

  function MaxWidth(codes: seq<string>): (m: nat)
    ensures forall s | s in codes :: |s| <= m
  {
    if |codes| == 0 then 0
    else
      assert forall s | s in codes :: s == codes[0] || s in codes[1..];
      var m := MaxWidth(codes[1..]);
      if m < |codes[0]| then |codes[0]| else m
  }

  lemma EmptyAlone(codes: seq<string>, i: nat)
    requires PrefixFree(codes) && i < |codes| && codes[i] == ""
    ensures |codes| == 1
  {
    assert forall j | 0 <= j < |codes| :: codes[i] <= codes[j];
    assert codes[i] <= codes[0] && codes[i] <= codes[|codes| - 1];
  }

  /** The codes are at most m bits long. */
  lemma {:induction false} PrefixFreeWithin(codes: seq<string>, m: nat)
    requires PrefixFree(codes) && forall s | s in codes :: IsBits(s) && |s| <= m
    ensures KraftSum(Widths(codes)) <= 1.0
    decreases m
  {
    if i :| 0 <= i < |codes| && codes[i] == "" {
      EmptyAlone(codes, i);
      assert Widths(codes) == [0];
    } else if |codes| > 0 {
      assert codes[0] in codes;
      forall s, c | s in Behind(codes, c)
        ensures IsBits(s) && |s| <= m - 1
      {
        BehindMember(codes, c, s);
        assert s == ([c] + s)[1..];
      }
      BehindPrefixFree(codes, '0');
      BehindPrefixFree(codes, '1');
      PrefixFreeWithin(Behind(codes, '0'), m - 1);
      PrefixFreeWithin(Behind(codes, '1'), m - 1);
      KraftHalves(codes);
    }
  }

  /** Kraft's inequality. */
  lemma PrefixFreeKraft(codes: seq<string>)
    requires PrefixFree(codes) && forall s | s in codes :: IsBits(s)
    ensures KraftSum(Widths(codes)) <= 1.0
  {
    PrefixFreeWithin(codes, MaxWidth(codes));
  }
}
