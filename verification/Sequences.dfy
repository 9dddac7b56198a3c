/** Sequences of any kind: repetition, cutting at an element, distinct elements. */
module Sequences {

  function Repeat<T>(x: T, k: nat): (s: seq<T>)
    ensures |s| == k && forall i | 0 <= i < k :: s[i] == x
  {
    seq(k, _ => x)
  }

  /** The elements before the first `stop`, as a C string ends at its first NUL. */
  function Until<T(==)>(s: seq<T>, stop: T): (r: seq<T>)
    ensures r <= s && stop !in r
    ensures |r| < |s| ==> s[|r|] == stop
  {
    if |s| == 0 || s[0] == stop then [] else [s[0]] + Until(s[1..], stop)
  }

  lemma UntilWhole<T>(s: seq<T>, stop: T)
    ensures Until(s, stop) == s <==> stop !in s
  {
    if |Until(s, stop)| == |s| {
      assert Until(s, stop) == s;
    }
  }

  lemma {:induction false} UntilStops<T>(s: seq<T>, stop: T, rest: seq<T>)
    ensures Until(Until(s, stop) + [stop] + rest, stop) == Until(s, stop)
  {
    var r := Until(s, stop);
    if |s| == 0 || s[0] == stop {
      assert r + [stop] + rest == [stop] + rest;
    } else {
      UntilStops(s[1..], stop, rest);
      assert (r + [stop] + rest)[1..] == Until(s[1..], stop) + [stop] + rest;
    }
  }

  ghost predicate Distinct<T>(s: seq<T>)
  {
    forall i, j | 0 <= i < j < |s| :: s[i] != s[j]
  }

  function Elements<T>(s: seq<T>): set<T>
  {
    set x | x in s
  }

  lemma {:induction false} ElementsSize<T>(s: seq<T>)
    requires Distinct(s)
    ensures |Elements(s)| == |s|
  {
    if |s| > 0 {
      var k := |s| - 1;
      ElementsSize(s[..k]);
      assert s == s[..k] + [s[k]];
      assert Elements(s) == Elements(s[..k]) + {s[k]};
    }
  }
}
