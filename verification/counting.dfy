/** Weighted counting over the processors of a system. */
module Counting {
  function Sum<T>(s: seq<T>, weight: T -> nat): nat {
    if s == [] then 0 else weight(s[0]) + Sum(s[1..], weight)
  }

  lemma {:induction false} SumUpdate<T>(s: seq<T>, weight: T -> nat, i: nat, t: T)
    requires i < |s|
    ensures Sum(s[i := t], weight) == Sum(s, weight) - weight(s[i]) + weight(t)
  {
    if i == 0 {
      assert s[0 := t][1..] == s[1..];
    } else {
      assert s[i := t][1..] == s[1..][i - 1 := t];
      SumUpdate(s[1..], weight, i - 1, t);
    }
  }

  lemma {:induction false} SumMember<T>(s: seq<T>, weight: T -> nat, i: nat)
    requires i < |s|
    ensures weight(s[i]) <= Sum(s, weight)
  {
    if i > 0 {
      SumMember(s[1..], weight, i - 1);
    }
  }

  lemma {:induction false} SumPair<T>(s: seq<T>, weight: T -> nat, i: nat, j: nat)
    requires i < j < |s|
    ensures weight(s[i]) + weight(s[j]) <= Sum(s, weight)
  {
    if i == 0 {
      SumMember(s[1..], weight, j - 1);
    } else {
      SumPair(s[1..], weight, i - 1, j - 1);
    }
  }

  /** A sum is positive exactly when some member weighs something. */
  lemma {:induction false} SumPositive<T>(s: seq<T>, weight: T -> nat)
    ensures Sum(s, weight) > 0 <==> exists i :: 0 <= i < |s| && weight(s[i]) > 0
  {
    if s != [] {
      SumPositive(s[1..], weight);
      if Sum(s[1..], weight) > 0 {
        var i :| 0 <= i < |s[1..]| && weight(s[1..][i]) > 0;
        assert weight(s[i + 1]) > 0;
      }
      if i :| 0 <= i < |s| && weight(s[i]) > 0 {
        if i > 0 {
          assert weight(s[1..][i - 1]) > 0;
        }
      }
    }
  }

  /** Members that weigh at most `most` in either of two ways weigh at most `most` times their number. */
  lemma {:induction false} SumsBounded<T(!new)>(s: seq<T>, f: T -> nat, g: T -> nat, most: nat)
    requires forall t :: f(t) + g(t) <= most
    ensures Sum(s, f) + Sum(s, g) <= most * |s|
  {
    if s != [] {
      SumsBounded(s[1..], f, g, most);
      assert most * |s| == most * |s[1..]| + most;
    }
  }
}
