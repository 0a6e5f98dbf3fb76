/** Generic sequence helpers used by the game model. */
module Seqs {

  datatype Option<T> = None | Some(value: T)

  /** The elements of `s` other than `v`, in order. */
  function Remove<T(==,!new)>(s: seq<T>, v: T): (r: seq<T>)
    ensures forall x :: x in r <==> x in s && x != v
  {
    if s == [] then []
    else if s[0] == v then Remove(s[1..], v)
    else [s[0]] + Remove(s[1..], v)
  }

  /** Removing an element that occurs makes the sequence strictly shorter. */
  lemma {:induction false} RemoveShrinks<T(!new)>(s: seq<T>, v: T)
    ensures |Remove(s, v)| <= |s|
    ensures v in s ==> |Remove(s, v)| < |s|
  {
    if s != [] {
      RemoveShrinks(s[1..], v);
      if s[0] != v && v in s {
        assert v in s[1..];
      }
    }
  }

  /** Pigeonhole: fewer than `n` integers cannot cover all of 0 .. n-1. */
  lemma {:induction false} MissingBelow(s: seq<int>, n: nat)
    requires |s| < n
    decreases n
    ensures exists k :: 0 <= k < n && k !in s
  {
    if n - 1 in s {
      var t := Remove(s, n - 1);
      RemoveShrinks(s, n - 1);
      MissingBelow(t, n - 1);
      var k :| 0 <= k < n - 1 && k !in t;
      assert k !in s;
    }
  }

  /** Pigeonhole, the other way: distinct integers, all below `n`, number at most `n`. */
  lemma {:induction false} DistinctBelow(s: seq<int>, n: nat)
    requires forall i :: 0 <= i < |s| ==> 0 <= s[i] < n
    requires forall i, j :: 0 <= i < j < |s| ==> s[i] != s[j]
    decreases |s|
    ensures |s| <= n
  {
    if s != [] {
      // Drop s[0] and let the value n - 1, if it occurs later, take its place.
      var v := s[0];
      assert 0 <= v < n;
      var t := seq(|s| - 1, i requires 0 <= i < |s| - 1 => if s[i + 1] == n - 1 then v else s[i + 1]);
      forall i | 0 <= i < |t| ensures 0 <= t[i] < n - 1 {
        assert s[i + 1] != v;
      }
      forall i, j | 0 <= i < j < |t| ensures t[i] != t[j] {
        assert s[i + 1] != s[j + 1] && s[i + 1] != v && s[j + 1] != v;
      }
      DistinctBelow(t, n - 1);
    }
  }
}
