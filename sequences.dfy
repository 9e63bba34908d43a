/** `Array.prototype.filter` and `Array.prototype.findIndex` over sequences, with the
    facts about them the services use. */
module Sequences {
  import opened Wrappers

  /** The elements of `s` that satisfy `keep`, in their order in `s`. */
  function Filter<T>(s: seq<T>, keep: T -> bool): (r: seq<T>)
    ensures |r| <= |s|
    ensures forall k :: 0 <= k < |r| ==> r[k] in s && keep(r[k])
    ensures forall k :: 0 <= k < |s| && keep(s[k]) ==> s[k] in r
  {
    if s == [] then []
    else Filter(s[..|s| - 1], keep) + (if keep(s[|s| - 1]) then [s[|s| - 1]] else [])
  }

  /** Filtering distributes over concatenation: together with the one-element case this
      pins down the result, order included. */
  lemma {:induction false} FilterAppend<T>(a: seq<T>, b: seq<T>, keep: T -> bool)
    ensures Filter(a + b, keep) == Filter(a, keep) + Filter(b, keep)
  {
    if b == [] {
      assert a + b == a;
    } else {
      assert (a + b)[..|a + b| - 1] == a + b[..|b| - 1];
      FilterAppend(a, b[..|b| - 1], keep);
    }
  }

  lemma FilterSingleton<T>(x: T, keep: T -> bool)
    ensures Filter([x], keep) == if keep(x) then [x] else []
  {
    assert [x][..0] == [];
  }

  /** Filtering keeps each kept element as often as `s` holds it, and drops the rest. */
  lemma {:induction false} FilterMultiset<T>(s: seq<T>, keep: T -> bool, x: T)
    ensures multiset(Filter(s, keep))[x] == if keep(x) then multiset(s)[x] else 0
  {
    if s != [] {
      FilterMultiset(s[..|s| - 1], keep, x);
      assert s == s[..|s| - 1] + [s[|s| - 1]];
    }
  }

  /** The filter loses nothing exactly when every element is kept, and then it is the
      identity. */
  lemma {:induction false} FilterKeepsAll<T>(s: seq<T>, keep: T -> bool)
    ensures |Filter(s, keep)| == |s| <==> forall k :: 0 <= k < |s| ==> keep(s[k])
    ensures (forall k :: 0 <= k < |s| ==> keep(s[k])) ==> Filter(s, keep) == s
  {
    if s != [] {
      var init := s[..|s| - 1];
      FilterKeepsAll(init, keep);
      assert forall k :: 0 <= k < |init| ==> init[k] == s[k];
      if !keep(s[|s| - 1]) {
        assert |Filter(s, keep)| < |s|;
      } else if forall k :: 0 <= k < |init| ==> keep(init[k]) {
        assert s == init + [s[|s| - 1]];
      }
    }
  }

  /** `findIndex`: the first index whose element satisfies `p`, or `None` for -1. */
  function FirstIndex<T>(s: seq<T>, p: T -> bool): (r: Option<nat>)
    ensures r.None? <==> forall k :: 0 <= k < |s| ==> !p(s[k])
    ensures r.Some? ==> r.value < |s| && p(s[r.value])
                        && forall k :: 0 <= k < r.value ==> !p(s[k])
  {
    if s == [] then None
    else if p(s[0]) then Some(0)
    else match FirstIndex(s[1..], p)
         case None => None
         case Some(i) => Some(i + 1)
  }

  /** `s` back to front. */
  function Reverse<T>(s: seq<T>): (r: seq<T>)
    ensures |r| == |s|
    ensures forall k :: 0 <= k < |s| ==> r[k] == s[|s| - 1 - k]
  {
    if s == [] then [] else [s[|s| - 1]] + Reverse(s[..|s| - 1])
  }

  lemma {:induction false} ReverseSplit<T>(t: seq<T>, k: nat)
    requires k <= |t|
    ensures Reverse(t) == Reverse(t[k..]) + Reverse(t[..k])
  {
    if k == |t| {
      assert t[k..] == [] && t[..k] == t;
    } else {
      var init := t[..|t| - 1];
      ReverseSplit(init, k);
      assert init[..k] == t[..k];
      assert t[k..][..|t[k..]| - 1] == init[k..];
    }
  }

  /** Reversing a list with `x` inserted at `k` puts `x` between the reversed tail and
      the reversed head. */
  lemma ReverseAround<T>(t: seq<T>, x: T, k: nat)
    requires k <= |t|
    ensures Reverse(t[..k] + [x] + t[k..]) == Reverse(t[k..]) + [x] + Reverse(t[..k])
  {
    var u := t[..k] + [x] + t[k..];
    ReverseSplit(u, k + 1);
    ReverseSplit(u[..k + 1], k);
    assert u[k + 1..] == t[k..] && u[..k + 1][k..] == [x] && u[..k + 1][..k] == t[..k];
    assert Reverse([x]) == [x];
  }

  /** A list that agrees with `t` before index `j`, holds `x` at `j` and agrees with `t`
      shifted by one after `j` is `t` with `x` inserted at `j`. */
  lemma InsertedAt<T>(b: seq<T>, t: seq<T>, x: T, j: nat)
    requires |b| == |t| + 1 && j <= |t|
    requires forall k :: 0 <= k < j ==> b[k] == t[k]
    requires b[j] == x
    requires forall k :: j < k < |b| ==> b[k] == t[k - 1]
    ensures b == t[..j] + [x] + t[j..]
  {
    var r := t[..j] + [x] + t[j..];
    forall k | 0 <= k < |b| ensures b[k] == r[k] {
      if k < j {
        assert r[k] == t[k];
      } else if k > j {
        assert r[k] == t[k - 1];
      }
    }
  }
}
