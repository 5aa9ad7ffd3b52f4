/** Order-preserving selection, the operation behind the
    `Array.prototype.filter` of js/map.js and its selecting `$.each`/`push`
    loops (js/map.js:117-122, 174-179, 466-470, 554-558). */
module Collections {

  datatype Option<T> = None | Some(value: T)

  /** The elements of `s` that satisfy `p`, in their original order. */
  function Filter<T>(s: seq<T>, p: T -> bool): (r: seq<T>)
    ensures |r| <= |s|
    ensures forall k :: 0 <= k < |r| ==> r[k] in s && p(r[k])
    ensures forall i :: 0 <= i < |s| && p(s[i]) ==> s[i] in r
    decreases |s|
  {
    if s == [] then []
    else
      assert s == s[..|s| - 1] + [s[|s| - 1]];
      Filter(s[..|s| - 1], p) + (if p(s[|s| - 1]) then [s[|s| - 1]] else [])
  }

  /** The positions of `s` whose element satisfies `p`, ascending. */
  function Kept<T>(s: seq<T>, p: T -> bool): (idx: seq<nat>)
    ensures |idx| == |Filter(s, p)|
    ensures forall k :: 0 <= k < |idx| ==> idx[k] < |s|
    decreases |s|
  {
    if s == [] then []
    else Kept(s[..|s| - 1], p) + (if p(s[|s| - 1]) then [|s| - 1] else [])
  }

  /** The result of `Filter` is the subsequence of `s` taken at exactly
      the ascending positions whose element satisfies `p`. */
  lemma {:induction false} FilterIsSubsequence<T>(s: seq<T>, p: T -> bool)
    ensures forall k :: 0 <= k < |Kept(s, p)| ==> Filter(s, p)[k] == s[Kept(s, p)[k]]
    ensures forall k, m :: 0 <= k < m < |Kept(s, p)| ==> Kept(s, p)[k] < Kept(s, p)[m]
    ensures forall i :: 0 <= i < |s| ==> (p(s[i]) <==> i in Kept(s, p))
    decreases |s|
  {
    if s != [] {
      var n, init := |s| - 1, s[..|s| - 1];
      FilterIsSubsequence(init, p);
      var idx, before := Kept(s, p), Kept(init, p);
      var r, fi := Filter(s, p), Filter(init, p);
      assert idx == before + (if p(s[n]) then [n] else []);
      assert r == fi + (if p(s[n]) then [s[n]] else []);
      forall k | 0 <= k < |idx|
        ensures r[k] == s[idx[k]]
      {
        if k < |before| {
          assert r[k] == fi[k] && idx[k] == before[k];
        }
      }
      forall i | 0 <= i < |s|
        ensures p(s[i]) <==> i in idx
      {
        if i < n {
          assert s[i] == init[i];
          assert i in idx <==> i in before;
        }
      }
    }
  }

  /** The first kept position is the first position whose element
      satisfies `p`. */
  lemma {:induction false} KeptFirst<T>(s: seq<T>, p: T -> bool, i: nat)
    requires i < |s| && p(s[i])
    ensures |Kept(s, p)| > 0 && Kept(s, p)[0] <= i
    decreases |s|
  {
    var n := |s| - 1;
    if i < n {
      assert s[..n][i] == s[i];
      KeptFirst(s[..n], p, i);
    }
  }

  /** Filtering a prefix one element longer adds at most that element. */
  lemma FilterExtend<T>(s: seq<T>, i: nat, p: T -> bool)
    requires i < |s|
    ensures Filter(s[..i + 1], p) == Filter(s[..i], p) + (if p(s[i]) then [s[i]] else [])
  {
    assert s[..i + 1][..i] == s[..i];
  }

  /** Selection keeps exactly the occurrences of the elements satisfying
      `p`, and drops every occurrence of the others. */
  lemma {:induction false} FilterMultiset<T>(s: seq<T>, p: T -> bool, x: T)
    ensures multiset(Filter(s, p))[x] == if p(x) then multiset(s)[x] else 0
    decreases |s|
  {
    if s != [] {
      var init, last := s[..|s| - 1], s[|s| - 1];
      assert s == init + [last];
      FilterMultiset(init, p, x);
    }
  }

  /** A sequence whose every element satisfies `p` is left as it is. */
  lemma {:induction false} FilterKeepsAll<T>(s: seq<T>, p: T -> bool)
    requires forall k :: 0 <= k < |s| ==> p(s[k])
    ensures Filter(s, p) == s
    decreases |s|
  {
    if s != [] {
      var init := s[..|s| - 1];
      assert s == init + [s[|s| - 1]];
      FilterKeepsAll(init, p);
    }
  }

  /** Filtering twice with the same predicate changes nothing. */
  lemma FilterIdempotent<T>(s: seq<T>, p: T -> bool)
    ensures Filter(Filter(s, p), p) == Filter(s, p)
  {
    FilterKeepsAll(Filter(s, p), p);
  }
}
