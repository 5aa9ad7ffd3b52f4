/** The two `d3.nest()` shapes js/map.js uses: `.key(f).entries(xs)`, which
    groups records by a key, and `.key(f).rollup(v => v.length).entries(xs)`,
    which counts each group. The library itself is not part of this model:
    `GroupBy` builds the groups in order of first appearance, and every
    property proved below holds whatever order the groups come in. */
module Nest {
  import opened Collections

  /** One `{key, values}` entry of `d3.nest().entries`. */
  datatype Group<K, T> = Group(key: K, values: seq<T>)

  /** One `{key, values: n}` entry of a rollup that counts its group. */
  datatype Rollup<K> = Rollup(key: K, count: nat)

  /** The predicate "the key of this record is `k`". */
  function KeyIs<T, K(==)>(key: T -> K, k: K): T -> bool {
    x => key(x) == k
  }

  function Keys<K, T>(gs: seq<Group<K, T>>): set<K> {
    if gs == [] then {} else {gs[0].key} + Keys(gs[1..])
  }

  predicate DistinctKeys<K(==), T>(gs: seq<Group<K, T>>) {
    gs == [] || (gs[0].key !in Keys(gs[1..]) && DistinctKeys(gs[1..]))
  }

  /** The values of the group with key `k`, or none. */
  function Find<K(==), T>(gs: seq<Group<K, T>>, k: K): seq<T> {
    if gs == [] then []
    else if gs[0].key == k then gs[0].values
    else Find(gs[1..], k)
  }

  /** The number of records held by all groups together. */
  function Size<K, T>(gs: seq<Group<K, T>>): nat {
    if gs == [] then 0 else |gs[0].values| + Size(gs[1..])
  }

  /** Files record `x` under key `k`: appended to that key's group, or in a
      new group at the end. */
  function AddToGroup<K(==), T>(gs: seq<Group<K, T>>, k: K, x: T): seq<Group<K, T>> {
    if gs == [] then [Group(k, [x])]
    else if gs[0].key == k then [Group(k, gs[0].values + [x])] + gs[1..]
    else [gs[0]] + AddToGroup(gs[1..], k, x)
  }

  /** `d3.nest().key(key).entries(s)`. */
  function GroupBy<T, K(==)>(s: seq<T>, key: T -> K): seq<Group<K, T>>
    decreases |s|
  {
    if s == [] then []
    else AddToGroup(GroupBy(s[..|s| - 1], key), key(s[|s| - 1]), s[|s| - 1])
  }

  /** What a correct grouping of `s` by `key` is, independently of the
      order of its groups: keys are distinct, each group holds exactly the
      records with its key in their original order, the keys are exactly
      those of the records, and no record is lost or repeated. */
  ghost predicate IsNest<T, K(!new)>(s: seq<T>, key: T -> K, gs: seq<Group<K, T>>) {
    && DistinctKeys(gs)
    && (forall k :: Find(gs, k) == Filter(s, KeyIs(key, k)))
    && (forall k :: k in Keys(gs) <==> exists i :: 0 <= i < |s| && key(s[i]) == k)
    && Size(gs) == |s|
  }

  lemma {:induction false} AddToGroupSpec<K(!new), T>(gs: seq<Group<K, T>>, k: K, x: T)
    requires DistinctKeys(gs)
    ensures DistinctKeys(AddToGroup(gs, k, x))
    ensures Keys(AddToGroup(gs, k, x)) == Keys(gs) + {k}
    ensures forall k' ::
      Find(AddToGroup(gs, k, x), k') == (if k' == k then Find(gs, k) + [x] else Find(gs, k'))
    ensures Size(AddToGroup(gs, k, x)) == Size(gs) + 1
    decreases |gs|
  {
    var r := AddToGroup(gs, k, x);
    if gs == [] {
    } else if gs[0].key == k {
      assert r[1..] == gs[1..];
    } else {
      AddToGroupSpec(gs[1..], k, x);
      assert r[1..] == AddToGroup(gs[1..], k, x);
    }
  }

  /** The grouping `GroupBy` builds is a correct one. */
  lemma {:induction false} GroupByIsNest<T, K(!new)>(s: seq<T>, key: T -> K)
    ensures IsNest(s, key, GroupBy(s, key))
    decreases |s|
  {
    if s != [] {
      var n, init, x := |s| - 1, s[..|s| - 1], s[|s| - 1];
      var gs := GroupBy(init, key);
      GroupByIsNest(init, key);
      AddToGroupSpec(gs, key(x), x);
      var r := GroupBy(s, key);
      assert r == AddToGroup(gs, key(x), x);
      forall k
        ensures Find(r, k) == Filter(s, KeyIs(key, k))
      {
        assert Filter(s, KeyIs(key, k)) ==
          Filter(init, KeyIs(key, k)) + (if key(x) == k then [x] else []);
      }
      forall k
        ensures k in Keys(r) <==> exists i :: 0 <= i < |s| && key(s[i]) == k
      {
        if k in Keys(gs) {
          var i :| 0 <= i < |init| && key(init[i]) == k;
          assert s[i] == init[i];
        }
        if exists i :: 0 <= i < |s| && key(s[i]) == k {
          var i :| 0 <= i < |s| && key(s[i]) == k;
          if i < n {
            assert s[i] == init[i];
          }
        }
      }
    }
  }

  lemma {:induction false} DistinctKeysAt<K, T>(gs: seq<Group<K, T>>)
    requires DistinctKeys(gs)
    ensures forall i, j :: 0 <= i < j < |gs| ==> gs[i].key != gs[j].key
    ensures forall i :: 0 <= i < |gs| ==> Find(gs, gs[i].key) == gs[i].values
    decreases |gs|
  {
    if gs != [] {
      DistinctKeysAt(gs[1..]);
      KeysAt(gs[1..]);
      forall i, j | 0 <= i < j < |gs|
        ensures gs[i].key != gs[j].key
      {
        if i > 0 {
          assert gs[i] == gs[1..][i - 1] && gs[j] == gs[1..][j - 1];
        } else {
          assert gs[j] == gs[1..][j - 1];
        }
      }
      forall i | 0 < i < |gs|
        ensures Find(gs, gs[i].key) == gs[i].values
      {
        assert gs[i] == gs[1..][i - 1];
      }
    }
  }

  lemma {:induction false} KeysAt<K, T>(gs: seq<Group<K, T>>)
    ensures forall k :: k in Keys(gs) ==> exists i :: 0 <= i < |gs| && gs[i].key == k
    ensures forall i :: 0 <= i < |gs| ==> gs[i].key in Keys(gs)
    decreases |gs|
  {
    if gs != [] {
      var rest := gs[1..];
      KeysAt(rest);
      forall k | k in Keys(gs)
        ensures exists i :: 0 <= i < |gs| && gs[i].key == k
      {
        if k != gs[0].key {
          assert k in Keys(rest);
          assert exists i :: 0 <= i < |rest| && rest[i].key == k;
          var i :| 0 <= i < |rest| && rest[i].key == k;
          assert gs[i + 1].key == k;
        }
      }
      forall i | 0 <= i < |gs|
        ensures gs[i].key in Keys(gs)
      {
        if i > 0 {
          assert gs[i] == gs[1..][i - 1];
        }
      }
    }
  }

  /** Any correct grouping, read entry by entry: distinct keys, each
      group non-empty and equal to the records with its key in their
      original order, and every record's key present. */
  lemma NestAt<T, K(!new)>(s: seq<T>, key: T -> K, gs: seq<Group<K, T>>)
    requires IsNest(s, key, gs)
    ensures forall i, j :: 0 <= i < j < |gs| ==> gs[i].key != gs[j].key
    ensures forall i :: 0 <= i < |gs| ==>
      gs[i].values == Filter(s, KeyIs(key, gs[i].key)) && |gs[i].values| > 0
    ensures forall i :: 0 <= i < |s| ==> exists j :: 0 <= j < |gs| && gs[j].key == key(s[i])
  {
    DistinctKeysAt(gs);
    KeysAt(gs);
    forall i | 0 <= i < |gs|
      ensures |gs[i].values| > 0
    {
      var k := gs[i].key;
      assert k in Keys(gs);
      var m :| 0 <= m < |s| && key(s[m]) == k;
      assert s[m] in Filter(s, KeyIs(key, k));
    }
    forall i | 0 <= i < |s|
      ensures exists j :: 0 <= j < |gs| && gs[j].key == key(s[i])
    {
      assert key(s[i]) in Keys(gs);
    }
  }

  /** The rollup entries of a grouping: each group's key and size. */
  function Rollups<K, T>(gs: seq<Group<K, T>>): (r: seq<Rollup<K>>)
    ensures |r| == |gs|
    ensures forall i :: 0 <= i < |gs| ==> r[i] == Rollup(gs[i].key, |gs[i].values|)
  {
    if gs == [] then [] else [Rollup(gs[0].key, |gs[0].values|)] + Rollups(gs[1..])
  }

  /** `d3.nest().key(key).rollup(v => v.length).entries(s)`. */
  function CountBy<T, K(==)>(s: seq<T>, key: T -> K): seq<Rollup<K>> {
    Rollups(GroupBy(s, key))
  }

  /** The sum of the counts of rollup entries. */
  function Total<K>(rs: seq<Rollup<K>>): nat {
    if rs == [] then 0 else rs[0].count + Total(rs[1..])
  }

  lemma {:induction false} TotalRollups<K, T>(gs: seq<Group<K, T>>)
    ensures Total(Rollups(gs)) == Size(gs)
    decreases |gs|
  {
    if gs != [] {
      TotalRollups(gs[1..]);
      assert Rollups(gs)[1..] == Rollups(gs[1..]);
    }
  }

  /** A count-by rollup has one entry per distinct key of the records;
      each entry counts exactly the records with its key, and the counts
      sum to the number of records. */
  lemma CountByCorrect<T, K(!new)>(s: seq<T>, key: T -> K)
    ensures forall i, j :: 0 <= i < j < |CountBy(s, key)| ==>
      CountBy(s, key)[i].key != CountBy(s, key)[j].key
    ensures forall i :: 0 <= i < |CountBy(s, key)| ==>
      CountBy(s, key)[i].count == |Filter(s, KeyIs(key, CountBy(s, key)[i].key))| > 0
    ensures forall i :: 0 <= i < |s| ==>
      exists j :: 0 <= j < |CountBy(s, key)| && CountBy(s, key)[j].key == key(s[i])
    ensures Total(CountBy(s, key)) == |s|
  {
    var gs := GroupBy(s, key);
    GroupByIsNest(s, key);
    NestAt(s, key, gs);
    TotalRollups(gs);
    var r := CountBy(s, key);
    forall i | 0 <= i < |s|
      ensures exists j :: 0 <= j < |r| && r[j].key == key(s[i])
    {
      var j :| 0 <= j < |gs| && gs[j].key == key(s[i]);
      assert r[j].key == gs[j].key;
    }
  }
}
