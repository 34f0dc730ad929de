/** Keyed lookup tables as the dashboard builds them with plain objects:
    `table[key] = record` (last write wins), `(table[key] ||= []).push(record)`
    (grouping in input order) and `if (!table[key]) table[key] = value`
    (first write wins). Each is specified here by a function over the input
    sequence, read left to right. */
module Grouping {
  import opened Wrappers
  import opened Seqs

  /** The elements of s whose key is k, in input order. */
  function KeyFilter<T(!new), K(==)>(s: seq<T>, key: T -> K, k: K): (r: seq<T>)
    ensures |r| <= |s|
    ensures forall x :: x in r <==> x in s && key(x) == k
    decreases |s|
  {
    if |s| == 0 then []
    else
      var init := KeyFilter(s[..|s| - 1], key, k);
      assert s == s[..|s| - 1] + [s[|s| - 1]];
      if key(s[|s| - 1]) == k then init + [s[|s| - 1]] else init
  }

  lemma KeyFilterSnoc<T(!new), K>(s: seq<T>, x: T, key: T -> K, k: K)
    ensures KeyFilter(s + [x], key, k) == if key(x) == k then KeyFilter(s, key, k) + [x] else KeyFilter(s, key, k)
  {
    assert (s + [x])[..|s + [x]| - 1] == s;
  }

  /** An element keeps its multiplicity in the filter of its own key, and has
      none in the filter of any other key. */
  lemma {:induction false} KeyFilterMultiplicity<T(!new), K>(s: seq<T>, key: T -> K, k: K, x: T)
    ensures multiset(KeyFilter(s, key, k))[x] == if key(x) == k then multiset(s)[x] else 0
    decreases |s|
  {
    if |s| > 0 {
      assert s == s[..|s| - 1] + [s[|s| - 1]];
      KeyFilterMultiplicity(s[..|s| - 1], key, k, x);
    }
  }

  /** `g[k] || []`: the list stored under k, or the empty list. */
  function Lookup<K, V>(g: map<K, seq<V>>, k: K): seq<V> {
    if k in g then g[k] else []
  }

  /** The grouping a `forEach` with `(g[key(x)] ||= []).push(x)` leaves behind. */
  function GroupBy<T, K>(s: seq<T>, key: T -> K): map<K, seq<T>>
    decreases |s|
  {
    if |s| == 0 then map[]
    else
      var g := GroupBy(s[..|s| - 1], key);
      var k := key(s[|s| - 1]);
      g[k := Lookup(g, k) + [s[|s| - 1]]]
  }

  /** Every list of the grouping holds exactly the elements with its key, in input
      order, and a key is present exactly when some element has it. */
  lemma {:induction false} GroupByIsKeyFilter<T(!new), K>(s: seq<T>, key: T -> K, k: K)
    ensures Lookup(GroupBy(s, key), k) == KeyFilter(s, key, k)
    ensures k in GroupBy(s, key) <==> |KeyFilter(s, key, k)| > 0
    decreases |s|
  {
    if |s| > 0 {
      var init := s[..|s| - 1];
      assert s == init + [s[|s| - 1]];
      GroupByIsKeyFilter(init, key, k);
      KeyFilterSnoc(init, s[|s| - 1], key, k);
    }
  }

  /** The table a `forEach` with `t[key(x)] = x` leaves behind. */
  function IndexBy<T, K>(s: seq<T>, key: T -> K): map<K, T>
    decreases |s|
  {
    if |s| == 0 then map[] else IndexBy(s[..|s| - 1], key)[key(s[|s| - 1]) := s[|s| - 1]]
  }

  /** A key is present exactly when some element has it. */
  lemma {:induction false} IndexByDomain<T, K>(s: seq<T>, key: T -> K, k: K)
    ensures k in IndexBy(s, key) <==> exists i :: 0 <= i < |s| && key(s[i]) == k
    decreases |s|
  {
    if |s| > 0 {
      var init := s[..|s| - 1];
      var n := |s| - 1;
      IndexByDomain(init, key, k);
      if k in IndexBy(init, key) {
        var i :| 0 <= i < |init| && key(init[i]) == k;
        assert s[i] == init[i];
      }
      if exists i :: 0 <= i < |s| && key(s[i]) == k {
        var i :| 0 <= i < |s| && key(s[i]) == k;
        if i < n { assert init[i] == s[i]; }
      }
    }
  }

  /** Last write wins: a key that is present maps to the LAST element with
      that key. */
  lemma {:induction false} IndexByLastWins<T, K>(s: seq<T>, key: T -> K, k: K)
    ensures k in IndexBy(s, key) <==> exists i :: 0 <= i < |s| && key(s[i]) == k
    ensures k in IndexBy(s, key) ==>
      exists j :: 0 <= j < |s| && IndexBy(s, key)[k] == s[j] && key(s[j]) == k &&
        forall i :: j < i < |s| ==> key(s[i]) != k
    decreases |s|
  {
    IndexByDomain(s, key, k);
    if |s| > 0 {
      var init := s[..|s| - 1];
      var n := |s| - 1;
      if key(s[n]) == k {
        assert IndexBy(s, key)[k] == s[n];
      } else if k in IndexBy(init, key) {
        IndexByLastWins(init, key, k);
        var j :| 0 <= j < |init| && IndexBy(init, key)[k] == init[j] && key(init[j]) == k &&
          forall i :: j < i < |init| ==> key(init[i]) != k;
        assert IndexBy(s, key)[k] == s[j] && key(s[j]) == k;
        assert forall i :: j < i < |s| ==> key(s[i]) != k by {
          forall i | j < i < |s| ensures key(s[i]) != k {
            if i < n { assert init[i] == s[i]; }
          }
        }
      }
    }
  }

  /** The value a `forEach` with `if (!t[key(x)]) t[key(x)] = x` keeps for k. */
  function FirstByKey<T, K(==)>(s: seq<T>, key: T -> K, k: K): Option<T>
    decreases |s|
  {
    if |s| == 0 then None
    else
      var f := FirstByKey(s[..|s| - 1], key, k);
      if f.Some? then f else if key(s[|s| - 1]) == k then Some(s[|s| - 1]) else None
  }

  /** First write wins: nothing is kept when no element has key k, and otherwise
      the FIRST element with that key is kept. */
  lemma {:induction false} FirstByKeyIsFirst<T, K>(s: seq<T>, key: T -> K, k: K)
    ensures FirstByKey(s, key, k).None? <==> forall i :: 0 <= i < |s| ==> key(s[i]) != k
    ensures FirstByKey(s, key, k).Some? ==>
      exists j :: 0 <= j < |s| && FirstByKey(s, key, k).value == s[j] && key(s[j]) == k &&
        forall i :: 0 <= i < j ==> key(s[i]) != k
    decreases |s|
  {
    if |s| > 0 {
      var init := s[..|s| - 1];
      var n := |s| - 1;
      FirstByKeyIsFirst(init, key, k);
      assert forall i :: 0 <= i < n ==> init[i] == s[i];
      if FirstByKey(init, key, k).Some? {
        var j :| 0 <= j < |init| && FirstByKey(init, key, k).value == init[j] && key(init[j]) == k &&
          forall i :: 0 <= i < j ==> key(init[i]) != k;
        assert FirstByKey(s, key, k).value == s[j];
      }
    }
  }

  lemma FirstByKeySnoc<T, K>(s: seq<T>, x: T, key: T -> K, k: K)
    ensures FirstByKey(s + [x], key, k) ==
      if FirstByKey(s, key, k).Some? then FirstByKey(s, key, k)
      else if key(x) == k then Some(x) else None
  {
    assert (s + [x])[..|s + [x]| - 1] == s;
  }

  /** The sizes of the groups of s under the keys ks, added up. */
  function SumGroupSizes<T(!new), K(==)>(s: seq<T>, key: T -> K, ks: seq<K>): nat
    decreases |ks|
  {
    if |ks| == 0 then 0
    else SumGroupSizes(s, key, ks[..|ks| - 1]) + |KeyFilter(s, key, ks[|ks| - 1])|
  }

  lemma {:induction false} SumGroupSizesSnoc<T(!new), K>(s: seq<T>, x: T, key: T -> K, ks: seq<K>)
    ensures SumGroupSizes(s + [x], key, ks) == SumGroupSizes(s, key, ks) + multiset(ks)[key(x)]
    decreases |ks|
  {
    if |ks| > 0 {
      var ks' := ks[..|ks| - 1];
      assert ks == ks' + [ks[|ks| - 1]];
      SumGroupSizesSnoc(s, x, key, ks');
      KeyFilterSnoc(s, x, key, ks[|ks| - 1]);
    }
  }

  lemma {:induction false} SumGroupSizesEmpty<T(!new), K>(key: T -> K, ks: seq<K>)
    ensures SumGroupSizes([], key, ks) == 0
    decreases |ks|
  {
    if |ks| > 0 {
      SumGroupSizesEmpty(key, ks[..|ks| - 1]);
    }
  }

  /** Grouping partitions: when ks lists every key that occurs, each once, the
      groups together hold every element exactly once. */
  lemma {:induction false} GroupsPartition<T(!new), K>(s: seq<T>, key: T -> K, ks: seq<K>)
    requires Distinct(ks)
    requires forall i :: 0 <= i < |s| ==> key(s[i]) in ks
    ensures SumGroupSizes(s, key, ks) == |s|
    decreases |s|
  {
    if |s| == 0 {
      SumGroupSizesEmpty(key, ks);
    } else {
      var init := s[..|s| - 1];
      var x := s[|s| - 1];
      assert s == init + [x];
      GroupsPartition(init, key, ks);
      SumGroupSizesSnoc(init, x, key, ks);
      DistinctMultiplicity(ks, key(x));
      assert key(x) in multiset(ks);
    }
  }

  /** The table a `forEach` with `t[key(x)] = (t[key(x)] || 0) + 1` leaves behind. */
  function CountBy<T, K>(s: seq<T>, key: T -> K): map<K, nat>
    decreases |s|
  {
    if |s| == 0 then map[]
    else
      var t := CountBy(s[..|s| - 1], key);
      var k := key(s[|s| - 1]);
      t[k := (if k in t then t[k] else 0) + 1]
  }

  /** A key is counted exactly when some element has it, and its count is the
      number of elements that have it. */
  lemma {:induction false} CountByIsKeyFilter<T(!new), K>(s: seq<T>, key: T -> K, k: K)
    ensures k in CountBy(s, key) <==> |KeyFilter(s, key, k)| > 0
    ensures k in CountBy(s, key) ==> CountBy(s, key)[k] == |KeyFilter(s, key, k)|
    decreases |s|
  {
    if |s| > 0 {
      var init := s[..|s| - 1];
      assert s == init + [s[|s| - 1]];
      CountByIsKeyFilter(init, key, k);
      KeyFilterSnoc(init, s[|s| - 1], key, k);
    }
  }

  /** The table t becomes after a `forEach` over s with
      `if (!t[key(x)]) t[key(x)] = val(x)`, for values that are never falsy. */
  function KeepFirst<T, K, V>(t: map<K, V>, s: seq<T>, key: T -> K, val: T -> V): map<K, V>
    decreases |s|
  {
    if |s| == 0 then t
    else
      var t' := KeepFirst(t, s[..|s| - 1], key, val);
      var k := key(s[|s| - 1]);
      if k in t' then t' else t'[k := val(s[|s| - 1])]
  }

  /** An entry already in t stays; otherwise the value kept for k is that of
      the first element with key k, and k is absent when no element has it. */
  lemma {:induction false} KeepFirstIsFirstByKey<T, K, V>(t: map<K, V>, s: seq<T>, key: T -> K, val: T -> V, k: K)
    ensures k in KeepFirst(t, s, key, val) <==> k in t || FirstByKey(s, key, k).Some?
    ensures k in t ==> KeepFirst(t, s, key, val)[k] == t[k]
    ensures k !in t && FirstByKey(s, key, k).Some? ==>
      KeepFirst(t, s, key, val)[k] == val(FirstByKey(s, key, k).value)
    decreases |s|
  {
    if |s| > 0 {
      var init := s[..|s| - 1];
      assert s == init + [s[|s| - 1]];
      KeepFirstIsFirstByKey(t, init, key, val, k);
      FirstByKeySnoc(init, s[|s| - 1], key, k);
    }
  }

  /** The lengths of the lists stored under the keys ks, added up. */
  function SumLookups<K, V>(g: map<K, seq<V>>, ks: seq<K>): nat
    decreases |ks|
  {
    if |ks| == 0 then 0 else SumLookups(g, ks[..|ks| - 1]) + |Lookup(g, ks[|ks| - 1])|
  }

  /** Each element of s is listed under its own key and under no other. */
  lemma GroupByPlacement<T(!new), K>(s: seq<T>, key: T -> K, x: T, k: K)
    requires x in s
    ensures x in Lookup(GroupBy(s, key), k) <==> k == key(x)
  {
    GroupByIsKeyFilter(s, key, k);
  }

  /** The grouping loses and duplicates nothing: over a list of keys that
      holds every key once, its lists add up to the whole input. */
  lemma GroupByPartition<T(!new), K>(s: seq<T>, key: T -> K, ks: seq<K>)
    requires Distinct(ks)
    requires forall i :: 0 <= i < |s| ==> key(s[i]) in ks
    ensures SumLookups(GroupBy(s, key), ks) == |s|
  {
    LookupsAreGroupSizes(s, key, ks);
    GroupsPartition(s, key, ks);
  }

  lemma {:induction false} LookupsAreGroupSizes<T(!new), K>(s: seq<T>, key: T -> K, ks: seq<K>)
    ensures SumLookups(GroupBy(s, key), ks) == SumGroupSizes(s, key, ks)
    decreases |ks|
  {
    if |ks| > 0 {
      LookupsAreGroupSizes(s, key, ks[..|ks| - 1]);
      GroupByIsKeyFilter(s, key, ks[|ks| - 1]);
    }
  }
}
