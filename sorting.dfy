/** Sorting as the dashboard uses `Array.prototype.sort`: a stable insertion
    sort under a "sorts no later than" relation, plus the default order of
    `.sort()` without a comparator (lexicographic by character). */
module Sorting {
  import opened Seqs

  /** le is total and transitive, the least a comparator must be for a sort to
      have a well-defined result. */
  ghost predicate TotalPreorder<T(!new)>(le: (T, T) -> bool) {
    && (forall a, b :: le(a, b) || le(b, a))
    && (forall a, b, c :: le(a, b) && le(b, c) ==> le(a, c))
  }

  predicate SortedBy<T>(s: seq<T>, le: (T, T) -> bool) {
    forall i, j :: 0 <= i < j < |s| ==> le(s[i], s[j])
  }

  /** Inserts x after every element that sorts no later than it. */
  function Insert<T(!new)>(s: seq<T>, x: T, le: (T, T) -> bool): (r: seq<T>)
    requires TotalPreorder(le) && SortedBy(s, le)
    ensures SortedBy(r, le)
    ensures multiset(r) == multiset(s) + multiset{x}
    decreases |s|
  {
    if |s| == 0 then [x]
    else
      var init, last := s[..|s| - 1], s[|s| - 1];
      assert s == init + [last];
      if le(last, x) then s + [x]
      else
        var r' := Insert(init, x, le);
        AllNoLaterThan(r', init, x, last, le);
        r' + [last]
  }

  /** The elements of a rearrangement of init plus x all sort no later than
      last, when those of init and x do. */
  lemma AllNoLaterThan<T>(r: seq<T>, init: seq<T>, x: T, last: T, le: (T, T) -> bool)
    requires multiset(r) == multiset(init) + multiset{x}
    requires forall i :: 0 <= i < |init| ==> le(init[i], last)
    requires le(x, last)
    ensures forall i :: 0 <= i < |r| ==> le(r[i], last)
  {
    forall i | 0 <= i < |r| ensures le(r[i], last) {
      assert r[i] in multiset(r);
      if r[i] != x {
        assert r[i] in multiset(init);
        assert r[i] in init;
      }
    }
  }

  /** The elements le ranks equal to z (those the comparator returns 0 for). */
  function Tied<T>(le: (T, T) -> bool, z: T): T -> bool {
    (y: T) => le(y, z) && le(z, y)
  }

  /** r keeps the order s has among elements ranked equal: for every z, the
      elements tied with z come in r in the order they come in s. */
  ghost predicate Stable<T(!new)>(r: seq<T>, s: seq<T>, le: (T, T) -> bool) {
    forall z :: Filter(r, Tied(le, z)) == Filter(s, Tied(le, z))
  }

  /** Insertion puts x after every element tied with it: on each class of
      tied elements it acts as appending x. */
  lemma {:induction false} InsertTies<T(!new)>(s: seq<T>, x: T, le: (T, T) -> bool, z: T)
    requires TotalPreorder(le) && SortedBy(s, le)
    ensures Filter(Insert(s, x, le), Tied(le, z)) == Filter(s + [x], Tied(le, z))
    decreases |s|
  {
    if |s| > 0 {
      var init, last := s[..|s| - 1], s[|s| - 1];
      assert s == init + [last];
      if !le(last, x) {
        var r' := Insert(init, x, le);
        InsertTies(init, x, le, z);
        FilterSnoc(r', last, Tied(le, z));
        FilterSnoc(init, x, Tied(le, z));
        FilterSnoc(init, last, Tied(le, z));
        FilterSnoc(s, x, Tied(le, z));
        assert !(Tied(le, z)(x) && Tied(le, z)(last));
      }
    }
  }

  lemma InsertKeepsTies<T(!new)>(r: seq<T>, s: seq<T>, x: T, le: (T, T) -> bool)
    requires TotalPreorder(le) && SortedBy(r, le) && Stable(r, s, le)
    ensures Stable(Insert(r, x, le), s + [x], le)
  {
    forall z ensures Filter(Insert(r, x, le), Tied(le, z)) == Filter(s + [x], Tied(le, z)) {
      InsertTies(r, x, le, z);
      FilterSnoc(r, x, Tied(le, z));
      FilterSnoc(s, x, Tied(le, z));
    }
  }

  /** `[...s].sort(cmp)`: a sorted rearrangement of s that keeps the input
      order among elements the comparator ranks equal (the sort is stable). */
  function Sort<T(!new)>(s: seq<T>, le: (T, T) -> bool): (r: seq<T>)
    requires TotalPreorder(le)
    ensures SortedBy(r, le)
    ensures multiset(r) == multiset(s)
    ensures Stable(r, s, le)
    decreases |s|
  {
    if |s| == 0 then []
    else
      var init, last := s[..|s| - 1], s[|s| - 1];
      assert s == init + [last];
      var r' := Sort(init, le);
      InsertKeepsTies(r', init, last, le);
      Insert(r', last, le)
  }

  /** Sorting elements that are all different, under an order that identifies
      no two of them, yields a strictly increasing sequence. */
  lemma SortDistinct<T(!new)>(s: seq<T>, le: (T, T) -> bool)
    requires TotalPreorder(le) && Distinct(s)
    ensures Distinct(Sort(s, le))
    ensures |Sort(s, le)| == |s|
  {
    var r := Sort(s, le);
    PermutationDistinct(r, s);
    assert |r| == |multiset(r)| == |multiset(s)| == |s|;
  }

  /** The default order of `.sort()`: character by character, a proper prefix
      first. */
  predicate StrLe(a: string, b: string)
    decreases |a|
  {
    if |a| == 0 then true
    else if |b| == 0 then false
    else if a[0] != b[0] then a[0] < b[0]
    else StrLe(a[1..], b[1..])
  }

  lemma {:induction false} StrLeTotal(a: string, b: string)
    ensures StrLe(a, b) || StrLe(b, a)
    decreases |a|
  {
    if |a| > 0 && |b| > 0 && a[0] == b[0] {
      StrLeTotal(a[1..], b[1..]);
    }
  }

  lemma {:induction false} StrLeTransitive(a: string, b: string, c: string)
    requires StrLe(a, b) && StrLe(b, c)
    ensures StrLe(a, c)
    decreases |a|
  {
    if |a| > 0 && |b| > 0 && |c| > 0 && a[0] == b[0] == c[0] {
      StrLeTransitive(a[1..], b[1..], c[1..]);
    }
  }

  lemma {:induction false} StrLeAntisymmetric(a: string, b: string)
    requires StrLe(a, b) && StrLe(b, a)
    ensures a == b
    decreases |a|
  {
    if |a| > 0 {
      StrLeAntisymmetric(a[1..], b[1..]);
      assert a == [a[0]] + a[1..] && b == [b[0]] + b[1..];
    }
  }

  lemma StrLeIsTotalPreorder()
    ensures TotalPreorder(StrLe)
  {
    forall a, b ensures StrLe(a, b) || StrLe(b, a) {
      StrLeTotal(a, b);
    }
    forall a, b, c | StrLe(a, b) && StrLe(b, c) ensures StrLe(a, c) {
      StrLeTransitive(a, b, c);
    }
  }
}
