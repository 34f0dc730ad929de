/** The monthly summary of the SOW tab: SOWs grouped by the month their start
    date falls in, newest month first, and the total value of all SOWs. */
module Monthly {
  import opened Wrappers
  import opened Dates
  import opened Records
  import opened Seqs
  import opened Grouping
  import opened Sorting
  import opened Proration

  /** `${getFullYear()}-${getMonth()}`: a year and a zero-based month. */
  datatype MonthKey = MonthKey(year: int, month: int)

  predicate HasStartDate(c: Contract) {
    c.startDate.Some?
  }

  /** The SOWs the summary groups: those with a start date, in input order. */
  function Dated(cs: seq<Contract>): seq<Contract> {
    Filter(cs, HasStartDate)
  }

  /** The month of the start date (`getMonth()` counts from 0). Only applied
      to SOWs with a start date; the value for the others is never used. */
  function StartMonth(c: Contract): MonthKey {
    match c.startDate
    case Some(d) => MonthKey(d.year, d.month - 1)
    case None => MonthKey(0, 0)
  }

  /** `{ year, month, contracts }`, one entry of `monthYearMap`. */
  datatype MonthBucket = MonthBucket(year: int, month: int, contracts: seq<Contract>)

  function BucketKey(b: MonthBucket): MonthKey {
    MonthKey(b.year, b.month)
  }

  function BucketKeys(r: seq<MonthBucket>): seq<MonthKey> {
    seq(|r|, i requires 0 <= i < |r| => BucketKey(r[i]))
  }

  /** The comparator `b.year - a.year`, then `b.month - a.month`, as "sorts no
      later than": a newer or the same month. */
  predicate NewerOrSame(a: MonthBucket, b: MonthBucket) {
    a.year > b.year || (a.year == b.year && a.month >= b.month)
  }

  lemma NewerOrSameIsTotalPreorder()
    ensures TotalPreorder(NewerOrSame)
  {
  }

  /** r is the monthly summary of cs: months strictly newest first, exactly the
      months some dated SOW starts in, each with its SOWs in input order. */
  ghost predicate IsMonthlySummary(cs: seq<Contract>, r: seq<MonthBucket>) {
    && (forall i, j :: 0 <= i < j < |r| ==>
          r[i].year > r[j].year || (r[i].year == r[j].year && r[i].month > r[j].month))
    && (forall k :: k in BucketKeys(r) <==> |KeyFilter(Dated(cs), StartMonth, k)| > 0)
    && (forall i :: 0 <= i < |r| ==> r[i].contracts == KeyFilter(Dated(cs), StartMonth, BucketKey(r[i])))
  }

  /** The table `monthYearMap` holds after the `forEach` has visited cs: a SOW
      without a start date is skipped, and any other is pushed onto the entry
      of its start month, created empty on first use. */
  function MonthYearMap(cs: seq<Contract>): map<MonthKey, MonthBucket>
    decreases |cs|
  {
    if |cs| == 0 then map[]
    else
      var t := MonthYearMap(cs[..|cs| - 1]);
      var c := cs[|cs| - 1];
      match c.startDate
      case None => t
      case Some(d) => AddToMonth(t, MonthKey(d.year, d.month - 1), c)
  }

  /** `if (!t[k]) t[k] = { year, month, contracts: [] }; t[k].contracts.push(c)`. */
  function AddToMonth(t: map<MonthKey, MonthBucket>, k: MonthKey, c: Contract): map<MonthKey, MonthBucket> {
    var b := if k in t then t[k] else MonthBucket(k.year, k.month, []);
    t[k := b.(contracts := b.contracts + [c])]
  }

  lemma MonthYearMapSnoc(init: seq<Contract>, c: Contract)
    ensures MonthYearMap(init + [c]) ==
      if c.startDate.Some? then AddToMonth(MonthYearMap(init), StartMonth(c), c) else MonthYearMap(init)
  {
    assert (init + [c])[..|init + [c]| - 1] == init;
  }

  /** The table has an entry exactly for the months some dated SOW starts in,
      and each entry holds those SOWs in input order. */
  ghost predicate GroupedByMonth(cs: seq<Contract>, k: MonthKey) {
    && (k in MonthYearMap(cs) <==> |KeyFilter(Dated(cs), StartMonth, k)| > 0)
    && (k in MonthYearMap(cs) ==>
          MonthYearMap(cs)[k] == MonthBucket(k.year, k.month, KeyFilter(Dated(cs), StartMonth, k)))
  }

  lemma {:induction false} MonthYearMapIsGrouping(cs: seq<Contract>, k: MonthKey)
    ensures GroupedByMonth(cs, k)
    decreases |cs|
  {
    if |cs| > 0 {
      var init, c := cs[..|cs| - 1], cs[|cs| - 1];
      assert cs == init + [c];
      MonthYearMapIsGrouping(init, k);
      if c.startDate.Some? {
        DatedSnocStep(init, c, k);
      } else {
        UndatedSnocStep(init, c, k);
      }
    }
  }

  lemma DatedSnocStep(init: seq<Contract>, c: Contract, k: MonthKey)
    requires GroupedByMonth(init, k) && c.startDate.Some?
    ensures GroupedByMonth(init + [c], k)
  {
    var cs := init + [c];
    MonthYearMapSnoc(init, c);
    FilterSnoc(init, c, HasStartDate);
    var dated := Dated(init);
    assert Dated(cs) == dated + [c];
    KeyFilterSnoc(dated, c, StartMonth, k);
    if StartMonth(c) == k {
      assert |KeyFilter(Dated(cs), StartMonth, k)| > 0;
    }
  }

  lemma UndatedSnocStep(init: seq<Contract>, c: Contract, k: MonthKey)
    requires GroupedByMonth(init, k) && c.startDate.None?
    ensures GroupedByMonth(init + [c], k)
  {
    MonthYearMapSnoc(init, c);
    FilterSnoc(init, c, HasStartDate);
  }

  /** The `forEach` filling `monthYearMap`; `keys` lists its keys in insertion
      order. */
  method FillMonthYearMap(contracts: seq<Contract>) returns (monthYearMap: map<MonthKey, MonthBucket>, keys: seq<MonthKey>)
    ensures monthYearMap == MonthYearMap(contracts)
    ensures Distinct(keys) && forall k :: k in keys <==> k in monthYearMap
  {
    monthYearMap, keys := map[], [];
    for i := 0 to |contracts|
      invariant monthYearMap == MonthYearMap(contracts[..i])
      invariant Distinct(keys) && forall k :: k in keys <==> k in monthYearMap
    {
      var contract := contracts[i];
      assert contracts[..i + 1][..i] == contracts[..i];
      match contract.startDate
      case None =>
      case Some(startDate) =>
        var key := MonthKey(startDate.year, startDate.month - 1);
        if key !in monthYearMap {
          DistinctSnoc(keys, key);
          keys := keys + [key];
          monthYearMap := monthYearMap[key := MonthBucket(startDate.year, startDate.month - 1, [])];
        }
        var bucket := monthYearMap[key];
        monthYearMap := monthYearMap[key := bucket.(contracts := bucket.contracts + [contract])];
    }
    assert contracts[..|contracts|] == contracts;
  }

  /** `Object.values(monthYearMap).sort(...)`: the month buckets, newest first. */
  method MonthlySummary(contracts: seq<Contract>) returns (sortedMonths: seq<MonthBucket>)
    ensures IsMonthlySummary(contracts, sortedMonths)
  {
    var monthYearMap, keys := FillMonthYearMap(contracts);
    var buckets := seq(|keys|, j requires 0 <= j < |keys| => monthYearMap[keys[j]]);
    NewerOrSameIsTotalPreorder();
    sortedMonths := Sort(buckets, NewerOrSame);
    SortedBucketsSummarize(contracts, keys, buckets, sortedMonths);
  }

  /** Sorting the values of the filled table gives the summary. */
  lemma SortedBucketsSummarize(cs: seq<Contract>, keys: seq<MonthKey>, buckets: seq<MonthBucket>, r: seq<MonthBucket>)
    requires Distinct(keys) && forall k :: k in keys <==> k in MonthYearMap(cs)
    requires |buckets| == |keys| && forall j :: 0 <= j < |keys| ==> buckets[j] == MonthYearMap(cs)[keys[j]]
    requires multiset(r) == multiset(buckets) && SortedBy(r, NewerOrSame)
    ensures IsMonthlySummary(cs, r)
  {
    BucketsAreEntries(cs, keys, buckets, r);
    SortedBucketsOrder(cs, keys, buckets, r);
    SortedBucketsCover(cs, keys, buckets, r);
    forall i | 0 <= i < |r| ensures r[i].contracts == KeyFilter(Dated(cs), StartMonth, BucketKey(r[i])) {
      MonthYearMapIsGrouping(cs, BucketKey(r[i]));
    }
  }

  /** Each bucket is the table's entry under its own month, and the sorted
      buckets are the same buckets. */
  lemma BucketsAreEntries(cs: seq<Contract>, keys: seq<MonthKey>, buckets: seq<MonthBucket>, r: seq<MonthBucket>)
    requires forall k :: k in keys <==> k in MonthYearMap(cs)
    requires |buckets| == |keys| && forall j :: 0 <= j < |keys| ==> buckets[j] == MonthYearMap(cs)[keys[j]]
    requires multiset(r) == multiset(buckets)
    ensures forall j :: 0 <= j < |keys| ==> BucketKey(buckets[j]) == keys[j]
    ensures forall b :: b in buckets ==> BucketKey(b) in MonthYearMap(cs) && MonthYearMap(cs)[BucketKey(b)] == b
    ensures forall b :: b in r <==> b in buckets
  {
    forall j | 0 <= j < |keys| ensures BucketKey(buckets[j]) == keys[j] {
      MonthYearMapIsGrouping(cs, keys[j]);
    }
    forall b ensures b in r <==> b in buckets {
      assert b in r <==> b in multiset(r);
      assert b in buckets <==> b in multiset(buckets);
    }
  }

  /** Sorted newest first, buckets of different months come out strictly
      newest first. */
  lemma SortedBucketsOrder(cs: seq<Contract>, keys: seq<MonthKey>, buckets: seq<MonthBucket>, r: seq<MonthBucket>)
    requires Distinct(keys)
    requires |buckets| == |keys| && forall j :: 0 <= j < |keys| ==> BucketKey(buckets[j]) == keys[j]
    requires forall b :: b in buckets ==> BucketKey(b) in MonthYearMap(cs) && MonthYearMap(cs)[BucketKey(b)] == b
    requires forall b :: b in r <==> b in buckets
    requires multiset(r) == multiset(buckets) && SortedBy(r, NewerOrSame)
    ensures forall i, j :: 0 <= i < j < |r| ==>
      r[i].year > r[j].year || (r[i].year == r[j].year && r[i].month > r[j].month)
  {
    var t := MonthYearMap(cs);
    forall i, j | 0 <= i < j < |r|
      ensures r[i].year > r[j].year || (r[i].year == r[j].year && r[i].month > r[j].month)
    {
      assert NewerOrSame(r[i], r[j]);
      if BucketKey(r[i]) == BucketKey(r[j]) {
        assert r[i] == t[BucketKey(r[i])] == r[j];
        NoRepeatInSortedValues(keys, buckets, r, i, j);
      }
    }
  }

  /** The sorted buckets have a month exactly when some dated SOW starts in it. */
  lemma SortedBucketsCover(cs: seq<Contract>, keys: seq<MonthKey>, buckets: seq<MonthBucket>, r: seq<MonthBucket>)
    requires forall k :: k in keys <==> k in MonthYearMap(cs)
    requires |buckets| == |keys| && forall j :: 0 <= j < |keys| ==> BucketKey(buckets[j]) == keys[j]
    requires forall b :: b in buckets ==> BucketKey(b) in MonthYearMap(cs) && MonthYearMap(cs)[BucketKey(b)] == b
    requires forall b :: b in r <==> b in buckets
    ensures forall k :: k in BucketKeys(r) <==> |KeyFilter(Dated(cs), StartMonth, k)| > 0
  {
    var t := MonthYearMap(cs);
    forall k ensures k in BucketKeys(r) <==> |KeyFilter(Dated(cs), StartMonth, k)| > 0 {
      MonthYearMapIsGrouping(cs, k);
      if k in t {
        var j :| 0 <= j < |keys| && keys[j] == k;
        assert buckets[j] in r;
        var i :| 0 <= i < |r| && r[i] == buckets[j];
        assert BucketKeys(r)[i] == k;
      }
    }
  }

  /** The values of a table under distinct keys hold no repetition, and
      neither does any rearrangement of them. */
  lemma NoRepeatInSortedValues(keys: seq<MonthKey>, buckets: seq<MonthBucket>, r: seq<MonthBucket>, i: int, j: int)
    requires Distinct(keys)
    requires |buckets| == |keys| && forall n :: 0 <= n < |keys| ==> BucketKey(buckets[n]) == keys[n]
    requires multiset(r) == multiset(buckets)
    requires 0 <= i < j < |r|
    ensures r[i] != r[j]
  {
    assert Distinct(buckets) by {
      forall m, n | 0 <= m < n < |buckets| ensures buckets[m] != buckets[n] {
        assert BucketKey(buckets[m]) != BucketKey(buckets[n]);
      }
    }
    PermutationDistinct(r, buckets);
  }

  /** The bucket sizes added up. */
  function BucketTotal(r: seq<MonthBucket>): nat
    decreases |r|
  {
    if |r| == 0 then 0 else BucketTotal(r[..|r| - 1]) + |r[|r| - 1].contracts|
  }

  lemma {:induction false} BucketTotalIsGroupSizes(cs: seq<Contract>, r: seq<MonthBucket>)
    requires forall i :: 0 <= i < |r| ==> r[i].contracts == KeyFilter(cs, StartMonth, BucketKey(r[i]))
    ensures BucketTotal(r) == SumGroupSizes(cs, StartMonth, BucketKeys(r))
    decreases |r|
  {
    if |r| > 0 {
      var init := r[..|r| - 1];
      assert BucketKeys(r)[..|r| - 1] == BucketKeys(init);
      BucketTotalIsGroupSizes(cs, init);
    }
  }

  /** The buckets together hold exactly the SOWs with a start date: the others
      are skipped and none is counted twice. */
  lemma MonthlyPartition(cs: seq<Contract>, r: seq<MonthBucket>)
    requires IsMonthlySummary(cs, r)
    ensures BucketTotal(r) == |Dated(cs)|
  {
    var dated := Dated(cs);
    BucketTotalIsGroupSizes(dated, r);
    var keys := BucketKeys(r);
    assert Distinct(keys) by {
      forall i, j | 0 <= i < j < |keys| ensures keys[i] != keys[j] {
        assert r[i].year > r[j].year || r[i].month > r[j].month;
      }
    }
    forall i | 0 <= i < |dated| ensures StartMonth(dated[i]) in keys {
      assert dated[i] in KeyFilter(dated, StartMonth, StartMonth(dated[i]));
    }
    GroupsPartition(dated, StartMonth, keys);
  }

  /** A SOW with a start date is in the bucket of its start month and in no
      other; a SOW without one is in none. */
  lemma BucketOfContract(cs: seq<Contract>, r: seq<MonthBucket>, c: Contract)
    requires IsMonthlySummary(cs, r) && c in cs
    ensures c.startDate.Some? ==> exists i :: 0 <= i < |r| && c in r[i].contracts
    ensures forall i :: 0 <= i < |r| ==> (c in r[i].contracts <==> c.startDate.Some? && BucketKey(r[i]) == StartMonth(c))
  {
    if c.startDate.Some? {
      var k := StartMonth(c);
      assert c in KeyFilter(Dated(cs), StartMonth, k);
      assert k in BucketKeys(r);
      var i :| 0 <= i < |r| && BucketKeys(r)[i] == k;
      assert c in r[i].contracts;
    }
  }

  /** `totalValue += parseFloat(c.sow_value_gbp || 0)` over all SOWs. */
  method TotalValue(contracts: seq<Contract>) returns (totalValue: real)
    ensures totalValue == TotalSowValue(contracts)
  {
    totalValue := 0.0;
    for i := 0 to |contracts|
      invariant totalValue == TotalSowValue(contracts[..i])
    {
      assert contracts[..i + 1][..i] == contracts[..i];
      totalValue := totalValue + SowValue(contracts[i]);
    }
    assert contracts[..|contracts|] == contracts;
  }

  /** The headline total covers every SOW, also those left out of the monthly
      buckets for want of a start date. */
  lemma {:induction false} TotalValueSplitsByStartDate(cs: seq<Contract>)
    ensures TotalSowValue(cs) == TotalSowValue(Dated(cs)) + TotalSowValue(Filter(cs, (c: Contract) => c.startDate.None?))
    decreases |cs|
  {
    if |cs| > 0 {
      var init, last := cs[..|cs| - 1], cs[|cs| - 1];
      assert cs == init + [last];
      TotalValueSplitsByStartDate(init);
      FilterSnoc(init, last, HasStartDate);
      FilterSnoc(init, last, (c: Contract) => c.startDate.None?);
      var d := Dated(init);
      var u := Filter(init, (c: Contract) => c.startDate.None?);
      assert (d + [last])[..|d|] == d;
      assert (u + [last])[..|u|] == u;
    }
  }
}
