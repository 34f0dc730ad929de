/** The audit tab: the changes of the last seven days, newest first, at most
    fifty of them. Timestamps arrive already turned into instants (ms); a
    record whose timestamp does not parse compares false and is dropped. */
module Audit {
  import opened Wrappers
  import opened Records
  import opened Seqs
  import opened Sorting

  /** `7 * 24 * 60 * 60 * 1000`. */
  const WeekMs: int := 7 * 24 * 60 * 60 * 1000

  /** `.slice(0, 50)`. */
  const AuditLimit: nat := 50

  /** `new Date(a.timestamp) > weekAgo`, strictly. */
  predicate IsRecent(a: AuditRecord, now: int) {
    a.timestamp.Some? && a.timestamp.value > now - WeekMs
  }

  function Recent(records: seq<AuditRecord>, now: int): seq<AuditRecord> {
    Filter(records, (a: AuditRecord) => IsRecent(a, now))
  }

  function TimeOf(a: AuditRecord): int {
    a.timestamp.GetOr(0)
  }

  /** The comparator `new Date(b.timestamp) - new Date(a.timestamp)` as "sorts
      no later than": a is at least as recent as b. */
  predicate NewerOrSame(a: AuditRecord, b: AuditRecord) {
    TimeOf(a) >= TimeOf(b)
  }

  function Min(a: int, b: int): int {
    if a <= b then a else b
  }

  /** The records with the same timestamp as z. */
  function SameTime(z: AuditRecord): AuditRecord -> bool {
    (y: AuditRecord) => TimeOf(y) == TimeOf(z)
  }

  /** The recent records, newest first (`.sort((a, b) => new Date(b.timestamp)
      - new Date(a.timestamp))`): the same records, each at least as recent as
      the ones after it, and records with equal timestamps in input order. */
  function NewestFirst(recent: seq<AuditRecord>): (r: seq<AuditRecord>)
    ensures SortedBy(r, NewerOrSame)
    ensures multiset(r) == multiset(recent)
    ensures |r| == |recent|
    ensures forall z :: Filter(r, SameTime(z)) == Filter(recent, SameTime(z))
  {
    assert TotalPreorder(NewerOrSame);
    var r := Sort(recent, NewerOrSame);
    assert |multiset(r)| == |multiset(recent)|;
    SameTimeIsTied(r, recent);
    r
  }

  /** `recentAudits`: the recent records, newest first, cut off after fifty.
      Exactly min(50, #recent) records are kept, newest first, all of them
      recent and taken from the input. */
  function RecentAudits(records: seq<AuditRecord>, now: int): (r: seq<AuditRecord>)
    ensures |r| == Min(AuditLimit, |Recent(records, now)|)
    ensures forall i :: 0 <= i < |r| ==> IsRecent(r[i], now) && r[i] in records
    ensures forall i, j :: 0 <= i < j < |r| ==> TimeOf(r[i]) >= TimeOf(r[j])
  {
    var sorted := NewestFirst(Recent(records, now));
    var n := Min(AuditLimit, |sorted|);
    KeptAreRecent(records, now, sorted, n);
    sorted[..n]
  }

  /** The cut keeps the newest: the kept records are recent records (counted
      with multiplicity); when a copy of a record is dropped, every record kept
      is at least as recent as it; and with at most fifty recent records
      nothing is dropped. */
  lemma RecentAuditsKeepNewest(records: seq<AuditRecord>, now: int)
    ensures multiset(RecentAudits(records, now)) <= multiset(Recent(records, now))
    ensures forall y :: multiset(RecentAudits(records, now))[y] < multiset(Recent(records, now))[y] ==>
      forall i :: 0 <= i < |RecentAudits(records, now)| ==> TimeOf(RecentAudits(records, now)[i]) >= TimeOf(y)
    ensures |Recent(records, now)| <= AuditLimit ==> multiset(RecentAudits(records, now)) == multiset(Recent(records, now))
  {
    var sorted := NewestFirst(Recent(records, now));
    var n := Min(AuditLimit, |sorted|);
    TopKept(sorted, n);
    assert RecentAudits(records, now) == sorted[..n];
  }

  lemma SameTimeIsTied(r: seq<AuditRecord>, recent: seq<AuditRecord>)
    requires Stable(r, recent, NewerOrSame)
    ensures forall z :: Filter(r, SameTime(z)) == Filter(recent, SameTime(z))
  {
    forall z ensures Filter(r, SameTime(z)) == Filter(recent, SameTime(z)) {
      assert Filter(r, Tied(NewerOrSame, z)) == Filter(recent, Tied(NewerOrSame, z));
      forall y ensures Tied(NewerOrSame, z)(y) == SameTime(z)(y) {
        assert Tied(NewerOrSame, z)(y) == (NewerOrSame(y, z) && NewerOrSame(z, y));
      }
      FilterCongruent(r, Tied(NewerOrSame, z), SameTime(z));
      FilterCongruent(recent, Tied(NewerOrSame, z), SameTime(z));
    }
  }

  /** Among recent records sharing a timestamp, the ones shown are the first
      ones in input order: when the cut after fifty falls inside a group of
      equal timestamps, the earlier records of that group are kept. */
  lemma TiesKeepInputOrder(records: seq<AuditRecord>, now: int, z: AuditRecord)
    ensures Filter(RecentAudits(records, now), SameTime(z)) <= Filter(Recent(records, now), SameTime(z))
  {
    var sorted := NewestFirst(Recent(records, now));
    var n := Min(AuditLimit, |sorted|);
    assert RecentAudits(records, now) == sorted[..n];
    assert sorted == sorted[..n] + sorted[n..];
    FilterAppend(sorted[..n], sorted[n..], SameTime(z));
    var kept := Filter(sorted[..n], SameTime(z));
    assert (kept + Filter(sorted[n..], SameTime(z)))[..|kept|] == kept;
  }

  /** A prefix of the sorted recent records is newest first, and every record
      in it is recent and comes from the input. */
  lemma KeptAreRecent(records: seq<AuditRecord>, now: int, sorted: seq<AuditRecord>, n: int)
    requires multiset(sorted) == multiset(Recent(records, now)) && SortedBy(sorted, NewerOrSame)
    requires 0 <= n <= |sorted|
    ensures |sorted[..n]| == n
    ensures forall i :: 0 <= i < n ==> IsRecent(sorted[..n][i], now) && sorted[..n][i] in records
    ensures forall i, j :: 0 <= i < j < n ==> TimeOf(sorted[..n][i]) >= TimeOf(sorted[..n][j])
  {
    forall i | 0 <= i < n ensures IsRecent(sorted[..n][i], now) && sorted[..n][i] in records {
      assert sorted[..n][i] == sorted[i];
      assert sorted[i] in multiset(sorted);
      assert sorted[i] in Recent(records, now);
    }
  }

  /** Cutting a newest-first sequence after n keeps records at least as
      recent as every one it drops, and keeps them in order. */
  lemma TopKept(sorted: seq<AuditRecord>, n: int)
    requires SortedBy(sorted, NewerOrSame)
    requires 0 <= n <= |sorted|
    ensures multiset(sorted) == multiset(sorted[..n]) + multiset(sorted[n..])
    ensures forall i, j :: 0 <= i < j < n ==> TimeOf(sorted[i]) >= TimeOf(sorted[j])
    ensures forall y :: multiset(sorted[..n])[y] < multiset(sorted)[y] ==>
      forall i :: 0 <= i < n ==> TimeOf(sorted[i]) >= TimeOf(y)
  {
    assert sorted == sorted[..n] + sorted[n..];
    forall y | multiset(sorted[..n])[y] < multiset(sorted)[y]
      ensures forall i :: 0 <= i < n ==> TimeOf(sorted[i]) >= TimeOf(y)
    {
      assert y in multiset(sorted[n..]);
      var j :| 0 <= j < |sorted[n..]| && sorted[n..][j] == y;
      assert sorted[n + j] == y;
    }
  }

  /** The window is open at its far end: a change exactly seven days old is
      no longer shown, one a millisecond younger still is; a timestamp that
      does not parse is never shown. */
  lemma WindowEdges(now: int, tableName: Option<string>)
    ensures !IsRecent(AuditRecord(Some(now - WeekMs), tableName, None, None), now)
    ensures IsRecent(AuditRecord(Some(now - WeekMs + 1), tableName, None, None), now)
    ensures !IsRecent(AuditRecord(None, tableName, None, None), now)
    ensures WeekMs == 604800000
  {
  }
}
