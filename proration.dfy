/** Annual contract value: the part of each active SOW's value that falls in
    the calendar year of `now`, at a daily rate of value / total days, summed
    without rounding. */
module Proration {
  import opened Wrappers
  import opened Dates
  import opened Records
  import opened Seqs
  import opened Status

  /** The SOW's start and end midnights, when both dates are present. */
  predicate HasSpan(c: Contract) {
    c.startDate.Some? && c.endDate.Some?
  }

  function StartOf(c: Contract): int requires HasSpan(c) { Midnight(c.startDate.value) }

  function EndOf(c: Contract): int requires HasSpan(c) { Midnight(c.endDate.value) }

  /** The span [start, end] is a proper interval and meets [yearStart, yearEnd]. */
  predicate TouchesYear(c: Contract, yearStart: int, yearEnd: int) {
    && HasSpan(c)
    && StartOf(c) <= EndOf(c)
    && StartOf(c) <= yearEnd && yearStart <= EndOf(c) && yearStart <= yearEnd
  }

  /** An inclusive day count over a proper interval is at least one day, so the
      source's `totalDays <= 0` guard can never fire, and a sub-interval never
      has more days than the interval. */
  lemma DayCountBounds(s: int, e: int, os: int, oe: int)
    requires s <= os <= oe <= e
    ensures 1 <= DayCount(os, oe) <= DayCount(s, e)
  {
  }

  /** value / total * part for 1 <= part <= total keeps the sign of the value,
      never exceeds it in size, and is the whole value when part = total. */
  lemma ShareBounds(value: real, part: int, total: int)
    requires 1 <= part <= total
    ensures value > 0.0 ==> 0.0 < value / (total as real) * (part as real) <= value
    ensures value < 0.0 ==> value <= value / (total as real) * (part as real) < 0.0
    ensures part == total ==> value / (total as real) * (part as real) == value
  {
    var f := (part as real) / (total as real);
    assert 0.0 < f <= 1.0;
    assert value / (total as real) * (part as real) == value * f;
  }

  /** The arithmetic of one SOW's share once both dates are parsed: the value
      over the total days times the days inside [yearStart, yearEnd], each early
      `return` of the source contributing nothing. */
  function Share(totalValue: real, s: int, e: int, yearStart: int, yearEnd: int): (r: real)
    ensures totalValue == 0.0 || e < s ==> r == 0.0
    ensures e < yearStart || yearEnd < s ==> r == 0.0
    ensures r != 0.0 <==> totalValue != 0.0 && s <= e && s <= yearEnd && yearStart <= e && yearStart <= yearEnd
    ensures totalValue > 0.0 ==> 0.0 <= r <= totalValue
    ensures totalValue < 0.0 ==> totalValue <= r <= 0.0
    ensures yearStart <= s <= e <= yearEnd ==> r == totalValue
  {
    if totalValue == 0.0 then 0.0
    else if e < s then 0.0
    else
      var totalDays := DayCount(s, e);
      DayCountBounds(s, e, s, e);
      if totalDays <= 0 then 0.0
      else
        var dailyRate := totalValue / (totalDays as real);
        var overlapStart := if s > yearStart then s else yearStart;
        var overlapEnd := if e < yearEnd then e else yearEnd;
        if overlapEnd < overlapStart then 0.0
        else
          var daysInYear := DayCount(overlapStart, overlapEnd);
          DayCountBounds(s, e, overlapStart, overlapEnd);
          ShareBounds(totalValue, daysInYear, totalDays);
          dailyRate * (daysInYear as real)
  }

  /** One SOW's share of the annual value: the body of the `forEach` over the
      active SOWs (a missing date contributes nothing). */
  function Contribution(c: Contract, yearStart: int, yearEnd: int): (r: real)
    // the guards: a missing date, a zero value, an end before the start, or a
    // span outside the year contribute nothing
    ensures c.startDate.None? || c.endDate.None? || SowValue(c) == 0.0 ==> r == 0.0
    ensures HasSpan(c) && Before(c.endDate.value, c.startDate.value) ==> r == 0.0
    ensures HasSpan(c) && (EndOf(c) < yearStart || yearEnd < StartOf(c)) ==> r == 0.0
    // and nothing else does
    ensures r != 0.0 <==> SowValue(c) != 0.0 && TouchesYear(c, yearStart, yearEnd)
    // the share has the sign of the value and is no larger than it
    ensures SowValue(c) > 0.0 ==> 0.0 <= r <= SowValue(c)
    ensures SowValue(c) < 0.0 ==> SowValue(c) <= r <= 0.0
    // a span inside the year contributes the whole value
    ensures HasSpan(c) && yearStart <= StartOf(c) <= EndOf(c) <= yearEnd ==> r == SowValue(c)
  {
    var startDate := ParseDate(c.startDate);
    var endDate := ParseDate(c.endDate);
    if startDate.None? || endDate.None? then 0.0
    else
      MidnightOrder(c.endDate.value, c.startDate.value);
      Share(SowValue(c), startDate.value, endDate.value, yearStart, yearEnd)
  }

  /** Once a span is prorated at all, its share is the whole value exactly when
      it lies inside the year, provided all four bounds are midnights. */
  lemma ShareFullIffInside(v: real, s: int, e: int, yearStart: int, yearEnd: int)
    requires v != 0.0 && s <= e && s <= yearEnd && yearStart <= e && yearStart <= yearEnd
    requires s % MsPerDay == 0 && e % MsPerDay == 0
    requires yearStart % MsPerDay == 0 && yearEnd % MsPerDay == 0
    ensures Share(v, s, e, yearStart, yearEnd) == v <==> yearStart <= s && e <= yearEnd
  {
    var os := if s > yearStart then s else yearStart;
    var oe := if e < yearEnd then e else yearEnd;
    var total, part := DayCount(s, e), DayCount(os, oe);
    DayCountBounds(s, e, os, oe);
    assert Share(v, s, e, yearStart, yearEnd) == v / (total as real) * (part as real);
    if !(yearStart <= s && e <= yearEnd) {
      AlignedDayCountStrict(s, e, os, oe);
      ShareBelowWhole(v, part, total);
    }
  }

  /** Between midnights, an interval strictly inside another is at least a day
      shorter. */
  lemma AlignedDayCountStrict(s: int, e: int, os: int, oe: int)
    requires s <= os <= oe <= e && (s < os || oe < e)
    requires s % MsPerDay == 0 && e % MsPerDay == 0 && os % MsPerDay == 0 && oe % MsPerDay == 0
    ensures DayCount(os, oe) < DayCount(s, e)
  {
    var sd, ed, osd, oed := s / MsPerDay, e / MsPerDay, os / MsPerDay, oe / MsPerDay;
    assert s == sd * MsPerDay && e == ed * MsPerDay;
    assert os == osd * MsPerDay && oe == oed * MsPerDay;
    assert e - s == (ed - sd) * MsPerDay;
    assert oe - os == (oed - osd) * MsPerDay;
  }

  lemma ShareBelowWhole(v: real, part: int, total: int)
    requires v != 0.0 && 1 <= part < total
    ensures v / (total as real) * (part as real) != v
  {
    var f := (part as real) / (total as real);
    assert f < 1.0;
    assert v / (total as real) * (part as real) == v * f;
  }

  /** For a SOW that is prorated at all, with the bounds of a calendar year, the
      share is the whole value exactly when its span lies inside that year. */
  lemma FullValueIffInsideYear(c: Contract, y: int)
    requires SowValue(c) != 0.0 && TouchesYear(c, YearStart(y), YearEnd(y))
    ensures Contribution(c, YearStart(y), YearEnd(y)) == SowValue(c) <==> YearStart(y) <= StartOf(c) && EndOf(c) <= YearEnd(y)
  {
    WholeDays(DayNumber(c.startDate.value));
    WholeDays(DayNumber(c.endDate.value));
    WholeDays(DaysBeforeYear(y));
    WholeDays(DaysBeforeYear(y + 1) - 1);
    assert Contribution(c, YearStart(y), YearEnd(y)) == Share(SowValue(c), StartOf(c), EndOf(c), YearStart(y), YearEnd(y));
    ShareFullIffInside(SowValue(c), StartOf(c), EndOf(c), YearStart(y), YearEnd(y));
  }

  lemma WholeDays(n: int)
    ensures (n * MsPerDay) % MsPerDay == 0
  {
  }

  /** The contributions of cs added up in order, from 0. */
  function ProratedSum(cs: seq<Contract>, yearStart: int, yearEnd: int): real
    decreases |cs|
  {
    if |cs| == 0 then 0.0
    else ProratedSum(cs[..|cs| - 1], yearStart, yearEnd) + Contribution(cs[|cs| - 1], yearStart, yearEnd)
  }

  lemma ProratedSumSnoc(cs: seq<Contract>, c: Contract, yearStart: int, yearEnd: int)
    ensures ProratedSum(cs + [c], yearStart, yearEnd) == ProratedSum(cs, yearStart, yearEnd) + Contribution(c, yearStart, yearEnd)
  {
    assert (cs + [c])[..|cs + [c]| - 1] == cs;
  }

  /** The annual contract value metric: the prorated sum over exactly the SOWs
      still active at `now`, within the calendar year of `now`. */
  function AnnualValue(cs: seq<Contract>, now: int): real {
    var y := YearOf(now);
    ProratedSum(ActiveContracts(cs, now), YearStart(y), YearEnd(y))
  }

  /** `renderExecutiveSummary`'s accumulation of `annualValue` over the active
      SOWs. */
  method AnnualContractValue(contracts: seq<Contract>, now: int) returns (annualValue: real)
    ensures annualValue == AnnualValue(contracts, now)
  {
    var currentYear := YearOf(now);
    var yearStart := YearStart(currentYear);
    var yearEnd := YearEnd(currentYear);
    var activeContracts := ActiveContracts(contracts, now);
    annualValue := 0.0;
    for i := 0 to |activeContracts|
      invariant annualValue == ProratedSum(activeContracts[..i], yearStart, yearEnd)
    {
      var amount := Contribution(activeContracts[i], yearStart, yearEnd);
      assert activeContracts[..i + 1] == activeContracts[..i] + [activeContracts[i]];
      ProratedSumSnoc(activeContracts[..i], activeContracts[i], yearStart, yearEnd);
      annualValue := annualValue + amount;
    }
    assert activeContracts[..|activeContracts|] == activeContracts;
  }

  /** Active-only: a SOW still active at `now` adds its share, and a SOW that
      has ended adds nothing, however much of its span lay in the year. */
  lemma AnnualValueSnoc(cs: seq<Contract>, c: Contract, now: int)
    ensures IsActiveContract(c, now) ==>
      AnnualValue(cs + [c], now) == AnnualValue(cs, now) + Contribution(c, YearStart(YearOf(now)), YearEnd(YearOf(now)))
    ensures !IsActiveContract(c, now) ==> AnnualValue(cs + [c], now) == AnnualValue(cs, now)
  {
    var y := YearOf(now);
    FilterSnoc(cs, c, c' => IsActiveContract(c', now));
    ProratedSumSnoc(ActiveContracts(cs, now), c, YearStart(y), YearEnd(y));
  }

  /** `parseFloat(c.sow_value_gbp || 0)` added up over cs. */
  function TotalSowValue(cs: seq<Contract>): real
    decreases |cs|
  {
    if |cs| == 0 then 0.0 else TotalSowValue(cs[..|cs| - 1]) + SowValue(cs[|cs| - 1])
  }

  /** With no negative values, the annual value lies between 0 and the total
      value of the active SOWs. */
  lemma {:induction false} ProratedSumBounded(cs: seq<Contract>, yearStart: int, yearEnd: int)
    requires forall i :: 0 <= i < |cs| ==> SowValue(cs[i]) >= 0.0
    ensures 0.0 <= ProratedSum(cs, yearStart, yearEnd) <= TotalSowValue(cs)
    decreases |cs|
  {
    if |cs| > 0 {
      ProratedSumBounded(cs[..|cs| - 1], yearStart, yearEnd);
    }
  }

  lemma AnnualValueBounded(cs: seq<Contract>, now: int)
    requires forall i :: 0 <= i < |cs| ==> SowValue(cs[i]) >= 0.0
    ensures 0.0 <= AnnualValue(cs, now) <= TotalSowValue(ActiveContracts(cs, now))
  {
    var active := ActiveContracts(cs, now);
    assert forall i :: 0 <= i < |active| ==> active[i] in cs;
    var y := YearOf(now);
    ProratedSumBounded(active, YearStart(y), YearEnd(y));
  }

  /** A SOW worth 1200 running from 01/01/2024 to 31/12/2024. */
  function Example2024(): Contract {
    Contract("c1", Some("Acme"), None, None, Some(1200.0),
      Some(CivilDate(1, 1, 2024)), Some(CivilDate(31, 12, 2024)), None)
  }

  /** Seen during 2024 up to the midnight starting 31 December, the whole 1200
      counts. From that midnight on the SOW has ended (`endDate >= now` fails),
      so the metric is 0 for the rest of 31 December 2024 and throughout 2025,
      although the span covered the whole of 2024. */
  lemma ExampleYears(now: int)
    ensures YearStart(2024) <= now <= YearEnd(2024) ==> AnnualValue([Example2024()], now) == 1200.0
    ensures YearEnd(2024) < now < YearStart(2025) ==> AnnualValue([Example2024()], now) == 0.0
    ensures YearStart(2025) <= now <= YearEnd(2025) ==> AnnualValue([Example2024()], now) == 0.0
  {
    var c := Example2024();
    YearBoundsAreMidnights(2024);
    YearBoundsAreMidnights(2025);
    NextYear(2024);
    AnnualValueSnoc([], c, now);
    assert [] + [c] == [c];
    if YearStart(2024) <= now <= YearEnd(2024) {
      YearOfWithin(now, 2024);
    } else if YearStart(2025) <= now <= YearEnd(2025) {
      YearOfWithin(now, 2025);
    }
  }
}
